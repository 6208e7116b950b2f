/** Writing RTCP packages into one buffer, and reading and counting them (RFC 3550 section 6). */
module RtcpHandler {
  import opened Words
  import opened Wrappers
  import opened RtcpFormat
  import opened RtcpRoundTrip
  import opened RtcpCompound
  import opened RtcpMessages
  import opened RtcpSends
  import opened RtcpRuns

  class RtcpPackageHandler {
    const buffer: array<Byte>

    ghost predicate Valid()
      reads this
    {
      buffer.Length == BUFFER_SIZE
    }

    constructor ()
      ensures Valid() && fresh(buffer) && buffer.Length == 8000 && forall i | 0 <= i < 8000 :: buffer[i] == 0
    {
      buffer := new Byte[BUFFER_SIZE](_ => 0);
    }

    method Copy(at: nat, bytes: seq<Byte>)
      requires at + |bytes| <= buffer.Length
      modifies buffer
      ensures buffer[..] == Overwrite(old(buffer[..]), at, bytes)
    {
      forall i | 0 <= i < |bytes| {
        buffer[at + i] := bytes[i];
      }
    }

    method CopyReports(at: nat, reports: seq<ReceptionReport>)
      requires at + 24 * |reports| <= buffer.Length
      modifies buffer
      ensures buffer[..] == Overwrite(old(buffer[..]), at, ReportsBytes(reports))
    {
      ghost var before := buffer[..];
      for i := 0 to |reports|
        invariant buffer[..] == Overwrite(before, at, ReportsBytes(reports[..i]))
      {
        OverwriteReport(before, at, reports, i);
        Copy(at + 24 * i, reports[i].data);
      }
      assert reports[..|reports|] == reports;
    }

    method CreateSenderReport(header: Header, info: SenderInformation, reports: seq<ReceptionReport>, offset: nat)
      returns (h: Header)
      requires Valid() && offset + HEADER_SIZE + SENDER_INFO_SIZE + 24 * |reports| <= buffer.Length
      modifies buffer
      ensures h == SenderReportHeader(header, |reports|)
      ensures buffer[..] == Overwrite(old(buffer[..]), offset, SenderReportBytes(h, info, reports))
      ensures buffer[offset] / 64 == header.Version() && buffer[offset + 1] == 200
    {
      hide Overwrite, LengthField;
      h := header.SetType(SENDER_REPORT);
      h := h.SetCount(|reports|);
      h := h.SetLength(LengthField(HEADER_SIZE + SENDER_INFO_SIZE + 24 * |reports|));
      Copy(offset, h.Bytes());
      Copy(offset + HEADER_SIZE, info.data);
      CopyReports(offset + HEADER_SIZE + SENDER_INFO_SIZE, reports);
      OverwriteNext(old(buffer[..]), offset, h.Bytes(), info.data);
      OverwriteNext(old(buffer[..]), offset, h.Bytes() + info.data, ReportsBytes(reports));
      FirstBytes(old(buffer[..]), offset, SenderReportBytes(h, info, reports), h);
      VersionKept(header, |reports|);
    }

    method CreateReceiverReport(header: Header, reports: seq<ReceptionReport>, offset: nat) returns (h: Header)
      requires Valid() && offset + HEADER_SIZE + 24 * |reports| <= buffer.Length
      modifies buffer
      ensures h == ReceiverReportHeader(header, |reports|)
      ensures buffer[..] == Overwrite(old(buffer[..]), offset, ReceiverReportBytes(h, reports))
      ensures buffer[offset] / 64 == header.Version() && buffer[offset + 1] == 201
    {
      hide Overwrite, LengthField;
      h := header.SetType(RECEIVER_REPORT);
      h := h.SetCount(|reports|);
      h := h.SetLength(LengthField(HEADER_SIZE + 24 * |reports|));
      Copy(offset, h.Bytes());
      CopyReports(offset + HEADER_SIZE, reports);
      OverwriteNext(old(buffer[..]), offset, h.Bytes(), ReportsBytes(reports));
      FirstBytes(old(buffer[..]), offset, ReceiverReportBytes(h, reports), h);
      VersionKept(header, |reports|);
    }

    /** The zeros are written behind the padding, not into it. */
    method CreateSourceDescription(header: Header, ds: seq<Description>, bufferOffset: nat) returns (h: Header)
      requires Valid() && bufferOffset + PaddedEnd(ds) + 4 <= buffer.Length
      modifies buffer
      ensures h == DescriptionHeader(header, ds)
      ensures buffer[..] == Described(old(buffer[..]), bufferOffset, h, ds)
      ensures buffer[bufferOffset] / 64 == header.Version() && buffer[bufferOffset + 1] == 202
    {
      hide Overwrite, LengthField, ItemsBytes;
      var offset := CopyItems(ds, bufferOffset + HEADER_SIZE);
      offset := offset - bufferOffset;
      assert offset == ItemsEnd(ds);
      var padding := Padding(offset);
      offset := offset + padding;
      assert offset == PaddedEnd(ds);
      h := header.SetType(SOURCE_DESCRIPTION).SetCount(1).SetLength(LengthField(offset));
      CopyAround(bufferOffset, h, old(buffer[..]), ItemsBytes(ds), bufferOffset + offset, Zeros(padding));
      DescribedStart(old(buffer[..]), bufferOffset, h, ds);
      VersionKept(header, 1);
    }

    /** Around the items already written: the zeros, and then the header in front. */
    method CopyAround(at: nat, h: Header, ghost before: seq<Byte>, ghost items: seq<Byte>, later: nat, zeros: seq<Byte>)
      requires |before| == buffer.Length
      requires at + HEADER_SIZE + |items| <= later && later + |zeros| <= buffer.Length
      requires buffer[..] == Overwrite(before, at + HEADER_SIZE, items)
      modifies buffer
      ensures buffer[..] == Overwrite(Overwrite(before, at, h.Bytes() + items), later, zeros)
    {
      if |zeros| != 0 {
        Copy(later, zeros);
      }
      Copy(at, h.Bytes());
      OverwriteHeaderLast(before, at, h.Bytes(), items, later, zeros);
    }

    method CopyItems(ds: seq<Description>, at: nat) returns (end: nat)
      requires at + |ItemsBytes(ds)| <= buffer.Length
      modifies buffer
      ensures end == at + |ItemsBytes(ds)|
      ensures buffer[..] == Overwrite(old(buffer[..]), at, ItemsBytes(ds))
    {
      assert buffer[..] == Overwrite(buffer[..], at, []);
      hide Overwrite, ItemBytes;
      ghost var before := buffer[..];
      end := at;
      for i := 0 to |ds|
        invariant end == at + |ItemsBytes(ds[..i])| <= buffer.Length
        invariant buffer[..] == Overwrite(before, at, ItemsBytes(ds[..i]))
      {
        OverwriteItem(before, at, ds, i);
        var size := |ds[i].value| % 0x100;
        Copy(end, [ds[i].key, size] + ds[i].value[..size]);
        end := end + 2 + size;
      }
      assert ds[..|ds|] == ds;
    }

    method CreateBye(header: Header, text: seq<Byte>, offset: nat) returns (h: Header)
      requires Valid() && offset + 1 + HEADER_SIZE + |Announced(text)| + 4 <= buffer.Length
      modifies buffer
      ensures h == ByeHeader(header, text)
      ensures buffer[..] == Overwrite(old(buffer[..]), offset, ByeBytes(h, text))
      ensures buffer[offset] / 64 == header.Version() && buffer[offset + 1] == 203
    {
      hide Overwrite, LengthField;
      h := header.SetType(GOODBYE);
      h := h.SetCount(1);
      var length := |text| % 0x100;
      h := h.SetLength(LengthField(HEADER_SIZE + 1 + length + 1));
      ByeAnnounced(h, text);
      CopyBye(h, Announced(text), offset);
      FirstBytes(old(buffer[..]), offset, ByeBytes(h, text), h);
      VersionKept(header, 1);
    }

    method CopyBye(h: Header, text: seq<Byte>, offset: nat)
      requires |text| < 0x100 && offset + |ByeBytes(h, text)| <= buffer.Length
      modifies buffer
      ensures buffer[..] == Overwrite(old(buffer[..]), offset, ByeBytes(h, text))
    {
      hide Overwrite;
      ghost var before := buffer[..];
      Copy(offset, h.Bytes());
      Copy(offset + HEADER_SIZE, [|text|]);
      OverwriteNext(before, offset, h.Bytes(), [|text|]);
      if |text| > 0 {
        CopyPadded(offset + HEADER_SIZE + 1, text);
        OverwriteNext(before, offset, h.Bytes() + [|text|], text + Zeros(Padding(|text|)));
      } else {
        assert h.Bytes() + [|text|] + [] == h.Bytes() + [|text|];
      }
      ByeParts(h, text);
    }

    method CopyPadded(at: nat, text: seq<Byte>)
      requires at + |text| + Padding(|text|) <= buffer.Length
      modifies buffer
      ensures buffer[..] == Overwrite(old(buffer[..]), at, text + Zeros(Padding(|text|)))
    {
      Copy(at, text);
      var padding := Padding(|text|);
      Copy(at + |text|, Zeros(padding));
      OverwriteNext(old(buffer[..]), at, text, Zeros(padding));
    }

    /** The header is changed before the length of the data is checked. */
    method CreateApplicationDefined(header: Header, a: Application, offset: nat) returns (h: Header, ok: bool)
      requires Valid() && a.WellFormed() && offset + HEADER_SIZE + 4 + |a.data| <= buffer.Length
      modifies buffer
      ensures ok <==> |a.data| % 4 == 0
      ensures ok ==> h == ApplicationHeader(header, a)
      ensures ok ==> buffer[..] == Overwrite(old(buffer[..]), offset, ApplicationBytes(h, a))
      ensures ok ==> buffer[offset] / 64 == header.Version() && buffer[offset + 1] == 204
      ensures !ok ==> buffer[..] == old(buffer[..])
    {
      hide Overwrite, LengthField;
      h := header.SetType(APPLICATION_DEFINED);
      h := h.SetLength(LengthField(HEADER_SIZE + 4 + |a.data|));
      if |a.data| % 4 != 0 {
        return h, false;
      }
      h := h.SetPadding(false);
      h := h.SetCount(a.subType);
      ok := true;
      Copy(offset, h.Bytes());
      Copy(offset + HEADER_SIZE, a.name);
      OverwriteNext(old(buffer[..]), offset, h.Bytes(), a.name);
      Copy(offset + HEADER_SIZE + 4, a.data);
      OverwriteNext(old(buffer[..]), offset, h.Bytes() + a.name, a.data);
      FirstBytes(old(buffer[..]), offset, ApplicationBytes(h, a), h);
      VersionKept(header, a.subType);
    }

    method ReadSenderReport(memory: seq<Byte>)
      returns (r: Option<(Header, SenderInformation, seq<ReceptionReport>)>)
      ensures |memory| < HEADER_SIZE + SENDER_INFO_SIZE ==> r.None?
      ensures |memory| >= HEADER_SIZE + SENDER_INFO_SIZE ==>
                var h := HeaderOf(memory);
                r == match ReadReports(memory, 28, h.Count())
                     case None => None
                     case Some(reports) => Some((h, SenderInformation(memory[8..28]), reports))
    {
      if |memory| < HEADER_SIZE + SENDER_INFO_SIZE {
        return None;
      }
      var h := ParseHeader(memory[..HEADER_SIZE]);
      var info := SenderInformation(memory[HEADER_SIZE..HEADER_SIZE + SENDER_INFO_SIZE]);
      var start: nat := HEADER_SIZE + SENDER_INFO_SIZE;
      var reports: seq<ReceptionReport> := [];
      for i := 0 to h.Count()
        invariant start == 28 + 24 * i
        invariant ReadReports(memory, 28, h.Count()) == Prepend(reports, ReadReports(memory, start, h.Count() - i))
      {
        if start + RECEPTION_REPORT_SIZE > |memory| {
          return None;
        }
        var report := ReceptionReport(memory[start..start + RECEPTION_REPORT_SIZE]);
        PrependOne(reports, report, ReadReports(memory, start + RECEPTION_REPORT_SIZE, h.Count() - i - 1));
        reports := reports + [report];
        start := start + RECEPTION_REPORT_SIZE;
      }
      return Some((h, info, reports));
    }

    method ReadReceiverReport(memory: seq<Byte>) returns (r: Option<(Header, seq<ReceptionReport>)>)
      ensures |memory| < HEADER_SIZE ==> r.None?
      ensures |memory| >= HEADER_SIZE ==>
                var h := HeaderOf(memory);
                r == match ReadSkipping(memory, HEADER_SIZE, 0, h.Count())
                     case None => None
                     case Some(reports) => Some((h, reports))
    {
      if |memory| < HEADER_SIZE {
        return None;
      }
      var h := ParseHeader(memory[..HEADER_SIZE]);
      var start: nat := HEADER_SIZE;
      var reports: seq<ReceptionReport> := [];
      for i := 0 to h.Count()
        invariant ReadSkipping(memory, HEADER_SIZE, 0, h.Count())
                  == Prepend(reports, ReadSkipping(memory, start, i, h.Count()))
      {
        start := start + 24 * i;
        if start + RECEPTION_REPORT_SIZE > |memory| {
          return None;
        }
        var report := ReceptionReport(memory[start..start + RECEPTION_REPORT_SIZE]);
        PrependOne(reports, report, ReadSkipping(memory, start, i + 1, h.Count()));
        reports := reports + [report];
      }
      return Some((h, reports));
    }

    method ReadSourceDescription(memory: seq<Byte>, packageLength: nat)
      returns (r: Option<(Header, seq<Description>)>)
      ensures |memory| < HEADER_SIZE ==> r.None?
      ensures |memory| >= HEADER_SIZE ==>
                r == match ReadItems(memory, HEADER_SIZE, packageLength)
                     case None => None
                     case Some(ds) => Some((HeaderOf(memory), Construct(ds)))
    {
      if |memory| < HEADER_SIZE {
        return None;
      }
      ghost var raw: seq<Description> := [];
      var descriptions: seq<Description> := [];
      var offset := HEADER_SIZE;
      while offset < packageLength
        invariant descriptions == Construct(raw)
        invariant ReadItems(memory, HEADER_SIZE, packageLength)
                  == Prepend(raw, ReadItems(memory, offset, packageLength))
      {
        if offset >= |memory| {
          return None;
        }
        var key := memory[offset];
        if key == 0 {
          break;
        }
        if offset + 1 >= |memory| || offset + 2 + memory[offset + 1] > |memory| {
          return None;
        }
        var end := offset + 2 + memory[offset + 1];
        var value := memory[offset + 2..end];
        PrependOne(raw, Description(key, value), ReadItems(memory, end, packageLength));
        ConstructOne(raw, Description(key, value));
        descriptions := descriptions + [Description(key, TrimBytes(value))];
        raw := raw + [Description(key, value)];
        offset := end;
      }
      return Some((ParseHeader(memory[..HEADER_SIZE]), descriptions));
    }

    /** The number of packages and the bytes remaining when the test first fails. */
    method GetCompoundPackagesCount(memory: seq<Byte>, maxPackageLength: U32) returns (r: Option<(nat, U32)>)
      ensures r == CountPackages(memory, 0, maxPackageLength)
    {
      hide CountPackages, CountMore;
      var remaining: U32 := maxPackageLength;
      var numPackages := 0;
      var at := 0;
      var accepted := IsRtcpPackage(memory, at, remaining);
      CountNothing(CountPackages(memory, at, remaining));
      while accepted == Some(true)
        invariant accepted == IsRtcpPackage(memory, at, remaining)
        invariant CountPackages(memory, 0, maxPackageLength)
                  == CountMore(numPackages, CountPackages(memory, at, remaining))
        decreases |memory| - at
      {
        var size := PackageLength(ParseHeader(memory[at..at + HEADER_SIZE]).Length());
        CountStep(memory, at, remaining);
        CountMoreOne(numPackages, CountPackages(memory, at + size, Less(remaining, size)));
        numPackages := numPackages + 1;
        remaining := Less(remaining, size);
        at := at + size;
        accepted := IsRtcpPackage(memory, at, remaining);
      }
      CountEnd(memory, at, remaining, numPackages);
      return if accepted.None? then None else Some((numPackages, remaining));
    }

    /** A report and the source description, written one behind the other. */
    method SendSourceDescription(ssrc: SsrcData, x: Sending) returns (length: nat)
      requires Valid() && x.Fits()
      modifies buffer
      ensures buffer[..] == After(old(buffer[..]), ssrc, SendDescription(x))
      ensures length == Length(ssrc, SendDescription(x)) <= buffer.Length
      ensures IsPackageOf(buffer[..x.ReportEnd()], if x.sender.Some? then 200 else 201, ssrc)
      ensures IsPackageOf(buffer[x.ReportEnd()..length], 202, ssrc)
      ensures CountPackages(buffer[..], 0, length) == Some((2, 0))
    {
      hide WithDescription, IsPackageOf, CountPackages, Written;
      length := WriteReportAndDescription(ssrc, x);
      DescriptionWritten(old(buffer[..]), ssrc, x);
      ReportWhole(buffer[..], ssrc, x);
      DescriptionWhole(buffer[..], ssrc, x);
      DescriptionCounted(buffer[..], ssrc, x);
    }

    /** The same with a goodbye behind them. */
    method SendByePackage(ssrc: SsrcData, x: Sending, text: seq<Byte>) returns (length: nat)
      requires Valid() && x.Fits()
      modifies buffer
      ensures buffer[..] == After(old(buffer[..]), ssrc, SendGoodbye(x, text))
      ensures length == Length(ssrc, SendGoodbye(x, text)) <= buffer.Length
      ensures IsPackageOf(buffer[..x.ReportEnd()], if x.sender.Some? then 200 else 201, ssrc)
      ensures IsPackageOf(buffer[x.ReportEnd()..x.DescriptionEnd()], 202, ssrc)
      ensures IsPackageOf(buffer[x.DescriptionEnd()..length], 203, ssrc)
      ensures CountPackages(buffer[..], 0, length) == Some((3, 0))
    {
      hide WithDescription, Overwrite, ByeBytes, IsPackageOf, CountPackages, Written;
      length := WriteReportAndDescription(ssrc, x);
      var h := CreateBye(NewHeader(ssrc), text, length);
      length := length + PackageLength(h.Length());
      GoodbyeWritten(old(buffer[..]), ssrc, x, text);
      ReportWhole(buffer[..], ssrc, x);
      DescriptionWhole(buffer[..], ssrc, x);
      GoodbyeWhole(buffer[..], ssrc, x, text);
      GoodbyeCounted(buffer[..], ssrc, x, text);
    }

    method WriteReportAndDescription(ssrc: SsrcData, x: Sending) returns (length: nat)
      requires Valid() && x.Fits()
      modifies buffer
      ensures buffer[..] == WithDescription(old(buffer[..]), ssrc, x) && length == x.DescriptionEnd()
    {
      hide Overwrite, Described, ReportBytes;
      length := WriteReport(ssrc, x);
      NewDescriptionHeader(ssrc, x.ds, DescriptionHeader(NewHeader(ssrc), x.ds));
      var h := CreateSourceDescription(NewHeader(ssrc), x.ds, length);
      length := length + PackageLength(h.Length());
    }

    method WriteReport(ssrc: SsrcData, x: Sending) returns (length: nat)
      requires Valid() && x.Fits()
      modifies buffer
      ensures buffer[..] == WithReport(old(buffer[..]), ssrc, x) && length == x.ReportEnd()
    {
      hide Overwrite;
      var h: Header;
      match x.sender {
        case Some(info) =>
          h := CreateSenderReport(NewHeader(ssrc), info, x.reports, 0);
          NewSenderHeader(ssrc, |x.reports|, h);
        case None =>
          h := CreateReceiverReport(NewHeader(ssrc), x.reports, 0);
          NewReceiverHeader(ssrc, |x.reports|, h);
      }
      length := PackageLength(h.Length());
    }

    /** What is received is written at the start of the same buffer, and handled there if it is a package. */
    method ReceivePackage(bytes: seq<Byte>) returns (r: Option<seq<Message>>)
      requires Valid() && |bytes| <= buffer.Length
      modifies buffer
      ensures buffer[..] == Received(old(buffer[..]), bytes)
      ensures r == HandlePackages(buffer[..], 0, |bytes|)
    {
      Copy(0, bytes);
      var accepted := IsRtcpPackage(buffer[..], 0, |bytes|);
      if accepted == Some(true) {
        r := HandlePackage(0, |bytes|);
      } else {
        r := if accepted.None? then None else Some([]);
      }
    }

    /** Reads the package at `at`, and then the one behind it unless this was a goodbye. */
    method HandlePackage(at: nat, receivedSize: U32) returns (r: Option<seq<Message>>)
      requires Valid() && IsRtcpPackage(buffer[..], at, receivedSize) == Some(true)
      ensures r == HandlePackages(buffer[..], at, receivedSize)
      decreases buffer.Length - at
    {
      hide ReadMessage;
      var memory := buffer[at..];
      assert memory == buffer[..][at..] && memory[..HEADER_SIZE] == buffer[..][at..at + HEADER_SIZE];
      var h := ParseHeader(memory[..HEADER_SIZE]);
      var m := ReadPackage(memory, receivedSize);
      if m.None? || m.value.Goodbye? {
        return if m.None? then None else Some([m.value]);
      }
      var packageLength := PackageLength(h.Length());
      var next, remaining := at + packageLength, Less(receivedSize, packageLength);
      var accepted := IsRtcpPackage(buffer[..], next, remaining);
      var rest: Option<seq<Message>>;
      if accepted == Some(true) {
        rest := HandlePackage(next, remaining);
      } else {
        rest := if accepted.None? then None else Some([]);
      }
      return Prepend([m.value], rest);
    }

    /** The reader for the type of the package at the start of the memory. */
    method ReadPackage(memory: seq<Byte>, receivedSize: U32) returns (m: Option<Message>)
      requires |memory| >= HEADER_SIZE && SENDER_REPORT <= HeaderOf(memory).Type() <= APPLICATION_DEFINED
      ensures m == ReadMessage(memory, receivedSize)
    {
      var t := ParseHeader(memory[..HEADER_SIZE]).Type();
      if t == GOODBYE {
        m := GoodbyeAt(memory);
      } else if t == SENDER_REPORT {
        var r := ReadSenderReport(memory);
        m := if r.None? then None else Some(SenderReport(r.value.0.ssrc, r.value.1, r.value.2));
      } else if t == RECEIVER_REPORT {
        var r := ReadReceiverReport(memory);
        m := if r.None? then None else Some(ReceiverReport(r.value.0.ssrc, r.value.1));
      } else if t == SOURCE_DESCRIPTION {
        var r := ReadSourceDescription(memory, receivedSize % 0x1_0000);
        m := if r.None? then None else Some(SourceDescription(r.value.0.ssrc, r.value.1));
      } else {
        m := ApplicationAt(memory);
      }
    }
  }
}

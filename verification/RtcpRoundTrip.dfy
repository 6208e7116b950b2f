/** Reading back what the RTCP writers produce. Readers get the memory from the start of the
    package to the end of the buffer it lies in. */
module RtcpRoundTrip {
  import opened Words
  import opened Wrappers
  import opened RtcpFormat

  /** A header of this version without padding. */
  ghost predicate IsHeader(h: Header, t: Byte, count: nat, ssrc: SsrcData) {
    h.Version() == 2 && !h.IsPadded() && h.Type() == t && h.Count() == count && h.ssrc == ssrc
  }

  // ---------- sender reports ----------

  /** The report blocks that fit into a package of less than 2^16 bytes. */
  const MAX_REPORTS := 2729

  function SenderReportHeader(h: Header, n: nat): Header
    requires n <= MAX_REPORTS
  {
    h.SetType(SENDER_REPORT).SetCount(n)
     .SetLength(LengthField(HEADER_SIZE + SENDER_INFO_SIZE + 24 * n))
  }

  function SenderReportBytes(h: Header, info: SenderInformation, reports: seq<ReceptionReport>): seq<Byte> {
    h.Bytes() + info.data + ReportsBytes(reports)
  }

  function HeaderOf(memory: seq<Byte>): Header
    requires |memory| >= HEADER_SIZE
  {
    ParseHeader(memory[..HEADER_SIZE])
  }

  /** The `count` report blocks from `at` on. */
  function ReadReports(memory: seq<Byte>, at: nat, count: nat): (r: Option<seq<ReceptionReport>>)
    ensures r.Some? ==> |r.value| == count
    decreases count
  {
    if count == 0 then Some([])
    else if at + RECEPTION_REPORT_SIZE > |memory| then None
    else
      Prepend([ReceptionReport(memory[at..at + RECEPTION_REPORT_SIZE])],
              ReadReports(memory, at + RECEPTION_REPORT_SIZE, count - 1))
  }

  lemma {:induction false} ReadReportsWritten(memory: seq<Byte>, at: nat, reports: seq<ReceptionReport>)
    requires var end := at + 24 * |reports|;
             end <= |memory| && memory[at..end] == ReportsBytes(reports)
    ensures ReadReports(memory, at, |reports|) == Some(reports)
    decreases |reports|
  {
    if reports == [] {
    } else {
      var end := at + 24 * |reports|;
      var bytes := memory[at..end];
      assert memory[at..at + 24] == bytes[..24] == reports[0].data;
      assert memory[at + 24..end] == bytes[24..] == ReportsBytes(reports[1..]);
      ReadReportsWritten(memory, at + 24, reports[1..]);
      assert reports == [reports[0]] + reports[1..];
    }
  }

  lemma Slices(a: seq<Byte>, b: seq<Byte>, c: seq<Byte>)
    ensures (a + b + c)[..|a|] == a
    ensures (a + b + c)[|a|..|a| + |b|] == b
  {
  }

  lemma FourSlices(a: seq<Byte>, b: seq<Byte>, c: seq<Byte>, d: seq<Byte>)
    ensures var s := a + b + c + d;
            s[..|a|] == a && s[|a|..|a| + |b|] == b && s[|a| + |b|..|a| + |b| + |c|] == c
  {
  }

  lemma SenderReportReads(h: Header, info: SenderInformation, reports: seq<ReceptionReport>, tail: seq<Byte>)
    ensures var memory := SenderReportBytes(h, info, reports) + tail;
            && HeaderOf(memory) == h && memory[8..28] == info.data
            && ReadReports(memory, 28, |reports|) == Some(reports)
  {
    FourSlices(h.Bytes(), info.data, ReportsBytes(reports), tail);
    ReadReportsWritten(SenderReportBytes(h, info, reports) + tail, 28, reports);
  }

  lemma ReportLength(n: nat)
    requires n < 32
    ensures LengthField(28 + 24 * n) == 6 + 6 * n
    ensures LengthField(8 + 24 * n) == 1 + 6 * n
  {
  }

  /** The header of a sender report; its length word covers up to 31 reports. */
  lemma NewSenderHeader(ssrc: SsrcData, n: nat, h: Header)
    requires n < 32 && h == SenderReportHeader(NewHeader(ssrc), n)
    ensures IsHeader(h, 200, n, ssrc) && PackageLength(h.Length()) == 28 + 24 * n
  {
    ReportLength(n);
    HeaderFields(ssrc, SENDER_REPORT, n, 6 + 6 * n, h);
  }

  /** A sender report is read back exactly when its reports fit the 5-bit count. */
  lemma SenderReportRoundTrip(h: Header, info: SenderInformation, reports: seq<ReceptionReport>, tail: seq<Byte>)
    requires h.Count() == |reports| % 32
    ensures var memory := SenderReportBytes(h, info, reports) + tail;
            && HeaderOf(memory) == h && memory[8..28] == info.data
            && (ReadReports(memory, 28, h.Count()) == Some(reports) <==> |reports| < 32)
  {
    SenderReportReads(h, info, reports, tail);
  }

  // ---------- receiver reports ----------

  function ReceiverReportHeader(h: Header, n: nat): Header
    requires n <= MAX_REPORTS
  {
    h.SetType(RECEIVER_REPORT).SetCount(n)
     .SetLength(LengthField(HEADER_SIZE + 24 * n))
  }

  function ReceiverReportBytes(h: Header, reports: seq<ReceptionReport>): seq<Byte> {
    h.Bytes() + ReportsBytes(reports)
  }

  /** The reader of receiver reports moves on by `i` blocks before it reads block `i`. */
  function ReadSkipping(memory: seq<Byte>, at: nat, i: nat, count: nat): (r: Option<seq<ReceptionReport>>)
    requires i <= count
    decreases count - i
  {
    if i == count then Some([])
    else
      var start := at + 24 * i;
      if start + RECEPTION_REPORT_SIZE > |memory| then None
      else
        Prepend([ReceptionReport(memory[start..start + RECEPTION_REPORT_SIZE])],
                ReadSkipping(memory, start, i + 1, count))
  }

  lemma NewReceiverHeader(ssrc: SsrcData, n: nat, h: Header)
    requires n < 32 && h == ReceiverReportHeader(NewHeader(ssrc), n)
    ensures IsHeader(h, 201, n, ssrc) && PackageLength(h.Length()) == 8 + 24 * n
  {
    ReportLength(n);
    HeaderFields(ssrc, RECEIVER_REPORT, n, 1 + 6 * n, h);
  }

  lemma ReceiverBlock(h: Header, reports: seq<ReceptionReport>, tail: seq<Byte>, i: nat)
    requires i < |reports|
    ensures var memory := ReceiverReportBytes(h, reports) + tail;
            var at := HEADER_SIZE + 24 * i;
            && at + RECEPTION_REPORT_SIZE <= |memory|
            && ReceptionReport(memory[at..at + RECEPTION_REPORT_SIZE]) == reports[i]
  {
    var memory := ReceiverReportBytes(h, reports) + tail;
    var at := 24 * i;
    assert memory[8 + at..8 + at + 24] == ReportsBytes(reports)[at..at + 24];
    ReportsBytesAt(reports, i);
  }

  /** Where the reader of receiver reports looks for block `i`. */
  function SkipTo(i: nat): (at: nat)
    ensures at >= HEADER_SIZE
  {
    if i == 0 then HEADER_SIZE else SkipTo(i - 1) + 24 * i
  }

  ghost predicate BlockFound(memory: seq<Byte>, reports: seq<ReceptionReport>, i: nat)
    requires i < |reports|
  {
    var at := SkipTo(i);
    at + RECEPTION_REPORT_SIZE <= |memory| && memory[at..at + RECEPTION_REPORT_SIZE] == reports[i].data
  }

  lemma PrependedReport(data: ReportData, rest: Option<seq<ReceptionReport>>, reports: seq<ReceptionReport>)
    requires reports != []
    ensures Prepend([ReceptionReport(data)], rest) == Some(reports)
            <==> data == reports[0].data && rest == Some(reports[1..])
  {
    assert reports == [reports[0]] + reports[1..];
    if rest.Some? {
      assert ([ReceptionReport(data)] + rest.value)[1..] == rest.value;
    }
  }

  lemma {:induction false} SkippedExactly(memory: seq<Byte>, at: nat, reports: seq<ReceptionReport>, i: nat)
    requires i <= |reports| && at == SkipTo(if i == 0 then 0 else i - 1)
    ensures ReadSkipping(memory, at, i, |reports|) == Some(reports[i..])
            <==> forall j | i <= j < |reports| :: BlockFound(memory, reports, j)
    decreases |reports| - i
  {
    if i == |reports| {
    } else {
      var start := at + 24 * i;
      assert start == SkipTo(i);
      SkippedExactly(memory, start, reports, i + 1);
      if start + RECEPTION_REPORT_SIZE <= |memory| {
        var rest := ReadSkipping(memory, start, i + 1, |reports|);
        PrependedReport(memory[start..start + RECEPTION_REPORT_SIZE], rest, reports[i..]);
        assert reports[i..][1..] == reports[i + 1..];
        assert BlockFound(memory, reports, i) == (memory[start..start + RECEPTION_REPORT_SIZE] == reports[i].data);
      } else {
        assert !BlockFound(memory, reports, i);
      }
    }
  }

  /** Receiver reports are read back exactly when each block behind the second happens to lie
      where the reader looks for it; the first two always do. */
  lemma ReceiverReportRoundTrip(h: Header, reports: seq<ReceptionReport>, tail: seq<Byte>)
    requires h.Count() == |reports|
    ensures var memory := ReceiverReportBytes(h, reports) + tail;
            && HeaderOf(memory) == h
            && (ReadSkipping(memory, HEADER_SIZE, 0, h.Count()) == Some(reports)
                <==> forall i | 2 <= i < |reports| :: BlockFound(memory, reports, i))
  {
    var memory := ReceiverReportBytes(h, reports) + tail;
    Slices(h.Bytes(), ReportsBytes(reports), tail);
    SkippedExactly(memory, HEADER_SIZE, reports, 0);
    assert reports[0..] == reports;
    assert SkipTo(1) == SkipTo(0) + 24 == 32;
    if |reports| > 0 { ReceiverBlock(h, reports, tail, 0); }
    if |reports| > 1 { ReceiverBlock(h, reports, tail, 1); }
  }

  /** The byte at the start of the third block as it is read. */
  lemma ThirdBlock(h: Header, reports: seq<ReceptionReport>, tail: seq<Byte>)
    requires |reports| > 2
    ensures var memory := ReceiverReportBytes(h, reports) + tail;
            && SkipTo(2) == 80
            && (|reports| > 3 ==> |memory| > 80 && memory[80] == reports[3].data[0])
            && (|reports| == 3 && |memory| > 80 ==> tail != [] && memory[80] == tail[0])
  {
    var memory := ReceiverReportBytes(h, reports) + tail;
    assert SkipTo(2) == SkipTo(1) + 48 && SkipTo(1) == SkipTo(0) + 24;
    if |reports| > 3 {
      ReceiverBlock(h, reports, tail, 3);
      assert memory[80..104][0] == memory[80];
    }
  }

  /** So all lists of `n` receiver reports survive exactly when there are at most two,
      whatever lies behind the package. */
  lemma ReceiverReportLimit(h: Header, n: nat, tail: seq<Byte>)
    requires h.Count() == n
    ensures (forall reports: seq<ReceptionReport> | |reports| == n ::
               ReadSkipping(ReceiverReportBytes(h, reports) + tail, HEADER_SIZE, 0, n) == Some(reports)) <==> n <= 2
  {
    forall reports: seq<ReceptionReport> | |reports| == n && n <= 2
      ensures ReadSkipping(ReceiverReportBytes(h, reports) + tail, HEADER_SIZE, 0, n) == Some(reports)
    {
      ReceiverReportRoundTrip(h, reports, tail);
    }
    if n > 2 {
      var b: Byte := if n == 3 && tail != [] && tail[0] == 1 then 0 else 1;
      var blank := ReceptionReport(seq(RECEPTION_REPORT_SIZE, _ => 0));
      var other := ReceptionReport(seq(RECEPTION_REPORT_SIZE, _ => b));
      var reports := seq(n, i => if i == 2 then other else blank);
      ReceiverReportRoundTrip(h, reports, tail);
      ThirdBlock(h, reports, tail);
      var memory := ReceiverReportBytes(h, reports) + tail;
      if |memory| >= 104 { assert memory[80..104][0] == memory[80]; }
      assert !BlockFound(memory, reports, 2);
    }
  }

  // ---------- source descriptions ----------

  function Padding(length: nat): nat { 4 - (1 + length) % 4 }

  /** Where the items of a source description end, and where its length is taken. */
  function ItemsEnd(ds: seq<Description>): nat { HEADER_SIZE + |ItemsBytes(ds)| }
  function PaddedEnd(ds: seq<Description>): nat { ItemsEnd(ds) + Padding(ItemsEnd(ds)) }

  function DescriptionHeader(h: Header, ds: seq<Description>): Header
    requires PaddedEnd(ds) < 0x1_0000
  {
    h.SetType(SOURCE_DESCRIPTION).SetCount(1).SetLength(LengthField(PaddedEnd(ds)))
  }

  lemma PaddedLength(n: nat)
    requires n + Padding(n) <= 1024
    ensures var length := PackageLength(LengthField(n + Padding(n)));
            length == n + Padding(n) + 1 && length % 4 == 0
  {
    var padded := n + Padding(n);
    assert padded % 4 == 3;
    LengthFieldExact(padded);
  }

  /** A source description is padded to whole words, with one to four bytes and a null behind its items. */
  lemma NewDescriptionHeader(ssrc: SsrcData, ds: seq<Description>, h: Header)
    requires PaddedEnd(ds) <= 1024 && h == DescriptionHeader(NewHeader(ssrc), ds)
    ensures IsHeader(h, 202, 1, ssrc)
    ensures var length := PackageLength(h.Length());
            && length == PaddedEnd(ds) + 1 && length % 4 == 0
            && ItemsEnd(ds) + 2 <= length <= ItemsEnd(ds) + 5
  {
    HeaderFields(ssrc, SOURCE_DESCRIPTION, 1, LengthField(PaddedEnd(ds)), h);
    PaddedLength(ItemsEnd(ds));
  }

  predicate Readable(d: Description) {
    d.key != 0 && |d.value| < 0x100 && TrimBytes(d.value) == d.value
  }

  /** Reading on from an item. */
  lemma ReadItem(front: seq<Byte>, d: Description, tail: seq<Byte>, packageLength: nat)
    requires |front| < packageLength
    ensures var memory := front + ItemBytes(d) + tail;
            ReadItems(memory, |front|, packageLength) ==
            if d.key == 0 then Some([])
            else Prepend([Description(d.key, Announced(d.value))],
                         ReadItems(memory, |front + ItemBytes(d)|, packageLength))
  {
    var memory := front + ItemBytes(d) + tail;
    assert memory[|front|] == d.key && memory[|front| + 1] == |d.value| % 0x100;
    assert memory[|front| + 2..|front + ItemBytes(d)|] == Announced(d.value);
  }

  function AnnouncedItems(ds: seq<Description>): (r: seq<Description>)
    ensures |r| == |ds|
  {
    seq(|ds|, i requires 0 <= i < |ds| => Description(ds[i].key, Announced(ds[i].value)))
  }

  predicate AllKeyed(ds: seq<Description>) {
    forall d | d in ds :: d.key != 0
  }

  lemma AllKeyedOne(d: Description, rest: seq<Description>)
    ensures AllKeyed([d] + rest) <==> d.key != 0 && AllKeyed(rest)
  {
    assert ([d] + rest)[0] == d;
    if AllKeyed([d] + rest) {
      forall e | e in rest ensures e.key != 0 { assert e in [d] + rest; }
    }
  }

  lemma AnnouncedOne(d: Description, rest: seq<Description>)
    ensures AnnouncedItems([d] + rest) == [Description(d.key, Announced(d.value))] + AnnouncedItems(rest)
  {
    hide Announced;
  }

  /** Items with non-zero keys in front of a null are all found; otherwise too few or too many are. */
  lemma {:induction false} ItemsFound(front: seq<Byte>, ds: seq<Description>, tail: seq<Byte>, packageLength: nat)
    requires tail != [] && |front| + |ItemsBytes(ds)| < packageLength
    ensures var r := ReadItems(front + ItemsBytes(ds) + tail, |front|, packageLength);
            if AllKeyed(ds) && tail[0] == 0 then r == Some(AnnouncedItems(ds))
            else r.None? || |r.value| != |ds|
    decreases |ds|
  {
    if ds == [] {
      assert (front + ItemsBytes(ds) + tail)[|front|] == tail[0];
    } else {
      var d, rest := ds[0], ds[1..];
      var next := front + ItemBytes(d);
      assert ds == [d] + rest;
      assert ItemsBytes(ds) == ItemBytes(d) + ItemsBytes(rest);
      hide ReadItems, ItemBytes, ItemsBytes, Announced, AllKeyed, AnnouncedItems;
      AllKeyedOne(d, rest);
      AnnouncedOne(d, rest);
      assert front + ItemsBytes(ds) + tail == next + ItemsBytes(rest) + tail
             == front + ItemBytes(d) + (ItemsBytes(rest) + tail);
      ReadItem(front, d, ItemsBytes(rest) + tail, packageLength);
      ItemsFound(next, rest, tail, packageLength);
    }
  }

  lemma NothingLeft(memory: seq<Byte>, at: nat)
    ensures ReadItems(memory, at, at) == Some([]) && AnnouncedItems([]) == []
  {
  }

  /** Items that fill the package to its end are all found without a null behind them. */
  lemma {:induction false} ItemsFill(front: seq<Byte>, ds: seq<Description>, tail: seq<Byte>, packageLength: nat)
    requires AllKeyed(ds) && packageLength == |front| + |ItemsBytes(ds)|
    ensures ReadItems(front + ItemsBytes(ds) + tail, |front|, packageLength) == Some(AnnouncedItems(ds))
    decreases |ds|
  {
    hide ReadItems, ItemBytes, Announced, AllKeyed, AnnouncedItems;
    if ds == [] {
      NothingLeft(front + ItemsBytes(ds) + tail, |front|);
    } else {
      var d, rest := ds[0], ds[1..];
      var next := front + ItemBytes(d);
      assert ds == [d] + rest;
      assert ItemsBytes(ds) == ItemBytes(d) + ItemsBytes(rest);
      hide ItemsBytes;
      AllKeyedOne(d, rest);
      AnnouncedOne(d, rest);
      assert front + ItemsBytes(ds) + tail == next + ItemsBytes(rest) + tail
             == front + ItemBytes(d) + (ItemsBytes(rest) + tail);
      ReadItem(front, d, ItemsBytes(rest) + tail, packageLength);
      ItemsFill(next, rest, tail, packageLength);
    }
  }

  lemma ReadableItem(d: Description)
    requires d.key != 0
    ensures TrimBytes(Announced(d.value)) == d.value <==> Readable(d)
  {
    TrimShortens(Announced(d.value));
    assert |d.value| < 0x100 ==> Announced(d.value) == d.value;
  }

  lemma ReadableConstruct(ds: seq<Description>)
    requires forall d | d in ds :: d.key != 0
    ensures Construct(AnnouncedItems(ds)) == ds <==> forall d | d in ds :: Readable(d)
  {
    var r := Construct(AnnouncedItems(ds));
    forall i | 0 <= i < |ds|
      ensures r[i] == ds[i] <==> Readable(ds[i])
    {
      assert r[i] == Description(ds[i].key, TrimBytes(Announced(ds[i].value)));
      ReadableItem(ds[i]);
    }
    if r == ds {
      forall d | d in ds ensures Readable(d) {
        var i :| 0 <= i < |ds| && ds[i] == d;
      }
    }
  }

  /** Source descriptions are read back exactly when each item can be told from the end, fits
      its length and is trimmed, and the byte behind the items is a null. */
  lemma DescriptionsRoundTrip(h: Header, ds: seq<Description>, tail: seq<Byte>, packageLength: nat)
    requires tail != [] && ItemsEnd(ds) < packageLength
    ensures var memory := h.Bytes() + ItemsBytes(ds) + tail;
            var r := ReadItems(memory, HEADER_SIZE, packageLength);
            && HeaderOf(memory) == h
            && (r.Some? && Construct(r.value) == ds <==> (forall d | d in ds :: Readable(d)) && tail[0] == 0)
  {
    Slices(h.Bytes(), ItemsBytes(ds), tail);
    ItemsFound(h.Bytes(), ds, tail, packageLength);
    if forall d | d in ds :: d.key != 0 { ReadableConstruct(ds); }
  }

  // ---------- goodbye ----------

  function ByeHeader(h: Header, text: seq<Byte>): Header {
    h.SetType(GOODBYE).SetCount(1).SetLength(LengthField(HEADER_SIZE + 1 + |text| % 0x100 + 1))
  }

  function Zeros(n: nat): (bytes: seq<Byte>)
    ensures |bytes| == n
  {
    seq(n, _ => 0)
  }

  function ByeBytes(h: Header, text: seq<Byte>): seq<Byte> {
    var announced := Announced(text);
    h.Bytes() + [|announced|] + announced + (if announced == [] then [] else Zeros(Padding(|announced|)))
  }

  function ReadBye(memory: seq<Byte>): Option<seq<Byte>>
    requires |memory| >= HEADER_SIZE
  {
    var offset := HEADER_SIZE + (HeaderOf(memory).Count() - 1) * 4;
    if offset >= |memory| || offset + 1 + memory[offset] > |memory| then None
    else Some(memory[offset + 1..offset + 1 + memory[offset]])
  }

  lemma ByeLength(n: nat)
    requires n < 0x100
    ensures PackageLength(LengthField(10 + n)) == if n == 0 then 12 else 9 + n + Padding(n)
  {
    LengthFieldExact(10 + n);
  }

  /** The length word of a goodbye covers the written bytes unless the text is empty,
      when three bytes of the package stay unwritten. */
  lemma NewByeHeader(ssrc: SsrcData, text: seq<Byte>, h: Header)
    requires h == ByeHeader(NewHeader(ssrc), text)
    ensures IsHeader(h, 203, 1, ssrc)
    ensures PackageLength(h.Length()) == |ByeBytes(h, text)| + (if |text| % 0x100 == 0 then 3 else 0)
  {
    var n := |Announced(text)|;
    HeaderFields(ssrc, GOODBYE, 1, LengthField(10 + n), h);
    ByeLength(n);
    assert |ByeBytes(h, text)| == if n == 0 then 9 else 9 + n + Padding(n);
  }

  /** A goodbye text is read back exactly when its length fits eight bits. */
  lemma ByeRoundTrip(h: Header, text: seq<Byte>, tail: seq<Byte>)
    requires h.Count() == 1
    ensures var memory := ByeBytes(h, text) + tail;
            HeaderOf(memory) == h && (ReadBye(memory) == Some(text) <==> |text| < 0x100)
  {
    var memory := ByeBytes(h, text) + tail;
    var announced := Announced(text);
    assert memory[..8] == h.Bytes();
    assert memory[8] == |announced| && memory[9..9 + |announced|] == announced;
    assert |text| < 0x100 ==> announced == text;
  }

  // ---------- application-defined packages ----------

  /** `name` has four bytes and `subType` five bits. */
  datatype Application = Application(name: seq<Byte>, data: seq<Byte>, subType: nat) {
    predicate WellFormed() { |name| == 4 && subType < 32 && HEADER_SIZE + 4 + |data| < 0x1_0000 }
  }

  function ApplicationHeader(h: Header, a: Application): Header
    requires a.WellFormed()
  {
    h.SetType(APPLICATION_DEFINED).SetLength(LengthField(HEADER_SIZE + 4 + |a.data|))
     .SetPadding(false).SetCount(a.subType)
  }

  function ApplicationBytes(h: Header, a: Application): seq<Byte> {
    h.Bytes() + a.name + a.data
  }

  function ReadApplication(memory: seq<Byte>): (r: Option<Application>)
    requires |memory| >= HEADER_SIZE
  {
    var h := HeaderOf(memory);
    var dataLength := (PackageLength(h.Length()) - HEADER_SIZE - 4) % 0x1_0000;
    if HEADER_SIZE + 4 + dataLength > |memory| then None
    else Some(Application(memory[8..12], memory[12..12 + dataLength], h.Count()))
  }

  lemma NewApplicationHeader(ssrc: SsrcData, a: Application, h: Header)
    requires a.WellFormed() && h == ApplicationHeader(NewHeader(ssrc), a)
    ensures IsHeader(h, 204, a.subType, ssrc)
    ensures h.Length() == LengthField(HEADER_SIZE + 4 + |a.data|)
  {
    var length := LengthField(12 + |a.data|);
    HeaderFields(ssrc, APPLICATION_DEFINED, a.subType, length, h);
  }

  lemma ApplicationLength(n: nat)
    requires 12 + n < 0x1_0000 && n % 4 == 0
    ensures (PackageLength(LengthField(12 + n)) - 12) % 0x1_0000 == n <==> 12 + n <= 1024
  {
  }

  /** Application data in whole words is read back exactly when the package has at most 1024 bytes. */
  lemma ApplicationRoundTrip(h: Header, a: Application, tail: seq<Byte>)
    requires a.WellFormed() && |a.data| % 4 == 0
    requires h.Count() == a.subType && h.Length() == LengthField(HEADER_SIZE + 4 + |a.data|)
    ensures var memory := ApplicationBytes(h, a) + tail;
            && HeaderOf(memory) == h
            && (ReadApplication(memory) == Some(a) <==> HEADER_SIZE + 4 + |a.data| <= 1024)
  {
    FourSlices(h.Bytes(), a.name, a.data, tail);
    ApplicationLength(|a.data|);
  }

  // ---------- the bytes of a package ----------

  /** A sender report: sender information from byte 8, and 24 bytes for each report from byte 28 on. */
  lemma SenderReportOnWire(h: Header, info: SenderInformation, reports: seq<ReceptionReport>, i: nat)
    requires i < |reports|
    ensures var bytes := SenderReportBytes(h, info, reports);
            var at := 28 + 24 * i;
            && |bytes| == 28 + 24 * |reports| && bytes[..8] == h.Bytes() && bytes[8..28] == info.data
            && bytes[at..at + 24] == reports[i].data
  {
    var bytes, at := SenderReportBytes(h, info, reports), 24 * i;
    ReportsBytesAt(reports, i);
    assert bytes[28 + at..28 + at + 24] == ReportsBytes(reports)[at..at + 24];
  }

  /** A receiver report: 24 bytes for each report from byte 8 on. */
  lemma ReceiverReportOnWire(h: Header, reports: seq<ReceptionReport>, i: nat)
    requires i < |reports|
    ensures var bytes := ReceiverReportBytes(h, reports);
            var at := 8 + 24 * i;
            |bytes| == 8 + 24 * |reports| && bytes[..8] == h.Bytes() && bytes[at..at + 24] == reports[i].data
  {
    var bytes, at := ReceiverReportBytes(h, reports), 24 * i;
    ReportsBytesAt(reports, i);
    assert bytes[8 + at..8 + at + 24] == ReportsBytes(reports)[at..at + 24];
  }

  /** An item: its type, its length in eight bits, and as much of its value. */
  lemma ItemOnWire(d: Description, rest: seq<Description>)
    ensures var n := |d.value| % 256;
            ItemsBytes([d] + rest) == [d.key, n] + d.value[..n] + ItemsBytes(rest)
  {
    assert ([d] + rest)[1..] == rest;
  }

  /** A goodbye: the length of the text in byte 8, the text, and one to four nulls behind it up to a whole word. */
  lemma GoodbyeOnWire(h: Header, text: seq<Byte>)
    ensures var bytes, n := ByeBytes(h, text), |text| % 256;
            && bytes[..8] == h.Bytes() && |bytes| >= 9 + n && bytes[8] == n && bytes[9..9 + n] == text[..n]
            && if n == 0 then |bytes| == 9
               else |bytes| % 4 == 0 && 10 + n <= |bytes| <= 13 + n && forall k | 9 + n <= k < |bytes| :: bytes[k] == 0
  {
  }

  /** A goodbye with further sources in front of its text is read, too; a count of zero makes the first byte of the
      source the length. */
  lemma GoodbyeOfSources(h: Header, others: seq<Byte>, text: seq<Byte>, tail: seq<Byte>)
    requires |text| < 256 && (h.Count() == 0 || |others| == 4 * (h.Count() - 1))
    ensures h.Count() > 0 ==> ReadBye(h.Bytes() + others + ([|text|] + text + tail)) == Some(text)
    ensures var memory := h.Bytes() + others;
            h.Count() == 0 ==>
              ReadBye(memory) == if 5 + h.ssrc[0] > |memory| then None else Some(memory[5..5 + h.ssrc[0]])
  {
    var memory := h.Bytes() + others + ([|text|] + text + tail);
    var at := 8 + |others|;
    assert memory[..8] == h.Bytes() && (h.Bytes() + others)[..8] == h.Bytes();
    assert memory[at] == |text| && memory[at + 1..at + 1 + |text|] == text;
    assert (h.Bytes() + others)[4] == h.Bytes()[4] == h.ssrc[0];
  }

  /** An application-defined package: four bytes of name and the data. */
  lemma ApplicationOnWire(h: Header, a: Application)
    requires a.WellFormed()
    ensures var bytes := ApplicationBytes(h, a);
            bytes[..8] == h.Bytes() && bytes[8..12] == a.name && bytes[12..] == a.data
  {
  }

  /** The length of the data is taken from the length word in 16 bits, so that a package that announces less than its
      own name is read as one of almost 64 kilobytes. */
  lemma ApplicationLengthRead(memory: seq<Byte>)
    requires |memory| >= HEADER_SIZE && HeaderOf(memory).Length() < 0x4002
    ensures var words := HeaderOf(memory).Length();
            var n := if words < 2 then 65528 + 4 * words else 4 * words - 8;
            ReadApplication(memory) ==
            if 12 + n > |memory| then None
            else Some(Application(memory[8..12], memory[12..12 + n], HeaderOf(memory).Count()))
  {
  }
}

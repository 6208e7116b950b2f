/** Whole compounds as they are sent: what the buffer holds after each, and what is read from it. */
module RtcpSends {
  import opened Words
  import opened Wrappers
  import opened RtcpFormat
  import opened RtcpRoundTrip
  import opened RtcpCompound
  import opened RtcpMessages

  const BUFFER_SIZE := 8000

  /** A report, with the sender information if there is one, and the source descriptions. */
  datatype Sending = Sending(sender: Option<SenderInformation>, reports: seq<ReceptionReport>, ds: seq<Description>) {
    predicate Fits() { |reports| < 32 && PaddedEnd(ds) <= 1024 }

    /** Where the source description starts, where its items end, and where the package does. */
    function ReportEnd(): nat { (if sender.Some? then 28 else 8) + 24 * |reports| }
    function Gap(): nat { ReportEnd() + ItemsEnd(ds) }
    function DescriptionEnd(): nat { ReportEnd() + PaddedEnd(ds) + 1 }
  }

  function ReportBytes(ssrc: SsrcData, x: Sending): (bytes: seq<Byte>)
    requires x.Fits()
    ensures |bytes| == x.ReportEnd()
  {
    match x.sender
    case Some(info) => SenderReportBytes(SenderReportHeader(NewHeader(ssrc), |x.reports|), info, x.reports)
    case None => ReceiverReportBytes(ReceiverReportHeader(NewHeader(ssrc), |x.reports|), x.reports)
  }

  function DescriptionBytes(ssrc: SsrcData, x: Sending): (bytes: seq<Byte>)
    requires x.Fits()
    ensures |bytes| == ItemsEnd(x.ds)
  {
    DescriptionHeader(NewHeader(ssrc), x.ds).Bytes() + ItemsBytes(x.ds)
  }

  function WithReport(before: seq<Byte>, ssrc: SsrcData, x: Sending): (after: seq<Byte>)
    requires |before| == BUFFER_SIZE && x.Fits()
    ensures |after| == BUFFER_SIZE
  {
    Overwrite(before, 0, ReportBytes(ssrc, x))
  }

  /** The buffer after a report and a source description are written over what was there. */
  function WithDescription(before: seq<Byte>, ssrc: SsrcData, x: Sending): (after: seq<Byte>)
    requires |before| == BUFFER_SIZE && x.Fits()
    ensures |after| == BUFFER_SIZE
  {
    Described(WithReport(before, ssrc, x), x.ReportEnd(), DescriptionHeader(NewHeader(ssrc), x.ds), x.ds)
  }

  function GoodbyeBytes(ssrc: SsrcData, text: seq<Byte>): (bytes: seq<Byte>)
    ensures |bytes| <= 268
  {
    ByeBytes(ByeHeader(NewHeader(ssrc), text), text)
  }

  function GoodbyeEnd(ssrc: SsrcData, x: Sending, text: seq<Byte>): nat
    requires x.Fits()
  {
    x.DescriptionEnd() + PackageLength(ByeHeader(NewHeader(ssrc), text).Length())
  }

  /** The buffer after a goodbye has been written behind them. */
  function WithGoodbye(before: seq<Byte>, ssrc: SsrcData, x: Sending, text: seq<Byte>): (after: seq<Byte>)
    requires |before| == BUFFER_SIZE && x.Fits()
    ensures |after| == BUFFER_SIZE
  {
    Overwrite(WithDescription(before, ssrc, x), x.DescriptionEnd(), GoodbyeBytes(ssrc, text))
  }

  // ---------- which bytes are written ----------

  function OrElse(written: Option<Byte>, before: Byte): Byte {
    if written.Some? then written.value else before
  }

  /** The byte a report and a source description leave at `k`, if they write there. */
  function DescriptionWrote(ssrc: SsrcData, x: Sending, k: nat): Option<Byte>
    requires x.Fits()
  {
    var a := x.ReportEnd();
    if k < a then Some(ReportBytes(ssrc, x)[k])
    else if k < x.Gap() then Some(DescriptionBytes(ssrc, x)[k - a])
    else if a + PaddedEnd(x.ds) <= k < a + PaddedEnd(x.ds) + Padding(ItemsEnd(x.ds)) then Some(0)
    else None
  }

  function GoodbyeWrote(ssrc: SsrcData, x: Sending, text: seq<Byte>, k: nat): Option<Byte>
    requires x.Fits()
  {
    var b := x.DescriptionEnd();
    if b <= k < b + |GoodbyeBytes(ssrc, text)| then Some(GoodbyeBytes(ssrc, text)[k - b])
    else DescriptionWrote(ssrc, x, k)
  }

  lemma OverwriteAt(s: seq<Byte>, at: nat, bytes: seq<Byte>, k: nat)
    requires at + |bytes| <= |s| && k < |s|
    ensures Overwrite(s, at, bytes)[k] == if at <= k < at + |bytes| then bytes[k - at] else s[k]
  {
  }

  lemma DescriptionWroteExactly(before: seq<Byte>, ssrc: SsrcData, x: Sending, k: nat)
    requires |before| == BUFFER_SIZE && x.Fits() && k < BUFFER_SIZE
    ensures WithDescription(before, ssrc, x)[k] == OrElse(DescriptionWrote(ssrc, x, k), before[k])
  {
    hide Overwrite, ReportBytes, ItemsBytes, DescriptionHeader;
    var a, bytes := x.ReportEnd(), DescriptionBytes(ssrc, x);
    var s := WithReport(before, ssrc, x);
    OverwriteAt(before, 0, ReportBytes(ssrc, x), k);
    OverwriteAt(s, a, bytes, k);
    OverwriteAt(Overwrite(s, a, bytes), a + PaddedEnd(x.ds), Zeros(Padding(ItemsEnd(x.ds))), k);
  }

  lemma GoodbyeWroteExactly(before: seq<Byte>, ssrc: SsrcData, x: Sending, text: seq<Byte>, k: nat)
    requires |before| == BUFFER_SIZE && x.Fits() && k < BUFFER_SIZE
    ensures WithGoodbye(before, ssrc, x, text)[k] == OrElse(GoodbyeWrote(ssrc, x, text, k), before[k])
  {
    hide Overwrite, WithDescription, GoodbyeBytes, DescriptionWrote;
    DescriptionWroteExactly(before, ssrc, x, k);
    OverwriteAt(WithDescription(before, ssrc, x), x.DescriptionEnd(), GoodbyeBytes(ssrc, text), k);
  }

  /** The byte behind the items is written by neither. */
  lemma GapUnwritten(ssrc: SsrcData, x: Sending, text: seq<Byte>)
    requires x.Fits()
    ensures DescriptionWrote(ssrc, x, x.Gap()) == None && GoodbyeWrote(ssrc, x, text, x.Gap()) == None
  {
  }

  // ---------- what a buffer with a compound in it holds ----------

  /** Report, header and items lie at the start of the memory. */
  ghost predicate Written(memory: seq<Byte>, ssrc: SsrcData, x: Sending)
    requires x.Fits()
  {
    && x.DescriptionEnd() <= |memory|
    && memory[..x.ReportEnd()] == ReportBytes(ssrc, x)
    && memory[x.ReportEnd()..x.Gap()] == DescriptionBytes(ssrc, x)
  }

  lemma WrittenAt(memory: seq<Byte>, ssrc: SsrcData, x: Sending)
    requires x.Fits() && x.DescriptionEnd() <= |memory|
    requires forall k | 0 <= k < x.Gap() :: Some(memory[k]) == DescriptionWrote(ssrc, x, k)
    ensures Written(memory, ssrc, x)
  {
    hide ReportBytes, DescriptionBytes;
    var a := x.ReportEnd();
    forall k | 0 <= k < a ensures memory[..a][k] == ReportBytes(ssrc, x)[k] {
      assert memory[..a][k] == memory[k];
    }
    forall k | 0 <= k < ItemsEnd(x.ds) ensures memory[a..x.Gap()][k] == DescriptionBytes(ssrc, x)[k] {
      assert memory[a..x.Gap()][k] == memory[a + k];
    }
  }

  lemma DescriptionWritten(before: seq<Byte>, ssrc: SsrcData, x: Sending)
    requires |before| == BUFFER_SIZE && x.Fits()
    ensures Written(WithDescription(before, ssrc, x), ssrc, x)
  {
    hide WithDescription, Written;
    forall k | 0 <= k < x.Gap()
      ensures Some(WithDescription(before, ssrc, x)[k]) == DescriptionWrote(ssrc, x, k)
    {
      DescriptionWroteExactly(before, ssrc, x, k);
    }
    WrittenAt(WithDescription(before, ssrc, x), ssrc, x);
  }

  lemma GoodbyeWritten(before: seq<Byte>, ssrc: SsrcData, x: Sending, text: seq<Byte>)
    requires |before| == BUFFER_SIZE && x.Fits()
    ensures var b, bytes := x.DescriptionEnd(), GoodbyeBytes(ssrc, text);
            && Written(WithGoodbye(before, ssrc, x, text), ssrc, x)
            && WithGoodbye(before, ssrc, x, text)[b..b + |bytes|] == bytes
  {
    hide WithGoodbye, Written, GoodbyeBytes;
    var memory, b, bytes := WithGoodbye(before, ssrc, x, text), x.DescriptionEnd(), GoodbyeBytes(ssrc, text);
    forall k | 0 <= k < x.Gap() ensures Some(memory[k]) == DescriptionWrote(ssrc, x, k) {
      GoodbyeWroteExactly(before, ssrc, x, text, k);
    }
    WrittenAt(memory, ssrc, x);
    forall k | 0 <= k < |bytes| ensures memory[b..b + |bytes|][k] == bytes[k] {
      GoodbyeWroteExactly(before, ssrc, x, text, b + k);
    }
  }

  // ---------- the packages are whole ----------

  function ReportType(x: Sending): Byte {
    if x.sender.Some? then SENDER_REPORT else RECEIVER_REPORT
  }

  lemma ReportWhole(memory: seq<Byte>, ssrc: SsrcData, x: Sending)
    requires x.Fits() && Written(memory, ssrc, x)
    ensures IsPackageOf(memory[..x.ReportEnd()], ReportType(x), ssrc)
  {
    hide IsPackageOf;
    match x.sender {
      case Some(info) =>
        var h := SenderReportHeader(NewHeader(ssrc), |x.reports|);
        NewSenderHeader(ssrc, |x.reports|, h);
        SenderReportWhole(ssrc, h, info, x.reports);
      case None =>
        var h := ReceiverReportHeader(NewHeader(ssrc), |x.reports|);
        NewReceiverHeader(ssrc, |x.reports|, h);
        ReceiverReportWhole(ssrc, h, x.reports);
    }
  }

  lemma DescriptionWhole(memory: seq<Byte>, ssrc: SsrcData, x: Sending)
    requires x.Fits() && Written(memory, ssrc, x)
    ensures IsPackageOf(memory[x.ReportEnd()..x.DescriptionEnd()], SOURCE_DESCRIPTION, ssrc)
  {
    hide IsPackageOf, ItemsBytes, ReportBytes;
    var a, b, h := x.ReportEnd(), x.DescriptionEnd(), DescriptionHeader(NewHeader(ssrc), x.ds);
    NewDescriptionHeader(ssrc, x.ds, h);
    hide DescriptionHeader;
    assert memory[a..b] == h.Bytes() + (ItemsBytes(x.ds) + memory[x.Gap()..b]) by {
      assert memory[a..b] == memory[a..x.Gap()] + memory[x.Gap()..b];
    }
    WholeWithBody(h, ItemsBytes(x.ds) + memory[x.Gap()..b], SOURCE_DESCRIPTION, 1, ssrc);
  }

  lemma GoodbyeWhole(memory: seq<Byte>, ssrc: SsrcData, x: Sending, text: seq<Byte>)
    requires x.Fits() && |memory| == BUFFER_SIZE
    requires var b, bytes := x.DescriptionEnd(), GoodbyeBytes(ssrc, text); memory[b..b + |bytes|] == bytes
    ensures x.DescriptionEnd() + |GoodbyeBytes(ssrc, text)| <= GoodbyeEnd(ssrc, x, text) <= BUFFER_SIZE
    ensures IsPackageOf(memory[x.DescriptionEnd()..GoodbyeEnd(ssrc, x, text)], GOODBYE, ssrc)
  {
    hide IsPackageOf, PaddedEnd;
    var h, b, bytes := ByeHeader(NewHeader(ssrc), text), x.DescriptionEnd(), GoodbyeBytes(ssrc, text);
    NewByeHeader(ssrc, text, h);
    var p := memory[b..GoodbyeEnd(ssrc, x, text)];
    assert p[..HEADER_SIZE] == memory[b..b + |bytes|][..HEADER_SIZE];
    assert bytes[..HEADER_SIZE] == h.Bytes();
    WholePackage(p, h, GOODBYE, 1, ssrc);
  }

  // ---------- what is read from it ----------

  function ReportMessage(ssrc: SsrcData, x: Sending): Message {
    match x.sender
    case Some(info) => SenderReport(ssrc, info, x.reports)
    case None => ReceiverReport(ssrc, x.reports)
  }

  /** A receiver report of three or more blocks is read right only by chance. */
  ghost predicate ReportReadable(memory: seq<Byte>, x: Sending) {
    x.sender.Some? || forall i: nat | 2 <= i < |x.reports| :: BlockFound(memory, x.reports, i)
  }

  lemma SenderReportRead(memory: seq<Byte>, ssrc: SsrcData, info: SenderInformation, reports: seq<ReceptionReport>,
                         tail: seq<Byte>)
    requires |reports| < 32
    requires memory == SenderReportBytes(SenderReportHeader(NewHeader(ssrc), |reports|), info, reports) + tail
    ensures HeaderOf(memory).Type() == SENDER_REPORT
    ensures SenderReportAt(memory) == Some(SenderReport(ssrc, info, reports))
  {
    hide ReadReports, ReportsBytes;
    var h := SenderReportHeader(NewHeader(ssrc), |reports|);
    NewSenderHeader(ssrc, |reports|, h);
    SenderReportRoundTrip(h, info, reports, tail);
  }

  lemma ReceiverReportRead(memory: seq<Byte>, ssrc: SsrcData, reports: seq<ReceptionReport>, tail: seq<Byte>)
    requires |reports| < 32
    requires memory == ReceiverReportBytes(ReceiverReportHeader(NewHeader(ssrc), |reports|), reports) + tail
    ensures HeaderOf(memory).Type() == RECEIVER_REPORT
    ensures ReceiverReportAt(memory) == Some(ReceiverReport(ssrc, reports))
            <==> forall i: nat | 2 <= i < |reports| :: BlockFound(memory, reports, i)
  {
    hide ReadSkipping, ReceiverReportBytes, BlockFound;
    var h := ReceiverReportHeader(NewHeader(ssrc), |reports|);
    NewReceiverHeader(ssrc, |reports|, h);
    ReceiverReportRoundTrip(h, reports, tail);
  }

  /** The report read is the one given, exactly if every block behind the second is found in a receiver report. */
  lemma ReportSent(memory: seq<Byte>, ssrc: SsrcData, x: Sending, remaining: U32)
    requires x.Fits() && Written(memory, ssrc, x)
    ensures HeaderOf(memory).Type() == ReportType(x)
    ensures ReadMessage(memory, remaining) == Some(ReportMessage(ssrc, x)) <==> ReportReadable(memory, x)
  {
    hide SenderReportAt, ReceiverReportAt, HeaderOf, SenderReportBytes, ReceiverReportBytes, BlockFound;
    var tail := memory[x.ReportEnd()..];
    assert memory == ReportBytes(ssrc, x) + tail;
    match x.sender {
      case Some(info) => SenderReportRead(memory, ssrc, info, x.reports, tail);
      case None => ReceiverReportRead(memory, ssrc, x.reports, tail);
    }
  }

  ghost predicate AllReadable(ds: seq<Description>) {
    forall d | d in ds :: Readable(d)
  }

  lemma DescriptionsRead(memory: seq<Byte>, h: Header, ds: seq<Description>, tail: seq<Byte>, remaining: U32)
    requires memory == h.Bytes() + ItemsBytes(ds) + tail && tail != [] && ItemsEnd(ds) < remaining < 0x1_0000
    ensures HeaderOf(memory) == h
    ensures SourceDescriptionAt(memory, remaining) == Some(SourceDescription(h.ssrc, ds))
            <==> AllReadable(ds) && tail[0] == 0
  {
    hide ReadItems, ItemsBytes;
    DescriptionsRoundTrip(h, ds, tail, remaining);
  }

  /** The source descriptions read are those given, exactly if they are readable and the byte behind them is a null. */
  lemma DescriptionsSent(memory: seq<Byte>, ssrc: SsrcData, x: Sending, remaining: U32)
    requires x.Fits() && Written(memory, ssrc, x)
    requires x.DescriptionEnd() - x.ReportEnd() <= remaining < 0x1_0000
    ensures HeaderOf(memory[x.ReportEnd()..]).Type() == SOURCE_DESCRIPTION
    ensures ReadMessage(memory[x.ReportEnd()..], remaining) == Some(SourceDescription(ssrc, x.ds))
            <==> AllReadable(x.ds) && memory[x.Gap()] == 0
  {
    hide SourceDescriptionAt, ItemsBytes, ReportBytes, HeaderOf, Readable;
    var a, h, tail := x.ReportEnd(), DescriptionHeader(NewHeader(ssrc), x.ds), memory[x.Gap()..];
    NewDescriptionHeader(ssrc, x.ds, h);
    assert memory[a..] == memory[a..x.Gap()] + tail;
    DescriptionsRead(memory[a..], h, x.ds, tail, remaining);
  }

  /** The text read is the one given exactly if its length fits eight bits. */
  lemma TextSent(memory: seq<Byte>, ssrc: SsrcData, x: Sending, text: seq<Byte>, remaining: U32)
    requires x.Fits() && |memory| == BUFFER_SIZE
    requires var b, bytes := x.DescriptionEnd(), GoodbyeBytes(ssrc, text); memory[b..b + |bytes|] == bytes
    ensures HeaderOf(memory[x.DescriptionEnd()..]).Type() == GOODBYE
    ensures ReadMessage(memory[x.DescriptionEnd()..], remaining) == Some(Goodbye(ssrc, text)) <==> |text| < 0x100
  {
    hide ReadBye, ByeBytes, PaddedEnd, HeaderOf;
    var b, bytes := x.DescriptionEnd(), GoodbyeBytes(ssrc, text);
    var h, tail := ByeHeader(NewHeader(ssrc), text), memory[b + |bytes|..];
    NewByeHeader(ssrc, text, h);
    assert memory[b..] == bytes + tail;
    ByeRoundTrip(h, text, tail);
  }

  /** A report and a source description are counted as two packages, with nothing remaining. */
  lemma DescriptionCounted(memory: seq<Byte>, ssrc: SsrcData, x: Sending)
    requires x.Fits() && Written(memory, ssrc, x) && |memory| < 0x1_0000_0000
    ensures CountPackages(memory, 0, x.DescriptionEnd()) == Some((2, 0))
  {
    hide CountPackages, IsPackage, ReportBytes, DescriptionBytes;
    ReportWhole(memory, ssrc, x);
    DescriptionWhole(memory, ssrc, x);
    TwoCounted(memory, x.ReportEnd(), x.DescriptionEnd());
  }

  /** With a goodbye they are three. */
  lemma GoodbyeCounted(memory: seq<Byte>, ssrc: SsrcData, x: Sending, text: seq<Byte>)
    requires x.Fits() && Written(memory, ssrc, x) && |memory| == BUFFER_SIZE
    requires var b, bytes := x.DescriptionEnd(), GoodbyeBytes(ssrc, text); memory[b..b + |bytes|] == bytes
    ensures GoodbyeEnd(ssrc, x, text) <= BUFFER_SIZE
    ensures CountPackages(memory, 0, GoodbyeEnd(ssrc, x, text)) == Some((3, 0))
  {
    hide CountPackages, IsPackage, Written, GoodbyeBytes;
    ReportWhole(memory, ssrc, x);
    DescriptionWhole(memory, ssrc, x);
    GoodbyeWhole(memory, ssrc, x, text);
    ThreeCounted(memory, x.ReportEnd(), x.DescriptionEnd(), GoodbyeEnd(ssrc, x, text));
  }

  // ---------- a whole compound ----------

  lemma FrontHandled(memory: seq<Byte>, ssrc: SsrcData, x: Sending, end: nat, rest: seq<Message>)
    requires x.Fits() && Written(memory, ssrc, x) && x.DescriptionEnd() <= end <= |memory| < 0x1_0000
    ensures HandlePackages(memory, 0, end) == Some([ReportMessage(ssrc, x)] + ([SourceDescription(ssrc, x.ds)] + rest))
            <==> && ReportReadable(memory, x) && AllReadable(x.ds) && memory[x.Gap()] == 0
                 && HandlePackages(memory, x.DescriptionEnd(), end - x.DescriptionEnd()) == Some(rest)
  {
    hide HandlePackages, IsPackage, Then, ReadMessage, Written, ReportReadable, AllReadable;
    var a, b := x.ReportEnd(), x.DescriptionEnd();
    ReportWhole(memory, ssrc, x);
    DescriptionWhole(memory, ssrc, x);
    assert memory[0..a] == memory[..a] && memory[0..] == memory;
    HandleOne(memory, 0, a, end);
    HandleOne(memory, a, b, end - a);
    ReportSent(memory, ssrc, x, end);
    DescriptionsSent(memory, ssrc, x, end - a);
    var behind := HandlePackages(memory, b, end - b);
    var d := SourceDescription(ssrc, x.ds);
    ThenExactly(ReadMessage(memory[a..], end - a), behind, d, rest);
    ThenExactly(ReadMessage(memory, end), HandlePackages(memory, a, end - a), ReportMessage(ssrc, x), [d] + rest);
  }

  /** The messages handled are the report and the source descriptions given, exactly if each of them is read. */
  lemma DescriptionHandled(memory: seq<Byte>, ssrc: SsrcData, x: Sending)
    requires x.Fits() && Written(memory, ssrc, x) && |memory| == BUFFER_SIZE
    ensures HandlePackages(memory, 0, x.DescriptionEnd())
            == Some([ReportMessage(ssrc, x), SourceDescription(ssrc, x.ds)])
            <==> ReportReadable(memory, x) && AllReadable(x.ds) && memory[x.Gap()] == 0
  {
    hide HandlePackages, Written, ReportReadable, AllReadable;
    var r, d := ReportMessage(ssrc, x), SourceDescription(ssrc, x.ds);
    assert [r] + ([d] + []) == [r, d];
    FrontHandled(memory, ssrc, x, x.DescriptionEnd(), []);
    HandleNothing(memory, x.DescriptionEnd());
  }

  lemma GoodbyeLast(memory: seq<Byte>, ssrc: SsrcData, x: Sending, text: seq<Byte>)
    requires x.Fits() && |memory| == BUFFER_SIZE
    requires var b, bytes := x.DescriptionEnd(), GoodbyeBytes(ssrc, text); memory[b..b + |bytes|] == bytes
    ensures x.DescriptionEnd() <= GoodbyeEnd(ssrc, x, text) <= BUFFER_SIZE
    ensures (HandlePackages(memory, x.DescriptionEnd(), GoodbyeEnd(ssrc, x, text) - x.DescriptionEnd())
             == Some([Goodbye(ssrc, text)])) <==> |text| < 0x100
  {
    hide HandlePackages, IsPackage, Then, ReadMessage, GoodbyeBytes;
    var b, end := x.DescriptionEnd(), GoodbyeEnd(ssrc, x, text);
    GoodbyeWhole(memory, ssrc, x, text);
    HandleOne(memory, b, end, end - b);
    TextSent(memory, ssrc, x, text, end - b);
    ThenExactly(ReadMessage(memory[b..], end - b), HandlePackages(memory, end, 0), Goodbye(ssrc, text), []);
  }

  /** So it is with a goodbye behind them, whose text must fit its length. */
  lemma GoodbyeHandled(memory: seq<Byte>, ssrc: SsrcData, x: Sending, text: seq<Byte>)
    requires x.Fits() && Written(memory, ssrc, x) && |memory| == BUFFER_SIZE
    requires var b, bytes := x.DescriptionEnd(), GoodbyeBytes(ssrc, text); memory[b..b + |bytes|] == bytes
    ensures GoodbyeEnd(ssrc, x, text) <= BUFFER_SIZE
    ensures HandlePackages(memory, 0, GoodbyeEnd(ssrc, x, text))
            == Some([ReportMessage(ssrc, x), SourceDescription(ssrc, x.ds), Goodbye(ssrc, text)])
            <==> ReportReadable(memory, x) && AllReadable(x.ds) && memory[x.Gap()] == 0 && |text| < 0x100
  {
    hide HandlePackages, Written, ReportReadable, AllReadable, GoodbyeBytes;
    var r, d, g := ReportMessage(ssrc, x), SourceDescription(ssrc, x.ds), Goodbye(ssrc, text);
    assert [r] + ([d] + [g]) == [r, d, g];
    GoodbyeLast(memory, ssrc, x, text);
    FrontHandled(memory, ssrc, x, GoodbyeEnd(ssrc, x, text), [g]);
  }
}

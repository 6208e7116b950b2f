/** Runs of the RTCP thread: compounds are built in the one buffer that packages are also received into. */
module RtcpRuns {
  import opened Words
  import opened Wrappers
  import opened RtcpFormat
  import opened RtcpRoundTrip
  import opened RtcpCompound
  import opened RtcpMessages
  import opened RtcpSends

  /** A report with the source description, the same with a goodbye, or a package received. */
  datatype Event =
    | SendDescription(x: Sending)
    | SendGoodbye(x: Sending, text: seq<Byte>)
    | Receive(bytes: seq<Byte>)
  {
    predicate Fits() { if Receive? then |bytes| <= BUFFER_SIZE else x.Fits() }
  }

  /** The goodbye is the last thing sent. */
  ghost predicate IsRun(es: seq<Event>) {
    forall i | 0 <= i < |es| :: es[i].Fits() && (es[i].SendGoodbye? ==> i == |es| - 1)
  }

  /** A received package is written at the start of the buffer. */
  function Received(before: seq<Byte>, bytes: seq<Byte>): (after: seq<Byte>)
    requires |bytes| <= |before|
    ensures |after| == |before|
  {
    Overwrite(before, 0, bytes)
  }

  function After(before: seq<Byte>, ssrc: SsrcData, e: Event): (after: seq<Byte>)
    requires |before| == BUFFER_SIZE && e.Fits()
    ensures |after| == BUFFER_SIZE
  {
    match e
    case SendDescription(x) => WithDescription(before, ssrc, x)
    case SendGoodbye(x, text) => WithGoodbye(before, ssrc, x, text)
    case Receive(bytes) => Received(before, bytes)
  }

  /** The buffer after a run. */
  ghost function AfterAll(before: seq<Byte>, ssrc: SsrcData, es: seq<Event>): (after: seq<Byte>)
    requires |before| == BUFFER_SIZE && IsRun(es)
    ensures |after| == BUFFER_SIZE
  {
    if es == [] then before else After(AfterAll(before, ssrc, es[..|es| - 1]), ssrc, es[|es| - 1])
  }

  // ---------- every byte is the last one written ----------

  /** The byte an event leaves at `k`, if it writes there. */
  function Wrote(ssrc: SsrcData, e: Event, k: nat): Option<Byte>
    requires e.Fits()
  {
    match e
    case SendDescription(x) => DescriptionWrote(ssrc, x, k)
    case SendGoodbye(x, text) => GoodbyeWrote(ssrc, x, text, k)
    case Receive(bytes) => if k < |bytes| then Some(bytes[k]) else None
  }

  /** The byte left at `k` by the last event that wrote there. */
  ghost function LastWritten(ssrc: SsrcData, es: seq<Event>, k: nat): Option<Byte>
    requires IsRun(es)
  {
    if es == [] then None
    else
      var last := Wrote(ssrc, es[|es| - 1], k);
      if last.Some? then last else LastWritten(ssrc, es[..|es| - 1], k)
  }

  lemma WroteExactly(before: seq<Byte>, ssrc: SsrcData, e: Event, k: nat)
    requires |before| == BUFFER_SIZE && e.Fits() && k < BUFFER_SIZE
    ensures After(before, ssrc, e)[k] == OrElse(Wrote(ssrc, e, k), before[k])
  {
    hide WithDescription, WithGoodbye, Overwrite, DescriptionWrote, GoodbyeWrote;
    match e
    case SendDescription(x) => DescriptionWroteExactly(before, ssrc, x, k);
    case SendGoodbye(x, text) => GoodbyeWroteExactly(before, ssrc, x, text, k);
    case Receive(bytes) => OverwriteAt(before, 0, bytes, k);
  }

  /** In every run each byte of the buffer is the one last written there, or as it was before. */
  lemma {:induction false} BufferAfterRun(before: seq<Byte>, ssrc: SsrcData, es: seq<Event>, k: nat)
    requires |before| == BUFFER_SIZE && IsRun(es) && k < BUFFER_SIZE
    ensures AfterAll(before, ssrc, es)[k] == OrElse(LastWritten(ssrc, es, k), before[k])
    decreases |es|
  {
    hide After, Wrote;
    if es == [] {
    } else {
      var front, last := es[..|es| - 1], es[|es| - 1];
      BufferAfterRun(before, ssrc, front, k);
      WroteExactly(AfterAll(before, ssrc, front), ssrc, last, k);
    }
  }

  // ---------- what arrives ----------

  /** The number of bytes sent. */
  function Length(ssrc: SsrcData, e: Event): nat
    requires e.Fits() && !e.Receive?
  {
    match e
    case SendDescription(x) => x.DescriptionEnd()
    case SendGoodbye(x, text) => GoodbyeEnd(ssrc, x, text)
  }

  lemma LengthFits(ssrc: SsrcData, e: Event)
    requires e.Fits() && !e.Receive?
    ensures e.x.DescriptionEnd() <= Length(ssrc, e) <= BUFFER_SIZE
  {
    if e.SendGoodbye? {
      var h := ByeHeader(NewHeader(ssrc), e.text);
      NewByeHeader(ssrc, e.text, h);
    }
  }

  /** What the other side holds after the compound sent last from `buffer` has reached it. */
  function Arrived(theirs: seq<Byte>, buffer: seq<Byte>, ssrc: SsrcData, e: Event): (memory: seq<Byte>)
    requires |theirs| == |buffer| == BUFFER_SIZE && e.Fits() && !e.Receive?
    ensures |memory| == BUFFER_SIZE
  {
    LengthFits(ssrc, e);
    Received(theirs, buffer[..Length(ssrc, e)])
  }

  /** What it is to make of that. */
  function Messages(ssrc: SsrcData, e: Event): seq<Message>
    requires !e.Receive?
  {
    [ReportMessage(ssrc, e.x), SourceDescription(ssrc, e.x.ds)]
    + (if e.SendGoodbye? then [Goodbye(ssrc, e.text)] else [])
  }

  /** The source description read there, from all bytes behind the report, is the one given. */
  ghost predicate DescriptionArrives(memory: seq<Byte>, ssrc: SsrcData, e: Event)
    requires |memory| == BUFFER_SIZE && e.Fits() && !e.Receive?
  {
    var p := memory[e.x.ReportEnd()..];
    && HeaderOf(p).Type() == SOURCE_DESCRIPTION
    && ReadMessage(p, Length(ssrc, e) - e.x.ReportEnd()) == Some(SourceDescription(ssrc, e.x.ds))
  }

  /** All messages of the compound are handled there, and no others. */
  ghost predicate MessagesArrive(memory: seq<Byte>, ssrc: SsrcData, e: Event)
    requires |memory| == BUFFER_SIZE && e.Fits() && !e.Receive?
  {
    HandlePackages(memory, 0, Length(ssrc, e)) == Some(Messages(ssrc, e))
  }

  /** The last event that wrote at `k` left a null there, or none wrote there. */
  ghost predicate NullLeft(ssrc: SsrcData, es: seq<Event>, k: nat)
    requires IsRun(es)
  {
    OrElse(LastWritten(ssrc, es, k), 0) == 0
  }

  /** The compound in the buffer, with the goodbye if there is one. */
  ghost predicate Holds(memory: seq<Byte>, ssrc: SsrcData, e: Event)
    requires |memory| == BUFFER_SIZE && e.Fits() && !e.Receive?
  {
    && Written(memory, ssrc, e.x)
    && (e.SendGoodbye? ==> var b, bytes := e.x.DescriptionEnd(), GoodbyeBytes(ssrc, e.text);
                           memory[b..b + |bytes|] == bytes)
  }

  lemma SendHolds(before: seq<Byte>, ssrc: SsrcData, e: Event)
    requires |before| == BUFFER_SIZE && e.Fits() && !e.Receive?
    ensures Holds(After(before, ssrc, e), ssrc, e)
  {
    hide WithDescription, WithGoodbye, Written, GoodbyeBytes;
    if e.SendGoodbye? {
      GoodbyeWritten(before, ssrc, e.x, e.text);
    } else {
      DescriptionWritten(before, ssrc, e.x);
    }
  }

  lemma ArrivedHolds(theirs: seq<Byte>, buffer: seq<Byte>, ssrc: SsrcData, e: Event)
    requires |theirs| == |buffer| == BUFFER_SIZE && e.Fits() && !e.Receive? && Holds(buffer, ssrc, e)
    ensures var memory := Arrived(theirs, buffer, ssrc, e);
            Holds(memory, ssrc, e) && memory[e.x.Gap()] == buffer[e.x.Gap()]
  {
    hide ReportBytes, DescriptionBytes, GoodbyeBytes;
    var n, memory := Length(ssrc, e), Arrived(theirs, buffer, ssrc, e);
    LengthFits(ssrc, e);
    assert memory[..n] == buffer[..n];
    SameSlice(memory, buffer, n, 0, e.x.ReportEnd());
    SameSlice(memory, buffer, n, e.x.ReportEnd(), e.x.Gap());
    assert memory[0..e.x.ReportEnd()] == memory[..e.x.ReportEnd()];
    assert buffer[0..e.x.ReportEnd()] == buffer[..e.x.ReportEnd()];
    if e.SendGoodbye? {
      GoodbyeWhole(buffer, ssrc, e.x, e.text);
      SameSlice(memory, buffer, n, e.x.DescriptionEnd(), e.x.DescriptionEnd() + |GoodbyeBytes(ssrc, e.text)|);
    }
    assert memory[..n][e.x.Gap()] == buffer[..n][e.x.Gap()];
  }

  lemma SameSlice(s: seq<Byte>, t: seq<Byte>, n: nat, a: nat, b: nat)
    requires a <= b <= n <= |s| && n <= |t| && s[..n] == t[..n]
    ensures s[a..b] == t[a..b]
  {
    assert s[a..b] == s[..n][a..b];
  }

  lemma HeldArrives(memory: seq<Byte>, ssrc: SsrcData, e: Event)
    requires |memory| == BUFFER_SIZE && e.Fits() && !e.Receive? && Holds(memory, ssrc, e)
    ensures DescriptionArrives(memory, ssrc, e) <==> AllReadable(e.x.ds) && memory[e.x.Gap()] == 0
    ensures MessagesArrive(memory, ssrc, e) <==>
            && DescriptionArrives(memory, ssrc, e) && ReportReadable(memory, e.x)
            && (e.SendGoodbye? ==> |e.text| < 0x100)
  {
    hide Written, GoodbyeBytes, ReadMessage, HandlePackages, AllReadable, ReportReadable;
    LengthFits(ssrc, e);
    DescriptionsSent(memory, ssrc, e.x, Length(ssrc, e) - e.x.ReportEnd());
    if e.SendGoodbye? {
      assert Messages(ssrc, e) == [ReportMessage(ssrc, e.x), SourceDescription(ssrc, e.x.ds), Goodbye(ssrc, e.text)];
      GoodbyeHandled(memory, ssrc, e.x, e.text);
    } else {
      assert Messages(ssrc, e) == [ReportMessage(ssrc, e.x), SourceDescription(ssrc, e.x.ds)];
      DescriptionHandled(memory, ssrc, e.x);
    }
  }

  /** In every run from a new buffer that ends with a send, the source description arrives exactly if it is readable
      and the last event that wrote the byte behind its items left a null there, or none wrote it. */
  lemma RunArrives(theirs: seq<Byte>, ssrc: SsrcData, es: seq<Event>, last: Event)
    requires |theirs| == BUFFER_SIZE && IsRun(es + [last]) && !last.Receive?
    ensures IsRun(es)
    ensures var memory := Arrived(theirs, AfterAll(Zeros(BUFFER_SIZE), ssrc, es + [last]), ssrc, last);
            && (DescriptionArrives(memory, ssrc, last) <==>
                AllReadable(last.x.ds) && NullLeft(ssrc, es, last.x.Gap()))
            && (MessagesArrive(memory, ssrc, last) <==>
                && DescriptionArrives(memory, ssrc, last) && ReportReadable(memory, last.x)
                && (last.SendGoodbye? ==> |last.text| < 0x100))
  {
    hide Holds, Wrote, Arrived, DescriptionArrives, MessagesArrive, AllReadable, ReportReadable;
    FrontRun(es, last);
    var before := AfterAll(Zeros(BUFFER_SIZE), ssrc, es);
    assert (es + [last])[..|es|] == es;
    var buffer := AfterAll(Zeros(BUFFER_SIZE), ssrc, es + [last]);
    assert buffer == After(before, ssrc, last);
    hide After;
    var k := last.x.Gap();
    BufferAfterRun(Zeros(BUFFER_SIZE), ssrc, es, k);
    WroteExactly(before, ssrc, last, k);
    GapKept(ssrc, last);
    SendHolds(before, ssrc, last);
    ArrivedHolds(theirs, buffer, ssrc, last);
    HeldArrives(Arrived(theirs, buffer, ssrc, last), ssrc, last);
  }

  lemma FrontRun(es: seq<Event>, last: Event)
    requires IsRun(es + [last])
    ensures IsRun(es) && last.Fits()
  {
    forall i | 0 <= i < |es| ensures es[i].Fits() && (es[i].SendGoodbye? ==> i == |es| - 1) {
      assert (es + [last])[i] == es[i];
    }
    assert (es + [last])[|es|] == last;
  }

  /** A send does not write behind its own items. */
  lemma GapKept(ssrc: SsrcData, e: Event)
    requires e.Fits() && !e.Receive?
    ensures Wrote(ssrc, e, e.x.Gap()) == None
  {
    GapUnwritten(ssrc, e.x, if e.SendGoodbye? then e.text else []);
  }

  // ---------- runs in which it arrives, and runs in which it does not ----------

  /** The items of what is sent end at `k` or in front of it, and so does all that is received. */
  ghost predicate Within(es: seq<Event>, k: nat) {
    forall i | 0 <= i < |es| ::
      match es[i]
      case SendDescription(x) => x.Gap() <= k
      case SendGoodbye(_, _) => false
      case Receive(bytes) => |bytes| <= k
  }

  lemma {:induction false} WithinLeavesNull(ssrc: SsrcData, es: seq<Event>, k: nat)
    requires IsRun(es) && Within(es, k)
    ensures NullLeft(ssrc, es, k)
    decreases |es|
  {
    hide ReportBytes, DescriptionBytes;
    if es == [] {
    } else {
      var front, last := es[..|es| - 1], es[|es| - 1];
      WithinLeavesNull(ssrc, front, k);
      assert OrElse(Wrote(ssrc, last, k), 0) == 0;
    }
  }

  /** As long as nothing longer was sent or received before, every readable source description arrives. */
  lemma WithinArrives(theirs: seq<Byte>, ssrc: SsrcData, es: seq<Event>, last: Event)
    requires |theirs| == BUFFER_SIZE && IsRun(es + [last]) && !last.Receive? && Within(es, last.x.Gap())
    ensures DescriptionArrives(Arrived(theirs, AfterAll(Zeros(BUFFER_SIZE), ssrc, es + [last]), ssrc, last), ssrc, last)
            <==> AllReadable(last.x.ds)
  {
    hide Arrived, AfterAll, DescriptionArrives, AllReadable, NullLeft;
    RunArrives(theirs, ssrc, es, last);
    WithinLeavesNull(ssrc, es, last.x.Gap());
  }

  /** A received package that goes further decides it by the byte it has behind the items to be sent. */
  lemma ReceivedDecides(theirs: seq<Byte>, ssrc: SsrcData, es: seq<Event>, bytes: seq<Byte>, last: Event)
    requires |theirs| == BUFFER_SIZE && IsRun(es + [Receive(bytes)] + [last]) && !last.Receive?
    requires last.x.Gap() < |bytes|
    ensures var run := es + [Receive(bytes)] + [last];
            DescriptionArrives(Arrived(theirs, AfterAll(Zeros(BUFFER_SIZE), ssrc, run), ssrc, last), ssrc, last)
            <==> AllReadable(last.x.ds) && bytes[last.x.Gap()] == 0
  {
    hide Arrived, AfterAll, DescriptionArrives, AllReadable;
    var before := es + [Receive(bytes)];
    RunArrives(theirs, ssrc, before, last);
    assert before[|before| - 1] == Receive(bytes);
  }

  function Name(n: nat): seq<Description> {
    [Description(1, seq(n, _ => 97))]
  }

  lemma NameReadable(n: nat)
    requires 0 < n < 0x100
    ensures AllReadable(Name(n)) && ItemsEnd(Name(n)) == 10 + n
    ensures forall k | 2 <= k < 2 + n :: ItemsBytes(Name(n))[k] == 97
  {
    var d := Name(n)[0];
    assert ItemsBytes(Name(n)) == ItemBytes(d) + ItemsBytes(Name(n)[1..]) == ItemBytes(d);
  }

  /** The compound a participant sends first. */
  function FirstCompound(ssrc: SsrcData, x: Sending): seq<Byte>
    requires x.Fits()
  {
    WithDescription(Zeros(BUFFER_SIZE), ssrc, x)[..x.DescriptionEnd()]
  }

  lemma LongerName(other: SsrcData, x: Sending, y: Sending, n: nat)
    requires x.Fits() && y.Fits() && x.ReportEnd() == y.ReportEnd()
    requires x.ds == Name(n) && y.ds == Name(n + 1) && 0 < n < 255
    ensures x.Gap() < |FirstCompound(other, y)| <= BUFFER_SIZE && FirstCompound(other, y)[x.Gap()] == 97
  {
    hide WithDescription, ReportBytes, DescriptionHeader;
    NameReadable(n);
    NameReadable(n + 1);
    DescriptionWroteExactly(Zeros(BUFFER_SIZE), other, y, x.Gap());
    assert DescriptionBytes(other, y)[10 + n] == ItemsBytes(y.ds)[2 + n];
  }

  lemma NameFits(x: Sending, n: nat)
    requires x.ds == Name(n) && 0 < n < 0x100 && |x.reports| < 32
    ensures x.Fits() && AllReadable(x.ds)
  {
    NameReadable(n);
  }

  /** A readable name, sent a second time unchanged, is lost when the other side's compound, which is like it but for
      a name that is longer by one, has been received in between. */
  lemma NameOverwritten(theirs: seq<Byte>, ssrc: SsrcData, other: SsrcData, x: Sending, y: Sending, n: nat,
                        last: Event)
    requires |theirs| == BUFFER_SIZE && 0 < n < 255 && |x.reports| < 32 && last == SendDescription(x)
    requires x.ds == Name(n) && y.ds == Name(n + 1) && y.sender.Some? == x.sender.Some? && |y.reports| == |x.reports|
    ensures x.Fits() && y.Fits() && AllReadable(x.ds)
    ensures var run := [last, Receive(FirstCompound(other, y)), last];
            && IsRun(run)
            && !DescriptionArrives(Arrived(theirs, AfterAll(Zeros(BUFFER_SIZE), ssrc, run), ssrc, last), ssrc, last)
  {
    hide FirstCompound, Arrived, AfterAll, DescriptionArrives, AllReadable, Name, PaddedEnd;
    NameFits(x, n);
    NameFits(y, n + 1);
    LongerName(other, x, y, n);
    var bytes := FirstCompound(other, y);
    assert IsRun([last, Receive(bytes), last]);
    assert [last] + [Receive(bytes)] + [last] == [last, Receive(bytes), last];
    ReceivedDecides(theirs, ssrc, [last], bytes, last);
  }

  /** Nothing but packages that end in front of `k` is received. */
  ghost predicate Quiet(es: seq<Event>, k: nat) {
    forall i | 0 <= i < |es| :: es[i].Receive? && |es[i].bytes| <= k
  }

  lemma {:induction false} QuietKeeps(ssrc: SsrcData, es: seq<Event>, quiet: seq<Event>, k: nat)
    requires IsRun(es + quiet) && IsRun(es) && Quiet(quiet, k)
    ensures LastWritten(ssrc, es + quiet, k) == LastWritten(ssrc, es, k)
    decreases |quiet|
  {
    if quiet == [] {
      assert es + quiet == es;
    } else {
      var front := quiet[..|quiet| - 1];
      assert (es + quiet)[..|es + quiet| - 1] == es + front;
      assert (es + quiet)[|es + quiet| - 1] == quiet[|quiet| - 1];
      hide IsRun;
      QuietKeeps(ssrc, es, front, k);
    }
  }

  /** The byte behind the items of `x` that is left by a compound with one report more. */
  function StaleByte(ssrc: SsrcData, report: ReceptionReport, x: Sending): Byte
    requires x.Fits()
  {
    (report.data + DescriptionBytes(ssrc, x))[ItemsEnd(x.ds)]
  }

  ghost predicate OneReportMore(y: Sending, x: Sending) {
    y.sender.Some? == x.sender.Some? && |y.reports| == |x.reports| + 1 && y.ds == x.ds
  }

  lemma LastReport(ssrc: SsrcData, y: Sending, k: nat)
    requires y.Fits() && y.reports != [] && k < 24
    ensures ReportBytes(ssrc, y)[y.ReportEnd() - 24 + k] == y.reports[|y.reports| - 1].data[k]
  {
    var n := |y.reports| - 1;
    ReportsBytesAt(y.reports, n);
    var at := 24 * n;
    assert ReportsBytes(y.reports)[at..at + 24][k] == ReportsBytes(y.reports)[at + k];
  }

  lemma StaleByteWrote(ssrc: SsrcData, y: Sending, x: Sending)
    requires x.Fits() && y.Fits() && OneReportMore(y, x)
    ensures DescriptionWrote(ssrc, y, x.Gap()) == Some(StaleByte(ssrc, y.reports[|y.reports| - 1], x))
  {
    hide ReportBytes, ItemsBytes, DescriptionHeader;
    var e := ItemsEnd(x.ds);
    if e < 24 { LastReport(ssrc, y, e); }
  }

  /** A participant leaves, so that there is one report less: the source description, the same as before, arrives
      exactly if it is readable and the byte left behind it happens to be a null. */
  lemma ParticipantLeaves(theirs: seq<Byte>, ssrc: SsrcData, es: seq<Event>, y: Sending, quiet: seq<Event>, last: Event)
    requires |theirs| == BUFFER_SIZE && !last.Receive?
    requires IsRun(es + [SendDescription(y)] + quiet + [last])
    requires y.Fits() && last.Fits() && OneReportMore(y, last.x) && Quiet(quiet, last.x.Gap())
    ensures var run := es + [SendDescription(y)] + quiet + [last];
            DescriptionArrives(Arrived(theirs, AfterAll(Zeros(BUFFER_SIZE), ssrc, run), ssrc, last), ssrc, last)
            <==> AllReadable(last.x.ds) && StaleByte(ssrc, y.reports[|y.reports| - 1], last.x) == 0
  {
    hide Arrived, AfterAll, DescriptionArrives, AllReadable, DescriptionWrote, StaleByte;
    var before := es + [SendDescription(y)];
    var k := last.x.Gap();
    RunArrives(theirs, ssrc, before + quiet, last);
    FrontRunOf(before, quiet);
    QuietKeeps(ssrc, before, quiet, k);
    assert before[|before| - 1] == SendDescription(y);
    StaleByteWrote(ssrc, y, last.x);
  }

  lemma FrontRunOf(es: seq<Event>, more: seq<Event>)
    requires IsRun(es + more)
    ensures IsRun(es)
  {
    forall i | 0 <= i < |es| ensures es[i].Fits() && (es[i].SendGoodbye? ==> i == |es| - 1) {
      assert (es + more)[i] == es[i];
    }
  }

  lemma LetterLeft(ssrc: SsrcData, report: ReceptionReport, x: Sending)
    requires x.Fits() && x.ds == Name(40)
    ensures StaleByte(ssrc, report, x) == 97
  {
    hide DescriptionHeader;
    NameReadable(40);
    assert StaleByte(ssrc, report, x) == DescriptionBytes(ssrc, x)[26] == ItemsBytes(x.ds)[18];
  }

  /** A readable name of forty letters is lost in this way, whatever the reports are. */
  lemma NameLost(theirs: seq<Byte>, ssrc: SsrcData, y: Sending, x: Sending, last: Event)
    requires |theirs| == BUFFER_SIZE && |y.reports| < 32 && last == SendDescription(x)
    requires x.ds == Name(40) && OneReportMore(y, x)
    ensures x.Fits() && y.Fits() && AllReadable(x.ds)
    ensures var run := [SendDescription(y), last];
            && IsRun(run)
            && !DescriptionArrives(Arrived(theirs, AfterAll(Zeros(BUFFER_SIZE), ssrc, run), ssrc, last), ssrc, last)
  {
    hide Arrived, AfterAll, DescriptionArrives, AllReadable, StaleByte, Name, PaddedEnd;
    NameFits(x, 40);
    NameFits(y, 40);
    LetterLeft(ssrc, y.reports[|y.reports| - 1], x);
    assert IsRun([SendDescription(y), last]);
    assert [] + [SendDescription(y)] + [] + [last] == [SendDescription(y), last];
    ParticipantLeaves(theirs, ssrc, [], y, [], last);
  }
}

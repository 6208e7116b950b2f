/** What the listener makes of the packages it receives, one behind the other (RFC 3550 section 6.1). */
module RtcpMessages {
  import opened Words
  import opened Wrappers
  import opened RtcpFormat
  import opened RtcpRoundTrip
  import opened RtcpCompound

  datatype Message =
    | SenderReport(ssrc: SsrcData, info: SenderInformation, reports: seq<ReceptionReport>)
    | ReceiverReport(ssrc: SsrcData, reports: seq<ReceptionReport>)
    | SourceDescription(ssrc: SsrcData, ds: seq<Description>)
    | Goodbye(ssrc: SsrcData, text: seq<Byte>)
    | ApplicationDefined(ssrc: SsrcData, application: Application)

  function SenderReportAt(memory: seq<Byte>): Option<Message>
    requires |memory| >= HEADER_SIZE
  {
    if |memory| < HEADER_SIZE + SENDER_INFO_SIZE then None
    else
      match ReadReports(memory, 28, HeaderOf(memory).Count())
      case None => None
      case Some(reports) => Some(SenderReport(HeaderOf(memory).ssrc, SenderInformation(memory[8..28]), reports))
  }

  function ReceiverReportAt(memory: seq<Byte>): Option<Message>
    requires |memory| >= HEADER_SIZE
  {
    match ReadSkipping(memory, HEADER_SIZE, 0, HeaderOf(memory).Count())
    case None => None
    case Some(reports) => Some(ReceiverReport(HeaderOf(memory).ssrc, reports))
  }

  /** The reader gets the number of bytes received from here on, in 16 bits. */
  function SourceDescriptionAt(memory: seq<Byte>, remaining: U32): Option<Message>
    requires |memory| >= HEADER_SIZE
  {
    match ReadItems(memory, HEADER_SIZE, remaining % 0x1_0000)
    case None => None
    case Some(ds) => Some(SourceDescription(HeaderOf(memory).ssrc, Construct(ds)))
  }

  /** From 64 kilobytes on the number of bytes wraps. */
  lemma RemainingNarrowed(memory: seq<Byte>, remaining: U32)
    requires |memory| >= HEADER_SIZE && 65536 <= remaining
    ensures SourceDescriptionAt(memory, remaining) == SourceDescriptionAt(memory, remaining - 65536)
  {
    hide ReadItems;
  }

  function GoodbyeAt(memory: seq<Byte>): Option<Message>
    requires |memory| >= HEADER_SIZE
  {
    match ReadBye(memory)
    case None => None
    case Some(text) => Some(Goodbye(HeaderOf(memory).ssrc, text))
  }

  function ApplicationAt(memory: seq<Byte>): Option<Message>
    requires |memory| >= HEADER_SIZE
  {
    match ReadApplication(memory)
    case None => None
    case Some(a) => Some(ApplicationDefined(HeaderOf(memory).ssrc, a))
  }

  /** The package at the start of the memory, which goes on behind it; none if reading it leaves the memory. */
  function ReadMessage(memory: seq<Byte>, remaining: U32): Option<Message>
    requires |memory| >= HEADER_SIZE && SENDER_REPORT <= HeaderOf(memory).Type() <= APPLICATION_DEFINED
  {
    var t := HeaderOf(memory).Type();
    if t == GOODBYE then GoodbyeAt(memory)
    else if t == SENDER_REPORT then SenderReportAt(memory)
    else if t == RECEIVER_REPORT then ReceiverReportAt(memory)
    else if t == SOURCE_DESCRIPTION then SourceDescriptionAt(memory, remaining)
    else ApplicationAt(memory)
  }

  /** The reader for each type, by the number that is received. */
  lemma ReaderOfType(memory: seq<Byte>, remaining: U32)
    requires |memory| >= 8 && 200 <= memory[1] <= 204
    ensures HeaderOf(memory).Type() == memory[1] && SENDER_REPORT <= memory[1] <= APPLICATION_DEFINED
    ensures memory[1] == 200 ==> ReadMessage(memory, remaining) == SenderReportAt(memory)
    ensures memory[1] == 201 ==> ReadMessage(memory, remaining) == ReceiverReportAt(memory)
    ensures memory[1] == 202 ==> ReadMessage(memory, remaining) == SourceDescriptionAt(memory, remaining)
    ensures memory[1] == 203 ==> ReadMessage(memory, remaining) == GoodbyeAt(memory)
    ensures memory[1] == 204 ==> ReadMessage(memory, remaining) == ApplicationAt(memory)
  {
    HeaderFromWire(memory[..8]);
  }

  /** Nothing is read behind a goodbye. */
  function Then(r: Option<Message>, rest: Option<seq<Message>>): Option<seq<Message>> {
    match r
    case None => None
    case Some(m) => if m.Goodbye? then Some([m]) else Prepend([m], rest)
  }

  lemma ThenExactly(r: Option<Message>, rest: Option<seq<Message>>, m: Message, ms: seq<Message>)
    ensures if m.Goodbye? then Then(r, rest) == Some([m]) <==> r == Some(m)
            else Then(r, rest) == Some([m] + ms) <==> r == Some(m) && rest == Some(ms)
  {
    if Then(r, rest).Some? {
      var all := Then(r, rest).value;
      assert all[0] == r.value;
      if rest.Some? && !r.value.Goodbye? { assert all[1..] == rest.value; }
      assert ([m] + ms)[0] == m && ([m] + ms)[1..] == ms;
    }
  }

  /** The messages in `remaining` bytes from `at` on, until the test for a package fails or a goodbye is read. */
  function HandlePackages(memory: seq<Byte>, at: nat, remaining: U32): Option<seq<Message>>
    decreases |memory| - at
  {
    match IsRtcpPackage(memory, at, remaining)
    case None => None
    case Some(false) => Some([])
    case Some(true) =>
      var h := ParseHeader(memory[at..at + HEADER_SIZE]);
      assert memory[at..][..HEADER_SIZE] == memory[at..at + HEADER_SIZE];
      var size := PackageLength(h.Length());
      Then(ReadMessage(memory[at..], remaining), HandlePackages(memory, at + size, Less(remaining, size)))
  }

  lemma HandleOne(memory: seq<Byte>, at: nat, end: nat, remaining: U32)
    requires at <= end <= |memory| && end - at <= remaining && IsPackage(memory[at..end])
    ensures SENDER_REPORT <= HeaderOf(memory[at..]).Type() <= APPLICATION_DEFINED
    ensures HandlePackages(memory, at, remaining)
            == Then(ReadMessage(memory[at..], remaining), HandlePackages(memory, end, remaining - (end - at)))
  {
    hide ReadMessage, Then;
    var p := memory[at..end];
    assert p[..HEADER_SIZE] == memory[at..][..HEADER_SIZE] == memory[at..at + HEADER_SIZE];
    WholeAccepted(memory, at, p, remaining);
    FullLength(remaining, |p|);
  }

  lemma HandleNothing(memory: seq<Byte>, at: nat)
    ensures HandlePackages(memory, at, 0) == Some([])
  {
  }
}

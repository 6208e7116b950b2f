/** Discontinuous transmission: silence is not sent, and the first package behind it is marked
    (RFC 3551 section 4.1). */
module DtxSender {
  import opened Words
  import opened Wrappers

  datatype Settings = Settings(dtx: bool, totalSilenceDelay: U16)

  datatype State = State(lastWasSilent: bool, silenceDelay: U32, sequenceNr: U32)

  datatype Header = Header(sequenceNumber: U16, marked: bool)

  function Increment(x: U32): U32 { if x == 0xFFFF_FFFF then 0 else x + 1 }

  /** One input: the next state, and the header of the package sent, if one is. */
  function Step(t: Settings, s: State, silent: bool): (State, Option<Header>) {
    var counted := if t.dtx && silent then Increment(s.silenceDelay) else s.silenceDelay;
    if t.dtx && silent && counted > t.totalSilenceDelay then
      (State(true, counted, s.sequenceNr), None)
    else
      (State(false, if s.lastWasSilent then 0 else counted, Increment(s.sequenceNr)),
       Some(Header(s.sequenceNr % UINT16_MAX, s.lastWasSilent)))
  }

  /** What the headers of all packages of a sender have in common. */
  datatype Source = Source(payloadType: Byte, ssrc: U32)

  datatype Package = Package(header: Header, source: Source, timestamp: U32, payload: seq<Byte>)

  class RTPPackageHandler {
    const ourselves: Source
    var sequenceNr: U32

    constructor (ourselves: Source, random: U32)
      ensures this.ourselves == ourselves && sequenceNr == random
    {
      this.ourselves := ourselves;
      sequenceNr := random;
    }

    /** `timestamp` is the time of the RTP clock. */
    method CreateNewRTPPackage(audioData: seq<Byte>, timestamp: U32) returns (p: Package)
      modifies this
      ensures p == Package(Header(old(sequenceNr) % UINT16_MAX, false), ourselves, timestamp, audioData)
      ensures sequenceNr == Increment(old(sequenceNr))
    {
      p := Package(Header(sequenceNr % UINT16_MAX, false), ourselves, timestamp, audioData);
      sequenceNr := Increment(sequenceNr);
    }
  }

  class ProcessorRTP {
    const settings: Settings
    const rtpPackage: RTPPackageHandler
    var lastPackageWasSilent: bool
    var currentSilenceDelayPackages: U32
    var totalPackages: nat
    var sent: seq<Package>

    function Model(): State
      reads this, rtpPackage
    {
      State(lastPackageWasSilent, currentSilenceDelayPackages, rtpPackage.sequenceNr)
    }

    constructor (settings: Settings, ourselves: Source, random: U32)
      ensures this.settings == settings && Model() == State(false, 0, random) && sent == [] && totalPackages == 0
      ensures fresh(rtpPackage) && rtpPackage.ourselves == ourselves
    {
      this.settings := settings;
      rtpPackage := new RTPPackageHandler(ourselves, random);
      lastPackageWasSilent, currentSilenceDelayPackages, totalPackages, sent := false, 0, 0, [];
    }

    method ProcessInputData(inputBuffer: seq<Byte>, isSilentPackage: bool, timestamp: U32) returns (size: nat)
      modifies this, rtpPackage
      ensures size == |inputBuffer|
      ensures Model() == Step(settings, old(Model()), isSilentPackage).0
      ensures match Step(settings, old(Model()), isSilentPackage).1
              case None => sent == old(sent) && totalPackages == old(totalPackages)
              case Some(header) =>
                && sent == old(sent) + [Package(header, rtpPackage.ourselves, timestamp, inputBuffer)]
                && totalPackages == old(totalPackages) + 1
    {
      if settings.dtx && isSilentPackage {
        currentSilenceDelayPackages := Increment(currentSilenceDelayPackages);
        if currentSilenceDelayPackages > settings.totalSilenceDelay {
          lastPackageWasSilent := true;
          return |inputBuffer|;
        }
      }
      var newRTPPackage := rtpPackage.CreateNewRTPPackage(inputBuffer, timestamp);
      if lastPackageWasSilent {
        newRTPPackage := newRTPPackage.(header := newRTPPackage.header.(marked := true));
        lastPackageWasSilent := false;
        currentSilenceDelayPackages := 0;
      }
      sent := sent + [newRTPPackage];
      totalPackages := totalPackages + 1;
      return |inputBuffer|;
    }
  }

  // ---------- runs ----------

  /** The state after the first `n` inputs; `inputs` says which of them are silent. */
  function After(t: Settings, s: State, inputs: seq<bool>, n: nat): State
    requires n <= |inputs|
  {
    if n == 0 then s else Step(t, After(t, s, inputs, n - 1), inputs[n - 1]).0
  }

  function Outcome(t: Settings, s: State, inputs: seq<bool>, i: nat): Option<Header>
    requires i < |inputs|
  {
    Step(t, After(t, s, inputs, i), inputs[i]).1
  }

  predicate Suppressed(t: Settings, s: State, inputs: seq<bool>, i: nat)
    requires i < |inputs|
  {
    Outcome(t, s, inputs, i).None?
  }

  predicate Marked(t: Settings, s: State, inputs: seq<bool>, i: nat)
    requires i < |inputs|
  {
    !Suppressed(t, s, inputs, i) && Outcome(t, s, inputs, i).value.marked
  }

  function Fresh(random: U32): State { State(false, 0, random) }

  /** A sent package is marked exactly when the input before it was suppressed. */
  lemma MarkedExactly(t: Settings, random: U32, inputs: seq<bool>, i: nat)
    requires i < |inputs| && !Suppressed(t, Fresh(random), inputs, i)
    ensures Marked(t, Fresh(random), inputs, i) <==> i > 0 && Suppressed(t, Fresh(random), inputs, i - 1)
  {
    assert After(t, Fresh(random), inputs, 0) == Fresh(random);
  }

  /** The silent inputs among the first `n` since the start or the last marked package. */
  function SilentSince(t: Settings, s: State, inputs: seq<bool>, n: nat): nat
    requires n <= |inputs|
  {
    if n == 0 || Marked(t, s, inputs, n - 1) then 0
    else SilentSince(t, s, inputs, n - 1) + if inputs[n - 1] then 1 else 0
  }

  lemma {:induction false} DelayCounted(t: Settings, random: U32, inputs: seq<bool>, n: nat)
    requires t.dtx && n <= |inputs| && n < 0x1_0000_0000
    ensures var s := After(t, Fresh(random), inputs, n);
            && s.silenceDelay == SilentSince(t, Fresh(random), inputs, n) <= n
            && (s.lastWasSilent <==> s.silenceDelay > t.totalSilenceDelay)
  {
    if n == 0 {
    } else {
      DelayCounted(t, random, inputs, n - 1);
    }
  }

  /** An input is suppressed exactly when it is silent and, with it, more silent inputs than the delay have come
      since the start or the last marked package. */
  lemma SuppressedExactly(t: Settings, random: U32, inputs: seq<bool>, i: nat)
    requires t.dtx && i < |inputs| && i + 1 < 0x1_0000_0000
    ensures Suppressed(t, Fresh(random), inputs, i) <==>
            inputs[i] && SilentSince(t, Fresh(random), inputs, i) + 1 > t.totalSilenceDelay
  {
    DelayCounted(t, random, inputs, i);
  }

  /** Without the setting nothing is suppressed or marked. */
  lemma {:induction false} AllSent(t: Settings, random: U32, inputs: seq<bool>, n: nat)
    requires !t.dtx && n <= |inputs|
    ensures !After(t, Fresh(random), inputs, n).lastWasSilent
    ensures n < |inputs| ==> !Suppressed(t, Fresh(random), inputs, n) && !Marked(t, Fresh(random), inputs, n)
  {
    if n == 0 {
    } else {
      AllSent(t, random, inputs, n - 1);
    }
  }

  // ---------- sequence numbers ----------

  function SentBefore(t: Settings, s: State, inputs: seq<bool>, n: nat): (r: nat)
    requires n <= |inputs|
    ensures r <= n
  {
    if n == 0 then 0
    else SentBefore(t, s, inputs, n - 1) + if Suppressed(t, s, inputs, n - 1) then 0 else 1
  }

  lemma {:induction false} SequenceCounted(t: Settings, s: State, inputs: seq<bool>, n: nat)
    requires n <= |inputs| && s.sequenceNr as int + SentBefore(t, s, inputs, n) < 0x1_0000_0000
    ensures After(t, s, inputs, n).sequenceNr == s.sequenceNr + SentBefore(t, s, inputs, n)
  {
    if n == 0 {
    } else {
      SequenceCounted(t, s, inputs, n - 1);
    }
  }

  /** The sequence numbers of the packages sent are consecutive modulo 65535, whatever is suppressed between them,
      until the counter wraps. */
  lemma SequenceGapless(t: Settings, s: State, inputs: seq<bool>, i: nat)
    requires i < |inputs| && !Suppressed(t, s, inputs, i)
    requires s.sequenceNr as int + SentBefore(t, s, inputs, i) < 0x1_0000_0000
    ensures Outcome(t, s, inputs, i).value.sequenceNumber == (s.sequenceNr + SentBefore(t, s, inputs, i)) % 65535
  {
    SequenceCounted(t, s, inputs, i);
  }

  /** At the wrap of the counter a number is used twice. */
  lemma SequenceRepeated(t: Settings, inputs: seq<bool>)
    requires |inputs| >= 2 && !inputs[0] && !inputs[1]
    ensures var s := Fresh(0xFFFF_FFFF);
            && !Suppressed(t, s, inputs, 0) && !Suppressed(t, s, inputs, 1)
            && Outcome(t, s, inputs, 0).value.sequenceNumber == Outcome(t, s, inputs, 1).value.sequenceNumber == 0
  {
    assert After(t, Fresh(0xFFFF_FFFF), inputs, 1).sequenceNr == 0;
    assert 0xFFFF_FFFF % UINT16_MAX == 0;
  }

  // ---------- silence in a row ----------

  /** Silent inputs in a row up to the `n`-th. */
  function Streak(inputs: seq<bool>, n: nat): nat
    requires n <= |inputs|
  {
    if n == 0 || !inputs[n - 1] then 0 else Streak(inputs, n - 1) + 1
  }

  /** Nothing was sent with speech in it since the delay started to count. */
  predicate Uninterrupted(t: Settings, s: State, inputs: seq<bool>, n: nat)
    requires n <= |inputs|
  {
    n == 0 || Marked(t, s, inputs, n - 1)
    || (inputs[n - 1] && Uninterrupted(t, s, inputs, n - 1))
    || (!inputs[n - 1] && SilentSince(t, s, inputs, n - 1) == 0)
  }

  lemma {:induction false} StreakCounted(t: Settings, random: U32, inputs: seq<bool>, n: nat)
    requires t.dtx && n <= |inputs| && n < 0x1_0000_0000
    ensures Streak(inputs, n) <= n
    ensures SilentSince(t, Fresh(random), inputs, n) >= Streak(inputs, n)
    ensures SilentSince(t, Fresh(random), inputs, n) == Streak(inputs, n)
            <==> Uninterrupted(t, Fresh(random), inputs, n)
  {
    if n == 0 {
    } else {
      StreakCounted(t, random, inputs, n - 1);
      if Marked(t, Fresh(random), inputs, n - 1) { MarkedSpeech(t, random, inputs, n - 1); }
    }
  }

  lemma MarkedSpeech(t: Settings, random: U32, inputs: seq<bool>, i: nat)
    requires t.dtx && i < |inputs| && i + 1 < 0x1_0000_0000 && Marked(t, Fresh(random), inputs, i)
    ensures !inputs[i]
  {
    DelayCounted(t, random, inputs, i);
  }

  /** A first suppression comes after silence longer than the delay exactly when no speech was sent within the count:
      speech does not restart it. */
  lemma SilenceExactly(t: Settings, random: U32, inputs: seq<bool>, i: nat)
    requires t.dtx && i < |inputs| && i + 1 < 0x1_0000_0000
    requires Suppressed(t, Fresh(random), inputs, i) && (i == 0 || !Suppressed(t, Fresh(random), inputs, i - 1))
    ensures Streak(inputs, i + 1) > t.totalSilenceDelay <==> Uninterrupted(t, Fresh(random), inputs, i + 1)
  {
    StreakCounted(t, random, inputs, i + 1);
    SuppressedExactly(t, random, inputs, i);
    DelayCounted(t, random, inputs, i);
    assert !After(t, Fresh(random), inputs, i).lastWasSilent;
  }

  /** As many silent inputs as the delay, one with speech, and one more silent input. */
  function Interrupted(delay: nat): seq<bool> {
    seq(delay, _ => true) + [false, true]
  }

  lemma {:induction false} SilenceSent(t: Settings, random: U32, n: nat)
    requires t.dtx && n <= t.totalSilenceDelay
    ensures SilentSince(t, Fresh(random), Interrupted(t.totalSilenceDelay), n) == n
  {
    if n == 0 {
    } else {
      SilenceSent(t, random, n - 1);
      DelayCounted(t, random, Interrupted(t.totalSilenceDelay), n - 1);
    }
  }

  /** For every delay: one silent input behind speech is suppressed when the silent ones before the speech
      have used the delay up. */
  lemma InterruptedSilence(t: Settings, random: U32)
    requires t.dtx && 1 <= t.totalSilenceDelay
    ensures var inputs: seq<bool>, delay: nat := Interrupted(t.totalSilenceDelay), t.totalSilenceDelay;
            && Suppressed(t, Fresh(random), inputs, delay + 1) && !Suppressed(t, Fresh(random), inputs, delay)
            && Streak(inputs, delay + 2) == 1
  {
    var inputs: seq<bool>, delay: nat := Interrupted(t.totalSilenceDelay), t.totalSilenceDelay;
    SilenceSent(t, random, delay);
    DelayCounted(t, random, inputs, delay);
    SuppressedExactly(t, random, inputs, delay);
    SuppressedExactly(t, random, inputs, delay + 1);
    assert Streak(inputs, delay + 2) == Streak(inputs, delay + 1) + 1 && Streak(inputs, delay + 1) == 0;
  }
}

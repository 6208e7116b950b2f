/** The extended highest sequence number of a participant (RFC 3711 section 3.3.1). */
module ExtendedSequence {
  import opened Words

  const HALF := 0x8000

  /** Arithmetic of 32 bits, for values less than one turn out of range. */
  function Wrap32(x: int): (r: U32)
    requires -0x1_0000_0000 <= x < 0x2_0000_0000
  {
    if x < 0 then x + 0x1_0000_0000 else if x >= 0x1_0000_0000 then x - 0x1_0000_0000 else x
  }

  /** The absolute value of a difference read as a signed number. */
  function Distance(x: U32): nat {
    if x < 0x8000_0000 then x else 0x1_0000_0000 - x
  }

  function Low(index: U32): U16 { index % 0x1_0000 }

  /** The index with the given low bits in the turn of `prev`, the one before or the one after. */
  function Extended(prev: U32, received: U16): U32 {
    var base := prev - Low(prev);
    var ahead := received as int - Low(prev) as int;
    if ahead >= HALF && prev >= UINT16_MAX then Wrap32(base - 0x1_0000 + received)
    else if ahead < -HALF then Wrap32(base + 0x1_0000 + received)
    else base + received
  }

  /** The indices found from `prev`: less than half a turn ahead and at most half a turn behind, at the
      end of all turns as well; from the first turn, also any later index of that turn. */
  predicate Near(prev: U32, index: U32) {
    if prev < UINT16_MAX then
      if index < 0x1_0000 then index - prev >= -HALF else index - prev < HALF
    else
      var ahead := Wrap32(index - prev);
      ahead < HALF || ahead >= 0x1_0000_0000 - HALF
  }

  /** An index is found from its low 16 bits exactly when it is near the previous one. */
  lemma ExtendedExact(prev: U32, index: U32)
    ensures Extended(prev, Low(index)) == index <==> Near(prev, index)
  {
    var base, turn := prev - Low(prev), index - Low(index);
    assert base == 0x1_0000 * (prev / 0x1_0000) && turn == 0x1_0000 * (index / 0x1_0000);
  }

  /** What is found always has the received low bits. */
  lemma ExtendedLow(prev: U32, received: U16)
    ensures Low(Extended(prev, received)) == received && Near(prev, Extended(prev, received))
  {
    var turns := prev / 0x1_0000;
    assert prev - Low(prev) == 0x1_0000 * turns;
    var index := Extended(prev, received);
    if index == Wrap32(0x1_0000 * turns - 0x1_0000 + received) {
      assert Low(index) == received by {
        assert index == 0x1_0000 * (turns - 1) + received || index == 0x1_0000 * (turns + 0xFFFF) + received;
      }
    } else if index == 0x1_0000 * turns + received {
      assert Low(index) == received;
    } else {
      assert index == 0x1_0000 * (turns + 1) + received || index == 0x1_0000 * (turns - 0xFFFF) + received;
    }
    ExtendedExact(prev, index);
  }

  /** The choice between the three candidates. */
  method CalculateExtendedHighestSequenceNumber(previousValue: U32, receivedSequenceNumber: U16) returns (r: U32)
    ensures r == Extended(previousValue, receivedSequenceNumber)
  {
    var rollOverCount := previousValue / 0x1_0000;
    var base := 0x1_0000 * rollOverCount;
    assert base == previousValue - Low(previousValue);
    var possibleValues: seq<U32> := [
      Wrap32(base - 0x1_0000 + receivedSequenceNumber),
      base + receivedSequenceNumber,
      Wrap32(base + 0x1_0000 + receivedSequenceNumber)];
    ghost var ahead := receivedSequenceNumber as int - Low(previousValue) as int;
    var index := if previousValue < UINT16_MAX then 1 else 0;
    var i := 1;
    while i < 3
      invariant 1 <= i <= 3 && 0 <= index < 3
      invariant i == 1 ==> index == if previousValue < UINT16_MAX then 1 else 0
      invariant i == 2 ==> index == if ahead >= HALF && previousValue >= UINT16_MAX then 0 else 1
      invariant i == 3 ==>
                  index == if ahead >= HALF && previousValue >= UINT16_MAX then 0 else if ahead < -HALF then 2 else 1
    {
      var diffPrev := Distance(Wrap32(possibleValues[index] - previousValue));
      var diffNew := Distance(Wrap32(possibleValues[i] - previousValue));
      if diffNew < diffPrev {
        index := i;
      }
      i := i + 1;
    }
    return possibleValues[index];
  }

  // ---------- a participant ----------

  /** The payload type that accepts all others. */
  const ALL := -1

  datatype Package = Package(index: U32, payloadType: int)

  /** What the listener keeps: the payload type of the first package and the extended highest sequence number. */
  datatype Observed = Observed(payloadType: int, highest: U32)

  function Observe(o: Observed, received: U16, payloadType: int): Observed {
    if o.payloadType == ALL then Observed(payloadType, received)
    else if o.payloadType != payloadType then o
    else o.(highest := Extended(o.highest, received))
  }

  class Participant {
    var payloadType: int
    var extendedHighestSequenceNumber: U32
    var totalPackages: nat

    function State(): Observed
      reads this
    {
      Observed(payloadType, extendedHighestSequenceNumber)
    }

    constructor ()
      ensures State() == Observed(ALL, 0) && totalPackages == 0
    {
      payloadType, extendedHighestSequenceNumber, totalPackages := ALL, 0, 0;
    }

    /** A package the jitter buffer has taken; packages of another payload type are only counted. */
    method PackageReceived(sequenceNumber: U16, packagePayloadType: int)
      modifies this
      ensures State() == Observe(old(State()), sequenceNumber, packagePayloadType)
      ensures totalPackages == old(totalPackages) + 1
    {
      if payloadType == ALL {
        payloadType := packagePayloadType;
        extendedHighestSequenceNumber := sequenceNumber;
      } else if payloadType == packagePayloadType {
        extendedHighestSequenceNumber :=
          CalculateExtendedHighestSequenceNumber(extendedHighestSequenceNumber, sequenceNumber);
      }
      totalPackages := totalPackages + 1;
    }
  }

  // ---------- runs ----------

  /** The listener sees only the low 16 bits of each index. */
  function ObserveAll(o: Observed, packages: seq<Package>): Observed
    decreases |packages|
  {
    if packages == [] then o
    else ObserveAll(Observe(o, Low(packages[0].index), packages[0].payloadType), packages[1..])
  }

  /** The index of the last package of a payload type. */
  function LastOf(packages: seq<Package>, payloadType: int, before: U32): U32 {
    if packages == [] then before
    else LastOf(packages[1..], payloadType,
                if packages[0].payloadType == payloadType then packages[0].index else before)
  }

  /** Each package of the payload type is less than half a turn ahead of the one before it
      and at most half a turn behind. */
  predicate Steady(packages: seq<Package>, payloadType: int, before: U32) {
    packages == []
    || (if packages[0].payloadType == payloadType
        then -HALF <= packages[0].index - before < HALF && Steady(packages[1..], payloadType, packages[0].index)
        else Steady(packages[1..], payloadType, before))
  }

  lemma {:induction false} SteadyObserved(o: Observed, packages: seq<Package>)
    requires o.payloadType != ALL && Steady(packages, o.payloadType, o.highest)
    ensures ObserveAll(o, packages) == o.(highest := LastOf(packages, o.payloadType, o.highest))
    decreases |packages|
  {
    if packages == [] {
    } else {
      var p := packages[0];
      if p.payloadType == o.payloadType { ExtendedExact(o.highest, p.index); }
      SteadyObserved(Observe(o, Low(p.index), p.payloadType), packages[1..]);
    }
  }

  /** Over any number of turns the number kept is the whole index of the last package
      of the first one's payload type. */
  lemma RunReconstructed(packages: seq<Package>, before: U32)
    requires packages != [] && packages[0].index < 0x1_0000 && packages[0].payloadType != -1
    requires Steady(packages[1..], packages[0].payloadType, packages[0].index)
    ensures ObserveAll(Observed(-1, before), packages) ==
            Observed(packages[0].payloadType, LastOf(packages, packages[0].payloadType, before))
  {
    var p := packages[0];
    assert Low(p.index) == p.index;
    SteadyObserved(Observed(p.payloadType, p.index), packages[1..]);
  }
}

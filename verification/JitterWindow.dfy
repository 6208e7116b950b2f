/** The jitter buffer seen from its read cursor: slot `i` of the window is the slot
    `i` places after the cursor. This is the specification that the ring in
    `JitterRing` is proved against; nothing here mentions wrap-around of the array. */
module JitterWindow {
  import opened Words

  const MAX_REPETITIONS := 2

  datatype Header = Header(sequenceNumber: U16, marked: bool, payloadType: int, timestamp: int, ssrc: int)
  datatype Package = Package(header: Header, payload: seq<Byte>) {
    function SequenceNumber(): U16 { header.sequenceNumber }
  }

  /** `content` is the allocated block; only its first `contentSize` bytes are the payload. */
  datatype Slot = Slot(isValid: bool, header: Header, receptionTime: int, contentSize: nat, content: seq<Byte>) {
    predicate WellFormed() { contentSize <= |content| }
    function Stored(): Package requires WellFormed() { Package(header, content[..contentSize]) }
    function SequenceNumber(): U16 { header.sequenceNumber }
  }

  const BLANK := Slot(false, Header(0, false, 0, 0, 0), 0, 0, [])

  datatype Status = AllOkay | InputOverflow

  /** What a concealed read hands out. `OutOfBounds` is a read of the slot just behind the array. */
  datatype Concealment = Replay(package: Package) | Silence | OutOfBounds

  /** What a read hands out. `Stretched` leaves the play-out point where it is. */
  datatype Output = Stretched | Delivered(package: Package, lost: int) | Concealed(concealment: Concealment)

  datatype State = State(window: seq<Slot>, readPos: nat, size: U16, minSeq: U16, numRepeated: U16, lastReceived: U16) {
    function Capacity(): nat { |window| }
    predicate WellFormed() {
      && 0 < |window| <= UINT16_MAX
      && readPos < |window|
      && forall i | 0 <= i < |window| :: window[i].WellFormed()
    }
  }

  function Fresh(capacity: nat): State {
    State(seq(capacity, _ => BLANK), 0, 0, 0, 0, 0)
  }

  // ---------- adding ----------

  /** The slot after copying a package into it: the block is replaced only if it is too small. */
  function Fill(slot: Slot, p: Package, now: int): (r: Slot)
    ensures r.WellFormed() && r.Stored() == p && r.isValid && r.receptionTime == now
    ensures |r.content| >= |slot.content|
  {
    Slot(true, p.header, now, |p.payload|,
         if |slot.content| < |p.payload| then p.payload else p.payload + slot.content[|p.payload|..])
  }

  predicate Resets(s: State, p: Package) { s.minSeq == 0 || p.header.marked }

  function Start(s: State, p: Package): State {
    if Resets(s, p) then s.(minSeq := p.SequenceNumber()) else s
  }

  predicate IsLate(s: State, p: Package) {
    s.minSeq < UINT16_MAX - s.Capacity() && p.SequenceNumber() < s.minSeq
  }

  /** The remainder of `x`, by repeated subtraction. */
  function Wrap(x: nat, capacity: nat): (r: nat)
    requires capacity > 0
    ensures r < capacity
  {
    if x < capacity then x else Wrap(x - capacity, capacity)
  }

  function Offset(s: State, p: Package): (i: nat)
    requires s.Capacity() > 0
    ensures i < s.Capacity()
  {
    Wrap((p.SequenceNumber() - s.minSeq) % 0x1_0000, s.Capacity())
  }

  predicate Accepts(s: State, p: Package) {
    !IsLate(s, p) && s.size != s.Capacity() && p.SequenceNumber() - s.minSeq < s.Capacity()
  }

  function Add(s: State, p: Package, now: int): (r: (State, Status))
    requires s.WellFormed()
    ensures r.0.WellFormed() && r.0.Capacity() == s.Capacity()
  {
    var t := Start(s, p);
    if Accepts(t, p) then
      var i := Offset(t, p);
      (t.(window := t.window[i := Fill(t.window[i], p, now)], size := (t.size + 1) % 0x1_0000), AllOkay)
    else
      (t, if IsLate(t, p) then AllOkay else InputOverflow)
  }

  // ---------- reading ----------

  predicate Expired(slot: Slot, maxDelay: int, now: int) {
    slot.isValid && slot.receptionTime + maxDelay < now
  }

  predicate Playable(s: State, slot: Slot, maxDelay: int, now: int) {
    slot.isValid && !Expired(slot, maxDelay, now) && slot.SequenceNumber() >= s.minSeq
  }

  /** The first playable offset from `k` on. The scan never visits the last slot. */
  function FirstPlayable(s: State, maxDelay: int, now: int, k: nat): (r: nat)
    requires k < s.Capacity()
    ensures k <= r < s.Capacity()
    ensures r < s.Capacity() - 1 ==> Playable(s, s.window[r], maxDelay, now)
    ensures forall i | k <= i < r :: !Playable(s, s.window[i], maxDelay, now)
    decreases s.Capacity() - k
  {
    if k == s.Capacity() - 1 || Playable(s, s.window[k], maxDelay, now) then k
    else FirstPlayable(s, maxDelay, now, k + 1)
  }

  function Invalidate(slot: Slot): Slot { slot.(isValid := false) }

  /** The window after the first `n` slots were checked for expiry. */
  function Expire(window: seq<Slot>, maxDelay: int, now: int, n: nat): (r: seq<Slot>)
    ensures |r| == |window|
  {
    seq(|window|, i requires 0 <= i < |window| =>
      if i < n && Expired(window[i], maxDelay, now) then Invalidate(window[i]) else window[i])
  }

  /** C++ remainder: it takes the sign of the dividend. */
  function TruncatedRemainder(a: int, b: nat): int
    requires b > 0
  {
    if a >= 0 then a % b else -((-a) % b)
  }

  /** The window with the first `k + 1` slots moved behind the others, slot `k` invalidated. */
  function Consume(window: seq<Slot>, k: nat): (r: seq<Slot>)
    requires k < |window|
    ensures |r| == |window|
  {
    window[k + 1..] + window[..k] + [Invalidate(window[k])]
  }

  function Read(s: State, maxDelay: int, now: int, threshold: nat): (r: (State, Output))
    requires s.WellFormed()
    ensures r.0.WellFormed() && r.0.Capacity() == s.Capacity()
  {
    if s.size < threshold then
      (s, Stretched)
    else
      var found := FirstPlayable(s, maxDelay, now, 0);
      var t := s.(window := Expire(s.window, maxDelay, now, found));
      var k := if found == s.Capacity() - 1 then 0 else found;
      var slot := t.window[k];
      if slot.isValid then Deliver(t, k) else Starve(t)
  }

  /** The array index `k` places after index `n`. */
  function At(n: nat, k: nat, capacity: nat): (i: nat)
    requires n < capacity && k <= capacity
    ensures i < capacity
  {
    if n + k < capacity then n + k else n + k - capacity
  }

  function Deliver(s: State, k: nat): (r: (State, Output))
    requires s.WellFormed() && k < s.Capacity() && s.window[k].isValid
    ensures r.0.WellFormed() && r.0.Capacity() == s.Capacity()
  {
    var slot := s.window[k];
    var next := s.(window := Consume(s.window, k),
                   readPos := At(s.readPos, k + 1, s.Capacity()),
                   size := (s.size - 1) % 0x1_0000,
                   minSeq := (slot.SequenceNumber() + 1) % UINT16_MAX);
    (next, Delivered(slot.Stored(), TruncatedRemainder(slot.SequenceNumber() - s.minSeq, UINT16_MAX)))
  }

  function Starve(s: State): (r: (State, Output))
    requires s.WellFormed()
    ensures r.0.WellFormed() && r.0.window == s.window && r.0.size == s.size && r.0.readPos == s.readPos
    ensures r.1.Concealed?
    ensures r.0.minSeq == if s.minSeq == 0 then 0 else (s.minSeq + 1) % UINT16_MAX
  {
    var (t, c) := Conceal(s);
    (if t.minSeq == 0 then t else t.(minSeq := (t.minSeq + 1) % UINT16_MAX), Concealed(c))
  }

  // ---------- loss concealment ----------

  /** Whether a missing `minSeq` counts as the next loss of the run being concealed. */
  predicate Continues(s: State) {
    s.lastReceived != 0 && (s.lastReceived + s.numRepeated + 1) % UINT16_MAX == s.minSeq
  }

  function NoteLoss(s: State): State {
    if Continues(s) then s.(numRepeated := (s.numRepeated + 1) % 0x1_0000)
    else s.(numRepeated := 1, lastReceived := if s.minSeq == 0 then UINT16_MAX else s.minSeq - 1)
  }

  function Conceal(s: State): (r: (State, Concealment))
    requires s.WellFormed()
    ensures r.0 == NoteLoss(s)
  {
    var t := NoteLoss(s);
    (t, if t.numRepeated <= MAX_REPETITIONS then SearchBack(t, t.lastReceived, 0) else Silence)
  }

  /** The slot `back` places before the read cursor. */
  function Behind(s: State, back: nat): Slot
    requires s.WellFormed() && back <= s.readPos
  {
    s.window[if back == 0 then 0 else s.Capacity() - back]
  }

  /** Walks from the cursor towards array index 0 and then, as the code does, to index `capacity`. */
  function SearchBack(s: State, wanted: U16, back: nat): Concealment
    requires s.WellFormed() && back <= s.readPos
    decreases s.readPos - back
  {
    if back == s.readPos == s.Capacity() - 1 then Silence
    else if Behind(s, back).SequenceNumber() == wanted then Replay(Behind(s, back).Stored())
    else if back == s.readPos then OutOfBounds
    else SearchBack(s, wanted, back + 1)
  }

  // ---------- runs ----------

  datatype Event = AddEvent(package: Package, now: int) | ReadEvent(now: int, threshold: nat)
  function TimeOf(e: Event): int { e.now }

  /** The times of a run come from a clock that never goes back. */
  ghost predicate Timely(events: seq<Event>) {
    forall i, j | 0 <= i <= j < |events| :: TimeOf(events[i]) <= TimeOf(events[j])
  }

  datatype Outcome = Added(status: Status) | Got(output: Output)

  function Step(s: State, e: Event, maxDelay: int): (r: (State, Outcome))
    requires s.WellFormed()
    ensures r.0.WellFormed() && r.0.Capacity() == s.Capacity()
  {
    match e
    case AddEvent(p, now) => var (t, status) := Add(s, p, now); (t, Added(status))
    case ReadEvent(now, threshold) => var (t, output) := Read(s, maxDelay, now, threshold); (t, Got(output))
  }

  function Run(s: State, events: seq<Event>, maxDelay: int): (r: (State, seq<Outcome>))
    requires s.WellFormed()
    ensures r.0.WellFormed() && r.0.Capacity() == s.Capacity() && |r.1| == |events|
    decreases |events|
  {
    if events == [] then (s, [])
    else
      var (t, o) := Step(s, events[0], maxDelay);
      var (u, os) := Run(t, events[1..], maxDelay);
      (u, [o] + os)
  }

  lemma RunFirst(s: State, e: Event, rest: seq<Event>, maxDelay: int)
    requires s.WellFormed()
    ensures var (t, o) := Step(s, e, maxDelay);
            Run(s, [e] + rest, maxDelay) == (Run(t, rest, maxDelay).0, [o] + Run(t, rest, maxDelay).1)
  {
    assert ([e] + rest)[1..] == rest;
  }

  lemma RunNothing(s: State, maxDelay: int)
    requires s.WellFormed()
    ensures Run(s, [], maxDelay) == (s, [])
  {
  }

  lemma {:induction false} RunConcat(s: State, a: seq<Event>, b: seq<Event>, maxDelay: int)
    requires s.WellFormed()
    ensures Run(s, a + b, maxDelay).0 == Run(Run(s, a, maxDelay).0, b, maxDelay).0
    ensures Run(s, a + b, maxDelay).1 == Run(s, a, maxDelay).1 + Run(Run(s, a, maxDelay).0, b, maxDelay).1
    decreases |a|
  {
    if a == [] {
      assert a + b == b;
    } else {
      assert (a + b)[0] == a[0] && (a + b)[1..] == a[1..] + b;
      RunConcat(Step(s, a[0], maxDelay).0, a[1..], b, maxDelay);
    }
  }
}

/** Where the buffered packages go: in every run, wrap-around, markers, duplicates and
    expiry included, `size` counts the stored packages that were not delivered. */
module JitterOccupancy {
  import opened Words
  import opened JitterWindow

  function CountValid(window: seq<Slot>): (n: nat)
    ensures n <= |window|
  {
    if window == [] then 0 else (if window[0].isValid then 1 else 0) + CountValid(window[1..])
  }

  function CountExpired(window: seq<Slot>, maxDelay: int, now: int): (n: nat)
  {
    if window == [] then 0
    else (if Expired(window[0], maxDelay, now) then 1 else 0) + CountExpired(window[1..], maxDelay, now)
  }

  /** Running totals over a run. */
  datatype Ledger = Ledger(stored: nat, delivered: nat, overwritten: nat, expired: nat)

  function Charge(l: Ledger, s: State, e: Event, maxDelay: int): Ledger
    requires s.WellFormed()
  {
    match e
    case AddEvent(p, now) =>
      var t := Start(s, p);
      if !Accepts(t, p) then l
      else l.(stored := l.stored + 1,
              overwritten := l.overwritten + if t.window[Offset(t, p)].isValid then 1 else 0)
    case ReadEvent(now, threshold) =>
      if s.size < threshold then l
      else
        var visited := s.window[..FirstPlayable(s, maxDelay, now, 0)];
        l.(expired := l.expired + CountExpired(visited, maxDelay, now),
           delivered := l.delivered + if Read(s, maxDelay, now, threshold).1.Delivered? then 1 else 0)
  }

  function RunLedger(l: Ledger, s: State, events: seq<Event>, maxDelay: int): Ledger
    requires s.WellFormed()
    decreases |events|
  {
    if events == [] then l
    else RunLedger(Charge(l, s, events[0], maxDelay), Step(s, events[0], maxDelay).0, events[1..], maxDelay)
  }

  ghost predicate Balanced(s: State, l: Ledger) {
    && CountValid(s.window) <= s.size <= s.Capacity()
    && s.size == l.stored - l.delivered
    && s.size - CountValid(s.window) == l.overwritten + l.expired
  }

  // ---------- counting ----------

  lemma {:induction false} CountConcat(a: seq<Slot>, b: seq<Slot>)
    ensures CountValid(a + b) == CountValid(a) + CountValid(b)
  {
    if a == [] {
      assert a + b == b;
    } else {
      assert (a + b)[1..] == a[1..] + b;
      CountConcat(a[1..], b);
    }
  }

  lemma CountUpdate(window: seq<Slot>, i: nat, slot: Slot)
    requires i < |window|
    ensures CountValid(window[i := slot]) + (if window[i].isValid then 1 else 0)
         == CountValid(window) + (if slot.isValid then 1 else 0)
  {
    assert window == window[..i] + ([window[i]] + window[i + 1..]);
    assert window[i := slot] == window[..i] + ([slot] + window[i + 1..]);
    CountConcat(window[..i], [window[i]] + window[i + 1..]);
    CountConcat(window[..i], [slot] + window[i + 1..]);
  }

  lemma CountConsume(window: seq<Slot>, k: nat)
    requires k < |window| && window[k].isValid
    ensures CountValid(Consume(window, k)) == CountValid(window) - 1
  {
    var front, back, slot := window[..k], window[k + 1..], window[k];
    assert window == front + ([slot] + back);
    CountConcat(front, [slot] + back);
    CountConcat(back + front, [Invalidate(slot)]);
    CountConcat(back, front);
  }

  lemma {:induction false} CountExpire(window: seq<Slot>, maxDelay: int, now: int, n: nat)
    requires n <= |window|
    ensures CountValid(Expire(window, maxDelay, now, n)) + CountExpired(window[..n], maxDelay, now)
            == CountValid(window)
  {
    if n == 0 {
      assert Expire(window, maxDelay, now, 0) == window;
    } else {
      assert Expire(window, maxDelay, now, n)[1..] == Expire(window[1..], maxDelay, now, n - 1);
      assert window[..n][1..] == window[1..][..n - 1];
      CountExpire(window[1..], maxDelay, now, n - 1);
    }
  }

  lemma {:induction false} ValidCounts(window: seq<Slot>, k: nat)
    requires k < |window| && window[k].isValid
    ensures CountValid(window) > 0
  {
    if k == 0 {
    } else {
      ValidCounts(window[1..], k - 1);
    }
  }

  // ---------- conservation ----------

  lemma AddBalances(s: State, l: Ledger, p: Package, now: int, maxDelay: int)
    requires s.WellFormed() && Balanced(s, l)
    ensures Balanced(Add(s, p, now).0, Charge(l, s, AddEvent(p, now), maxDelay))
  {
    var t := Start(s, p);
    if Accepts(t, p) {
      var i := Offset(t, p);
      CountUpdate(t.window, i, Fill(t.window[i], p, now));
    }
  }

  lemma ReadBalances(s: State, l: Ledger, now: int, threshold: nat, maxDelay: int)
    requires s.WellFormed() && Balanced(s, l)
    ensures Balanced(Read(s, maxDelay, now, threshold).0, Charge(l, s, ReadEvent(now, threshold), maxDelay))
  {
    hide FirstPlayable, Consume, CountValid, CountExpired;
    if s.size >= threshold {
      var found := FirstPlayable(s, maxDelay, now, 0);
      var t := s.(window := Expire(s.window, maxDelay, now, found));
      var k := if found == s.Capacity() - 1 then 0 else found;
      CountExpire(s.window, maxDelay, now, found);
      if t.window[k].isValid {
        ValidCounts(t.window, k);
        CountConsume(t.window, k);
        var next := Deliver(t, k).0;
        assert next.window == Consume(t.window, k) && next.size == s.size - 1;
      }
    }
  }

  lemma StepBalances(s: State, l: Ledger, e: Event, maxDelay: int)
    requires s.WellFormed() && Balanced(s, l)
    ensures Balanced(Step(s, e, maxDelay).0, Charge(l, s, e, maxDelay))
  {
    match e
    case AddEvent(p, now) => AddBalances(s, l, p, now, maxDelay);
    case ReadEvent(now, threshold) => ReadBalances(s, l, now, threshold, maxDelay);
  }

  lemma {:induction false} RunBalances(s: State, l: Ledger, events: seq<Event>, maxDelay: int)
    requires s.WellFormed() && Balanced(s, l)
    ensures Balanced(Run(s, events, maxDelay).0, RunLedger(l, s, events, maxDelay))
    decreases |events|
  {
    if events == [] {
    } else {
      StepBalances(s, l, events[0], maxDelay);
      RunBalances(Step(s, events[0], maxDelay).0, Charge(l, s, events[0], maxDelay), events[1..], maxDelay);
    }
  }

  lemma {:induction false} CountBlank(window: seq<Slot>)
    requires forall i | 0 <= i < |window| :: !window[i].isValid
    ensures CountValid(window) == 0
  {
    if window == [] {
    } else {
      CountBlank(window[1..]);
    }
  }

  /** Conservation of packages over every run of a new buffer. */
  lemma Occupancy(capacity: nat, events: seq<Event>, maxDelay: int)
    requires 0 < capacity <= UINT16_MAX
    ensures var s := Run(Fresh(capacity), events, maxDelay).0;
            var l := RunLedger(Ledger(0, 0, 0, 0), Fresh(capacity), events, maxDelay);
            && CountValid(s.window) <= s.size <= capacity
            && s.size == l.stored - l.delivered
            && s.size - CountValid(s.window) == l.overwritten + l.expired
  {
    CountBlank(Fresh(capacity).window);
    RunBalances(Fresh(capacity), Ledger(0, 0, 0, 0), events, maxDelay);
  }

  // ---------- the leak ----------

  /** Every place is taken by a package that was overwritten or expired. */
  ghost predicate Exhausted(s: State) {
    s.size == s.Capacity() && forall i | 0 <= i < |s.window| :: !s.window[i].isValid
  }

  lemma {:induction false} NoneValid(window: seq<Slot>)
    ensures CountValid(window) == 0 <==> forall i | 0 <= i < |window| :: !window[i].isValid
  {
    if forall i | 0 <= i < |window| :: !window[i].isValid {
      CountBlank(window);
    } else {
      var i :| 0 <= i < |window| && window[i].isValid;
      ValidCounts(window, i);
    }
  }

  /** In every run the buffer is exhausted exactly when as many packages were overwritten or expired
      as it has places. */
  lemma ExhaustedExactly(capacity: nat, events: seq<Event>, maxDelay: int)
    requires 0 < capacity <= UINT16_MAX
    ensures var l := RunLedger(Ledger(0, 0, 0, 0), Fresh(capacity), events, maxDelay);
            Exhausted(Run(Fresh(capacity), events, maxDelay).0) <==> l.overwritten + l.expired == capacity
  {
    Occupancy(capacity, events, maxDelay);
    NoneValid(Run(Fresh(capacity), events, maxDelay).0.window);
  }

  lemma StepExhausted(s: State, e: Event, maxDelay: int)
    requires s.WellFormed() && Exhausted(s)
    ensures Exhausted(Step(s, e, maxDelay).0)
    ensures match Step(s, e, maxDelay).1
            case Added(status) => !Accepts(Start(s, e.package), e.package)
            case Got(output) => !output.Delivered?
  {
    if e.ReadEvent? {
      var found := FirstPlayable(s, maxDelay, e.now, 0);
      assert Expire(s.window, maxDelay, e.now, found) == s.window;
    }
  }

  /** An exhausted buffer never accepts or delivers a package again. */
  lemma {:induction false} ExhaustedForever(s: State, events: seq<Event>, maxDelay: int)
    requires s.WellFormed() && Exhausted(s)
    ensures Exhausted(Run(s, events, maxDelay).0)
    ensures forall o | o in Run(s, events, maxDelay).1 :: o.Got? ==> !o.output.Delivered?
    decreases |events|
  {
    if events == [] {
    } else {
      StepExhausted(s, events[0], maxDelay);
      ExhaustedForever(Step(s, events[0], maxDelay).0, events[1..], maxDelay);
    }
  }

  lemma RunPair(s: State, e: Event, f: Event, maxDelay: int)
    requires s.WellFormed()
    ensures Run(s, [e, f], maxDelay).0 == Step(Step(s, e, maxDelay).0, f, maxDelay).0
  {
    var t := Step(s, e, maxDelay).0;
    assert [e, f][1..] == [f];
    assert Run(t, [f], maxDelay).0 == Step(t, f, maxDelay).0 by { assert [f][1..] == []; }
  }

  function Numbered(n: U16): Package { Package(Header(n, false, 0, 0, 0), []) }

  /** The time at which package `n + 1` arrives. */
  function Arrival(n: nat, maxDelay: nat): nat {
    if n == 0 then 0 else Arrival(n - 1, maxDelay) + maxDelay + 1
  }

  /** One package arrives and is only asked for after it has expired. */
  function SlowRead(n: U16, at: nat, maxDelay: nat): seq<Event> {
    [AddEvent(Numbered(n), at), ReadEvent(at + maxDelay + 1, 1)]
  }

  /** A slow reader asking for packages 1 to `n`. */
  function SlowReader(n: nat, maxDelay: nat): seq<Event>
    requires n <= UINT16_MAX
  {
    if n == 0 then []
    else SlowReader(n - 1, maxDelay) + SlowRead(n, Arrival(n - 1, maxDelay), maxDelay)
  }

  lemma {:induction false} SlowReaderTimely(n: nat, maxDelay: nat)
    requires n <= UINT16_MAX
    ensures Timely(SlowReader(n, maxDelay))
    ensures forall i | 0 <= i < |SlowReader(n, maxDelay)| :: TimeOf(SlowReader(n, maxDelay)[i]) <= Arrival(n, maxDelay)
  {
    if n == 0 {
    } else {
      SlowReaderTimely(n - 1, maxDelay);
    }
  }

  ghost predicate Leaked(s: State, n: nat) {
    && s.size == n
    && s.minSeq == (if n == 0 then 0 else (n + 1) % UINT16_MAX)
    && forall i | 0 <= i < |s.window| :: !s.window[i].isValid
  }

  lemma LeakAdd(s: State, n: nat, at: nat)
    requires s.WellFormed() && n < s.Capacity() && Leaked(s, n)
    ensures var t := Add(s, Numbered(n + 1), at).0;
            t.size == n + 1 == t.minSeq && t.window == s.window[0 := Fill(s.window[0], Numbered(n + 1), at)]
  {
    var t := Start(s, Numbered(n + 1));
    assert t.minSeq == n + 1;
    assert Offset(t, Numbered(n + 1)) == 0;
  }

  /** The only package is in front and too old. */
  lemma LeakRead(t: State, at: nat, maxDelay: nat)
    requires t.WellFormed() && 2 <= t.Capacity() && 1 <= t.size
    requires forall i | 1 <= i < t.Capacity() :: !t.window[i].isValid
    requires t.window[0].receptionTime == at
    ensures var u := Read(t, maxDelay, at + maxDelay + 1, 1).0;
            && u.size == t.size
            && u.minSeq == (if t.minSeq == 0 then 0 else (t.minSeq + 1) % UINT16_MAX)
            && forall i | 0 <= i < |u.window| :: !u.window[i].isValid
  {
    var now := at + maxDelay + 1;
    var found := FirstPlayable(t, maxDelay, now, 0);
    assert found == t.Capacity() - 1;
    var u := t.(window := Expire(t.window, maxDelay, now, found));
    assert !u.window[0].isValid;
  }

  lemma LeakOne(s: State, n: nat, at: nat, maxDelay: nat)
    requires s.WellFormed() && 2 <= s.Capacity() && n < s.Capacity() && Leaked(s, n)
    ensures Leaked(Run(s, SlowRead(n + 1, at, maxDelay), maxDelay).0, n + 1)
  {
    hide Read, Add, Run;
    LeakAdd(s, n, at);
    LeakRead(Add(s, Numbered(n + 1), at).0, at, maxDelay);
    RunPair(s, AddEvent(Numbered(n + 1), at), ReadEvent(at + maxDelay + 1, 1), maxDelay);
  }

  lemma FreshLeaked(capacity: nat, maxDelay: nat)
    requires 0 < capacity <= UINT16_MAX
    ensures Fresh(capacity).WellFormed() && Fresh(capacity).Capacity() == capacity
    ensures Leaked(Run(Fresh(capacity), [], maxDelay).0, 0)
  {
  }

  lemma {:induction false} SlowReaderLeaks(capacity: nat, n: nat, maxDelay: nat)
    requires 2 <= capacity <= UINT16_MAX && n <= capacity
    ensures Leaked(Run(Fresh(capacity), SlowReader(n, maxDelay), maxDelay).0, n)
  {
    hide Run, Leaked, SlowRead, Fresh;
    FreshLeaked(capacity, maxDelay);
    if n == 0 {
    } else {
      var at := Arrival(n - 1, maxDelay);
      SlowReaderLeaks(capacity, n - 1, maxDelay);
      RunConcat(Fresh(capacity), SlowReader(n - 1, maxDelay), SlowRead(n, at, maxDelay), maxDelay);
      LeakOne(Run(Fresh(capacity), SlowReader(n - 1, maxDelay), maxDelay).0, n - 1, at, maxDelay);
    }
  }

  /** Exhaustion is reachable from a new buffer of any size, in a run whose clock never goes back and
      with a threshold of one package. */
  lemma ExhaustionReachable(capacity: nat, maxDelay: nat)
    requires 2 <= capacity <= UINT16_MAX
    ensures Timely(SlowReader(capacity, maxDelay))
    ensures Exhausted(Run(Fresh(capacity), SlowReader(capacity, maxDelay), maxDelay).0)
  {
    hide Run;
    SlowReaderTimely(capacity, maxDelay);
    SlowReaderLeaks(capacity, capacity, maxDelay);
  }
}

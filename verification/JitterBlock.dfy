/** A block of consecutive packages comes out sorted, whatever order it arrived in. */
module JitterBlock {
  import opened Words
  import opened JitterWindow
  import opened JitterRefinement

  function Adds(packages: seq<Package>, at: seq<int>): (events: seq<Event>)
    requires |packages| == |at|
    ensures |events| == |packages|
  {
    seq(|packages|, i requires 0 <= i < |packages| => AddEvent(packages[i], at[i]))
  }

  lemma AddsFirst(packages: seq<Package>, at: seq<int>)
    requires |packages| == |at| > 0
    ensures Adds(packages, at) == [AddEvent(packages[0], at[0])] + Adds(packages[1..], at[1..])
  {
  }

  function Reads(now: seq<int>, threshold: seq<nat>): (events: seq<Event>)
    requires |now| == |threshold|
    ensures |events| == |now|
  {
    seq(|now|, i requires 0 <= i < |now| => ReadEvent(now[i], threshold[i]))
  }

  ghost predicate HasPackage(packages: seq<Package>, q: int) {
    exists i :: 0 <= i < |packages| && packages[i].SequenceNumber() == q
  }

  /** The buffer after the packages `arrived`, all of them with keys from `m` to `m + n - 1`. */
  ghost predicate Holding(s: State, arrived: seq<Package>, m: nat, n: nat, earliest: int) {
    && s.WellFormed() && n < s.Capacity() && InRegime(s)
    && s.minSeq == m && s.size == |arrived|
    && forall k | 0 <= k < s.Capacity() ::
         if k < n && HasPackage(arrived, m + k) then
           && s.window[k].isValid && s.window[k].SequenceNumber() == m + k
           && s.window[k].Stored() in arrived && earliest <= s.window[k].receptionTime
         else !s.window[k].isValid
  }

  lemma HoldOne(s: State, arrived: seq<Package>, p: Package, now: int, m: nat, n: nat, earliest: int)
    requires Holding(s, arrived, m, n, earliest) && |arrived| < n
    requires Start(s, p) == s && m <= p.SequenceNumber() < m + n && earliest <= now
    ensures Holding(Add(s, p, now).0, arrived + [p], m, n, earliest)
  {
    SmallOffset(s, p);
    var t := Add(s, p, now).0;
    var i := p.SequenceNumber() - m;
    assert t.window == s.window[i := Fill(s.window[i], p, now)];
    forall q ensures HasPackage(arrived + [p], q) <==> HasPackage(arrived, q) || q == p.SequenceNumber() {
      if HasPackage(arrived, q) {
        var j :| 0 <= j < |arrived| && arrived[j].SequenceNumber() == q;
        assert (arrived + [p])[j].SequenceNumber() == q;
      }
      assert (arrived + [p])[|arrived|] == p;
    }
    forall k | 0 <= k < s.Capacity() && k != i && s.window[k].isValid
      ensures t.window[k].Stored() in arrived + [p]
    {
    }
  }

  /** What comes in any order behind the package that started the numbering. */
  ghost predicate Follow(packages: seq<Package>, m: nat, n: nat) {
    forall p | p in packages :: !p.header.marked && m <= p.SequenceNumber() < m + n
  }

  lemma HoldNext(s: State, arrived: seq<Package>, coming: seq<Package>, now: int, m: nat, n: nat, earliest: int)
    requires Holding(s, arrived, m, n, earliest) && |arrived| + |coming| <= n && earliest <= now
    requires coming != [] && Follow(coming, m, n)
    ensures Holding(Add(s, coming[0], now).0, arrived + [coming[0]], m, n, earliest) && Follow(coming[1..], m, n)
  {
    assert coming[0] in coming && Start(s, coming[0]) == s;
    HoldOne(s, arrived, coming[0], now, m, n, earliest);
  }

  lemma MoveOne(arrived: seq<Package>, coming: seq<Package>)
    requires coming != []
    ensures (arrived + [coming[0]]) + coming[1..] == arrived + coming
  {
  }

  lemma {:induction false} HoldAll(s: State, arrived: seq<Package>, coming: seq<Package>, at: seq<int>,
                                   m: nat, n: nat, earliest: int, maxDelay: int)
    requires Holding(s, arrived, m, n, earliest) && |arrived| + |coming| <= n
    requires |coming| == |at| && forall i | 0 <= i < |at| :: earliest <= at[i]
    requires Follow(coming, m, n)
    ensures Holding(Run(s, Adds(coming, at), maxDelay).0, arrived + coming, m, n, earliest)
    decreases |coming|
  {
    assert s.WellFormed();
    hide Add, Run, Holding, Follow, Adds;
    if coming == [] {
      RunNothing(s, maxDelay);
      assert arrived + coming == arrived && Adds(coming, at) == [];
    } else {
      AddsFirst(coming, at);
      HoldNext(s, arrived, coming, at[0], m, n, earliest);
      RunFirst(s, AddEvent(coming[0], at[0]), Adds(coming[1..], at[1..]), maxDelay);
      var t := Add(s, coming[0], at[0]).0;
      assert Step(s, AddEvent(coming[0], at[0]), maxDelay).0 == t;
      hide Step;
      HoldAll(t, arrived + [coming[0]], coming[1..], at[1..], m, n, earliest, maxDelay);
      MoveOne(arrived, coming);
    }
  }

  /** The packages with keys `m` to `m + n - 1` are there, and no others. */
  ghost predicate Queued(s: State, packages: seq<Package>, m: nat, n: nat, earliest: int) {
    && s.WellFormed() && n < s.Capacity() && 1 <= m && m + n < UINT16_MAX
    && s.minSeq == m && s.size == n
    && forall k | 0 <= k < s.Capacity() ::
         if k < n then
           && s.window[k].isValid && s.window[k].SequenceNumber() == m + k
           && s.window[k].Stored() in packages && earliest <= s.window[k].receptionTime
         else !s.window[k].isValid
  }

  lemma Dequeue(s: State, packages: seq<Package>, m: nat, n: nat, earliest: int,
                maxDelay: int, now: int, threshold: nat)
    requires Queued(s, packages, m, n, earliest) && 0 < n
    requires now <= earliest + maxDelay && threshold <= n
    ensures var (t, output) := Read(s, maxDelay, now, threshold);
            && Queued(t, packages, m + 1, n - 1, earliest)
            && output == Delivered(s.window[0].Stored(), 0)
            && output.package in packages && output.package.SequenceNumber() == m
  {
    assert Playable(s, s.window[0], maxDelay, now);
    assert Expire(s.window, maxDelay, now, 0) == s.window;
    var t := Read(s, maxDelay, now, threshold).0;
    assert Read(s, maxDelay, now, threshold) == Deliver(s, 0);
    assert t.window == s.window[1..] + [Invalidate(s.window[0])];
  }

  ghost predicate Sorted(outcomes: seq<Outcome>, packages: seq<Package>, m: nat) {
    forall j | 0 <= j < |outcomes| ::
      && outcomes[j].Got? && outcomes[j].output.Delivered? && outcomes[j].output.lost == 0
      && outcomes[j].output.package in packages
      && outcomes[j].output.package.SequenceNumber() == m + j
  }

  lemma {:induction false} DequeueAll(s: State, packages: seq<Package>, m: nat, earliest: int,
                                      maxDelay: int, now: seq<int>, threshold: seq<nat>)
    requires |now| == |threshold| && Queued(s, packages, m, |now|, earliest)
    requires forall j | 0 <= j < |now| :: now[j] <= earliest + maxDelay && threshold[j] <= |now| - j
    ensures Sorted(Run(s, Reads(now, threshold), maxDelay).1, packages, m)
    ensures Queued(Run(s, Reads(now, threshold), maxDelay).0, packages, m + |now|, 0, earliest)
    decreases |now|
  {
    if now == [] {
    } else {
      Dequeue(s, packages, m, |now|, earliest, maxDelay, now[0], threshold[0]);
      var (t, output) := Read(s, maxDelay, now[0], threshold[0]);
      assert Reads(now, threshold)[1..] == Reads(now[1..], threshold[1..]);
      DequeueAll(t, packages, m + 1, earliest, maxDelay, now[1..], threshold[1..]);
      var rest := Run(t, Reads(now[1..], threshold[1..]), maxDelay).1;
      var all := Run(s, Reads(now, threshold), maxDelay).1;
      assert all == [Got(output)] + rest;
      forall j | 0 <= j < |all|
        ensures all[j].Got? && all[j].output.Delivered? && all[j].output.lost == 0
             && all[j].output.package in packages && all[j].output.package.SequenceNumber() == m + j
      {
        if j > 0 { assert all[j] == rest[j - 1]; }
      }
    }
  }

  /** No slot is occupied, and none counts as occupied. */
  ghost predicate Empty(s: State) {
    s.WellFormed() && s.size == 0 && NoneFrom(s, 0)
  }

  lemma FreshEmpty(capacity: nat)
    requires 0 < capacity <= UINT16_MAX
    ensures Empty(Fresh(capacity)) && Fresh(capacity).Capacity() == capacity
  {
  }

  /** A package that starts the numbering is the smallest; otherwise the smallest is the one expected next. */
  lemma FirstHeld(s: State, p: Package, at: int, m: nat, n: nat, earliest: int)
    requires Empty(s) && 1 <= n < s.Capacity() && 1 <= m < UINT16_MAX - s.Capacity() && earliest <= at
    requires m <= p.SequenceNumber() < m + n
    requires m == if s.minSeq == 0 || p.header.marked then p.SequenceNumber() else s.minSeq
    ensures Holding(Add(s, p, at).0, [p], m, n, earliest)
  {
    var t := Start(s, p);
    assert Holding(t, [], m, n, earliest) && Start(t, p) == t;
    hide Holding;
    HoldOne(t, [], p, at, m, n, earliest);
    assert [] + [p] == [p] && Add(s, p, at).0 == Add(t, p, at).0;
  }

  /** When all packages have arrived they lie in the window in order. */
  lemma HeldAreQueued(s: State, packages: seq<Package>, m: nat, n: nat, earliest: int)
    requires Holding(s, packages, m, n, earliest) && n == |packages|
    requires forall q | m <= q < m + n :: HasPackage(packages, q)
    ensures Queued(s, packages, m, n, earliest)
  {
    hide HasPackage;
  }

  /** A block of at most `capacity - 1` packages into an empty buffer comes out in order, no package being too old when
      read, and leaves the buffer empty and waiting for the next block. */
  lemma SortedBlock(s: State, packages: seq<Package>, at: seq<int>, now: seq<int>, threshold: seq<nat>,
                    m: nat, earliest: int, maxDelay: int)
    requires Empty(s)
    requires var n := |packages|; 1 <= n < s.Capacity() && |at| == |now| == |threshold| == n
    requires 1 <= m < UINT16_MAX - s.Capacity()
    requires m == if s.minSeq == 0 || packages[0].header.marked then packages[0].SequenceNumber() else s.minSeq
    requires m <= packages[0].SequenceNumber() < m + |packages| && Follow(packages[1..], m, |packages|)
    requires forall q | m <= q < m + |packages| :: HasPackage(packages, q)
    requires forall i | 0 <= i < |at| :: earliest <= at[i]
    requires forall j | 0 <= j < |now| :: now[j] <= earliest + maxDelay && threshold[j] <= |now| - j
    ensures var (u, outcomes) := Run(s, Adds(packages, at) + Reads(now, threshold), maxDelay);
            && Sorted(outcomes[|packages|..], packages, m)
            && Empty(u) && u.minSeq == m + |packages|
  {
    hide Add, Holding, HasPackage, Sorted, Queued, Follow;
    var n := |packages|;
    var p := packages[0];
    var first := Add(s, p, at[0]).0;
    FirstHeld(s, p, at[0], m, n, earliest);
    HoldAll(first, [p], packages[1..], at[1..], m, n, earliest, maxDelay);
    assert [p] + packages[1..] == packages;
    assert Adds(packages, at)[1..] == Adds(packages[1..], at[1..]);
    var t := Run(s, Adds(packages, at), maxDelay).0;
    assert t == Run(first, Adds(packages[1..], at[1..]), maxDelay).0;
    HeldAreQueued(t, packages, m, n, earliest);
    DequeueAll(t, packages, m, earliest, maxDelay, now, threshold);
    RunConcat(s, Adds(packages, at), Reads(now, threshold), maxDelay);
    var (u, outcomes) := Run(s, Adds(packages, at) + Reads(now, threshold), maxDelay);
    assert outcomes[n..] == Run(t, Reads(now, threshold), maxDelay).1;
    NoneQueued(u, packages, m + n, earliest);
  }

  lemma NoneQueued(s: State, packages: seq<Package>, m: nat, earliest: int)
    requires Queued(s, packages, m, 0, earliest)
    ensures Empty(s) && s.minSeq == m
  {
  }
}

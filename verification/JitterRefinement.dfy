/** The jitter buffer as a finite map from sequence number to package, read in key order. */
module JitterRefinement {
  import opened Words
  import opened JitterWindow

  datatype Entry = Entry(package: Package, received: int)

  /** Sequence numbers do not wrap while the buffer is in this range, and 0 means "not started". */
  ghost predicate InRegime(s: State) {
    1 <= s.minSeq < UINT16_MAX - s.Capacity()
  }

  ghost predicate Aligned(s: State) {
    forall i | 0 <= i < |s.window| && s.window[i].isValid :: s.window[i].SequenceNumber() == s.minSeq + i
  }

  ghost predicate NoneFrom(s: State, n: nat) {
    forall i | n <= i < |s.window| :: !s.window[i].isValid
  }

  ghost predicate Holds(s: State, k: int) {
    s.minSeq <= k < s.minSeq + |s.window| && s.window[k - s.minSeq].isValid
  }

  ghost function EntryAt(s: State, k: int): Entry
    requires s.WellFormed() && Holds(s, k)
  {
    Entry(s.window[k - s.minSeq].Stored(), s.window[k - s.minSeq].receptionTime)
  }

  ghost function Packages(s: State): map<int, Entry>
    requires s.WellFormed()
  {
    map k: int | s.minSeq <= k < s.minSeq + |s.window| && Holds(s, k) :: EntryAt(s, k)
  }

  // ---------- adding ----------

  lemma SmallOffset(s: State, p: Package)
    requires s.Capacity() > 0 && 0 <= p.SequenceNumber() - s.minSeq < s.Capacity()
    ensures Offset(s, p) == p.SequenceNumber() - s.minSeq
  {
  }

  /** In the regime, adding either inserts one key or drops the package. */
  lemma AddRefines(s: State, p: Package, now: int)
    requires s.WellFormed() && InRegime(s) && Aligned(s) && !p.header.marked
    ensures var (t, status) := Add(s, p, now);
            var q := p.SequenceNumber();
            if s.minSeq <= q < s.minSeq + s.Capacity() && s.size != s.Capacity() then
              && status == AllOkay && Aligned(t) && t.minSeq == s.minSeq
              && Packages(t) == Packages(s)[q := Entry(p, now)]
            else
              t == s && (status == AllOkay <==> q < s.minSeq)
  {
    if Accepts(s, p) {
      SmallOffset(s, p);
      FillKey(s, Add(s, p, now).0, p, now);
    }
  }

  lemma FillKey(s: State, t: State, p: Package, now: int)
    requires s.WellFormed() && t.WellFormed()
    requires 0 <= p.SequenceNumber() - s.minSeq < s.Capacity() && s.minSeq == t.minSeq
    requires var i := p.SequenceNumber() - s.minSeq; t.window == s.window[i := Fill(s.window[i], p, now)]
    ensures Packages(t) == Packages(s)[p.SequenceNumber() := Entry(p, now)]
  {
    var m := Packages(s)[p.SequenceNumber() := Entry(p, now)];
    forall k: int
      ensures k in Packages(t) <==> k in m
      ensures k in m ==> Packages(t)[k] == m[k]
    {
      assert Holds(t, k) <==> k == p.SequenceNumber() || Holds(s, k);
    }
  }

  /** A package that sets the minimum anew leaves the older ones at wrong keys,
      unless there are none or the minimum stays the same. */
  lemma ResetRefines(s: State, p: Package, now: int)
    requires s.WellFormed() && Aligned(s) && (s.minSeq == 0 || p.header.marked)
    requires 1 <= p.SequenceNumber() < UINT16_MAX - s.Capacity()
    ensures var t := Add(s, p, now).0;
            var q := p.SequenceNumber();
            var full := s.size == s.Capacity();
            && (Aligned(t) <==> q == s.minSeq || NoneFrom(s, if full then 0 else 1))
            && (NoneFrom(s, 1) && !full ==> Packages(t) == map[q := Entry(p, now)])
  {
    var t := Add(s, p, now).0;
    var q := p.SequenceNumber();
    var first := if s.size == s.Capacity() then 0 else 1;
    SmallOffset(Start(s, p), p);
    assert t.minSeq == q && forall i | first <= i < |s.window| :: t.window[i] == s.window[i];
    if !NoneFrom(s, first) && q != s.minSeq {
      var i :| first <= i < |s.window| && s.window[i].isValid;
      assert t.window[i].SequenceNumber() != t.minSeq + i;
    }
    if first == 1 && NoneFrom(s, 1) {
      var m := map[q := Entry(p, now)];
      assert forall k :: Holds(t, k) <==> k == q;
      assert Packages(t) == m;
    }
  }

  // ---------- reading ----------

  predicate Live(entry: Entry, maxDelay: int, now: int) {
    now <= entry.received + maxDelay
  }

  ghost predicate LeastLive(m: map<int, Entry>, k: int, maxDelay: int, now: int) {
    && k in m && Live(m[k], maxDelay, now)
    && forall j | j in m && Live(m[j], maxDelay, now) :: k <= j
  }

  /** What a read does to a map: it takes out the least live key and everything below it,
      and an empty read forgets everything and moves the minimum by one. */
  ghost predicate ReadsMap(s: State, t: State, output: Output, maxDelay: int, now: int)
    requires s.WellFormed() && t.WellFormed()
  {
    var m := Packages(s);
    && Aligned(t)
    && if exists k :: LeastLive(m, k, maxDelay, now) then
         exists k ::
           && LeastLive(m, k, maxDelay, now)
           && output == Delivered(m[k].package, k - s.minSeq)
           && t.minSeq == k + 1
           && Packages(t) == map j | j in m && k < j :: m[j]
       else
         output.Concealed? && t.minSeq == s.minSeq + 1 && Packages(t) == map[]
  }

  ghost predicate LiveAt(s: State, i: int, maxDelay: int, now: int) {
    0 <= i < |s.window| && s.window[i].isValid && !Expired(s.window[i], maxDelay, now)
  }

  lemma ScanStops(s: State, maxDelay: int, now: int)
    requires s.WellFormed() && Aligned(s)
    ensures var found := FirstPlayable(s, maxDelay, now, 0);
            && (forall i | 0 <= i < found :: !LiveAt(s, i, maxDelay, now))
            && (found < s.Capacity() - 1 ==> LiveAt(s, found, maxDelay, now))
  {
  }

  lemma LeastLiveIsFirst(s: State, f: nat, maxDelay: int, now: int)
    requires s.WellFormed() && LiveAt(s, f, maxDelay, now)
    requires forall i | 0 <= i < f :: !LiveAt(s, i, maxDelay, now)
    ensures LeastLive(Packages(s), s.minSeq + f, maxDelay, now)
  {
    forall j | j in Packages(s) && Live(Packages(s)[j], maxDelay, now)
      ensures s.minSeq + f <= j
    {
      assert LiveAt(s, j - s.minSeq, maxDelay, now);
    }
  }

  /** What a read does when the scan stops at offset `f`. */
  lemma ReadFound(s: State, maxDelay: int, now: int, f: nat)
    requires s.WellFormed() && InRegime(s) && Aligned(s)
    requires f == FirstPlayable(s, maxDelay, now, 0) < s.Capacity() - 1
    ensures var (t, output) := Read(s, maxDelay, now, 0);
            && output == Delivered(s.window[f].Stored(), f)
            && t.minSeq == s.minSeq + f + 1
            && (forall i | 0 <= i < |t.window| - f - 1 :: t.window[i] == s.window[f + 1 + i])
            && NoneFrom(t, |t.window| - f - 1)
  {
    ScanStops(s, maxDelay, now);
    var window := Expire(s.window, maxDelay, now, f);
    forall i | 0 <= i < f ensures !window[i].isValid {
      assert !LiveAt(s, i, maxDelay, now);
    }
    assert window[f] == s.window[f];
    assert Read(s, maxDelay, now, 0) == Deliver(s.(window := window), f);
  }

  lemma DeliverRefines(s: State, maxDelay: int, now: int)
    requires s.WellFormed() && InRegime(s) && Aligned(s)
    requires FirstPlayable(s, maxDelay, now, 0) < s.Capacity() - 1
    ensures var (t, output) := Read(s, maxDelay, now, 0); ReadsMap(s, t, output, maxDelay, now)
  {
    var f := FirstPlayable(s, maxDelay, now, 0);
    ScanStops(s, maxDelay, now);
    LeastLiveIsFirst(s, f, maxDelay, now);
    ReadFound(s, maxDelay, now, f);
    DropBelow(s, Read(s, maxDelay, now, 0).0, f);
  }

  /** Moving the window behind offset `f` keeps the keys above it. */
  lemma DropBelow(s: State, t: State, f: nat)
    requires s.WellFormed() && t.WellFormed() && Aligned(s) && f < |s.window| == |t.window|
    requires t.minSeq == s.minSeq + f + 1
    requires forall i | 0 <= i < |t.window| - f - 1 :: t.window[i] == s.window[f + 1 + i]
    requires NoneFrom(t, |t.window| - f - 1)
    ensures Aligned(t)
    ensures Packages(t) == map j | j in Packages(s) && s.minSeq + f < j :: Packages(s)[j]
  {
    forall j: int
      ensures Holds(t, j) <==> Holds(s, j) && s.minSeq + f < j
      ensures Holds(t, j) ==> EntryAt(t, j) == EntryAt(s, j)
    {
      var i := j - t.minSeq;
      if 0 <= i < |t.window| - f - 1 { assert t.window[i] == s.window[f + 1 + i]; }
    }
  }

  /** A scan without a playable slot has expired all it visited. */
  lemma NoneLeft(s: State, maxDelay: int, now: int)
    requires s.WellFormed() && InRegime(s) && Aligned(s)
    requires FirstPlayable(s, maxDelay, now, 0) == s.Capacity() - 1
    ensures var window := Expire(s.window, maxDelay, now, s.Capacity() - 1);
            && (forall i | 0 <= i < s.Capacity() - 1 :: !window[i].isValid)
            && window[s.Capacity() - 1] == s.window[s.Capacity() - 1]
  {
    ScanStops(s, maxDelay, now);
    var window := Expire(s.window, maxDelay, now, s.Capacity() - 1);
    forall i | 0 <= i < s.Capacity() - 1 ensures !window[i].isValid {
      assert !LiveAt(s, i, maxDelay, now);
    }
  }

  lemma StarveRefines(s: State, maxDelay: int, now: int)
    requires s.WellFormed() && InRegime(s) && Aligned(s) && 2 <= s.Capacity()
    requires FirstPlayable(s, maxDelay, now, 0) == s.Capacity() - 1
    ensures var (t, output) := Read(s, maxDelay, now, 0);
            ReadsMap(s, t, output, maxDelay, now) <==> !s.window[s.Capacity() - 1].isValid
  {
    hide FirstPlayable, Expire;
    var last := s.Capacity() - 1;
    ScanStops(s, maxDelay, now);
    NoneLeft(s, maxDelay, now);
    var (t, output) := Read(s, maxDelay, now, 0);
    assert t.window == Expire(s.window, maxDelay, now, last) && t.minSeq == s.minSeq + 1;
    if s.window[last].isValid {
      assert t.window[last].SequenceNumber() != t.minSeq + last;
    } else {
      forall k | k in Packages(s) ensures !Live(Packages(s)[k], maxDelay, now) {
        assert !LiveAt(s, k - s.minSeq, maxDelay, now);
      }
    }
  }

  /** In the regime a read is a read of the map exactly when the slot the scan never
      visits is empty or some other package can still be played. */
  lemma ReadRefines(s: State, maxDelay: int, now: int, threshold: nat)
    requires s.WellFormed() && InRegime(s) && Aligned(s) && 2 <= s.Capacity()
    requires threshold <= s.size
    ensures var (t, output) := Read(s, maxDelay, now, threshold);
            ReadsMap(s, t, output, maxDelay, now) <==>
            (!s.window[s.Capacity() - 1].isValid
             || exists i :: i < s.Capacity() - 1 && LiveAt(s, i, maxDelay, now))
  {
    ScanStops(s, maxDelay, now);
    assert Read(s, maxDelay, now, threshold) == Read(s, maxDelay, now, 0);
    if FirstPlayable(s, maxDelay, now, 0) < s.Capacity() - 1 {
      DeliverRefines(s, maxDelay, now);
    } else {
      StarveRefines(s, maxDelay, now);
    }
  }

  // ---------- runs in which the map is left ----------

  /** Package 1 arrives and is read, then package `capacity + 1` arrives and is read. */
  function LastSlotRun(p: Package, q: Package): seq<Event> {
    [AddEvent(p, 0)] + ([ReadEvent(0, 1)] + ([AddEvent(q, 0)] + ([ReadEvent(0, 1)] + [])))
  }

  /** The first package is read at once. */
  lemma FirstRead(capacity: nat, p: Package, maxDelay: nat)
    requires 2 <= capacity < UINT16_MAX && 1 <= p.SequenceNumber() < UINT16_MAX - 1
    ensures var (t, output) := Read(Add(Fresh(capacity), p, 0).0, maxDelay, 0, 1);
            && output == Delivered(p, 0) && t.minSeq == p.SequenceNumber() + 1 && t.size == 0 && NoneFrom(t, 0)
  {
    var s := Add(Fresh(capacity), p, 0).0;
    SmallOffset(Start(Fresh(capacity), p), p);
    assert s.window == Fresh(capacity).window[0 := Fill(BLANK, p, 0)] && s.size == 1 && s.minSeq == p.SequenceNumber();
    assert FirstPlayable(s, maxDelay, 0, 0) == 0;
    assert Expire(s.window, maxDelay, 0, 0) == s.window;
  }

  /** A package in the last slot, the only one. */
  lemma LastSlotMissed(s: State, q: Package, maxDelay: nat)
    requires s.WellFormed() && InRegime(s) && 2 <= s.Capacity() && NoneFrom(s, 0) && s.size == 0
    requires q.SequenceNumber() == s.minSeq + s.Capacity() - 1 && !q.header.marked
    ensures var (t, status) := Add(s, q, 0);
            && status == AllOkay && Packages(t) == map[q.SequenceNumber() := Entry(q, 0)]
            && Read(t, maxDelay, 0, 1).1.Concealed?
  {
    AddRefines(s, q, 0);
    SmallOffset(s, q);
    assert Packages(s) == map[];
    var t, last := Add(s, q, 0).0, s.Capacity() - 1;
    assert t.window == s.window[last := Fill(s.window[last], q, 0)] && t.size == 1;
    assert FirstPlayable(t, maxDelay, 0, 0) == last;
  }

  /** In a buffer of any size a package accepted at offset `capacity - 1` is not found, although it is the only one. */
  lemma UnscannedSlot(capacity: nat, p: Package, q: Package, maxDelay: nat)
    requires 2 <= capacity < UINT16_MAX - 2
    requires p.SequenceNumber() == 1 && q.SequenceNumber() == capacity + 1 && !q.header.marked
    ensures var outcomes := Run(Fresh(capacity), LastSlotRun(p, q), maxDelay).1;
            && Timely(LastSlotRun(p, q))
            && outcomes[1] == Got(Delivered(p, 0)) && outcomes[2] == Added(AllOkay)
            && outcomes[3].Got? && outcomes[3].output.Concealed?
    ensures Packages(Run(Fresh(capacity), LastSlotRun(p, q)[..3], maxDelay).0) == map[q.SequenceNumber() := Entry(q, 0)]
  {
    hide Add, Read;
    var s := Add(Fresh(capacity), p, 0).0;
    var t := Read(s, maxDelay, 0, 1).0;
    var u := Add(t, q, 0).0;
    FirstRead(capacity, p, maxDelay);
    LastSlotMissed(t, q, maxDelay);
    RunFirst(u, ReadEvent(0, 1), [], maxDelay);
    RunFirst(t, AddEvent(q, 0), [ReadEvent(0, 1)] + [], maxDelay);
    RunFirst(s, ReadEvent(0, 1), [AddEvent(q, 0)] + ([ReadEvent(0, 1)] + []), maxDelay);
    RunFirst(Fresh(capacity), AddEvent(p, 0), LastSlotRun(p, q)[1..], maxDelay);
    assert LastSlotRun(p, q)[..3] == [AddEvent(p, 0)] + ([ReadEvent(0, 1)] + ([AddEvent(q, 0)] + []));
    RunFirst(t, AddEvent(q, 0), [], maxDelay);
    RunFirst(s, ReadEvent(0, 1), [AddEvent(q, 0)] + [], maxDelay);
    RunFirst(Fresh(capacity), AddEvent(p, 0), [ReadEvent(0, 1)] + ([AddEvent(q, 0)] + []), maxDelay);
  }

  /** A marked package 20 behind packages 10 and 11. */
  function MarkerRun(p: Package, q: Package, m: Package): seq<Event> {
    [AddEvent(p, 0)] + ([AddEvent(q, 0)] + ([AddEvent(m, 0)] + []))
  }

  /** A marker in the middle of a stream leaves package 11 where package 21 belongs. */
  lemma MarkerMisaligns(p: Package, q: Package, m: Package, maxDelay: int)
    requires p.SequenceNumber() == 10 && q.SequenceNumber() == 11 && !q.header.marked
    requires m.SequenceNumber() == 20 && m.header.marked
    ensures var s := Run(Fresh(4), MarkerRun(p, q, m), maxDelay).0;
            && Timely(MarkerRun(p, q, m)) && !Aligned(s)
            && s.minSeq == 20 && s.window[1].isValid && s.window[1].Stored() == q
  {
    var s := Add(Fresh(4), p, 0).0;
    SmallOffset(Start(Fresh(4), p), p);
    assert s.window == Fresh(4).window[0 := Fill(BLANK, p, 0)] && s.size == 1 && s.minSeq == 10;
    var t := Add(s, q, 0).0;
    SmallOffset(s, q);
    assert t.window == s.window[1 := Fill(BLANK, q, 0)] && t.size == 2 && t.minSeq == 10;
    ResetRefines(t, m, 0);
    SmallOffset(Start(t, m), m);
    var u := Add(t, m, 0).0;
    assert u.window == t.window[0 := Fill(t.window[0], m, 0)];
    assert u.window[1].SequenceNumber() != u.minSeq + 1;
    hide Add;
    RunFirst(t, AddEvent(m, 0), [], maxDelay);
    RunFirst(s, AddEvent(q, 0), [AddEvent(m, 0)] + [], maxDelay);
    RunFirst(Fresh(4), AddEvent(p, 0), [AddEvent(q, 0)] + ([AddEvent(m, 0)] + []), maxDelay);
  }
}

/** What is played while packages are missing: the last one twice, then silence. */
module JitterConcealment {
  import opened Words
  import opened JitterWindow
  import opened JitterRefinement
  import opened JitterRuns

  /** No sequence number was filled in twice; 0 is the header of an unused slot. */
  ghost predicate DistinctSlots(window: seq<Slot>) {
    forall i, j | 0 <= i < j < |window| ::
      window[i].SequenceNumber() == window[j].SequenceNumber() ==> window[i].SequenceNumber() == 0
  }

  /** The package `p` was handed out by the last read and its slot is untouched. */
  ghost predicate JustDelivered(s: State, p: Package) {
    && s.WellFormed() && 3 <= s.Capacity()
    && 1 <= p.SequenceNumber() && s.minSeq == p.SequenceNumber() + 1 < UINT16_MAX
    && s.window[s.Capacity() - 1].Stored() == p
    && DistinctSlots(s.window)
    && (s.lastReceived == 0 || 1 <= s.numRepeated < UINT16_MAX)
  }

  lemma {:induction false} SearchBackFinds(s: State, wanted: U16, back: nat)
    requires s.WellFormed() && back <= s.readPos
    ensures var c := SearchBack(s, wanted, back); c.Replay? ==> c.package.SequenceNumber() == wanted
    decreases s.readPos - back
  {
    if back >= s.readPos {
    } else {
      SearchBackFinds(s, wanted, back + 1);
    }
  }

  function Repetition(s: State, p: Package): Concealment {
    if s.readPos == 0 then OutOfBounds else Replay(p)
  }

  /** The slot behind the cursor is found, except from array index 0. */
  lemma SearchBackDelivered(s: State, p: Package)
    requires s.WellFormed() && 3 <= s.Capacity() && DistinctSlots(s.window)
    requires p.SequenceNumber() != 0 && s.window[s.Capacity() - 1].Stored() == p
    ensures SearchBack(s, p.SequenceNumber(), 0) == Repetition(s, p)
  {
    assert s.window[0].SequenceNumber() != p.SequenceNumber();
    if s.readPos > 0 {
      assert Behind(s, 1) == s.window[s.Capacity() - 1];
    }
  }

  /** The first missing package after `p` is replaced by `p` exactly when the cursor is not
      at array index 0 and the loss does not count as a continuation of an older run. */
  lemma FirstLossReplays(s: State, p: Package)
    requires JustDelivered(s, p)
    ensures Starve(s).1 == Concealed(Replay(p)) <==> s.readPos != 0 && !Continues(s)
  {
    var t := NoteLoss(s);
    if Continues(s) {
      assert s.lastReceived != p.SequenceNumber();
      SearchBackFinds(t, t.lastReceived, 0);
    } else {
      SearchBackDelivered(t, p);
    }
  }

  // ---------- a whole run of losses ----------

  /** `n` packages after `p` were concealed already. */
  ghost predicate Concealing(s: State, p: Package, n: nat) {
    && s.WellFormed() && 3 <= s.Capacity() && DistinctSlots(s.window)
    && 1 <= p.SequenceNumber() && s.window[s.Capacity() - 1].Stored() == p
    && s.minSeq == p.SequenceNumber() + 1 + n < UINT16_MAX
    && if n == 0 then !Continues(s) else s.lastReceived == p.SequenceNumber() && s.numRepeated == n
  }

  lemma StarveOne(s: State, p: Package, n: nat)
    requires Concealing(s, p, n) && s.minSeq + 1 < UINT16_MAX
    ensures var (t, output) := Starve(s);
            && Concealing(t, p, n + 1)
            && output == Concealed(if n < 2 then Repetition(s, p) else Silence)
  {
    assert Continues(s) <==> n > 0;
    SearchBackDelivered(NoteLoss(s), p);
  }

  lemma ExpireConcealing(s: State, p: Package, n: nat, maxDelay: int, now: int, found: nat)
    requires Concealing(s, p, n)
    ensures Concealing(s.(window := Expire(s.window, maxDelay, now, found)), p, n)
  {
    var window := Expire(s.window, maxDelay, now, found);
    forall i | 0 <= i < |window|
      ensures window[i].Stored() == s.window[i].Stored() && window[i].SequenceNumber() == s.window[i].SequenceNumber()
    {
    }
  }

  lemma ConcealOne(s: State, p: Package, n: nat, maxDelay: int, now: int, threshold: nat)
    requires Concealing(s, p, n) && s.minSeq + 1 < UINT16_MAX
    requires !Read(s, maxDelay, now, threshold).1.Delivered?
    ensures var (t, output) := Read(s, maxDelay, now, threshold);
            && t.readPos == s.readPos
            && if output.Stretched? then Concealing(t, p, n) else
                 && Concealing(t, p, n + 1)
                 && output == Concealed(if n < 2 then Repetition(s, p) else Silence)
  {
    if threshold <= s.size {
      var found := FirstPlayable(s, maxDelay, now, 0);
      var t := s.(window := Expire(s.window, maxDelay, now, found));
      ExpireConcealing(s, p, n, maxDelay, now, found);
      StarveOne(t, p, n);
      assert Read(s, maxDelay, now, threshold) == Starve(t);
    }
  }

  function Concealments(outcomes: seq<Outcome>): (cs: seq<Concealment>)
    ensures |cs| <= |outcomes|
  {
    if outcomes == [] then []
    else
      var rest := Concealments(outcomes[1..]);
      match outcomes[0]
      case Got(Concealed(c)) => [c] + rest
      case _ => rest
  }

  ghost predicate Fades(cs: seq<Concealment>, repetition: Concealment, n: nat) {
    forall j | 0 <= j < |cs| :: cs[j] == if n + j < 2 then repetition else Silence
  }

  /** While nothing is added or delivered, the first two concealed reads after `p` repeat it
      (or, from array index 0, leave the array) and all later ones are silent. */
  lemma {:induction false} LossesFade(s: State, p: Package, n: nat, events: seq<Event>, maxDelay: int)
    requires Concealing(s, p, n) && s.minSeq + |events| < UINT16_MAX
    requires forall e | e in events :: e.ReadEvent?
    requires Deliveries(Run(s, events, maxDelay).1) == []
    ensures Fades(Concealments(Run(s, events, maxDelay).1), Repetition(s, p), n)
    decreases |events|
  {
    if events == [] {
    } else {
      var e := events[0];
      assert e in events;
      var (t, output) := Read(s, maxDelay, e.now, e.threshold);
      var outcomes := Run(t, events[1..], maxDelay).1;
      assert Run(s, events, maxDelay).1 == [Got(output)] + outcomes;
      assert ([Got(output)] + outcomes)[1..] == outcomes;
      ConcealOne(s, p, n, maxDelay, e.now, e.threshold);
      LossesFade(t, p, if output.Stretched? then n else n + 1, events[1..], maxDelay);
      assert Concealments([Got(output)] + outcomes) ==
             if output.Stretched? then Concealments(outcomes) else [output.concealment] + Concealments(outcomes);
    }
  }

  // ---------- every delivery in the regime is one of these ----------

  /** The concealment counters lag behind the minimum. The last case is a buffer that
      was asked for packages before it was started. */
  ghost predicate CountersLag(s: State) {
    || s.lastReceived == 0
    || (1 <= s.numRepeated && s.lastReceived % UINT16_MAX + s.numRepeated < s.minSeq)
    || (s.lastReceived == UINT16_MAX && s.numRepeated == 1 && s.minSeq <= 1)
  }

  ghost predicate Tidy(s: State, used: set<int>) {
    && s.WellFormed() && DistinctSlots(s.window) && CountersLag(s)
    && forall i | 0 <= i < |s.window| ::
         s.window[i].SequenceNumber() in used || (s.window[i].SequenceNumber() == 0 && !s.window[i].isValid)
  }

  /** Every sequence number is added once, and marked packages do not go back. */
  ghost predicate NewEvent(s: State, e: Event, used: set<int>) {
    e.AddEvent? ==>
      && e.package.SequenceNumber() != 0 && e.package.SequenceNumber() !in used
      && (s.minSeq == 0 || e.package.header.marked ==> s.minSeq <= e.package.SequenceNumber())
  }

  function Use(used: set<int>, e: Event): set<int> {
    if e.AddEvent? then used + {e.package.SequenceNumber()} else used
  }

  ghost predicate NewRun(s: State, events: seq<Event>, used: set<int>, maxDelay: int)
    requires s.WellFormed()
    decreases |events|
  {
    events == [] ||
    (NewEvent(s, events[0], used)
     && NewRun(Step(s, events[0], maxDelay).0, events[1..], Use(used, events[0]), maxDelay))
  }

  lemma TidyAdd(s: State, p: Package, now: int, used: set<int>)
    requires Tidy(s, used) && NewEvent(s, AddEvent(p, now), used) && 0 !in used
    ensures Tidy(Add(s, p, now).0, used + {p.SequenceNumber()})
  {
  }

  lemma TidyExpire(s: State, maxDelay: int, now: int, n: nat, used: set<int>)
    requires Tidy(s, used)
    ensures Tidy(s.(window := Expire(s.window, maxDelay, now, n)), used)
  {
    var window := Expire(s.window, maxDelay, now, n);
    forall i | 0 <= i < |window|
      ensures window[i].SequenceNumber() == s.window[i].SequenceNumber()
      ensures window[i].isValid ==> s.window[i].isValid
    {
    }
  }

  lemma TidyDeliver(s: State, k: nat, h: nat, used: set<int>)
    requires Tidy(s, used) && 0 !in used && 3 <= s.Capacity() && k < s.Capacity() && s.window[k].isValid
    requires s.minSeq <= s.window[k].SequenceNumber() < UINT16_MAX - 2
    ensures var (t, output) := Deliver(s, k);
            && Tidy(t, used) && JustDelivered(t, output.package)
            && (Continues(t) ==> output.package.SequenceNumber() == 1)
  {
    var t := Deliver(s, k).0;
    var c := s.Capacity();
    forall i | 0 <= i < c
      ensures var j := if i < c - k - 1 then k + 1 + i else i - (c - k - 1);
              t.window[i].SequenceNumber() == s.window[j].SequenceNumber()
              && (t.window[i].isValid ==> s.window[j].isValid)
    {
    }
    assert t.window[c - 1].Stored() == s.window[k].Stored();
    assert s.window[k].SequenceNumber() in used;
  }

  lemma TidyStarve(s: State, used: set<int>)
    requires Tidy(s, used) && s.minSeq + 1 < UINT16_MAX
    ensures Tidy(Starve(s).0, used)
  {
    assert Starve(s).0 == NoteLoss(s).(minSeq := if s.minSeq == 0 then 0 else s.minSeq + 1);
  }

  lemma TidyRead(s: State, now: int, threshold: nat, h: nat, used: set<int>, maxDelay: int)
    requires Good(s, h) && GoodEvent(s, ReadEvent(now, threshold), h, maxDelay)
    requires Tidy(s, used) && 0 !in used && 3 <= s.Capacity()
    ensures var (t, output) := Read(s, maxDelay, now, threshold);
            && Tidy(t, used)
            && (output.Delivered? ==>
                  && JustDelivered(t, output.package)
                  && (Continues(t) ==> output.package.SequenceNumber() == 1))
  {
    if threshold <= s.size {
      var found := FirstPlayable(s, maxDelay, now, 0);
      var t := s.(window := Expire(s.window, maxDelay, now, found));
      TidyExpire(s, maxDelay, now, found, used);
      GoodRead(s, now, threshold, h, maxDelay);
      if found == s.Capacity() - 1 {
        ScanStops(s, maxDelay, now);
        StarveEmpties(s, maxDelay, now);
        TidyStarve(t, used);
      } else {
        TidyDeliver(t, found, h, used);
      }
    }
  }

  /** In a regular run a delivered package is the one repeated by `LossesFade`; only a package
      numbered 1 can be mistaken for the continuation of losses noted before the start. */
  lemma {:induction false} DeliveryIsRepeatable(s: State, events: seq<Event>, h: nat, used: set<int>, maxDelay: int)
    requires Good(s, h) && GoodRun(s, events, h, maxDelay) && 3 <= s.Capacity()
    requires Tidy(s, used) && 0 !in used && NewRun(s, events, used, maxDelay)
    ensures var (t, outcomes) := Run(s, events, maxDelay);
            events != [] ==>
              var o := outcomes[|events| - 1];
              o.Got? && o.output.Delivered? ==>
                && JustDelivered(t, o.output.package)
                && (Continues(t) ==> o.output.package.SequenceNumber() == 1)
    decreases |events|
  {
    if events == [] {
    } else {
      var e := events[0];
      var (t, o) := Step(s, e, maxDelay);
      GoodStep(s, e, h, maxDelay);
      match e {
        case AddEvent(p, now) => TidyAdd(s, p, now, used);
        case ReadEvent(now, threshold) => TidyRead(s, now, threshold, h, used, maxDelay);
      }
      DeliveryIsRepeatable(t, events[1..], Highest(h, o), Use(used, e), maxDelay);
      if |events| == 1 {
        assert events[1..] == [];
      }
    }
  }

  lemma FreshTidy(capacity: nat)
    requires 0 < capacity <= UINT16_MAX
    ensures Tidy(Fresh(capacity), {})
  {
  }

  /** From a new buffer: any regular run that ends with a delivery, then reads that find nothing. */
  lemma ReplayAfterDelivery(capacity: nat, events: seq<Event>, silent: seq<Event>, p: Package, lost: int, maxDelay: int)
    requires 3 <= capacity < UINT16_MAX
    requires GoodRun(Fresh(capacity), events, 0, maxDelay) && NewRun(Fresh(capacity), events, {}, maxDelay)
    requires events != [] && Run(Fresh(capacity), events, maxDelay).1[|events| - 1] == Got(Delivered(p, lost))
    requires 2 <= p.SequenceNumber() < UINT16_MAX - 1 - |silent|
    requires forall e | e in silent :: e.ReadEvent?
    requires Deliveries(Run(Run(Fresh(capacity), events, maxDelay).0, silent, maxDelay).1) == []
    ensures var s := Run(Fresh(capacity), events, maxDelay).0;
            Fades(Concealments(Run(s, silent, maxDelay).1), Repetition(s, p), 0)
  {
    FreshGood(capacity);
    FreshTidy(capacity);
    DeliveryIsRepeatable(Fresh(capacity), events, 0, {}, maxDelay);
    LossesFade(Run(Fresh(capacity), events, maxDelay).0, p, 0, silent, maxDelay);
  }

  // ---------- runs in which the last package is not repeated ----------

  /** Packages 5, 6 and 7 arrive and are read one by one, the first one twice, and then one more is asked for. */
  function WholeTurn(p: Package, q: Package, r: Package): seq<Event> {
    [AddEvent(p, 0)] + ([AddEvent(p, 0)] + ([ReadEvent(0, 1)] + ([AddEvent(q, 0)] + ([ReadEvent(0, 1)]
      + ([AddEvent(r, 0)] + ([ReadEvent(0, 1)] + ([ReadEvent(0, 1)] + [])))))))
  }

  /** A buffer of three slots, all read, in which a duplicate still counts. */
  ghost predicate Counted(s: State) {
    s.WellFormed() && s.Capacity() == 3 && NoneFrom(s, 0) && s.size == 1 && 1 <= s.minSeq < 100
  }

  lemma Duplicated(p: Package, maxDelay: nat)
    requires p.SequenceNumber() == 5 && !p.header.marked
    ensures var s := Add(Add(Fresh(3), p, 0).0, p, 0).0;
            var (t, output) := Read(s, maxDelay, 0, 1);
            && Counted(t) && t.minSeq == 6 && t.readPos == 1 && output == Delivered(p, 0)
            && t.lastReceived == 0 && t.window[2].SequenceNumber() == 5
  {
    var s := Add(Fresh(3), p, 0).0;
    SmallOffset(Start(Fresh(3), p), p);
    assert s.window == Fresh(3).window[0 := Fill(BLANK, p, 0)] && s.size == 1 && s.minSeq == 5;
    var t := Add(s, p, 0).0;
    SmallOffset(s, p);
    assert t.window == s.window[0 := Fill(s.window[0], p, 0)] && t.size == 2 && t.minSeq == 5;
    assert FirstPlayable(t, maxDelay, 0, 0) == 0;
    assert Expire(t.window, maxDelay, 0, 0) == t.window;
  }

  /** The next package arrives and is read at once. */
  lemma PlayOne(s: State, p: Package, maxDelay: nat)
    requires Counted(s) && s.minSeq == p.SequenceNumber() && !p.header.marked
    ensures var (t, output) := Read(Add(s, p, 0).0, maxDelay, 0, 1);
            && output == Delivered(p, 0) && t.minSeq == s.minSeq + 1 && t.readPos == At(s.readPos, 1, 3)
            && t.lastReceived == s.lastReceived && (t.minSeq < 100 ==> Counted(t))
            && t.window[0] == s.window[1] && t.window[1] == s.window[2]
            && t.window[2].SequenceNumber() == p.SequenceNumber()
  {
    var t := Add(s, p, 0).0;
    SmallOffset(s, p);
    assert t.window == s.window[0 := Fill(s.window[0], p, 0)] && t.size == 2 && t.minSeq == s.minSeq;
    assert FirstPlayable(t, maxDelay, 0, 0) == 0;
    assert Expire(t.window, maxDelay, 0, 0) == t.window;
  }

  lemma NothingLeft(s: State, maxDelay: nat, now: int)
    requires Counted(s)
    ensures Read(s, maxDelay, now, 1) == Starve(s)
  {
    assert FirstPlayable(s, maxDelay, now, 0) == 2;
    assert Expire(s.window, maxDelay, now, 2) == s.window;
  }

  /** The cursor is back at array index 0, and the search for package 7 leaves the array. */
  lemma SearchLeavesArray(p: Package, q: Package, r: Package, maxDelay: nat)
    requires p.SequenceNumber() == 5 && q.SequenceNumber() == 6 && r.SequenceNumber() == 7
    requires !p.header.marked && !q.header.marked && !r.header.marked
    ensures var outcomes := Run(Fresh(3), WholeTurn(p, q, r), maxDelay).1;
            && Timely(WholeTurn(p, q, r))
            && outcomes[6] == Got(Delivered(r, 0)) && outcomes[7] == Got(Concealed(OutOfBounds))
  {
    hide Add, Read, Run, NoneFrom, Starve, DistinctSlots;
    var a := Add(Fresh(3), p, 0).0;
    var b := Add(a, p, 0).0;
    var s := Read(b, maxDelay, 0, 1).0;
    Duplicated(p, maxDelay);
    var c := Add(s, q, 0).0;
    var t := Read(c, maxDelay, 0, 1).0;
    PlayOne(s, q, maxDelay);
    var d := Add(t, r, 0).0;
    var u := Read(d, maxDelay, 0, 1).0;
    PlayOne(t, r, maxDelay);
    FrontLeavesArray(u);
    NothingLeft(u, maxDelay, 0);
    var read := ReadEvent(0, 1);
    var last := [read] + [];
    var third := [AddEvent(r, 0)] + ([read] + last);
    var second := [AddEvent(q, 0)] + ([read] + third);
    RunFirst(u, read, [], maxDelay);
    RunFirst(d, read, last, maxDelay);
    RunFirst(t, AddEvent(r, 0), [read] + last, maxDelay);
    RunFirst(c, read, third, maxDelay);
    RunFirst(s, AddEvent(q, 0), [read] + third, maxDelay);
    RunFirst(b, read, second, maxDelay);
    RunFirst(a, AddEvent(p, 0), [read] + second, maxDelay);
    RunFirst(Fresh(3), AddEvent(p, 0), [AddEvent(p, 0)] + ([read] + second), maxDelay);
  }

  lemma FrontLeavesArray(s: State)
    requires s.WellFormed() && s.Capacity() == 3 && s.readPos == 0 && s.lastReceived == 0 && s.minSeq == 8
    requires s.window[0].SequenceNumber() == 5
    ensures Starve(s).1 == Concealed(OutOfBounds)
  {
  }

  /** Package 0 expires unread, package 1 is read, and then one more is asked for. */
  function LateStart(p: Package, q: Package, maxDelay: nat): seq<Event> {
    [AddEvent(p, 0)] + ([ReadEvent(maxDelay + 1, 1)] + ([AddEvent(q, maxDelay + 1)]
      + ([ReadEvent(maxDelay + 1, 1)] + ([ReadEvent(maxDelay + 1, 1)] + []))))
  }

  lemma ZeroExpires(p: Package, maxDelay: nat)
    requires p.SequenceNumber() == 0
    ensures var s := Add(Fresh(3), p, 0).0;
            var t := Read(s, maxDelay, maxDelay + 1, 1).0;
            && t.WellFormed() && t.Capacity() == 3 && NoneFrom(t, 0) && t.minSeq == 0 && t.readPos == 0 && t.size == 1
            && t.lastReceived == UINT16_MAX && t.numRepeated == 1
            && (forall i | 0 <= i < 3 :: t.window[i].SequenceNumber() == 0)
            && Read(s, maxDelay, maxDelay + 1, 1).1 == Concealed(OutOfBounds)
  {
    var s := Add(Fresh(3), p, 0).0;
    SmallOffset(Start(Fresh(3), p), p);
    assert s.window == Fresh(3).window[0 := Fill(BLANK, p, 0)] && s.size == 1 && s.minSeq == 0;
    assert FirstPlayable(s, maxDelay, maxDelay + 1, 0) == 2;
    var window := Expire(s.window, maxDelay, maxDelay + 1, 2);
    assert !window[0].isValid;
  }

  lemma OneDelivered(s: State, q: Package, maxDelay: nat)
    requires s.WellFormed() && s.Capacity() == 3 && NoneFrom(s, 0) && s.minSeq == 0 && s.readPos == 0 && s.size == 1
    requires s.lastReceived == UINT16_MAX && s.numRepeated == 1 && q.SequenceNumber() == 1
    requires forall i | 0 <= i < 3 :: s.window[i].SequenceNumber() == 0
    ensures var (t, output) := Read(Add(s, q, maxDelay + 1).0, maxDelay, maxDelay + 1, 1);
            && output == Delivered(q, 0) && Counted(t) && t.minSeq == 2 && t.readPos == 1
            && t.lastReceived == UINT16_MAX && t.numRepeated == 1
            && t.window[0].SequenceNumber() == 0 && t.window[2].SequenceNumber() == 1
  {
    var t := Add(s, q, maxDelay + 1).0;
    SmallOffset(Start(s, q), q);
    assert t.window == s.window[0 := Fill(s.window[0], q, maxDelay + 1)] && t.size == 2 && t.minSeq == 1;
    assert FirstPlayable(t, maxDelay, maxDelay + 1, 0) == 0;
    assert Expire(t.window, maxDelay, maxDelay + 1, 0) == t.window;
  }

  lemma LossMistaken(s: State, q: Package)
    requires s.WellFormed() && s.lastReceived == UINT16_MAX && s.numRepeated == 1
    requires s.minSeq == 2 && q.SequenceNumber() == 1
    ensures Starve(s).1 != Concealed(Replay(q)) && Starve(s).0.readPos == s.readPos
  {
    assert Continues(s);
    SearchBackFinds(NoteLoss(s), UINT16_MAX, 0);
  }

  /** Package 1, just read, is not repeated although the cursor is not at array index 0: its loss counts as
      a continuation of losses noted before the start. The search for package 65535 when package 0 expires
      has left the array before; what is read there is not part of this model. */
  lemma ContinuationMistaken(p: Package, q: Package, maxDelay: nat)
    requires p.SequenceNumber() == 0 && q.SequenceNumber() == 1
    ensures var (s, outcomes) := Run(Fresh(3), LateStart(p, q, maxDelay), maxDelay);
            && Timely(LateStart(p, q, maxDelay)) && s.readPos == 1
            && outcomes[1] == Got(Concealed(OutOfBounds))
            && outcomes[3] == Got(Delivered(q, 0)) && outcomes[4] != Got(Concealed(Replay(q)))
  {
    hide Add, Read, Run, NoneFrom, Starve;
    var now := maxDelay + 1;
    var a := Add(Fresh(3), p, 0).0;
    var s := Read(a, maxDelay, now, 1).0;
    ZeroExpires(p, maxDelay);
    var b := Add(s, q, now).0;
    var t := Read(b, maxDelay, now, 1).0;
    OneDelivered(s, q, maxDelay);
    NothingLeft(t, maxDelay, now);
    LossMistaken(t, q);
    var read := ReadEvent(now, 1);
    var last := [read] + [];
    var second := [AddEvent(q, now)] + ([read] + last);
    RunFirst(t, read, [], maxDelay);
    RunFirst(b, read, last, maxDelay);
    RunFirst(s, AddEvent(q, now), [read] + last, maxDelay);
    RunFirst(a, read, second, maxDelay);
    RunFirst(Fresh(3), AddEvent(p, 0), [read] + second, maxDelay);
    RunNothing(Starve(t).0, maxDelay);
  }
}

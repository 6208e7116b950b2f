/** What whole runs of the jitter buffer hand out. */
module JitterRuns {
  import opened Words
  import opened JitterWindow
  import opened JitterRefinement

  function Deliveries(outcomes: seq<Outcome>): (packages: seq<Package>)
  {
    if outcomes == [] then []
    else
      var rest := Deliveries(outcomes[1..]);
      if outcomes[0].Got? && outcomes[0].output.Delivered? then [outcomes[0].output.package] + rest else rest
  }

  // ---------- every run: nothing is made up ----------

  predicate AddedBefore(events: seq<Event>, j: nat, p: Package)
    requires j <= |events|
  {
    exists i :: 0 <= i < j && events[i].AddEvent? && events[i].package == p
  }

  /** Valid slots hold members of `known`; slots that were never filled are blank. */
  ghost predicate KnownSlots(window: seq<Slot>, known: set<Package>)
    requires forall i | 0 <= i < |window| :: window[i].WellFormed()
  {
    forall i | 0 <= i < |window| ::
      window[i].Stored() in known || (!window[i].isValid && window[i].Stored() == BLANK.Stored())
  }

  ghost predicate KnownOutcome(o: Outcome, known: set<Package>) {
    && (o.Got? && o.output.Delivered? ==> o.output.package in known)
    && (o.Got? && o.output.Concealed? && o.output.concealment.Replay? ==>
          o.output.concealment.package in known + {BLANK.Stored()})
  }

  lemma {:induction false} SearchBackKnown(s: State, wanted: U16, back: nat, known: set<Package>)
    requires s.WellFormed() && back <= s.readPos && KnownSlots(s.window, known)
    ensures var c := SearchBack(s, wanted, back); c.Replay? ==> c.package in known + {BLANK.Stored()}
    decreases s.readPos - back
  {
    if back >= s.readPos {
    } else {
      SearchBackKnown(s, wanted, back + 1, known);
    }
  }

  lemma ReadKnown(s: State, maxDelay: int, now: int, threshold: nat, known: set<Package>)
    requires s.WellFormed() && KnownSlots(s.window, known)
    ensures var (t, output) := Read(s, maxDelay, now, threshold);
            KnownSlots(t.window, known) && KnownOutcome(Got(output), known)
  {
    if s.size >= threshold {
      var found := FirstPlayable(s, maxDelay, now, 0);
      var t := s.(window := Expire(s.window, maxDelay, now, found));
      forall i | 0 <= i < |t.window| ensures t.window[i].Stored() == s.window[i].Stored() {}
      assert KnownSlots(t.window, known);
      var k := if found == s.Capacity() - 1 then 0 else found;
      if t.window[k].isValid {
        DeliverKnown(t, k, known);
      } else {
        SearchBackKnown(NoteLoss(t), NoteLoss(t).lastReceived, 0, known);
      }
    }
  }

  lemma DeliverKnown(s: State, k: nat, known: set<Package>)
    requires s.WellFormed() && k < s.Capacity() && s.window[k].isValid && KnownSlots(s.window, known)
    ensures KnownSlots(Deliver(s, k).0.window, known) && Deliver(s, k).1.package in known
  {
    var t := Deliver(s, k).0;
    forall i | 0 <= i < |t.window|
      ensures t.window[i].Stored() in known || (!t.window[i].isValid && t.window[i].Stored() == BLANK.Stored())
    {
      var j := if i < |s.window| - k - 1 then k + 1 + i else i - (|s.window| - k - 1);
      assert t.window[i].Stored() == s.window[j].Stored();
    }
  }

  lemma AddKnown(s: State, p: Package, now: int, known: set<Package>)
    requires s.WellFormed() && KnownSlots(s.window, known)
    ensures KnownSlots(Add(s, p, now).0.window, known + {p})
  {
  }

  function AddedBy(events: seq<Event>): (known: set<Package>)
  {
    set i | 0 <= i < |events| && events[i].AddEvent? :: events[i].package
  }

  lemma {:induction false} RunKnown(s: State, before: seq<Event>, events: seq<Event>, maxDelay: int)
    requires s.WellFormed() && KnownSlots(s.window, AddedBy(before))
    ensures KnownSlots(Run(s, events, maxDelay).0.window, AddedBy(before + events))
    ensures forall j | 0 <= j < |events| ::
              KnownOutcome(Run(s, events, maxDelay).1[j], AddedBy(before + events[..j]))
    decreases |events|
  {
    if events == [] {
      assert before + events == before;
    } else {
      var e := events[0];
      var known := AddedBy(before);
      match e {
        case AddEvent(p, now) => AddKnown(s, p, now, known);
        case ReadEvent(now, threshold) => ReadKnown(s, maxDelay, now, threshold, known);
      }
      assert AddedBy(before + [e]) == if e.AddEvent? then known + {e.package} else known by {
        assert forall i | 0 <= i < |before| :: (before + [e])[i] == before[i];
        assert (before + [e])[|before|] == e;
      }
      var t := Step(s, e, maxDelay).0;
      assert before + events == (before + [e]) + events[1..];
      RunKnown(t, before + [e], events[1..], maxDelay);
      forall j | 0 <= j < |events|
        ensures KnownOutcome(Run(s, events, maxDelay).1[j], AddedBy(before + events[..j]))
      {
        if j == 0 {
          assert before + events[..0] == before;
        } else {
          assert before + events[..j] == (before + [e]) + events[1..][..j - 1];
        }
      }
    }
  }

  /** In every run, whatever is delivered was added before, header and payload unchanged;
      whatever is replayed was added before or is the blank package of an unused slot. */
  lemma DeliveredWasAdded(capacity: nat, events: seq<Event>, maxDelay: int, j: nat)
    requires 0 < capacity <= UINT16_MAX && j < |events|
    ensures var o := Run(Fresh(capacity), events, maxDelay).1[j];
            && (o.Got? && o.output.Delivered? ==> AddedBefore(events, j, o.output.package))
            && (o.Got? && o.output.Concealed? && o.output.concealment.Replay? ==>
                  || o.output.concealment.package == BLANK.Stored()
                  || AddedBefore(events, j, o.output.concealment.package))
  {
    RunKnown(Fresh(capacity), [], events, maxDelay);
    assert [] + events[..j] == events[..j];
  }

  // ---------- runs in the regime ----------

  /** `h` is the highest sequence number handed out so far. */
  ghost predicate Good(s: State, h: nat) {
    && s.WellFormed() && 2 <= s.Capacity()
    && Aligned(s) && !s.window[s.Capacity() - 1].isValid
    && s.minSeq < UINT16_MAX - s.Capacity()
    && if s.minSeq == 0 then h == 0 && NoneFrom(s, 0) else h < s.minSeq
  }

  /** The conditions under which a step keeps to the regime: a package that sets the
      minimum anew finds the buffer empty, and no package lands in the unscanned slot. */
  ghost predicate GoodEvent(s: State, e: Event, h: nat, maxDelay: int)
    requires s.WellFormed()
  {
    match e
    case AddEvent(p, now) =>
      if s.minSeq == 0 || p.header.marked then NoneFrom(s, 0) && h < p.SequenceNumber() < UINT16_MAX - s.Capacity()
      else p.SequenceNumber() != s.minSeq + s.Capacity() - 1
    case ReadEvent(now, threshold) =>
      Read(s, maxDelay, now, threshold).0.minSeq < UINT16_MAX - s.Capacity()
  }

  function Highest(h: nat, o: Outcome): nat {
    if o.Got? && o.output.Delivered? then o.output.package.SequenceNumber() else h
  }

  ghost predicate GoodRun(s: State, events: seq<Event>, h: nat, maxDelay: int)
    requires s.WellFormed()
    decreases |events|
  {
    events == [] ||
    var (t, o) := Step(s, events[0], maxDelay);
    GoodEvent(s, events[0], h, maxDelay) && GoodRun(t, events[1..], Highest(h, o), maxDelay)
  }

  lemma GoodAdd(s: State, p: Package, now: int, h: nat, maxDelay: int)
    requires Good(s, h) && GoodEvent(s, AddEvent(p, now), h, maxDelay)
    ensures Good(Add(s, p, now).0, h)
  {
    var t := Start(s, p);
    if Accepts(t, p) {
      SmallOffset(t, p);
    }
  }

  lemma GoodRead(s: State, now: int, threshold: nat, h: nat, maxDelay: int)
    requires Good(s, h) && GoodEvent(s, ReadEvent(now, threshold), h, maxDelay)
    ensures var (t, output) := Read(s, maxDelay, now, threshold);
            && Good(t, Highest(h, Got(output)))
            && (output.Delivered? ==> 1 <= s.minSeq <= output.package.SequenceNumber())
  {
    var f := FirstPlayable(s, maxDelay, now, 0);
    if threshold <= s.size {
      assert Read(s, maxDelay, now, threshold) == Read(s, maxDelay, now, 0);
      if s.minSeq == 0 {
        assert f == s.Capacity() - 1;
      } else if f < s.Capacity() - 1 {
        ReadFound(s, maxDelay, now, f);
        DropBelow(s, Read(s, maxDelay, now, 0).0, f);
      } else {
        ScanStops(s, maxDelay, now);
        StarveRefines(s, maxDelay, now);
        StarveEmpties(s, maxDelay, now);
      }
    }
  }

  lemma StarveEmpties(s: State, maxDelay: int, now: int)
    requires s.WellFormed() && Aligned(s) && 2 <= s.Capacity() && !s.window[s.Capacity() - 1].isValid
    requires FirstPlayable(s, maxDelay, now, 0) == s.Capacity() - 1
    ensures var (t, output) := Read(s, maxDelay, now, 0); NoneFrom(t, 0) && output.Concealed?
  {
    ScanStops(s, maxDelay, now);
    var window := Expire(s.window, maxDelay, now, s.Capacity() - 1);
    forall i | 0 <= i < |window| ensures !window[i].isValid {
      assert !LiveAt(s, i, maxDelay, now);
    }
  }

  lemma GoodStep(s: State, e: Event, h: nat, maxDelay: int)
    requires Good(s, h) && GoodEvent(s, e, h, maxDelay)
    ensures var (t, o) := Step(s, e, maxDelay);
            && Good(t, Highest(h, o))
            && (o.Got? && o.output.Delivered? ==> h < o.output.package.SequenceNumber())
  {
    match e
    case AddEvent(p, now) => GoodAdd(s, p, now, h, maxDelay);
    case ReadEvent(now, threshold) => GoodRead(s, now, threshold, h, maxDelay);
  }

  ghost predicate AllAbove(d: seq<Package>, h: nat) {
    forall i | 0 <= i < |d| :: h < d[i].SequenceNumber()
  }

  ghost predicate Increasing(d: seq<Package>) {
    forall i, j | 0 <= i < j < |d| :: d[i].SequenceNumber() < d[j].SequenceNumber()
  }

  /** In the regime the delivered sequence numbers are strictly increasing. */
  lemma {:induction false} DeliveredInOrder(s: State, events: seq<Event>, h: nat, maxDelay: int)
    requires Good(s, h) && GoodRun(s, events, h, maxDelay)
    ensures var d := Deliveries(Run(s, events, maxDelay).1);
            AllAbove(d, h) && Increasing(d)
    decreases |events|
  {
    if events == [] {
    } else {
      hide Good, GoodEvent, Step;
      GoodStep(s, events[0], h, maxDelay);
      var (t, o) := Step(s, events[0], maxDelay);
      DeliveredInOrder(t, events[1..], Highest(h, o), maxDelay);
      var os := Run(t, events[1..], maxDelay).1;
      var rest := Deliveries(os);
      assert ([o] + os)[1..] == os;
      assert AllAbove(rest, Highest(h, o)) && Increasing(rest);
      assert Deliveries([o] + os) ==
             if o.Got? && o.output.Delivered? then [o.output.package] + rest else rest;
    }
  }

  lemma FreshGood(capacity: nat)
    requires 2 <= capacity < UINT16_MAX
    ensures Good(Fresh(capacity), 0)
  {
  }

  // ---------- loss accounting ----------

  /** Packages handed out, packages counted as lost, and reads concealed for an empty buffer. */
  datatype Losses = Losses(delivered: nat, lost: int, concealed: nat)

  function CountLosses(outcomes: seq<Outcome>): Losses
  {
    if outcomes == [] then Losses(0, 0, 0)
    else
      var c := CountLosses(outcomes[1..]);
      match outcomes[0]
      case Got(Delivered(p, lost)) => c.(delivered := c.delivered + 1, lost := c.lost + lost)
      case Got(Concealed(_)) => c.(concealed := c.concealed + 1)
      case _ => c
  }

  lemma ReadAdvance(s: State, now: int, threshold: nat, h: nat, maxDelay: int)
    requires Good(s, h) && s.minSeq > 0
    ensures var (t, output) := Read(s, maxDelay, now, threshold);
            t.minSeq == s.minSeq + match output
                                   case Stretched => 0
                                   case Delivered(p, lost) => 1 + lost
                                   case Concealed(_) => 1
  {
    var f := FirstPlayable(s, maxDelay, now, 0);
    if threshold <= s.size {
      assert Read(s, maxDelay, now, threshold) == Read(s, maxDelay, now, 0);
      if f < s.Capacity() - 1 {
        ReadFound(s, maxDelay, now, f);
      } else {
        StarveEmpties(s, maxDelay, now);
      }
    }
  }

  lemma AddKeepsMinimum(s: State, p: Package, now: int)
    requires s.WellFormed() && s.minSeq != 0 && !p.header.marked
    ensures Add(s, p, now).0.minSeq == s.minSeq
  {
  }

  /** Without resets, the minimum advances by exactly the packages delivered, lost and concealed. */
  lemma {:induction false} LossesTelescope(s: State, events: seq<Event>, h: nat, maxDelay: int)
    requires Good(s, h) && GoodRun(s, events, h, maxDelay) && s.minSeq > 0
    requires forall e | e in events && e.AddEvent? :: !e.package.header.marked
    ensures var (t, outcomes) := Run(s, events, maxDelay);
            var c := CountLosses(outcomes);
            t.minSeq - s.minSeq == c.delivered + c.lost + c.concealed
    decreases |events|
  {
    if events == [] {
    } else {
      var e := events[0];
      assert e in events;
      GoodStep(s, e, h, maxDelay);
      var (t, o) := Step(s, e, maxDelay);
      match e {
        case AddEvent(p, now) => AddKeepsMinimum(s, p, now);
        case ReadEvent(now, threshold) => ReadAdvance(s, now, threshold, h, maxDelay);
      }
      LossesTelescope(t, events[1..], Highest(h, o), maxDelay);
      var os := Run(t, events[1..], maxDelay).1;
      assert ([o] + os)[1..] == os;
    }
  }
}

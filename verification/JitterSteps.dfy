/** What one step of the jitter buffer does, slot by slot, for every state: restarts and the wrap of the
    sequence numbers included. */
module JitterSteps {
  import opened Words
  import opened JitterWindow

  /** All slots but slot `k` are as before. */
  ghost predicate OthersKept(before: seq<Slot>, after: seq<Slot>, k: nat) {
    |after| == |before| && forall i | 0 <= i < |before| && i != k :: after[i] == before[i]
  }

  ghost predicate Holds(slot: Slot, p: Package, now: int) {
    slot.WellFormed() && slot.isValid && slot.Stored() == p && slot.receptionTime == now
  }

  // ---------- adding ----------

  /** A first or marked package always restarts the numbering at its own number, be it higher or lower,
      and takes the slot at the cursor unless the buffer is full. */
  lemma RestartExactly(s: State, p: Package, now: int)
    requires s.WellFormed() && (s.minSeq == 0 || p.header.marked)
    ensures var (t, status) := Add(s, p, now);
            && t.minSeq == p.SequenceNumber() && t.readPos == s.readPos
            && (t.numRepeated, t.lastReceived) == (s.numRepeated, s.lastReceived)
            && if s.size == s.Capacity() then status == InputOverflow && t.window == s.window && t.size == s.size
               else status == AllOkay && t.size == (s.size + 1) % 0x1_0000
                    && Holds(t.window[0], p, now) && OthersKept(s.window, t.window, 0)
  {
  }

  lemma {:induction false} WrapRemainder(x: nat, capacity: nat) returns (turns: nat)
    requires capacity > 0
    ensures x == turns * capacity + Wrap(x, capacity)
    decreases x
  {
    if x < capacity {
      turns := 0;
    } else {
      turns := WrapRemainder(x - capacity, capacity);
      turns := turns + 1;
    }
  }

  /** Any other package is dropped as late, dropped for want of space, dropped as too new, or takes the slot as far
      behind the cursor as its number is above the minimum; a number below it, near the wrap only, counts as higher
      by 65536 and may go round the ring several times. */
  lemma AddExactly(s: State, p: Package, now: int) returns (turns: nat, k: nat)
    requires s.WellFormed() && s.minSeq != 0 && !p.header.marked
    ensures var (t, status) := Add(s, p, now);
            var q, n := p.SequenceNumber(), s.Capacity();
            if q < s.minSeq < 65535 - n then t == s && status == AllOkay
            else if s.size == n || q >= s.minSeq + n then t == s && status == InputOverflow
            else
              && status == AllOkay && t == s.(window := t.window, size := (s.size + 1) % 0x1_0000)
              && k < n && (if q >= s.minSeq then q - s.minSeq else q - s.minSeq + 0x1_0000) == turns * n + k
              && (q >= s.minSeq ==> turns == 0)
              && Holds(t.window[k], p, now) && OthersKept(s.window, t.window, k)
  {
    var x: nat := (p.SequenceNumber() - s.minSeq) % 0x1_0000;
    k := Wrap(x, s.Capacity());
    if p.SequenceNumber() >= s.minSeq {
      turns := 0;
    } else {
      hide Wrap;
      turns := WrapRemainder(x, s.Capacity());
    }
  }

  // ---------- reading ----------

  /** A slot that can be played: valid, not too old, and not below the minimum. */
  ghost predicate CanPlay(s: State, i: nat, maxDelay: int, now: int)
    requires i < s.Capacity()
  {
    s.window[i].isValid && now <= s.window[i].receptionTime + maxDelay && s.minSeq <= s.window[i].SequenceNumber()
  }

  /** Slot `i` after a read that passed it by: a package that is too old is given up. */
  ghost predicate PassedBy(before: Slot, after: Slot, maxDelay: int, now: int) {
    after == if before.isValid && before.receptionTime + maxDelay < now then before.(isValid := false) else before
  }

  /** The first slot that can be played, the last one of the ring not being looked at. */
  ghost predicate FirstToPlay(s: State, i: nat, maxDelay: int, now: int) {
    i + 1 < s.Capacity() && CanPlay(s, i, maxDelay, now) && forall j: nat | j < i :: !CanPlay(s, j, maxDelay, now)
  }

  lemma {:induction false} FoundFrom(s: State, maxDelay: int, now: int, i: nat, k: nat)
    requires FirstToPlay(s, i, maxDelay, now) && k <= i
    ensures FirstPlayable(s, maxDelay, now, k) == i
    decreases i - k
  {
    if k == i {
    } else {
      assert !CanPlay(s, k, maxDelay, now);
      FoundFrom(s, maxDelay, now, i, k + 1);
    }
  }

  /** The first such slot is handed out and given up, the cursor goes behind it, the minimum is the number behind its
      own modulo 65535, and the numbers in between count as lost. */
  lemma ReadDelivers(s: State, maxDelay: int, now: int, threshold: nat, i: nat)
    requires s.WellFormed() && threshold <= s.size && FirstToPlay(s, i, maxDelay, now)
    ensures var (t, output) := Read(s, maxDelay, now, threshold);
            var n, q := s.Capacity(), s.window[i].SequenceNumber();
            && output.Delivered? && output.package == s.window[i].Stored()
            && output.lost == (if q - s.minSeq == 65535 then 0 else q - s.minSeq)
            && t.minSeq == (if q + 1 >= 65535 then q + 1 - 65535 else q + 1)
            && t.size == (if s.size == 0 then 65535 else s.size - 1)
            && t.readPos == (if s.readPos + i + 1 >= n then s.readPos + i + 1 - n else s.readPos + i + 1)
            && (t.numRepeated, t.lastReceived) == (s.numRepeated, s.lastReceived)
            && |t.window| == n
            && (forall j: nat | j < n - i - 1 :: t.window[j] == s.window[i + 1 + j])
            && (forall j: nat | j < i :: PassedBy(s.window[j], t.window[n - i - 1 + j], maxDelay, now))
            && t.window[n - 1] == s.window[i].(isValid := false)
  {
    FoundFrom(s, maxDelay, now, i, 0);
    hide FirstPlayable;
    var e := Expire(s.window, maxDelay, now, i);
    assert e[i] == s.window[i];
    assert Read(s, maxDelay, now, threshold) == Deliver(s.(window := e), i);
  }

  ghost predicate NothingToPlay(s: State, maxDelay: int, now: int) {
    forall i: nat | i + 1 < s.Capacity() :: !CanPlay(s, i, maxDelay, now)
  }

  lemma {:induction false} NothingFrom(s: State, maxDelay: int, now: int, k: nat)
    requires NothingToPlay(s, maxDelay, now) && k < s.Capacity()
    ensures FirstPlayable(s, maxDelay, now, k) == s.Capacity() - 1
    decreases s.Capacity() - k
  {
    if k == s.Capacity() - 1 {
    } else {
      assert !CanPlay(s, k, maxDelay, now);
      NothingFrom(s, maxDelay, now, k + 1);
    }
  }

  /** Without one, all slots but the last are passed by, and the cursor stays: unless the slot at the cursor still holds
      a package below the minimum, or is the only one, the read starves. The minimum then advances by one modulo
      65535, except from 0. */
  lemma ReadStarves(s: State, maxDelay: int, now: int, threshold: nat)
    requires s.WellFormed() && threshold <= s.size && NothingToPlay(s, maxDelay, now)
    requires s.Capacity() > 1 && !(s.window[0].isValid && now <= s.window[0].receptionTime + maxDelay)
    ensures var (t, output) := Read(s, maxDelay, now, threshold);
            var n := s.Capacity();
            && output.Concealed? && t.readPos == s.readPos && t.size == s.size && |t.window| == n
            && t.minSeq == (if s.minSeq == 0 || s.minSeq == 65534 then 0
                            else if s.minSeq == 65535 then 1 else s.minSeq + 1)
            && (forall j: nat | j < n - 1 :: PassedBy(s.window[j], t.window[j], maxDelay, now))
            && t.window[n - 1] == s.window[n - 1]
  {
    NothingFrom(s, maxDelay, now, 0);
    hide FirstPlayable, Conceal;
    var e := Expire(s.window, maxDelay, now, s.Capacity() - 1);
    assert !e[0].isValid;
    assert Read(s, maxDelay, now, threshold) == Starve(s.(window := e));
  }

  /** A package below the minimum that is still at the cursor is handed out, with a negative number of lost ones. */
  lemma ReadBelowMinimum(s: State, maxDelay: int, now: int, threshold: nat)
    requires s.WellFormed() && threshold <= s.size && NothingToPlay(s, maxDelay, now)
    requires s.Capacity() > 1 && s.window[0].isValid && now <= s.window[0].receptionTime + maxDelay
    ensures var (t, output) := Read(s, maxDelay, now, threshold);
            var n, q := s.Capacity(), s.window[0].SequenceNumber();
            && q < s.minSeq
            && output.Delivered? && output.package == s.window[0].Stored()
            && output.lost == (if s.minSeq - q == 65535 then 0 else q - s.minSeq)
            && t.minSeq == (if q + 1 >= 65535 then q + 1 - 65535 else q + 1)
            && t.size == (if s.size == 0 then 65535 else s.size - 1)
            && t.readPos == (if s.readPos + 1 >= n then s.readPos + 1 - n else s.readPos + 1)
            && (t.numRepeated, t.lastReceived) == (s.numRepeated, s.lastReceived)
            && |t.window| == n
            && (forall j: nat | j < n - 2 :: PassedBy(s.window[j + 1], t.window[j], maxDelay, now))
            && t.window[n - 2] == s.window[n - 1]
            && t.window[n - 1] == s.window[0].(isValid := false)
  {
    NothingFrom(s, maxDelay, now, 0);
    assert !CanPlay(s, 0, maxDelay, now);
    hide FirstPlayable;
    var e := Expire(s.window, maxDelay, now, s.Capacity() - 1);
    assert Read(s, maxDelay, now, threshold) == Deliver(s.(window := e), 0);
  }

  /** A ring of one slot is never scanned: its package is handed out however old it is. */
  lemma ReadSingle(s: State, maxDelay: int, now: int, threshold: nat)
    requires s.WellFormed() && threshold <= s.size && s.Capacity() == 1
    ensures var (t, output) := Read(s, maxDelay, now, threshold);
            if s.window[0].isValid then output.Delivered? && output.package == s.window[0].Stored()
            else output.Concealed? && t.window == s.window
  {
    assert Expire(s.window, maxDelay, now, 0) == s.window;
  }

  /** With fewer packages than the threshold nothing changes. */
  lemma ReadWaits(s: State, maxDelay: int, now: int, threshold: nat)
    requires s.WellFormed() && s.size < threshold
    ensures Read(s, maxDelay, now, threshold) == (s, Stretched)
  {
  }

  // ---------- concealing ----------

  /** A loss goes on with the run of losses noted before if its number is the next one modulo 65535; otherwise it is
      the first of a new run, behind the package before it. */
  lemma LossNoted(s: State)
    requires s.WellFormed()
    ensures var t := Starve(s).0;
            if s.lastReceived != 0 && (s.lastReceived + s.numRepeated + 1) % 65535 == s.minSeq
            then t.lastReceived == s.lastReceived
                 && t.numRepeated == (if s.numRepeated == 65535 then 0 else s.numRepeated + 1)
            else t.numRepeated == 1 && t.lastReceived == (if s.minSeq == 0 then 65535 else s.minSeq - 1)
  {
  }

  /** The slot `back` array places in front of the cursor. */
  function SlotBehind(s: State, back: nat): Slot
    requires s.WellFormed() && back <= s.readPos
  {
    if back == 0 then s.window[0] else s.window[s.Capacity() - back]
  }

  /** The slots the backward search looks at: from the cursor to array index 0, but not a whole turn. */
  function SlotsBehind(s: State): nat
    requires s.WellFormed()
  {
    if s.readPos == s.Capacity() - 1 then s.readPos else s.readPos + 1
  }

  lemma {:induction false} SearchFinds(s: State, wanted: U16, back: nat, k: nat)
    requires s.WellFormed() && back <= k < SlotsBehind(s) && SlotBehind(s, k).SequenceNumber() == wanted
    requires forall j: nat | back <= j < k :: SlotBehind(s, j).SequenceNumber() != wanted
    ensures SearchBack(s, wanted, back) == Replay(SlotBehind(s, k).Stored())
    decreases k - back
  {
    if back == k {
    } else {
      assert SlotBehind(s, back).SequenceNumber() != wanted;
      SearchFinds(s, wanted, back + 1, k);
    }
  }

  lemma {:induction false} SearchFails(s: State, wanted: U16, back: nat)
    requires s.WellFormed() && back <= s.readPos
    requires forall j: nat | back <= j < SlotsBehind(s) :: SlotBehind(s, j).SequenceNumber() != wanted
    ensures SearchBack(s, wanted, back) == if s.readPos == s.Capacity() - 1 then Silence else OutOfBounds
    decreases s.readPos - back
  {
    if back == s.readPos {
      if back < SlotsBehind(s) { assert SlotBehind(s, back).SequenceNumber() != wanted; }
    } else {
      assert SlotBehind(s, back).SequenceNumber() != wanted;
      SearchFails(s, wanted, back + 1);
    }
  }

  /** Slot `k` behind the cursor has a number that none nearer to it has. */
  ghost predicate NearestBehind(s: State, q: U16, k: nat)
    requires s.WellFormed()
  {
    && k < SlotsBehind(s) && SlotBehind(s, k).SequenceNumber() == q
    && forall j: nat | j < k :: SlotBehind(s, j).SequenceNumber() != q
  }

  /** Up to the second loss of a run is replaced by the package before it, the one nearest to the cursor if there are
      several; from the third on, by silence. Without such a package the search leaves the array, unless it started
      at the last index. */
  lemma ConcealedExactly(s: State)
    requires s.WellFormed()
    ensures var (t, output) := Starve(s);
            && output.Concealed?
            && (t.numRepeated > 2 ==> output.concealment == Silence)
            && (t.numRepeated <= 2 ==>
                  && (forall k: nat | NearestBehind(s, t.lastReceived, k) ::
                        output.concealment == Replay(SlotBehind(s, k).Stored()))
                  && ((forall k: nat | k < SlotsBehind(s) :: SlotBehind(s, k).SequenceNumber() != t.lastReceived) ==>
                        output.concealment == if s.readPos == s.Capacity() - 1 then Silence else OutOfBounds))
  {
    hide SearchBack;
    var t := NoteLoss(s);
    if t.numRepeated <= 2 {
      forall k: nat | NearestBehind(s, t.lastReceived, k)
        ensures Starve(s).1.concealment == Replay(SlotBehind(s, k).Stored())
      {
        assert SlotBehind(t, k) == SlotBehind(s, k);
        forall j: nat | j < k ensures SlotBehind(t, j).SequenceNumber() != t.lastReceived {
          assert SlotBehind(t, j) == SlotBehind(s, j);
        }
        SearchFinds(t, t.lastReceived, 0, k);
      }
      if forall k: nat | k < SlotsBehind(s) :: SlotBehind(s, k).SequenceNumber() != t.lastReceived {
        forall k: nat | k < SlotsBehind(t) ensures SlotBehind(t, k).SequenceNumber() != t.lastReceived {
          assert SlotBehind(t, k) == SlotBehind(s, k);
        }
        SearchFails(t, t.lastReceived, 0);
      }
    }
  }

  /** A new buffer: nothing stored, started, noted or counted, and no block allocated. */
  lemma FreshExactly(capacity: nat)
    ensures var s := Fresh(capacity);
            && s.Capacity() == capacity && s.minSeq == 0 && s.size == 0 && s.readPos == 0
            && s.numRepeated == 0 && s.lastReceived == 0
            && forall i | 0 <= i < capacity ::
                 var slot := s.window[i];
                 && !slot.isValid && slot.content == [] && slot.contentSize == 0 && slot.receptionTime == 0
                 && slot.header == Header(0, false, 0, 0, 0)
  {
  }
}

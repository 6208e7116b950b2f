/** The jitter buffer as the code keeps it: a ring of slots, updated in place.
    Every method is proved against the window specification. */
module JitterRing {
  import opened Words
  import opened JitterWindow

  function Rotate(slots: seq<Slot>, n: nat): (window: seq<Slot>)
    requires n < |slots|
    ensures |window| == |slots|
  {
    slots[n..] + slots[..n]
  }

  lemma RotateAt(slots: seq<Slot>, n: nat, k: nat)
    requires n < |slots| && k < |slots|
    ensures Rotate(slots, n)[k] == slots[At(n, k, |slots|)]
  {
  }

  lemma NonZeroMultiple(k: int, d: nat)
    requires k != 0
    ensures k * d >= d || k * d <= -(d as int)
  {
    if k > 0 {
      assert k * d == (k - 1) * d + d && (k - 1) * d >= 0;
    } else {
      assert -(k * d) == (-k - 1) * d + d && (-k - 1) * d >= 0;
    }
  }

  lemma RemainderUnique(x: nat, q: nat, r: nat, d: nat)
    requires r < d && x == q * d + r
    ensures x % d == r
  {
    var p := x / d;
    assert x == p * d + x % d;
    assert (q - p) * d == q * d - p * d;
    if q != p { NonZeroMultiple(q - p, d); }
  }

  lemma {:induction false} WrapIsRemainder(x: nat, capacity: nat) returns (turns: nat)
    requires capacity > 0
    ensures x == turns * capacity + Wrap(x, capacity)
    decreases x
  {
    if x < capacity {
      turns := 0;
    } else {
      turns := WrapIsRemainder(x - capacity, capacity);
      assert (turns + 1) * capacity == turns * capacity + capacity;
      turns := turns + 1;
    }
  }

  lemma IndexWraps(n: nat, offset: nat, capacity: nat)
    requires n < capacity
    ensures (n + offset) % capacity == At(n, Wrap(offset, capacity), capacity)
  {
    var q := WrapIsRemainder(offset, capacity);
    var r := Wrap(offset, capacity);
    if n + r < capacity {
      RemainderUnique(n + offset, q, n + r, capacity);
    } else {
      assert (q + 1) * capacity == q * capacity + capacity;
      RemainderUnique(n + offset, q + 1, n + r - capacity, capacity);
    }
  }

  lemma NextIndex(n: nat, capacity: nat)
    requires n < capacity
    ensures (n + 1) % capacity == At(n, 1, capacity)
  {
    RemainderUnique(n + 1, if n + 1 < capacity then 0 else 1, At(n, 1, capacity), capacity);
  }

  lemma RotateUpdate(slots: seq<Slot>, n: nat, k: nat, slot: Slot)
    requires n < |slots| && k < |slots|
    ensures Rotate(slots[At(n, k, |slots|) := slot], n) == Rotate(slots, n)[k := slot]
  {
  }

  lemma RotateConsume(slots: seq<Slot>, n: nat, k: nat)
    requires n < |slots| && k < |slots|
    ensures var i := At(n, k, |slots|);
            Rotate(slots[i := Invalidate(slots[i])], At(n, k + 1, |slots|)) == Consume(Rotate(slots, n), k)
  {
    var i := At(n, k, |slots|);
    var m := At(n, k + 1, |slots|);
    var slot := Invalidate(slots[i]);
    var updated := slots[i := slot];
    if n + k + 1 < |slots| {
      assert updated[m..] == slots[m..];
      assert updated[..m] == slots[..n] + slots[n..i] + [slot];
      assert Rotate(slots, n)[k + 1..] == slots[m..] + slots[..n];
      assert Rotate(slots, n)[..k] == slots[n..i];
    } else if n + k + 1 == |slots| {
      assert m == 0 && updated == slots[..n] + slots[n..i] + [slot];
      assert Rotate(slots, n)[k + 1..] == slots[..n];
      assert Rotate(slots, n)[..k] == slots[n..i];
    } else {
      assert m == i + 1 <= n;
      assert updated[m..] == slots[m..n] + slots[n..];
      assert updated[..m] == slots[..i] + [slot];
      assert Rotate(slots, n)[k + 1..] == slots[m..n];
      assert Rotate(slots, n)[..k] == slots[n..] + slots[..i];
    }
  }

  /** One more slot visited by the scan. */
  lemma ScanOne(slots: seq<Slot>, n: nat, window: seq<Slot>, k: nat, maxDelay: int, now: int)
    requires n < |slots| == |window| && k < |slots|
    requires Rotate(slots, n) == Expire(window, maxDelay, now, k)
    ensures slots[At(n, k, |slots|)] == window[k]
    ensures var i := At(n, k, |slots|);
            var next := if Expired(window[k], maxDelay, now) then slots[i := Invalidate(window[k])] else slots;
            Rotate(next, n) == Expire(window, maxDelay, now, k + 1)
  {
    RotateAt(slots, n, k);
    RotateUpdate(slots, n, k, Invalidate(window[k]));
    var before, after := Expire(window, maxDelay, now, k), Expire(window, maxDelay, now, k + 1);
    assert after == if Expired(window[k], maxDelay, now) then before[k := Invalidate(window[k])] else before;
  }

  lemma NothingExpired(window: seq<Slot>, maxDelay: int, now: int)
    ensures Expire(window, maxDelay, now, 0) == window
  {
  }

  lemma FirstPlayableStep(s: State, maxDelay: int, now: int, k: nat)
    requires k < s.Capacity()
    ensures FirstPlayable(s, maxDelay, now, k) ==
            if k == s.Capacity() - 1 || Playable(s, s.window[k], maxDelay, now) then k
            else FirstPlayable(s, maxDelay, now, k + 1)
  {
  }

  class RtpBuffer {
    const slots: array<Slot>
    const maxDelay: int
    var nextReadIndex: nat
    var size: U16
    var minSequenceNumber: U16
    var numRepeatedPackages: U16
    var lastReceivedSequenceNumber: U16
    /** The value added to the lost-packages statistics so far. */
    var packagesLost: int

    ghost predicate Valid()
      reads this, slots
    {
      && 0 < slots.Length <= UINT16_MAX
      && nextReadIndex < slots.Length
      && forall i | 0 <= i < slots.Length :: slots[i].WellFormed()
    }

    ghost function Model(): (s: State)
      requires Valid()
      reads this, slots
      ensures s.WellFormed() && s.Capacity() == slots.Length
    {
      State(Rotate(slots[..], nextReadIndex), nextReadIndex, size,
            minSequenceNumber, numRepeatedPackages, lastReceivedSequenceNumber)
    }

    constructor (maxCapacity: U16, maxDelay: int)
      requires maxCapacity > 0
      ensures Valid() && fresh(slots) && this.maxDelay == maxDelay && packagesLost == 0
      ensures Model() == Fresh(maxCapacity)
    {
      slots := new Slot[maxCapacity](_ => BLANK);
      this.maxDelay := maxDelay;
      nextReadIndex, size, minSequenceNumber := 0, 0, 0;
      numRepeatedPackages, lastReceivedSequenceNumber, packagesLost := 0, 0, 0;
      new;
      assert Model().window == Fresh(maxCapacity).window;
    }

    method CalculateIndex(index: nat, offset: nat) returns (r: nat)
      requires index < slots.Length
      ensures r == At(index, Wrap(offset, slots.Length), slots.Length)
    {
      IndexWraps(index, offset, slots.Length);
      r := (index + offset) % slots.Length;
    }

    method IncrementIndex(index: nat) returns (r: nat)
      requires index < slots.Length
      ensures r == At(index, 1, slots.Length)
    {
      NextIndex(index, slots.Length);
      r := (index + 1) % slots.Length;
    }

    method AddPackage(p: Package, now: int) returns (status: Status)
      requires Valid()
      modifies this`minSequenceNumber, this`size, slots
      ensures Valid()
      ensures (Model(), status) == Add(old(Model()), p, now)
    {
      hide Rotate, Fill, Wrap;
      if minSequenceNumber == 0 || p.header.marked {
        minSequenceNumber := p.header.sequenceNumber;
      }
      ghost var t := Model();
      assert t == Start(old(Model()), p);
      if minSequenceNumber < UINT16_MAX - slots.Length && p.header.sequenceNumber < minSequenceNumber {
        return AllOkay;
      }
      if size == slots.Length {
        return InputOverflow;
      }
      if p.header.sequenceNumber - minSequenceNumber >= slots.Length {
        return InputOverflow;
      }
      assert Accepts(t, p);
      var offset := (p.header.sequenceNumber - minSequenceNumber) % 0x1_0000;
      var newWriteIndex := CalculateIndex(nextReadIndex, offset);
      ghost var i := Wrap(offset, slots.Length);
      Store(newWriteIndex, i, p, now);
      size := (size + 1) % 0x1_0000;
      assert Model() == t.(window := t.window[i := Fill(t.window[i], p, now)], size := size);
      return AllOkay;
    }

    /** Copies a package into a slot; the block of the slot is replaced only if it is too small. */
    method Store(index: nat, ghost i: nat, p: Package, now: int)
      requires Valid() && i < slots.Length && index == At(nextReadIndex, i, slots.Length)
      modifies slots
      ensures Valid()
      ensures var window := Rotate(old(slots[..]), nextReadIndex);
              Rotate(slots[..], nextReadIndex) == window[i := Fill(window[i], p, now)]
    {
      RotateAt(slots[..], nextReadIndex, i);
      RotateUpdate(slots[..], nextReadIndex, i, Fill(slots[index], p, now));
      var content := slots[index].content;
      if |content| < |p.payload| {
        content := p.payload;
      }
      content := p.payload + content[|p.payload|..];
      assert content == Fill(slots[index], p, now).content;
      slots[index] := Slot(true, p.header, now, |p.payload|, content);
      assert slots[..] == old(slots[..])[index := slots[index]];
    }

    /** The scan for the slot to read; it invalidates the expired ones it passes.
        Without a playable slot the read index stays where it was. */
    method Scan(now: int) returns (readIndex: nat, ghost found: nat)
      requires Valid()
      modifies slots
      ensures Valid() && found == FirstPlayable(old(Model()), maxDelay, now, 0)
      ensures readIndex == At(nextReadIndex, if found == slots.Length - 1 then 0 else found, slots.Length)
      ensures Model() == old(Model()).(window := Expire(old(Model()).window, maxDelay, now, found))
    {
      hide Rotate, Expire, FirstPlayable;
      ghost var s := Model();
      readIndex, found := nextReadIndex, 0;
      var index := nextReadIndex;
      var next := IncrementIndex(index);
      NothingExpired(s.window, maxDelay, now);
      while next != nextReadIndex
        invariant found < slots.Length && index == At(nextReadIndex, found, slots.Length)
        invariant next == At(index, 1, slots.Length)
        invariant Valid()
        invariant Rotate(slots[..], nextReadIndex) == Expire(s.window, maxDelay, now, found)
        invariant FirstPlayable(s, maxDelay, now, 0) == FirstPlayable(s, maxDelay, now, found)
        decreases slots.Length - found
      {
        ScanOne(slots[..], nextReadIndex, s.window, found, maxDelay, now);
        FirstPlayableStep(s, maxDelay, now, found);
        ghost var before := slots[..];
        if slots[index].isValid && slots[index].receptionTime + maxDelay < now {
          slots[index] := slots[index].(isValid := false);
          assert slots[..] == before[index := Invalidate(before[index])];
        } else if slots[index].isValid && slots[index].header.sequenceNumber >= minSequenceNumber {
          readIndex := index;
          return;
        }
        index := next;
        next := IncrementIndex(index);
        found := found + 1;
      }
      FirstPlayableStep(s, maxDelay, now, found);
    }

    method ReadPackage(now: int, numDelayPackages: nat) returns (output: Output)
      requires Valid()
      modifies this, slots
      ensures Valid()
      ensures (Model(), output) == Read(old(Model()), maxDelay, now, numDelayPackages)
      ensures packagesLost == old(packagesLost) + if output.Delivered? then output.lost else 0
    {
      if size < numDelayPackages {
        return Stretched;
      }
      var index;
      ghost var found;
      index, found := Scan(now);
      ghost var k := if found == slots.Length - 1 then 0 else found;
      RotateAt(slots[..], nextReadIndex, k);
      if !slots[index].isValid {
        var c := ConcealLoss(minSequenceNumber);
        if minSequenceNumber != 0 {
          minSequenceNumber := (minSequenceNumber + 1) % UINT16_MAX;
        }
        return Concealed(c);
      }
      output := TakeOut(index, k);
    }

    /** Copies out the package in slot `index` and moves the read cursor behind it. */
    method TakeOut(index: nat, ghost k: nat) returns (output: Output)
      requires Valid() && k < slots.Length && index == At(nextReadIndex, k, slots.Length) && slots[index].isValid
      requires Model().window[k] == slots[index]
      modifies this, slots
      ensures Valid()
      ensures (Model(), output) == Deliver(old(Model()), k)
      ensures output.Delivered? && packagesLost == old(packagesLost) + output.lost
    {
      var slot := slots[index];
      slots[index] := slot.(isValid := false);
      assert slots[..] == old(slots[..])[index := Invalidate(slot)];
      RotateConsume(old(slots[..]), nextReadIndex, k);
      nextReadIndex := IncrementIndex(index);
      assert nextReadIndex == At(old(nextReadIndex), k + 1, slots.Length);
      size := (size - 1) % 0x1_0000;
      var lost := TruncatedRemainder(slot.header.sequenceNumber - minSequenceNumber, UINT16_MAX);
      packagesLost := packagesLost + lost;
      minSequenceNumber := (slot.header.sequenceNumber + 1) % UINT16_MAX;
      output := Delivered(slot.Stored(), lost);
    }

    method ConcealLoss(sequenceNumber: U16) returns (c: Concealment)
      requires Valid() && sequenceNumber == minSequenceNumber
      modifies this`numRepeatedPackages, this`lastReceivedSequenceNumber
      ensures Valid()
      ensures (Model(), c) == Conceal(old(Model()))
    {
      if lastReceivedSequenceNumber != 0
        && (lastReceivedSequenceNumber + numRepeatedPackages + 1) % UINT16_MAX == sequenceNumber
      {
        numRepeatedPackages := (numRepeatedPackages + 1) % 0x1_0000;
      } else {
        numRepeatedPackages := 1;
        lastReceivedSequenceNumber := if sequenceNumber == 0 then UINT16_MAX else sequenceNumber - 1;
      }
      if numRepeatedPackages <= MAX_REPETITIONS {
        c := RepeatLastPackage(lastReceivedSequenceNumber);
        return;
      }
      return Silence;
    }

    /** Below index 0 the walk continues at index `capacity`, which is not a slot. */
    method RepeatLastPackage(packageSequenceNumber: U16) returns (c: Concealment)
      requires Valid()
      ensures c == SearchBack(Model(), packageSequenceNumber, 0)
    {
      var index := nextReadIndex;
      ghost var back := 0;
      var stop := IncrementIndex(nextReadIndex);
      while index != stop
        invariant back <= nextReadIndex && index == nextReadIndex - back
        invariant SearchBack(Model(), packageSequenceNumber, 0) == SearchBack(Model(), packageSequenceNumber, back)
        decreases index
      {
        RotateAt(slots[..], nextReadIndex, if back == 0 then 0 else slots.Length - back);
        if slots[index].header.sequenceNumber == packageSequenceNumber {
          return Replay(slots[index].Stored());
        }
        if index == 0 {
          return OutOfBounds;
        }
        index := index - 1;
        back := back + 1;
      }
      return Silence;
    }
  }
}

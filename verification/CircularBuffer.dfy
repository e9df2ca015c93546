/** The circular buffer as a bounded queue. */
module CircularBuffer {
  import opened Bytes
  import opened Ring

  // ------------------------------------------------------------------ iterators

  /** One step of the iterator over m slots. */
  function Forward(p: nat, m: nat): nat {
    if p + 1 == m then 0 else p + 1
  }

  /** The remainder of C++, which takes the sign of the dividend. */
  function TruncRem(x: int, m: nat): int
    requires m >= 1
  {
    if x >= 0 then x % m else -((-x) % m)
  }

  function Jump(p: nat, v: int, m: nat): int
    requires m >= 1
  {
    var i := TruncRem(p + v, m);
    if i < 0 then i + m else i
  }

  lemma NegativeMod(y: int, m: nat)
    requires m >= 1 && y >= 0
    ensures (-y) % m == if y % m == 0 then 0 else m - y % m
  {
    var q, r := y / m, y % m;
    assert y == m * q + r;
    if r == 0 {
      assert -y == m * -q;
      ModUnique(-y, m, -q, 0);
    } else {
      assert m * (-q - 1) == -(m * q) - m;
      ModUnique(-y, m, -q - 1, m - r);
    }
  }

  /** A jump by v, in either direction, lands v slots further modulo the ring; single steps are jumps. */
  lemma JumpIsMod(p: nat, v: int, m: nat)
    requires p < m
    ensures Jump(p, v, m) == (p + v) % m
  {
    if p + v < 0 {
      NegativeMod(-(p + v), m);
    }
  }

  // ------------------------------------------------------------------ bytewise copies between rings

  /** The part of k elements that fits between slot p and the end of m slots. */
  function RunLength(p: nat, k: nat, m: nat): nat
    requires p < m
  {
    if m - p >= k then k else m - p
  }

  /** A copy of k elements to slot p is cut where the target's storage ends; each run is read from slot q on
      as one block of memory.  Both blocks lie inside the source's storage. */
  predicate BlocksInside(q: nat, p: nat, k: nat, m: nat)
    requires p < m
  {
    var run := RunLength(p, k, m);
    q + run <= m && (run < k ==> Around(q, run, m) + (k - run) <= m)
  }

  /** They do if and only if the source's elements do not go around the end of its storage, or the two
      copies start at the same slot. */
  lemma BlocksInsideExactly(q: nat, p: nat, k: nat, m: nat)
    requires q < m && p < m && k <= m
    ensures BlocksInside(q, p, k, m) <==> q + k <= m || q == p
  {
  }

  /** The iterator moved forward by v, at most once around. */
  function Step(p: nat, v: nat, m: nat): (q: nat)
    requires p < m && v <= m
    ensures q == Around(p, v, m)
  {
    JumpIsMod(p, v, m);
    ModAround(p, v, m);
    SmallMod(p, m);
    Jump(p, v, m)
  }

  class Queue<T(0, ==)> {
    const strategy: Strategy
    const n: nat
    const storage: array<T>
    var from: nat
    var to: nat
    ghost var head: nat  // elements ever removed
    ghost var tail: nat  // elements ever inserted

    ghost predicate Valid()
      reads this
    {
      && n >= 1 && GoodSize(strategy, n) && storage.Length == Slots(strategy, n)
      && from == Counter(strategy, n, head) && to == Counter(strategy, n, tail)
      && head <= tail <= head + n
    }

    ghost function Contents(): (s: seq<T>)
      requires Valid()
      reads this, storage
      ensures |s| == tail - head
    {
      Window(storage[..], head, tail)
    }

    constructor (strategy: Strategy, n: nat)
      requires GoodSize(strategy, n)
      ensures Valid() && Contents() == [] && this.strategy == strategy && this.n == n && fresh(storage)
    {
      this.strategy, this.n := strategy, n;
      storage := new T[Slots(strategy, n)];
      from, to, head, tail := 0, 0, 0, 0;
      new;
      CounterZero(strategy, n);
    }

    method Size() returns (k: nat)
      requires Valid()
      ensures k == |Contents()|
    {
      hide SizeFrom, Counter, GoodSize;
      SizeOfCounters(strategy, n, head, tail);
      k := SizeFrom(strategy, n, from, to);
    }

    method Empty() returns (b: bool)
      requires Valid()
      ensures b <==> Contents() == []
    {
      hide SizeFrom, Counter, GoodSize;
      SizeOfCounters(strategy, n, head, tail);
      SizeOfCounters(strategy, n, head, head);
      return from == to;
    }

    method Full() returns (b: bool)
      requires Valid()
      ensures b <==> |Contents()| == n
    {
      var k := Size();
      return k == n;
    }

    method Front() returns (x: T)
      requires Valid() && Contents() != []
      ensures x == Contents()[0]
    {
      hide Counter, SlotOf, GoodSize, Slot;
      SlotOfCounter(strategy, n, head);
      x := storage[SlotOf(strategy, n, from)];
    }

    method Back() returns (x: T)
      requires Valid() && Contents() != []
      ensures x == Contents()[|Contents()| - 1]
    {
      hide Counter, GoodSize, Slot;
      LastSlot(strategy, n, tail);
      x := storage[Slot(to + storage.Length - 1, storage.Length)];
      assert tail - 1 == head + (tail - head - 1);
    }

    method PushBack(x: T)
      requires Valid() && |Contents()| < n
      modifies this`to, this`tail, storage
      ensures Valid() && Contents() == old(Contents()) + [x]
    {
      hide Counter, Advance, SlotOf, GoodSize, Slot;
      SlotOfCounter(strategy, n, tail);
      AdvanceCounter(strategy, n, tail, 1);
      storage[SlotOf(strategy, n, to)] := x;
      RunsAppend(old(storage[..]), storage[..], head, tail, [x]);
      to := Advance(strategy, n, to, 1);
      tail := tail + 1;
    }

    method PopFront()
      requires Valid() && Contents() != []
      modifies this`from, this`head
      ensures Valid() && Contents() == old(Contents())[1..]
    {
      PopFrontN(1);
    }

    method TakeFront() returns (x: T)
      requires Valid() && Contents() != []
      modifies this`from, this`head
      ensures Valid() && x == old(Contents())[0] && Contents() == old(Contents())[1..]
    {
      x := Front();
      PopFront();
    }

    method PopFrontN(k: nat)
      requires Valid() && k <= |Contents()|
      modifies this`from, this`head
      ensures Valid() && Contents() == old(Contents())[k..]
    {
      hide Counter, Advance, GoodSize, Window;
      AdvanceCounter(strategy, n, head, k);
      WindowPop(storage[..], head, tail, k);
      from := Advance(strategy, n, from, k);
      head := head + k;
    }

    method Clear()
      requires Valid()
      modifies this`from, this`head
      ensures Valid() && Contents() == []
    {
      var k := Size();
      PopFrontN(k);
    }

    /** Removes as many elements as the target holds, in at most two runs. */
    method TakeFrontN(target: array<T>)
      requires Valid() && target.Length <= |Contents()| && target != storage
      modifies this`from, this`head, target
      ensures Valid() && target[..] == old(Contents())[..target.Length]
      ensures Contents() == old(Contents())[target.Length..]
    {
      hide Counter, Advance, SlotOf, GoodSize, Slot;
      var k := target.Length;
      var p := SlotOf(strategy, n, from);
      SlotOfCounter(strategy, n, head);
      ghost var c := Contents();
      var capacity := storage.Length - p;
      if capacity >= k {
        CopyOut(p, k, target, 0);
      } else {
        CopyOut(p, capacity, target, 0);
        CopyOut(0, k - capacity, target, capacity);
      }
      forall i | 0 <= i < k
        ensures target[i] == c[i]
      {
        SlotAround(head, i, storage.Length);
      }
      PopFrontN(k);
    }

    method CopyOut(p: nat, k: nat, target: array<T>, at: nat)
      requires p + k <= storage.Length && at + k <= target.Length && target != storage
      modifies target
      ensures forall i :: 0 <= i < target.Length ==>
                target[i] == if at <= i < at + k then storage[p + i - at] else old(target[i])
    {
      var i := 0;
      while i < k
        invariant 0 <= i <= k
        invariant forall j :: 0 <= j < target.Length ==>
                    target[j] == if at <= j < at + i then storage[p + j - at] else old(target[j])
      {
        target[at + i] := storage[p + i];
        i := i + 1;
      }
    }

    method CopyIn(p: nat, data: seq<T>)
      requires p + |data| <= storage.Length
      modifies storage
      ensures forall i :: 0 <= i < storage.Length ==>
                storage[i] == if p <= i < p + |data| then data[i - p] else old(storage[i])
    {
      var i := 0;
      while i < |data|
        invariant 0 <= i <= |data|
        invariant forall j :: 0 <= j < storage.Length ==>
                    storage[j] == if p <= j < p + i then data[j - p] else old(storage[j])
      {
        storage[p + i] := data[i];
        i := i + 1;
      }
    }

    /** Appends a range, in at most two runs. */
    method CopyRangeBack(data: seq<T>)
      requires Valid() && |Contents()| + |data| <= n
      modifies this`to, this`tail, storage
      ensures Valid() && Contents() == old(Contents()) + data
    {
      hide Counter, Advance, SlotOf, GoodSize, Slot, Window;
      var m := storage.Length;
      var p := SlotOf(strategy, n, to);
      SlotOfCounter(strategy, n, tail);
      AdvanceCounter(strategy, n, tail, |data|);
      var capacity := m - p;
      if capacity >= |data| {
        CopyIn(p, data);
      } else {
        CopyIn(p, data[..capacity]);
        CopyIn(0, data[capacity..]);
      }
      RunsAppend(old(storage[..]), storage[..], head, tail, data);
      to := Advance(strategy, n, to, |data|);
      tail := tail + |data|;
    }

    /** Walks the iterators from begin to end.  In a full buffer with overflowing indices they
        coincide, and nothing is visited. */
    method Walk() returns (out: seq<T>)
      requires Valid()
      ensures out == if strategy == Overflow && |Contents()| == n then [] else Contents()
    {
      hide Counter, SlotOf, GoodSize, Slot;
      SlotOfCounter(strategy, n, head);
      SlotOfCounter(strategy, n, tail);
      var m := storage.Length;
      ghost var size := tail - head;
      ghost var coincide := strategy == Overflow && size == n;
      SlotAround(head, size, m);
      var p := SlotOf(strategy, n, from);
      var end := SlotOf(strategy, n, to);
      out := [];
      ghost var i := 0;
      while p != end
        invariant 0 <= i <= size && p == SlotAt(head, i, m) && out == Contents()[..i]
        invariant coincide ==> i == 0
        decreases size - i
      {
        assert i < size by {
          assert i == size ==> head + i == tail;
        }
        SlotAround(head + i, 1, m);
        out := out + [storage[p]];
        p := Forward(p, m);
        i := i + 1;
      }
      if !coincide && i < size {
        SlotsDiffer(head + i, tail, m);
      }
    }

    /** Equality of two buffers: sizes first, then element by element between the iterators.  Two full
        buffers with overflowing indices compare equal whatever they hold. */
    method Equals(other: Queue<T>) returns (b: bool)
      requires Valid() && other.Valid() && other.strategy == strategy && other.n == n
      ensures b <==> |Contents()| == |other.Contents()|
                     && ((strategy == Overflow && |Contents()| == n) || Contents() == other.Contents())
    {
      var k := Size();
      var l := other.Size();
      if k != l {
        return false;
      }
      var xs := Walk();
      var ys := other.Walk();
      return xs == ys;
    }

    /** Assignment: clears, then appends the elements of the other buffer. */
    method Assign(other: Queue<T>)
      requires Valid() && other.Valid() && other.n == n && other != this && other.storage != storage
      modifies this`from, this`to, this`head, this`tail, storage
      ensures Valid() && Contents() == old(other.Contents())
    {
      Clear();
      var data := other.Elements();
      CopyRangeBack(data);
    }

    /** Assignment of elements that are copied as bytes: reads one block from the source's storage for each
        run of the target.  Answers false where such a block would end outside of it. */
    method AssignBytes(other: Queue<T>) returns (inside: bool)
      requires Valid() && other.Valid() && other.n == n && other.strategy == strategy
      requires other != this && other.storage != storage
      modifies this`from, this`to, this`head, this`tail, storage
      ensures inside <==>
                var first := SlotOf(strategy, n, other.from);
                first + |other.Contents()| <= storage.Length || first == SlotOf(strategy, n, old(to))
      ensures inside ==> Valid() && Contents() == old(other.Contents())
    {
      hide Counter, Advance, SlotOf, GoodSize, Slot, Window, BlocksInside, SizeFrom, RunLength;
      Clear();
      var k := other.Size();
      var q, p := SlotOf(strategy, n, other.from), SlotOf(strategy, n, to);
      SlotOfCounter(strategy, n, other.head);
      SlotOfCounter(strategy, n, tail);
      BlocksInsideExactly(q, p, k, storage.Length);
      inside := CopyBlocks(other.storage, q, p, k);
      if inside {
        AdvanceCounter(strategy, n, tail, k);
        BlocksAppend(other.storage[..], other.head, other.tail, old(storage[..]), storage[..], head, tail);
        to := Advance(strategy, n, to, k);
        tail := tail + k;
      }
    }

    /** Copies k elements of the source, from slot q on, to slot p and on, cut where the storage ends. */
    method CopyBlocks(source: array<T>, q0: nat, p: nat, k: nat) returns (inside: bool)
      requires source != storage && source.Length == storage.Length
      requires q0 < storage.Length && p < storage.Length && k <= storage.Length
      modifies storage
      ensures inside <==> BlocksInside(q0, p, k, storage.Length)
      ensures inside ==>
                forall x :: 0 <= x < storage.Length ==>
                  var d := Distance(p, x, storage.Length);
                  storage[x] == if d < k then source[Around(q0, d, storage.Length)] else old(storage[x])
    {
      var m, q := storage.Length, q0;
      var run := RunLength(p, k, m);
      if q + run > m {
        return false;
      }
      CopyIn(p, source[q..q + run]);
      if run < k {
        q := Step(q, run, m);
        if q + (k - run) > m {
          return false;
        }
        CopyIn(0, source[q..q + (k - run)]);
      }
      return true;
    }

    /** The elements met by advancing the begin iterator size() times. */
    method Elements() returns (out: seq<T>)
      requires Valid()
      ensures out == Contents()
    {
      hide Counter, SlotOf, GoodSize, Slot;
      SlotOfCounter(strategy, n, head);
      var k := Size();
      var m := storage.Length;
      var p := SlotOf(strategy, n, from);
      out := [];
      var i := 0;
      while i < k
        invariant 0 <= i <= k && p == SlotAt(head, i, m) && out == Contents()[..i]
      {
        SlotAround(head + i, 1, m);
        out := out + [storage[p]];
        p := Forward(p, m);
        i := i + 1;
      }
    }
  }

  lemma BlocksAppend<T>(source: seq<T>, hs: nat, ts: nat, st: seq<T>, st': seq<T>, h: nat, t: nat)
    requires |st| == |st'| == |source| >= 1 && hs <= ts && h <= t && t - h + (ts - hs) <= |st|
    requires forall x :: 0 <= x < |st| ==>
               var d := Distance(Slot(t, |st|), x, |st|);
               st'[x] == if d < ts - hs then source[Around(Slot(hs, |st|), d, |st|)] else st[x]
    ensures Window(st', h, t + (ts - hs)) == Window(st, h, t) + Window(source, hs, ts)
  {
    hide Slot, Distance;
    forall d | 0 <= d < ts - hs
      ensures source[Around(Slot(hs, |st|), d, |st|)] == Window(source, hs, ts)[d]
    {
      SlotAround(hs, d, |st|);
    }
    RunsAppend(st, st', h, t, Window(source, hs, ts));
  }

  lemma CounterZero(s: Strategy, n: nat)
    requires n >= 1
    ensures Counter(s, n, 0) == 0
  {
    hide IndexRange;
    SmallMod(0, IndexRange(n));
  }
}

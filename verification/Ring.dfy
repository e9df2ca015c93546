/** Index arithmetic of the circular buffer, for both ways of telling a full buffer from an empty one. */
module Ring {
  import opened Bytes

  datatype Strategy = Spacer | Overflow

  /** Width in bits of the index type chosen for n elements. */
  function IndexBits(n: nat): nat {
    if n <= 0xFF then 8 else if n <= 0xFFFF then 16 else if n <= 0xFFFF_FFFF then 32 else 64
  }

  /** Number of values of the index type. */
  function IndexRange(n: nat): (m: nat)
    ensures m >= 1
  {
    Pow2(IndexBits(n))
  }

  /** Number of slots. */
  function Slots(s: Strategy, n: nat): nat {
    if s == Spacer then n + 1 else n
  }

  /** The buffer sizes that compile: below the maximum of the index type, and a power of two if the
      indices are to overflow. */
  ghost predicate GoodSize(s: Strategy, n: nat) {
    && 1 <= n < IndexRange(n) - 1
    && (s == Overflow ==> exists k: nat :: n == Pow2(k))
  }

  /** The value an index holds after x increments. */
  function Counter(s: Strategy, n: nat, x: nat): nat
    requires n >= 1
  {
    if s == Overflow then x % IndexRange(n) else x % (n + 1)
  }

  /** The slot an index stands for. */
  function SlotOf(s: Strategy, n: nat, index: nat): nat
    requires n >= 1
  {
    if s == Overflow then index % n else index
  }

  /** Occupancy computed from the two indices: the difference as the index type sees it, or the
      distance around the ring. */
  function SizeFrom(s: Strategy, n: nat, from: nat, to: nat): nat {
    if s == Overflow then (to - from) % IndexRange(n)
    else SpacerSize(n, to >= from, from, to)
  }

  function SpacerSize(n: nat, ahead: bool, from: nat, to: nat): nat {
    if ahead then (to - from) % IndexRange(n) else (to + (n + 1 - from)) % IndexRange(n)
  }

  lemma Pow2Order(a: nat, b: nat)
    requires a <= b
    ensures Pow2(a) <= Pow2(b)
  {
    Pow2Add(a, b - a);
    MulBound(Pow2(a), Pow2(b - a));
  }

  /** A power of two below the index range divides it. */
  lemma SizeDivides(n: nat) returns (q: nat)
    requires GoodSize(Overflow, n)
    ensures IndexRange(n) == n * q && q >= 1
  {
    var k: nat :| n == Pow2(k);
    if IndexBits(n) <= k {
      Pow2Order(IndexBits(n), k);
    }
    q := Pow2(IndexBits(n) - k);
    Pow2Add(k, IndexBits(n) - k);
  }

  lemma ModOfMultiple(x: int, n: nat, q: nat)
    requires n >= 1 && q >= 1
    ensures n * q >= 1 && (x % (n * q)) % n == x % n
  {
    var m := n * q;
    MulBound(n, q);
    var t := x / m;
    assert x == m * t + x % m;
    assert m * t == n * (q * t);
    var y := x % m;
    assert y == n * (y / n) + y % n;
    assert x == n * (q * t) + n * (y / n) + y % n;
    assert n * (q * t) + n * (y / n) == n * (q * t + y / n);
    ModUnique(x, n, q * t + y / n, y % n);
  }

  /** The slot of the x-th element ever inserted, in a ring of m slots. */
  function Slot(x: nat, m: nat): (p: nat)
    requires m >= 1
    ensures p < m
  {
    x % m
  }

  lemma SlotAround(x: nat, d: nat, m: nat)
    requires m >= 1 && d <= m
    ensures Slot(x + d, m) == Around(Slot(x, m), d, m)
  {
    ModAround(x, d, m);
  }

  lemma SlotSmall(x: nat, m: nat)
    requires x < m
    ensures Slot(x, m) == x
  {
  }

  lemma SlotsDiffer(x: nat, y: nat, m: nat)
    requires x < y < x + m
    ensures Slot(x, m) != Slot(y, m)
  {
    hide Slot;
    SlotAround(x, y - x, m);
  }

  /** The slot i places behind the x-th. */
  function SlotAt(x: nat, i: nat, m: nat): (p: nat)
    requires m >= 1
    ensures p < m
  {
    Slot(x + i, m)
  }

  /** Moving d steps around a ring of m slots. */
  function Around(p: nat, d: nat, m: nat): nat {
    if p + d < m then p + d else p + d - m
  }

  lemma ModAround(x: nat, d: nat, m: nat)
    requires m >= 1 && d <= m
    ensures (x + d) % m == Around(x % m, d, m)
  {
    var q, r := x / m, x % m;
    assert x == m * q + r;
    if r + d < m {
      ModUnique(x + d, m, q, r + d);
    } else {
      assert m * (q + 1) == m * q + m;
      ModUnique(x + d, m, q + 1, r + d - m);
    }
  }

  /** The slot of an index is its unbounded count modulo the number of slots, wrapped or not. */
  lemma SlotOfCounter(s: Strategy, n: nat, x: nat)
    requires GoodSize(s, n)
    ensures SlotOf(s, n, Counter(s, n, x)) == Slot(x, Slots(s, n))
  {
    if s == Overflow {
      var q := SizeDivides(n);
      ModOfMultiple(x, n, q);
    }
  }

  lemma DifferenceOfMods(h: nat, t: nat, m: nat)
    requires h <= t < h + m
    ensures (t % m - h % m) % m == t - h
  {
    var a, b := h / m, t / m;
    assert h == m * a + h % m && t == m * b + t % m;
    assert m * b - m * a == m * (b - a);
    assert t % m - h % m == m * (a - b) + (t - h);
    ModUnique(t % m - h % m, m, a - b, t - h);
  }

  /** Occupancy computed from wrapped indices is the difference of the unbounded counts. */
  lemma SizeOfCounters(s: Strategy, n: nat, h: nat, t: nat)
    requires GoodSize(s, n) && h <= t <= h + n
    ensures SizeFrom(s, n, Counter(s, n, h), Counter(s, n, t)) == t - h
  {
    hide IndexRange;
    var m := IndexRange(n);
    if s == Overflow {
      DifferenceOfMods(h, t, m);
    } else {
      ModAround(h, t - h, n + 1);
      hide *;
      SmallMod(t - h, m);
    }
  }

  lemma SmallMod(x: nat, m: nat)
    requires x < m
    ensures x % m == x
  {
  }

  /** Advancing an index by d steps. */
  function Advance(s: Strategy, n: nat, index: nat, d: nat): nat
    requires n >= 1
  {
    if s == Overflow then (index + d) % IndexRange(n) else (index + d) % (n + 1)
  }

  lemma AdvanceCounter(s: Strategy, n: nat, x: nat, d: nat)
    requires n >= 1
    ensures Advance(s, n, Counter(s, n, x), d) == Counter(s, n, x + d)
  {
    hide IndexRange;
    var m := if s == Overflow then IndexRange(n) else n + 1;
    var q, r := x / m, x % m;
    assert x == m * q + r;
    var p := (r + d) / m;
    assert r + d == m * p + (r + d) % m;
    assert x + d == m * (q + p) + (r + d) % m;
    ModUnique(x + d, m, q + p, (r + d) % m);
  }

  /** The slot in front of the write position. */
  lemma LastSlot(s: Strategy, n: nat, x: nat)
    requires GoodSize(s, n) && x >= 1
    ensures Slot(Counter(s, n, x) + Slots(s, n) - 1, Slots(s, n)) == Slot(x - 1, Slots(s, n))
  {
    var m := Slots(s, n);
    var c := Counter(s, n, x);
    SlotOfCounter(s, n, x);
    assert Slot(c, m) == Slot(x, m) by {
      if s == Spacer {
        SlotSmall(c, m);
      }
    }
    hide Slot, Counter, SlotOf, GoodSize;
    SlotAround(x - 1, 1, m);
    SlotAround(c, m - 1, m);
  }

  /** The elements numbered h to t in a storage used as a ring. */
  ghost function Window<T>(st: seq<T>, h: nat, t: nat): (s: seq<T>)
    requires |st| >= 1 && h <= t
    ensures |s| == t - h
    ensures forall i :: 0 <= i < t - h ==> s[i] == st[SlotAt(h, i, |st|)]
  {
    seq(t - h, i requires 0 <= i < t - h => st[SlotAt(h, i, |st|)])
  }

  lemma WindowPop<T>(st: seq<T>, h: nat, t: nat, k: nat)
    requires |st| >= 1 && h + k <= t
    ensures Window(st, h + k, t) == Window(st, h, t)[k..]
  {
    hide Slot;
    forall i | 0 <= i < t - h - k
      ensures Window(st, h + k, t)[i] == Window(st, h, t)[k..][i]
    {
      assert SlotAt(h + k, i, |st|) == SlotAt(h, k + i, |st|);
    }
  }

  /** Storing data behind the window, in slots that held none of its elements, appends data. */
  lemma WindowAppend<T>(st: seq<T>, st': seq<T>, h: nat, t: nat, data: seq<T>)
    requires |st| == |st'| >= 1 && h <= t && t - h + |data| <= |st|
    requires forall i :: 0 <= i < |data| ==> st'[SlotAt(t, i, |st|)] == data[i]
    requires forall p :: 0 <= p < |st| && st'[p] != st[p] ==> exists i :: 0 <= i < |data| && p == SlotAt(t, i, |st|)
    ensures Window(st', h, t + |data|) == Window(st, h, t) + data
  {
    hide Slot;
    var m := |st|;
    forall i | 0 <= i < t - h + |data|
      ensures Window(st', h, t + |data|)[i] == (Window(st, h, t) + data)[i]
    {
      if i < t - h {
        forall j | 0 <= j < |data|
          ensures SlotAt(h, i, m) != SlotAt(t, j, m)
        {
          SlotsDiffer(h + i, t + j, m);
        }
      } else {
        assert SlotAt(h, i, m) == SlotAt(t, i - (t - h), m);
      }
    }
  }

  /** How many steps lead from slot p to slot q. */
  function Distance(p: nat, q: nat, m: nat): (d: nat)
    requires p < m && q < m
    ensures d < m && Around(p, d, m) == q
  {
    if q >= p then q - p else q + m - p
  }

  /** Data laid down from slot p on, around the end of the storage if need be, is appended. */
  lemma RunsAppend<T>(st: seq<T>, st': seq<T>, h: nat, t: nat, data: seq<T>)
    requires |st| == |st'| >= 1 && h <= t && t - h + |data| <= |st|
    requires forall q :: 0 <= q < |st| ==>
               var d := Distance(Slot(t, |st|), q, |st|);
               st'[q] == if d < |data| then data[d] else st[q]
    ensures Window(st', h, t + |data|) == Window(st, h, t) + data
  {
    hide Slot, Window;
    var m := |st|;
    var p := Slot(t, m);
    forall i | 0 <= i < |data|
      ensures st'[SlotAt(t, i, m)] == data[i]
    {
      SlotAround(t, i, m);
      assert Distance(p, SlotAt(t, i, m), m) == i;
    }
    forall q | 0 <= q < m && st'[q] != st[q]
      ensures exists i :: 0 <= i < |data| && q == SlotAt(t, i, m)
    {
      SlotAround(t, Distance(p, q, m), m);
      assert q == SlotAt(t, Distance(p, q, m), m);
    }
    WindowAppend(st, st', h, t, data);
  }
}

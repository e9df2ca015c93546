/** One producer and one consumer sharing the circular buffer, one atomic access at a time.

    The producer asks full() and then pushes; the consumer asks empty() and then takes the front.
    A side may also move a whole range, for which the code checks nothing: the producer must know of room
    for it, the consumer of that many elements.  Every load and store of an index and every access to a
    slot is a step of its own, and the two sides interleave freely; the loads of one expression come in
    either order. */
module RingSpsc {
  import opened Bytes
  import opened Ring

  /** A loaded index and how often that index had been stored when it was loaded. */
  datatype Seen = Seen(value: nat, count: nat)

  datatype Producer<T> =
    | PIdle
    | PSize(x: T, to: Option<Seen>, from: Option<Seen>)
    | PSpacer(x: T, earlier: Seen, ahead: bool, to: Option<Seen>, from: Option<Seen>)
    | PSlot(x: T)
    | PWrite(x: T, slot: nat)
    | PIncr
    | PRange(xs: seq<T>)
    | PFill(xs: seq<T>, first: nat, done: nat)
    | PStore(loaded: nat, k: nat)

  datatype Consumer<T> =
    | CIdle
    | CEmpty(from: Option<Seen>, to: Option<Seen>)
    | CFront
    | CRead(slot: nat)
    | CPop
    | CDelete(slot: nat)
    | CIncr
    | CRange(k: nat)
    | CMove(first: nat, k: nat, done: nat)
    | CStore(loaded: nat, k: nat)

  /** Shared memory, the two program counters, and what happened so far: how often each index was
      stored, every element written and every element taken. */
  datatype State<T> = State(
    from: nat, to: nat, slots: seq<Option<T>>, p: Producer<T>, c: Consumer<T>,
    head: nat, tail: nat, produced: seq<T>, consumed: seq<T>, fault: bool)

  datatype Config = Config(s: Strategy, n: nat)

  datatype Step<T> =
    | Push(x: T) | PushRange(xs: seq<T>) | PLoadTo | PLoadFrom | PDecide | PWriteSlot | PStoreTo
    | Take | TakeRange(k: nat) | CLoadFrom | CLoadTo | CDecide | CReadSlot | CDeleteSlot | CStoreFrom

  function Init<T>(g: Config): State<T>
    requires g.n >= 1
  {
    State(0, 0, seq(Slots(g.s, g.n), _ => None), PIdle, CIdle, 0, 0, [], [], false)
  }

  /** The effect of one step, or None when the step is not enabled. */
  function Apply<T>(g: Config, s: State<T>, step: Step<T>): Option<State<T>>
    requires g.n >= 1
  {
    match step
    case Push(x) => if s.p == PIdle then Some(s.(p := PSize(x, None, None))) else None
    case PushRange(xs) =>
      if s.p == PIdle && s.tail + |xs| <= s.head + g.n then Some(s.(p := PRange(xs))) else None
    case PLoadTo =>
      var seen := Seen(s.to, s.tail);
      (match s.p
       case PSize(x, None, f) => Some(s.(p := PSize(x, Some(seen), f)))
       case PSpacer(x, first, ahead, None, f) => Some(s.(p := PSpacer(x, first, ahead, Some(seen), f)))
       case PSlot(x) => Some(s.(p := PWrite(x, SlotOf(g.s, g.n, s.to))))
       case PIncr => Some(s.(p := PStore(s.to, 1)))
       case PRange(xs) => Some(s.(p := PFill(xs, SlotOf(g.s, g.n, s.to), 0)))
       case PFill(xs, _, done) => if done == |xs| then Some(s.(p := PStore(s.to, done))) else None
       case _ => None)
    case PLoadFrom =>
      var seen := Seen(s.from, s.head);
      (match s.p
       case PSize(x, t, None) => Some(s.(p := PSize(x, t, Some(seen))))
       case PSpacer(x, first, ahead, t, None) => Some(s.(p := PSpacer(x, first, ahead, t, Some(seen))))
       case _ => None)
    case PDecide =>
      (match s.p
       case PSize(x, Some(t), Some(f)) =>
         if g.s == Overflow then
           Some(s.(p := if SizeFrom(g.s, g.n, f.value, t.value) == g.n then PIdle else PSlot(x)))
         else
           Some(s.(p := PSpacer(x, f, t.value >= f.value, None, None)))
       case PSpacer(x, _, ahead, Some(t), Some(f)) =>
         Some(s.(p := if SpacerSize(g.n, ahead, f.value, t.value) == g.n then PIdle else PSlot(x)))
       case _ => None)
    case PWriteSlot =>
      (match s.p
       case PWrite(x, slot) =>
         Some(Fill(s, slot, x).(p := PIncr))
       case PFill(xs, first, done) =>
         if done < |xs| then
           Some(Fill(s, Around(first, done, Slots(g.s, g.n)), xs[done]).(p := PFill(xs, first, done + 1)))
         else
           None
       case _ => None)
    case PStoreTo =>
      (match s.p
       case PStore(t, k) => Some(s.(to := Advance(g.s, g.n, t, k), tail := s.tail + k, p := PIdle))
       case _ => None)
    case Take => if s.c == CIdle then Some(s.(c := CEmpty(None, None))) else None
    case TakeRange(k) =>
      if s.c == CIdle && s.head + k <= s.tail then Some(s.(c := CRange(k))) else None
    case CLoadFrom =>
      var seen := Seen(s.from, s.head);
      (match s.c
       case CEmpty(None, t) => Some(s.(c := CEmpty(Some(seen), t)))
       case CFront => Some(s.(c := CRead(SlotOf(g.s, g.n, s.from))))
       case CPop => Some(s.(c := CDelete(SlotOf(g.s, g.n, s.from))))
       case CIncr => Some(s.(c := CStore(s.from, 1)))
       case CRange(k) => Some(s.(c := CMove(SlotOf(g.s, g.n, s.from), k, 0)))
       case CMove(_, k, done) => if done == k then Some(s.(c := CStore(s.from, k))) else None
       case _ => None)
    case CLoadTo =>
      (match s.c
       case CEmpty(f, None) => Some(s.(c := CEmpty(f, Some(Seen(s.to, s.tail)))))
       case _ => None)
    case CDecide =>
      (match s.c
       case CEmpty(Some(f), Some(t)) => Some(s.(c := if f.value == t.value then CIdle else CFront))
       case _ => None)
    case CReadSlot =>
      (match s.c
       case CRead(slot) => Some(Copy(s, slot).(c := CPop))
       case CMove(first, k, done) =>
         var slot := Around(first, done, Slots(g.s, g.n));
         if done < k then Some(Free(Copy(s, slot), slot).(c := CMove(first, k, done + 1))) else None
       case _ => None)
    case CDeleteSlot =>
      (match s.c
       case CDelete(slot) => Some(Free(s, slot).(c := CIncr))
       case _ => None)
    case CStoreFrom =>
      (match s.c
       case CStore(f, k) => Some(s.(from := Advance(g.s, g.n, f, k), head := s.head + k, c := CIdle))
       case _ => None)
  }

  /** An element is put into a slot, which must be free. */
  function Fill<T>(s: State<T>, slot: nat, x: T): State<T> {
    if slot < |s.slots| && s.slots[slot] == None then
      s.(slots := s.slots[slot := Some(x)], produced := s.produced + [x])
    else
      s.(fault := true)
  }

  /** The element of a slot, which must hold one, is taken over. */
  function Copy<T>(s: State<T>, slot: nat): State<T> {
    if slot < |s.slots| && s.slots[slot].Some? then s.(consumed := s.consumed + [s.slots[slot].value])
    else s.(fault := true)
  }

  /** The element of a slot, which must hold one, is destroyed, or has been moved out. */
  function Free<T>(s: State<T>, slot: nat): State<T> {
    if slot < |s.slots| && s.slots[slot].Some? then s.(slots := s.slots[slot := None]) else s.(fault := true)
  }

  function Run<T>(g: Config, s: State<T>, steps: seq<Step<T>>): Option<State<T>>
    requires g.n >= 1
    decreases |steps|
  {
    if steps == [] then Some(s)
    else
      match Apply(g, s, steps[0])
      case None => None
      case Some(s') => Run(g, s', steps[1..])
  }

  // ------------------------------------------------------------------ invariant

  /** How many elements the producer has written and not announced yet. */
  function Written<T>(p: Producer<T>): nat {
    match p
    case PIncr => 1
    case PFill(_, _, done) => done
    case PStore(_, k) => k
    case _ => 0
  }

  /** How many it is about to announce, and knows room for. */
  function Planned<T>(p: Producer<T>): nat {
    match p
    case PIdle => 0
    case PSize(_, _, _) => 0
    case PSpacer(_, _, _, _, _) => 0
    case PRange(xs) => |xs|
    case PFill(xs, _, _) => |xs|
    case PStore(_, k) => k
    case _ => 1
  }

  /** How many elements the consumer has read and not given up yet. */
  function Taken<T>(c: Consumer<T>): nat {
    match c
    case CPop => 1
    case CDelete(_) => 1
    case _ => Freed(c)
  }

  /** How many of them it has destroyed or moved out. */
  function Freed<T>(c: Consumer<T>): nat {
    match c
    case CIncr => 1
    case CMove(_, _, done) => done
    case CStore(_, k) => k
    case _ => 0
  }

  /** How many it is about to give up, and knows to be there. */
  function Wanted<T>(c: Consumer<T>): nat {
    match c
    case CIdle => 0
    case CEmpty(_, _) => 0
    case CRange(k) => k
    case CMove(_, k, _) => k
    case CStore(_, k) => k
    case _ => 1
  }

  function FirstLive<T>(s: State<T>): nat {
    s.head + Freed(s.c)
  }

  ghost predicate Counts<T>(g: Config, s: State<T>)
    requires g.n >= 1
  {
    && s.head <= s.tail <= s.head + g.n
    && s.from == Counter(g.s, g.n, s.head) && s.to == Counter(g.s, g.n, s.tail)
    && s.head + Wanted(s.c) <= s.tail && s.tail + Planned(s.p) <= s.head + g.n
    && |s.produced| == s.tail + Written(s.p) && |s.consumed| == s.head + Taken(s.c)
    && s.consumed <= s.produced
    && !s.fault
  }

  /** An index of the consumer seen by the producer may be stale, but never by a whole round. */
  ghost predicate SeenHead<T>(g: Config, s: State<T>, f: Seen)
    requires g.n >= 1
  {
    f.value == Counter(g.s, g.n, f.count) && f.count <= s.head && s.tail <= f.count + g.n
  }

  ghost predicate SeenTail<T>(g: Config, s: State<T>, t: Seen)
    requires g.n >= 1
  {
    t.value == Counter(g.s, g.n, t.count) && s.head <= t.count <= s.tail
  }

  ghost predicate ProducerOk<T>(g: Config, s: State<T>)
    requires g.n >= 1
  {
    match s.p
    case PIdle => true
    case PSize(_, t, f) =>
      (t.Some? ==> t.value == Seen(s.to, s.tail)) && (f.Some? ==> SeenHead(g, s, f.value))
    case PSpacer(_, first, ahead, t, f) =>
      && g.s == Spacer
      && SeenHead(g, s, first) && (ahead <==> s.to >= first.value)
      && (t.Some? ==> t.value == Seen(s.to, s.tail))
      && (f.Some? ==> SeenHead(g, s, f.value) && first.count <= f.value.count)
    case PSlot(_) => true
    case PWrite(_, slot) => slot == Slot(s.tail, Slots(g.s, g.n))
    case PIncr => true
    case PRange(_) => true
    case PFill(xs, first, done) => first == Slot(s.tail, Slots(g.s, g.n)) && done <= |xs|
    case PStore(t, _) => t == s.to
  }

  ghost predicate ConsumerOk<T>(g: Config, s: State<T>)
    requires g.n >= 1
  {
    match s.c
    case CIdle => true
    case CEmpty(f, t) =>
      (f.Some? ==> f.value == Seen(s.from, s.head)) && (t.Some? ==> SeenTail(g, s, t.value))
    case CFront => true
    case CRead(slot) => slot == Slot(s.head, Slots(g.s, g.n))
    case CPop => true
    case CDelete(slot) => slot == Slot(s.head, Slots(g.s, g.n))
    case CIncr => true
    case CRange(_) => true
    case CMove(first, k, done) => first == Slot(s.head, Slots(g.s, g.n)) && done <= k
    case CStore(f, _) => f == s.from
  }

  /** The slots hold exactly the live elements. */
  ghost predicate SlotsOk<T>(g: Config, s: State<T>)
    requires g.n >= 1
  {
    var m := Slots(g.s, g.n);
    && |s.slots| == m >= 1
    && (forall j :: FirstLive(s) <= j < |s.produced| ==> s.slots[Slot(j, m)] == Some(s.produced[j]))
    && (forall q :: 0 <= q < m && s.slots[q].Some? ==>
          exists j :: FirstLive(s) <= j < |s.produced| && Slot(j, m) == q)
  }

  ghost predicate Inv<T>(g: Config, s: State<T>) {
    && g.n >= 1 && GoodSize(g.s, g.n)
    && Counts(g, s) && ProducerOk(g, s) && ConsumerOk(g, s) && SlotsOk(g, s)
  }

  lemma InitInv<T>(g: Config)
    requires g.n >= 1 && GoodSize(g.s, g.n)
    ensures Inv(g, Init<T>(g))
  {
    hide IndexRange;
    SmallMod(0, IndexRange(g.n));
  }

  // ------------------------------------------------------------------ decisions on stale loads

  /** The consumer passed the end of the storage between the two loads of its index that one size() makes. */
  predicate Raced(n: nat, f1: nat, f2: nat, t: nat) {
    t < f1 && f2 <= t
  }

  /** With indices that wrap into a spare slot, size() is the occupancy at the later load, unless it raced:
      then it is one round too much, cut off at the width of an index. */
  lemma SpacerSizeExact(n: nat, g1: nat, g2: nat, t: nat)
    requires GoodSize(Spacer, n) && g1 <= g2 <= t <= g1 + n
    ensures var f1, f2, b := Counter(Spacer, n, g1), Counter(Spacer, n, g2), Counter(Spacer, n, t);
            SpacerSize(n, b >= f1, f2, b) == if Raced(n, f1, f2, b) then (t - g2 + n + 1) % IndexRange(n) else t - g2
    ensures var f1, f2, b := Counter(Spacer, n, g1), Counter(Spacer, n, g2), Counter(Spacer, n, t);
            Raced(n, f1, f2, b) ==> t - g2 < n
  {
    hide IndexRange;
    var m, r := n + 1, IndexRange(n);
    ModAround(g1, t - g1, m);
    ModAround(g1, g2 - g1, m);
    RaceCases(n, g1 % m, g2 - g1, t - g1);
    SmallMod(t - g2, r);
  }

  /** The same with the three indices as places on the ring: f1, k steps on and l steps on. */
  lemma RaceCases(n: nat, f1: nat, k: nat, l: nat)
    requires f1 <= n && k <= l <= n
    ensures var m := n + 1; var f2, b := Around(f1, k, m), Around(f1, l, m);
            && f2 < m && b < m
            && (b >= f1 ==> b - f2 == l - k)
            && (b < f1 ==> b + (m - f2) == if f2 <= b then l - k + m else l - k)
            && (Raced(n, f1, f2, b) ==> l - k < n)
  {
  }

  /** So a size() that raced may even be smaller than the occupancy: exactly when the sum leaves the width. */
  lemma SizeTooSmall(n: nat, g1: nat, g2: nat, t: nat)
    requires GoodSize(Spacer, n) && g1 <= g2 <= t <= g1 + n
    ensures var f1, f2, b := Counter(Spacer, n, g1), Counter(Spacer, n, g2), Counter(Spacer, n, t);
            SpacerSize(n, b >= f1, f2, b) < t - g2 <==> Raced(n, f1, f2, b) && t - g2 + n + 1 >= IndexRange(n)
  {
    hide IndexRange, Counter;
    SpacerSizeExact(n, g1, g2, t);
    var d, r := t - g2 + n + 1, IndexRange(n);
    if Raced(n, Counter(Spacer, n, g1), Counter(Spacer, n, g2), Counter(Spacer, n, t)) {
      if d < r {
        SmallMod(d, r);
      } else {
        ModUnique(d, r, 1, d - r);
      }
    }
  }

  /** Two hundred slots and an index of one byte: with a hundred elements held, size() answers 45. */
  lemma SizeTooSmallAt200()
    ensures GoodSize(Spacer, 200)
    ensures var f1, f2, b := Counter(Spacer, 200, 150), Counter(Spacer, 200, 201), Counter(Spacer, 200, 301);
            SpacerSize(200, b >= f1, f2, b) == 45
  {
    assert IndexRange(200) == 256 by { ByteRange(); }
  }

  lemma ByteRange()
    ensures IndexRange(200) == 256
  {
    assert Pow2(4) == 16;
    Pow2Add(4, 4);
  }

  /** The question full() is answered exactly for the later load all the same. */
  lemma SpacerDecision(n: nat, g1: nat, g2: nat, t: nat)
    requires GoodSize(Spacer, n) && g1 <= g2 <= t <= g1 + n
    ensures var c := (x: nat) => Counter(Spacer, n, x);
            SpacerSize(n, c(t) >= c(g1), c(g2), c(t)) == n <==> t - g2 == n
  {
    hide IndexRange, Counter;
    SpacerSizeExact(n, g1, g2, t);
    if Raced(n, Counter(Spacer, n, g1), Counter(Spacer, n, g2), Counter(Spacer, n, t)) {
      WrapMiss(t - g2 + n + 1, n, IndexRange(n));
    }
  }

  lemma WrapMiss(d: nat, n: nat, r: nat)
    requires n < d <= 2 * n && n + 1 < r
    ensures d % r != n
  {
    if d < r {
      SmallMod(d, r);
    } else {
      ModUnique(d, r, 1, d - r);
    }
  }

  /** The producer's verdict is exact for the consumer's progress it last saw: "full" was true then,
      and "not full" leaves a free slot now. */
  lemma FullVerdict<T>(g: Config, s: State<T>, s': State<T>)
    requires Inv(g, s) && Apply(g, s, PDecide) == Some(s') && !s'.p.PSpacer?
    ensures s.p.PSize? || s.p.PSpacer?
    ensures s.p.from.Some? && (s'.p.PIdle? || s'.p.PSlot?)
    ensures s'.p.PIdle? <==> s.tail - s.p.from.value.count == g.n
    ensures s'.p.PSlot? ==> s.tail - s.head < g.n
  {
    hide SizeFrom, SpacerSize, Counter, GoodSize, SlotsOk, ConsumerOk;
    var f := s.p.from.value;
    if s.p.PSize? {
      SizeOfCounters(g.s, g.n, f.count, s.tail);
    } else {
      SpacerDecision(g.n, s.p.earlier.count, f.count, s.tail);
    }
  }

  /** The consumer finds the buffer empty exactly when nothing it could see is left to take. */
  lemma EmptyVerdict<T>(g: Config, s: State<T>, s': State<T>)
    requires Inv(g, s) && Apply(g, s, CDecide) == Some(s')
    ensures s.c.CEmpty? && s.c.to.Some? && (s'.c.CIdle? || s'.c.CFront?)
    ensures s'.c.CIdle? <==> s.c.to.value.count == s.head
    ensures s'.c.CFront? ==> s.head < s.tail
  {
    hide SizeFrom, Counter, GoodSize, SlotsOk, ProducerOk;
    var t := s.c.to.value;
    SizeOfCounters(g.s, g.n, s.head, t.count);
    SizeOfCounters(g.s, g.n, s.head, s.head);
  }

  // ------------------------------------------------------------------ preservation

  lemma SameSlots<T>(g: Config, s: State<T>, s': State<T>)
    requires g.n >= 1 && SlotsOk(g, s)
    requires s'.slots == s.slots && s'.produced == s.produced && FirstLive(s') == FirstLive(s)
    ensures SlotsOk(g, s')
  {
    hide Slot;
  }

  lemma ProducerKeepsInv<T>(g: Config, s: State<T>, step: Step<T>, s': State<T>)
    requires Inv(g, s) && Apply(g, s, step) == Some(s')
    requires step.Push? || step.PushRange? || step.PLoadTo? || step.PLoadFrom?
    ensures Inv(g, s')
  {
    hide Counter, GoodSize, SizeFrom, SpacerSize, SlotOf, Slot, Advance, SlotsOk, ConsumerOk;
    if step.PLoadTo? {
      SlotOfCounter(g.s, g.n, s.tail);
    }
    SameSlots(g, s, s');
    SameConsumer(g, s, s');
  }

  lemma DecisionKeepsInv<T>(g: Config, s: State<T>, s': State<T>)
    requires Inv(g, s) && Apply(g, s, PDecide) == Some(s')
    ensures Inv(g, s')
  {
    hide Counter, GoodSize, SizeFrom, SpacerSize, SlotOf, Slot, Advance, SlotsOk, ConsumerOk;
    if !s'.p.PSpacer? {
      FullVerdict(g, s, s');
    }
    SameSlots(g, s, s');
    SameConsumer(g, s, s');
  }

  lemma SameConsumer<T>(g: Config, s: State<T>, s': State<T>)
    requires g.n >= 1 && ConsumerOk(g, s)
    requires s'.c == s.c && s'.from == s.from && s'.head == s.head && s'.tail == s.tail
    ensures ConsumerOk(g, s')
  {
    hide Counter, Slot, Slots;
  }

  lemma SameProducer<T>(g: Config, s: State<T>, s': State<T>)
    requires g.n >= 1 && ProducerOk(g, s)
    requires s'.p == s.p && s'.to == s.to && s'.head == s.head && s'.tail == s.tail
    ensures ProducerOk(g, s')
  {
    hide Counter, Slot, Slots;
  }

  /** The slot written next is free: it is the one behind all live elements. */
  lemma WriteKeepsInv<T>(g: Config, s: State<T>, s': State<T>)
    requires Inv(g, s) && Apply(g, s, PWriteSlot) == Some(s')
    ensures Inv(g, s')
  {
    hide Counter, GoodSize, Slot, SlotsOk, ConsumerOk;
    WritesFree(g, s);
    FilledLast(g, s, s');
    SameConsumer(g, s, s');
  }

  /** Filling the slot behind all live ones adds exactly that element. */
  lemma FilledLast<T>(g: Config, s: State<T>, s': State<T>)
    requires Inv(g, s) && WriteSlot(g, s).Some? && FirstLive(s') == FirstLive(s)
    requires |s'.produced| == |s.produced| + 1 && s'.produced[..|s.produced|] == s.produced
    requires Slot(|s.produced|, Slots(g.s, g.n)) < |s.slots|
    requires s'.slots == s.slots[Slot(|s.produced|, Slots(g.s, g.n)) := Some(s'.produced[|s.produced|])]
    ensures SlotsOk(g, s')
  {
    hide Counter, GoodSize, Slot, Slots, WriteSlot;
    WritesFree(g, s);
    var m, last := Slots(g.s, g.n), |s.produced|;
    assert forall j :: 0 <= j < last ==> s'.produced[j] == s.produced[j];
    forall q | 0 <= q < m && s'.slots[q].Some?
      ensures exists j :: FirstLive(s') <= j < |s'.produced| && Slot(j, m) == q
    {
      if q == Slot(last, m) {
        assert FirstLive(s') <= last < |s'.produced|;
      } else {
        var j :| FirstLive(s) <= j < |s.produced| && Slot(j, m) == q;
      }
    }
  }

  /** The slot the producer is about to write. */
  function WriteSlot<T>(g: Config, s: State<T>): Option<nat>
    requires g.n >= 1
  {
    match s.p
    case PWrite(_, slot) => Some(slot)
    case PFill(xs, first, done) => if done < |xs| then Some(Around(first, done, Slots(g.s, g.n))) else None
    case _ => None
  }

  lemma WritesFree<T>(g: Config, s: State<T>)
    requires Inv(g, s) && WriteSlot(g, s).Some?
    ensures var m := Slots(g.s, g.n);
            && WriteSlot(g, s) == Some(Slot(|s.produced|, m))
            && |s.slots| == m && s.slots[Slot(|s.produced|, m)] == None
            && forall j :: FirstLive(s) <= j < |s.produced| ==> Slot(j, m) != Slot(|s.produced|, m)
  {
    hide Counter, GoodSize, Slot;
    var m := Slots(g.s, g.n);
    if s.p.PFill? {
      SlotAround(s.tail, s.p.done, m);
    }
    forall j | FirstLive(s) <= j < |s.produced|
      ensures Slot(j, m) != Slot(|s.produced|, m)
    {
      SlotsDiffer(j, |s.produced|, m);
    }
  }

  lemma StoreToKeepsInv<T>(g: Config, s: State<T>, s': State<T>)
    requires Inv(g, s) && Apply(g, s, PStoreTo) == Some(s')
    ensures Inv(g, s')
  {
    hide Counter, GoodSize, Slot, Advance;
    AdvanceCounter(g.s, g.n, s.tail, s.p.k);
    assert SlotsOk(g, s');
  }

  lemma ConsumerKeepsInv<T>(g: Config, s: State<T>, step: Step<T>, s': State<T>)
    requires Inv(g, s) && Apply(g, s, step) == Some(s')
    requires step.Take? || step.TakeRange? || step.CLoadFrom? || step.CLoadTo? || step.CDecide?
    ensures Inv(g, s')
  {
    hide Counter, GoodSize, SlotOf, Slot, Advance, SizeFrom, SpacerSize, IndexRange, Slots, SlotsOk, ProducerOk;
    if step.CDecide? {
      EmptyVerdict(g, s, s');
    }
    if step.CLoadFrom? {
      SlotOfCounter(g.s, g.n, s.head);
    }
    SameSlots(g, s, s');
    SameProducer(g, s, s');
  }

  /** The slot the consumer is about to read or destroy. */
  function TouchSlot<T>(g: Config, s: State<T>): Option<nat>
    requires g.n >= 1
  {
    match s.c
    case CRead(slot) => Some(slot)
    case CDelete(slot) => Some(slot)
    case CMove(first, k, done) => if done < k then Some(Around(first, done, Slots(g.s, g.n))) else None
    case _ => None
  }

  /** It holds the first live element. */
  lemma TouchesLive<T>(g: Config, s: State<T>)
    requires Inv(g, s) && TouchSlot(g, s).Some?
    ensures var m := Slots(g.s, g.n); var first := FirstLive(s);
            && first < |s.produced| && TouchSlot(g, s) == Some(Slot(first, m)) && |s.slots| == m
            && s.slots[Slot(first, m)] == Some(s.produced[first])
            && forall j :: first < j < |s.produced| ==> Slot(j, m) != Slot(first, m)
  {
    hide Counter, GoodSize, Slot;
    var m, first := Slots(g.s, g.n), FirstLive(s);
    if s.c.CMove? {
      SlotAround(s.head, s.c.done, m);
    }
    forall j | first < j < |s.produced|
      ensures Slot(j, m) != Slot(first, m)
    {
      SlotsDiffer(first, j, m);
    }
  }

  lemma ReadKeepsInv<T>(g: Config, s: State<T>, s': State<T>)
    requires Inv(g, s) && Apply(g, s, CReadSlot) == Some(s') && s.c.CRead?
    ensures Inv(g, s')
  {
    hide Counter, GoodSize, SlotOf, Slot, Advance, SizeFrom, SpacerSize, IndexRange, Slots;
    TouchesLive(g, s);
    assert s.produced[..s.head + 1] == s.produced[..s.head] + [s.produced[s.head]];
    assert SlotsOk(g, s');
  }

  lemma MoveKeepsInv<T>(g: Config, s: State<T>, s': State<T>)
    requires Inv(g, s) && Apply(g, s, CReadSlot) == Some(s') && !s.c.CRead?
    ensures Inv(g, s')
  {
    hide Counter, GoodSize, SlotOf, Slot, Advance, SizeFrom, SpacerSize, IndexRange, Slots;
    TouchesLive(g, s);
    var first := FirstLive(s);
    assert s.produced[..first + 1] == s.produced[..first] + [s.produced[first]];
    FreedFirst(g, s, s');
  }

  /** Freeing the first live slot leaves exactly the others. */
  lemma FreedFirst<T>(g: Config, s: State<T>, s': State<T>)
    requires Inv(g, s) && TouchSlot(g, s).Some? && s'.produced == s.produced && FirstLive(s') == FirstLive(s) + 1
    requires Slot(FirstLive(s), Slots(g.s, g.n)) < |s.slots|
    requires s'.slots == s.slots[Slot(FirstLive(s), Slots(g.s, g.n)) := None]
    ensures SlotsOk(g, s')
  {
    hide Counter, GoodSize, Slot, Slots;
    TouchesLive(g, s);
    var m, first := Slots(g.s, g.n), FirstLive(s);
    forall q | 0 <= q < m && s'.slots[q].Some?
      ensures exists j :: first + 1 <= j < |s'.produced| && Slot(j, m) == q
    {
      var j :| first <= j < |s.produced| && Slot(j, m) == q;
      assert j != first;
    }
  }

  lemma DeleteKeepsInv<T>(g: Config, s: State<T>, s': State<T>)
    requires Inv(g, s) && Apply(g, s, CDeleteSlot) == Some(s')
    ensures Inv(g, s')
  {
    hide Counter, GoodSize, Slot, Slots;
    TouchesLive(g, s);
    FreedFirst(g, s, s');
  }

  lemma StoreFromKeepsInv<T>(g: Config, s: State<T>, s': State<T>)
    requires Inv(g, s) && Apply(g, s, CStoreFrom) == Some(s')
    ensures Inv(g, s')
  {
    hide Counter, GoodSize, Slot, Advance;
    AdvanceCounter(g.s, g.n, s.head, s.c.k);
    assert SlotsOk(g, s');
  }

  lemma StepKeepsInv<T>(g: Config, s: State<T>, step: Step<T>, s': State<T>)
    requires Inv(g, s) && Apply(g, s, step) == Some(s')
    ensures Inv(g, s')
  {
    hide Inv, Apply;
    match step
    case PWriteSlot => WriteKeepsInv(g, s, s');
    case PStoreTo => StoreToKeepsInv(g, s, s');
    case CDeleteSlot => DeleteKeepsInv(g, s, s');
    case CStoreFrom => StoreFromKeepsInv(g, s, s');
    case Push(_) => ProducerKeepsInv(g, s, step, s');
    case PLoadTo => ProducerKeepsInv(g, s, step, s');
    case PLoadFrom => ProducerKeepsInv(g, s, step, s');
    case PDecide => DecisionKeepsInv(g, s, s');
    case PushRange(_) => ProducerKeepsInv(g, s, step, s');
    case CReadSlot => if s.c.CRead? { ReadKeepsInv(g, s, s'); } else { MoveKeepsInv(g, s, s'); }
    case _ => ConsumerKeepsInv(g, s, step, s');
  }

  lemma {:induction false} RunKeepsInv<T>(g: Config, s: State<T>, steps: seq<Step<T>>, s': State<T>)
    requires g.n >= 1 && Inv(g, s) && Run(g, s, steps) == Some(s')
    ensures Inv(g, s')
    decreases |steps|
  {
    hide Inv, Apply;
    if steps != [] {
      var s1 := Apply(g, s, steps[0]).value;
      StepKeepsInv(g, s, steps[0], s1);
      RunKeepsInv(g, s1, steps[1..], s');
    }
  }

  // ------------------------------------------------------------------ what was sent

  /** The elements the callers sent, in order: the ranges, and the arguments of those pushes that were not
      told the buffer is full.  asked is the argument of the push that waits for that answer. */
  function Sent<T>(g: Config, s: State<T>, asked: seq<T>, steps: seq<Step<T>>): seq<T>
    requires g.n >= 1
    decreases |steps|
  {
    if |steps| == 0 || Apply(g, s, steps[0]).None? then []
    else
      var s' := Apply(g, s, steps[0]).value;
      SentNow(asked, steps[0], s') + Sent(g, s', AskedNext(asked, steps[0]), steps[1..])
  }

  function SentNow<T>(asked: seq<T>, step: Step<T>, s': State<T>): seq<T> {
    match step
    case PushRange(xs) => xs
    case PDecide => if s'.p.PSlot? then asked else []
    case _ => []
  }

  function AskedNext<T>(asked: seq<T>, step: Step<T>): seq<T> {
    if step.Push? then [step.x] else asked
  }

  /** The elements sent that are not written yet. */
  function Unwritten<T>(p: Producer<T>): seq<T> {
    match p
    case PSlot(x) => [x]
    case PWrite(x, _) => [x]
    case PRange(xs) => xs
    case PFill(xs, _, done) => if done <= |xs| then xs[done..] else []
    case _ => []
  }

  ghost predicate AskedOk<T>(p: Producer<T>, asked: seq<T>) {
    (p.PSize? || p.PSpacer?) ==> asked == [p.x]
  }

  lemma SentStep<T>(g: Config, s: State<T>, step: Step<T>, s': State<T>, asked: seq<T>)
    requires Inv(g, s) && Apply(g, s, step) == Some(s') && AskedOk(s.p, asked)
    ensures AskedOk(s'.p, AskedNext(asked, step))
    ensures s'.produced + Unwritten(s'.p) == s.produced + Unwritten(s.p) + SentNow(asked, step, s')
  {
    hide Counter, GoodSize, SizeFrom, SpacerSize, SlotOf, Slot, Advance, SlotsOk, ConsumerOk, Around, WriteSlot;
    if step.PWriteSlot? {
      WrittenNext(g, s, s');
    }
  }

  lemma WrittenNext<T>(g: Config, s: State<T>, s': State<T>)
    requires Inv(g, s) && Apply(g, s, PWriteSlot) == Some(s')
    ensures s'.produced + Unwritten(s'.p) == s.produced + Unwritten(s.p) && !s'.p.PSize? && !s'.p.PSpacer?
  {
    hide Counter, GoodSize, Slot, SlotsOk, ConsumerOk, Slots;
    WritesFree(g, s);
    if s.p.PFill? {
      var xs, done := s.p.xs, s.p.done;
      assert xs[done..] == [xs[done]] + xs[done + 1..];
    }
  }

  lemma {:induction false} SentRun<T>(g: Config, s: State<T>, asked: seq<T>, steps: seq<Step<T>>, s': State<T>)
    requires g.n >= 1 && Inv(g, s) && Run(g, s, steps) == Some(s') && AskedOk(s.p, asked)
    ensures s'.produced + Unwritten(s'.p) == s.produced + Unwritten(s.p) + Sent(g, s, asked, steps)
    decreases |steps|
  {
    hide Inv, Apply, Unwritten, SentNow, AskedOk;
    if steps != [] {
      var s1 := Apply(g, s, steps[0]).value;
      StepKeepsInv(g, s, steps[0], s1);
      SentStep(g, s, steps[0], s1, asked);
      SentRun(g, s1, AskedNext(asked, steps[0]), steps[1..], s');
    }
  }

  /** Under every interleaving: what is in the ring or has gone through it is what the callers sent, in
      their order; all of it when the producer is at rest; and what was taken is the front of it. */
  lemma SentInEveryRun<T>(g: Config, steps: seq<Step<T>>, s: State<T>)
    requires g.n >= 1 && GoodSize(g.s, g.n) && Run(g, Init(g), steps) == Some(s)
    ensures var sent := Sent(g, Init(g), [], steps);
            && s.produced <= sent && s.consumed <= sent
            && (s.p.PIdle? ==> s.produced == sent)
  {
    InitInv<T>(g);
    SafeInEveryRun(g, steps, s);
    hide Inv, Apply, GoodSize, Sent;
    SentRun(g, Init<T>(g), [], steps, s);
    var sent := Sent(g, Init<T>(g), [], steps);
    assert [] + [] + sent == sent;
    assert s.produced + [] == s.produced;
  }

  // ------------------------------------------------------------------ what was asked for

  /** How many elements the consumer has set out to take: the lengths of its ranges, and one for each time
      it was told that the buffer is not empty. */
  function Claimed<T>(g: Config, s: State<T>, steps: seq<Step<T>>): nat
    requires g.n >= 1
    decreases |steps|
  {
    if |steps| == 0 || Apply(g, s, steps[0]).None? then 0
    else
      var s' := Apply(g, s, steps[0]).value;
      ClaimedNow(steps[0], s') + Claimed(g, s', steps[1..])
  }

  function ClaimedNow<T>(step: Step<T>, s': State<T>): nat {
    match step
    case TakeRange(k) => k
    case CDecide => if s'.c.CFront? then 1 else 0
    case _ => 0
  }

  /** How many of them it has not read yet. */
  function Unread<T>(c: Consumer<T>): nat {
    match c
    case CFront => 1
    case CRead(_) => 1
    case CRange(k) => k
    case CMove(_, k, done) => if done <= k then k - done else 0
    case _ => 0
  }

  lemma ClaimStep<T>(g: Config, s: State<T>, step: Step<T>, s': State<T>)
    requires Inv(g, s) && Apply(g, s, step) == Some(s')
    ensures |s'.consumed| + Unread(s'.c) == |s.consumed| + Unread(s.c) + ClaimedNow(step, s')
  {
    hide Counter, GoodSize, SizeFrom, SpacerSize, SlotOf, Slot, Advance, SlotsOk, ProducerOk, Around, TouchSlot;
    if step.CReadSlot? {
      ReadNext(g, s, s');
    }
  }

  lemma ReadNext<T>(g: Config, s: State<T>, s': State<T>)
    requires Inv(g, s) && Apply(g, s, CReadSlot) == Some(s')
    ensures |s'.consumed| + Unread(s'.c) == |s.consumed| + Unread(s.c)
  {
    hide Counter, GoodSize, Slot, SlotsOk, ProducerOk, Slots;
    TouchesLive(g, s);
  }

  lemma {:induction false} ClaimRun<T>(g: Config, s: State<T>, steps: seq<Step<T>>, s': State<T>)
    requires g.n >= 1 && Inv(g, s) && Run(g, s, steps) == Some(s')
    ensures |s'.consumed| + Unread(s'.c) == |s.consumed| + Unread(s.c) + Claimed(g, s, steps)
    decreases |steps|
  {
    hide Inv, Apply, Unread, ClaimedNow;
    if steps != [] {
      var s1 := Apply(g, s, steps[0]).value;
      StepKeepsInv(g, s, steps[0], s1);
      ClaimStep(g, s, steps[0], s1);
      ClaimRun(g, s1, steps[1..], s');
    }
  }

  /** When the consumer is at rest it has got as many elements as it set out to take. */
  lemma ClaimedInEveryRun<T>(g: Config, steps: seq<Step<T>>, s: State<T>)
    requires g.n >= 1 && GoodSize(g.s, g.n) && Run(g, Init(g), steps) == Some(s)
    ensures |s.consumed| <= Claimed(g, Init(g), steps)
    ensures s.c.CIdle? ==> |s.consumed| == Claimed(g, Init(g), steps)
  {
    InitInv<T>(g);
    hide Inv, Apply, GoodSize, Claimed;
    ClaimRun(g, Init<T>(g), steps, s);
  }

  // ------------------------------------------------------------------ progress

  predicate ProducerStep<T>(step: Step<T>) {
    step.PLoadTo? || step.PLoadFrom? || step.PDecide? || step.PWriteSlot? || step.PStoreTo?
  }

  predicate ConsumerStep<T>(step: Step<T>) {
    step.CLoadFrom? || step.CLoadTo? || step.CDecide? || step.CReadSlot? || step.CDeleteSlot? || step.CStoreFrom?
  }

  function Missing<T>(o: Option<T>): nat {
    if o.None? then 1 else 0
  }

  /** A bound on the steps an operation of the producer still takes. */
  function PEffort<T>(p: Producer<T>): nat {
    match p
    case PIdle => 0
    case PSize(_, t, f) => 8 + Missing(t) + Missing(f)
    case PSpacer(_, _, _, t, f) => 5 + Missing(t) + Missing(f)
    case PSlot(_) => 4
    case PWrite(_, _) => 3
    case PIncr => 2
    case PRange(xs) => |xs| + 3
    case PFill(xs, _, done) => if done <= |xs| then |xs| - done + 2 else 2
    case PStore(_, _) => 1
  }

  function CEffort<T>(c: Consumer<T>): nat {
    match c
    case CIdle => 0
    case CEmpty(f, t) => 7 + Missing(f) + Missing(t)
    case CFront => 6
    case CRead(_) => 5
    case CPop => 4
    case CDelete(_) => 3
    case CIncr => 2
    case CRange(k) => k + 3
    case CMove(_, k, done) => if done <= k then k - done + 2 else 2
    case CStore(_, _) => 1
  }

  /** Neither side ever waits for the other: an operation begun can always take a step, each step brings it
      nearer to its end, and the other side's steps leave it where it is. */
  lemma ProducerGoesOn<T>(g: Config, s: State<T>) returns (step: Step<T>)
    requires Inv(g, s) && !s.p.PIdle?
    ensures ProducerStep(step) && Apply(g, s, step).Some?
  {
    hide Counter, GoodSize, SizeFrom, SpacerSize, SlotOf, Slot, Advance, SlotsOk, ConsumerOk, Around;
    step := match s.p
      case PSize(_, t, f) => if t == None then PLoadTo else if f == None then PLoadFrom else PDecide
      case PSpacer(_, _, _, t, f) => if t == None then PLoadTo else if f == None then PLoadFrom else PDecide
      case PWrite(_, _) => PWriteSlot
      case PFill(xs, _, done) => if done < |xs| then PWriteSlot else PLoadTo
      case PStore(_, _) => PStoreTo
      case _ => PLoadTo;
  }

  lemma ConsumerGoesOn<T>(g: Config, s: State<T>) returns (step: Step<T>)
    requires Inv(g, s) && !s.c.CIdle?
    ensures ConsumerStep(step) && Apply(g, s, step).Some?
  {
    hide Counter, GoodSize, SizeFrom, SpacerSize, SlotOf, Slot, Advance, SlotsOk, ProducerOk, Around;
    step := match s.c
      case CEmpty(f, t) => if f == None then CLoadFrom else if t == None then CLoadTo else CDecide
      case CRead(_) => CReadSlot
      case CDelete(_) => CDeleteSlot
      case CMove(_, k, done) => if done < k then CReadSlot else CLoadFrom
      case CStore(_, _) => CStoreFrom
      case _ => CLoadFrom;
  }

  lemma StepsBringNearer<T>(g: Config, s: State<T>, step: Step<T>, s': State<T>)
    requires Inv(g, s) && Apply(g, s, step) == Some(s')
    ensures ProducerStep(step) ==> PEffort(s'.p) < PEffort(s.p) && s'.c == s.c
    ensures ConsumerStep(step) ==> CEffort(s'.c) < CEffort(s.c) && s'.p == s.p
  {
    hide Inv, Apply, PEffort, CEffort;
    if ProducerStep(step) {
      ProducerNearer(g, s, step, s');
    }
    if ConsumerStep(step) {
      ConsumerNearer(g, s, step, s');
    }
  }

  lemma ProducerNearer<T>(g: Config, s: State<T>, step: Step<T>, s': State<T>)
    requires Inv(g, s) && Apply(g, s, step) == Some(s') && ProducerStep(step)
    ensures PEffort(s'.p) < PEffort(s.p) && s'.c == s.c
  {
    hide Counter, GoodSize, SizeFrom, SpacerSize, SlotOf, Slot, Advance, SlotsOk, Around, ConsumerOk, Counts, SeenHead;
  }

  lemma ConsumerNearer<T>(g: Config, s: State<T>, step: Step<T>, s': State<T>)
    requires Inv(g, s) && Apply(g, s, step) == Some(s') && ConsumerStep(step)
    ensures CEffort(s'.c) < CEffort(s.c) && s'.p == s.p
  {
    hide Counter, GoodSize, SizeFrom, SpacerSize, SlotOf, Slot, Advance, SlotsOk, Around, ProducerOk, Counts, SeenTail;
  }

  /** Under every interleaving of single elements and ranges: elements come out in the order they went in,
      none lost or duplicated; no live slot is overwritten and no empty one read; both sides never meet in
      one slot; at most n elements are held. */
  lemma SafeInEveryRun<T>(g: Config, steps: seq<Step<T>>, s: State<T>)
    requires g.n >= 1 && GoodSize(g.s, g.n) && Run(g, Init(g), steps) == Some(s)
    ensures s.consumed <= s.produced && |s.produced| - |s.consumed| <= g.n
    ensures !s.fault
    ensures var w := WriteSlot(g, s);
            w.Some? ==> w.value < |s.slots| && s.slots[w.value] == None && w != TouchSlot(g, s)
    ensures var t := TouchSlot(g, s); t.Some? ==> t.value < |s.slots| && s.slots[t.value].Some?
  {
    InitInv<T>(g);
    RunKeepsInv(g, Init(g), steps, s);
    hide Counter, GoodSize, Slot, Run, Init, WriteSlot, TouchSlot, Slots;
    if WriteSlot(g, s).Some? {
      WritesFree(g, s);
    }
    if TouchSlot(g, s).Some? {
      TouchesLive(g, s);
    }
  }
}

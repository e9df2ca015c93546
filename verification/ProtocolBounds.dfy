/** Sizes and buffers: how long encodings are, how much a decoder consumes, and what it ignores. */
module ProtocolBounds {
  import opened Bytes
  import opened ProtocolDefs
  import opened ProtocolSpec
  import opened ProtocolLeaves
  import opened ProtocolLaws

  // ------------------------------------------------------------------ length of encodings

  ghost predicate Within(d: Def, n: nat) {
    MinSize(d) <= n <= MaxSize(d)
  }

  lemma Distribute(x: nat, n: nat)
    ensures x * (n + 1) == x * n + x
  {
  }

  lemma {:induction false} ManySize(d: Def, e: Endian, vs: seq<Val>)
    requires Good(d) && AllTyped(d, vs)
    requires forall i :: 0 <= i < |vs| ==> Within(d, |Ser(d, e, vs[i])|)
    ensures MinSize(d) * |vs| <= |SerMany(d, e, vs)| <= MaxSize(d) * |vs|
  {
    hide Ser, Good, Typed, MinSize, MaxSize;
    if vs != [] {
      var lo, hi, n := MinSize(d), MaxSize(d), |vs| - 1;
      ManySize(d, e, vs[1..]);
      assert Within(d, |Ser(d, e, vs[0])|);
      Distribute(lo, n);
      Distribute(hi, n);
    }
  }

  lemma {:induction false} ItemsSize(ds: seq<Def>, e: Endian, vs: seq<Val>)
    requires AllGood(ds) && TypedItems(ds, vs)
    requires forall i :: 0 <= i < |ds| ==> Within(ds[i], |Ser(ds[i], e, vs[i])|)
    ensures SumMin(ds) <= |SerItems(ds, e, vs)| <= SumMax(ds)
  {
    hide Ser, Good, Typed, MinSize, MaxSize;
    if ds != [] {
      assert Within(ds[0], |Ser(ds[0], e, vs[0])|);
      assert forall i :: 0 <= i < |ds[1..]| ==> ds[1..][i] == ds[i + 1] && vs[1..][i] == vs[i + 1];
      ItemsSize(ds[1..], e, vs[1..]);
    }
  }

  lemma {:induction false} AltSize(ds: seq<Def>, i: nat, n: nat)
    requires i < |ds| && Within(ds[i], n)
    ensures SmallestMin(ds) <= n <= LargestMax(ds)
  {
    hide MinSize, MaxSize;
    if i > 0 {
      AltSize(ds[1..], i - 1, n);
    }
  }

  /** The compile-time bounds hold for the encoding of every value. */
  lemma {:induction false} SizeBounds(d: Def, e: Endian, v: Val)
    requires Good(d) && Typed(d, v)
    ensures Within(d, |Ser(d, e, v)|)
    decreases d, 1
  {
    hide Ser, MinSize, MaxSize, Good, Typed;
    if IsLeaf(d) {
      LeafSize(d, e, v);
    } else if d.Array? || d.StaticVector? || d.Tuple? {
      ListBounds(d, e, v);
    } else if d.Variant? || d.Group? || d.TagGroup? {
      ChoiceParts(d, e, v);
      SizeBounds(d.alts[v.index], e, v.alt);
      ChoiceSize(d, d.alts, e, v);
    } else {
      WrapperParts(d, e, v);
      if d.Optional? && v.VSome? { SizeBounds(d.some, e, v.some); }
      if d.SizedBuffer? { SizeBounds(d.payload, e, v); }
      if d.WithEndian? { SizeBounds(d.inner, d.order, v); }
      WrapperSize(d, e, v);
    }
  }

  lemma {:induction false} ListBounds(d: Def, e: Endian, v: Val)
    requires (d.Array? || d.StaticVector? || d.Tuple?) && Good(d) && Typed(d, v)
    ensures Within(d, |Ser(d, e, v)|)
    decreases d, 0
  {
    hide Ser, MinSize, MaxSize, Good, Typed;
    if d.Tuple? {
      TupleParts(d.items, e, v);
      forall i | 0 <= i < |d.items|
        ensures Within(d.items[i], |Ser(d.items[i], e, v.items[i])|)
      {
        SizeBounds(d.items[i], e, v.items[i]);
      }
      TupleSize(d.items, e, v);
    } else {
      ListParts(d, e, v);
      forall i | 0 <= i < |v.items|
        ensures Within(d.elem, |Ser(d.elem, e, v.items[i])|)
      {
        SizeBounds(d.elem, e, v.items[i]);
      }
      ListSize(d, d.elem, e, v);
    }
  }

  lemma LeafSize(d: Def, e: Endian, v: Val)
    requires IsLeaf(d) && Good(d) && Typed(d, v)
    ensures Within(d, |Ser(d, e, v)|)
  {
  }

  lemma ListSize(d: Def, elem: Def, e: Endian, v: Val)
    requires (d.Array? || d.StaticVector?) && d.elem == elem && Good(d) && Typed(d, v)
    requires forall i :: 0 <= i < |v.items| ==> Within(elem, |Ser(elem, e, v.items[i])|)
    ensures Within(d, |Ser(d, e, v)|)
  {
    ManySize(elem, e, v.items);
    if d.StaticVector? {
      MulBoundBy(MaxSize(elem), |v.items|, d.cap);
    }
  }

  lemma TupleSize(items: seq<Def>, e: Endian, v: Val)
    requires Good(Tuple(items)) && Typed(Tuple(items), v)
    requires forall i :: 0 <= i < |items| ==> Within(items[i], |Ser(items[i], e, v.items[i])|)
    ensures Within(Tuple(items), |Ser(Tuple(items), e, v)|)
  {
    ItemsSize(items, e, v.items);
  }

  lemma ChoiceSize(d: Def, alts: seq<Def>, e: Endian, v: Val)
    requires (d.Variant? || d.Group? || d.TagGroup?) && d.alts == alts && Good(d) && Typed(d, v)
    requires Within(alts[v.index], |Ser(alts[v.index], e, v.alt)|)
    ensures Within(d, |Ser(d, e, v)|)
  {
    AltSize(alts, v.index, |Ser(alts[v.index], e, v.alt)|);
  }

  lemma WrapperSize(d: Def, e: Endian, v: Val)
    requires (d.Optional? || d.SizedBuffer? || d.WithEndian?) && Good(d) && Typed(d, v)
    requires d.Optional? && v.VSome? ==> Within(d.some, |Ser(d.some, e, v.some)|)
    requires d.SizedBuffer? ==> Within(d.payload, |Ser(d.payload, e, v)|)
    requires d.WithEndian? ==> Within(d.inner, |Ser(d.inner, d.order, v)|)
    ensures Within(d, |Ser(d, e, v)|)
  {
    hide Ser, Good, Typed, SerCounter;
    WrapperParts(d, e, v);
    if d.SizedBuffer? {
      CounterSize(d.counter);
    }
  }

  lemma CounterSize(counter: Def)
    requires IsCounter(counter)
    ensures MinSize(counter) == MaxSize(counter) == CounterWidth(counter)
  {
  }

  lemma MulBoundBy(x: nat, a: nat, b: nat)
    requires a <= b
    ensures x * a <= x * b
  {
  }

  // ------------------------------------------------------------------ consumed bytes

  ghost predicate Inside<T>(r: Res<T>, n: nat) {
    !r.OutOfBounds? ==> r.used <= n
  }

  ghost predicate AlwaysInside(d: Def, e: Endian)
    requires Good(d)
  {
    forall c: seq<byte> :: Inside(Deser(d, e, c), |c|)
  }

  lemma InsideMeans(d: Def, e: Endian, c: seq<byte>)
    requires Good(d) && AlwaysInside(d, e)
    ensures Inside(Deser(d, e, c), |c|)
  {
    hide Deser, Good;
  }

  lemma {:induction false} ManyInside(d: Def, e: Endian, n: nat, b: seq<byte>, offset: nat)
    requires Good(d) && offset <= |b| && AlwaysInside(d, e)
    ensures Inside(DeserMany(d, e, n, b, offset), |b|)
    decreases n
  {
    hide Deser, Good, AlwaysInside, DeserMany;
    ManyStep(d, e, n, b, offset);
    if n > 0 {
      var r := Deser(d, e, b[offset..]);
      InsideMeans(d, e, b[offset..]);
      if r.Fine? {
        ManyInside(d, e, n - 1, b, offset + r.used);
      }
    }
  }

  lemma {:induction false} ItemsInside(ds: seq<Def>, e: Endian, b: seq<byte>, offset: nat)
    requires AllGood(ds) && offset <= |b|
    requires forall i :: 0 <= i < |ds| ==> AlwaysInside(ds[i], e)
    ensures Inside(DeserItems(ds, e, b, offset), |b|)
  {
    hide Deser, Good, AlwaysInside, DeserItems;
    ItemsStep(ds, e, b, offset);
    if ds != [] {
      var r := Deser(ds[0], e, b[offset..]);
      InsideMeans(ds[0], e, b[offset..]);
      if r.Fine? {
        ItemsInside(ds[1..], e, b, offset + r.used);
      }
    }
  }

  lemma {:induction false} AltsInside(ds: seq<Def>, e: Endian, b: seq<byte>, k: nat)
    requires AllGood(ds)
    requires forall i :: 0 <= i < |ds| ==> AlwaysInside(ds[i], e)
    ensures Inside(DeserAlts(ds, e, b, k), |b|)
  {
    hide Deser, Good, AlwaysInside;
    if ds != [] {
      InsideMeans(ds[0], e, b);
      AltsInside(ds[1..], e, b, k + 1);
    }
  }

  /** On every input, in success and in failure, a decoder that does not read outside its buffer claims
      no more bytes than there are; NeverOutside and the lemmas beside it say which ones do. */
  lemma {:induction false} UsedInside(d: Def, e: Endian, b: seq<byte>)
    requires Good(d)
    ensures Inside(Deser(d, e, b), |b|)
    decreases d, 1
  {
    hide Deser, Good;
    if IsLeaf(d) {
      LeafInside(d, e, b);
    } else if d.Array? || d.StaticVector? || d.Tuple? {
      ListInside(d, e, b);
    } else if d.Variant? || d.Group? || d.TagGroup? {
      ChoiceInside(d, e, b);
    } else {
      WrapperInside(d, e, b);
    }
  }

  lemma {:induction false} ListInside(d: Def, e: Endian, b: seq<byte>)
    requires (d.Array? || d.StaticVector? || d.Tuple?) && Good(d)
    ensures Inside(Deser(d, e, b), |b|)
    decreases d, 0
  {
    hide Deser, Good, AlwaysInside, DeserMany, DeserItems, DeserInt;
    match d
    case Array(elem, n) =>
      ArrayCase(elem, n, e, b);
      StaysInside(elem, e);
      ManyInside(elem, e, n, b, 0);
    case Tuple(items) =>
      TupleCase(items, e, b);
      forall i | 0 <= i < |items|
        ensures AlwaysInside(items[i], e)
      {
        StaysInside(items[i], e);
      }
      ItemsInside(items, e, b, 0);
    case StaticVector(elem, cap) =>
      VectorCase(elem, cap, e, b);
      StaysInside(elem, e);
      if 2 <= |b| {
        ManyInside(elem, e, Clamped(DeserInt(2, false, e, b).value, cap), b[2..], 0);
      }
  }

  lemma {:induction false} ChoiceInside(d: Def, e: Endian, b: seq<byte>)
    requires (d.Variant? || d.Group? || d.TagGroup?) && Good(d)
    ensures Inside(Deser(d, e, b), |b|)
    decreases d, 0
  {
    hide Deser, Good, AlwaysInside, DeserAlts, TagIndex, Default;
    match d
    case Variant(alts) =>
      VariantCase(alts, e, b);
      if b != [] && b[0] < |alts| {
        UsedInside(alts[b[0]], e, b[1..]);
      }
    case Group(alts) =>
      GroupCase(alts, e, b);
      forall i | 0 <= i < |alts|
        ensures AlwaysInside(alts[i], e)
      {
        StaysInside(alts[i], e);
      }
      AltsInside(alts, e, b, 0);
    case TagGroup(w, s, ids, alts) =>
      TagGroupCase(w, s, ids, alts, e, b);
      var i := TagIndex(w, s, e, ids, b);
      if i.Some? {
        UsedInside(alts[i.value], e, b[w..]);
      }
  }

  lemma {:induction false} WrapperInside(d: Def, e: Endian, b: seq<byte>)
    requires (d.Optional? || d.SizedBuffer? || d.WithEndian?) && Good(d)
    ensures Inside(Deser(d, e, b), |b|)
    decreases d, 0
  {
    hide Deser, Good, DeserCounter;
    match d
    case Optional(some) =>
      OptionalCase(some, e, b);
      if b != [] {
        UsedInside(some, e, b[1..]);
      }
    case SizedBuffer(counter, payload) =>
      SizedCase(counter, payload, e, b);
      var r := DeserCounter(counter, e, b);
      if r.Fine? && Subspan(b, r.used, r.value).Some? {
        UsedInside(payload, e, Subspan(b, r.used, r.value).value);
      }
    case WithEndian(order, inner) =>
      EndianCase(order, inner, e, b);
      UsedInside(inner, order, b);
  }

  lemma {:induction false} StaysInside(d: Def, e: Endian)
    requires Good(d)
    ensures AlwaysInside(d, e)
    decreases d, 2
  {
    hide Deser, Good;
    forall c: seq<byte>
      ensures Inside(Deser(d, e, c), |c|)
    {
      UsedInside(d, e, c);
    }
  }

  lemma LeafInside(d: Def, e: Endian, b: seq<byte>)
    requires IsLeaf(d) && Good(d)
    ensures Inside(Deser(d, e, b), |b|)
  {
    hide Signed, FromLittle, Ordered, BitOrdered, DeserBits;
  }

  /** A sized buffer comes back consuming exactly its encoding if and only if the payload length fits
      the counter.  The encoding has a size, as every buffer has. */
  lemma SizedBufferExact(counter: Def, payload: Def, e: Endian, v: Val, rest: seq<byte>)
    requires Good(SizedBuffer(counter, payload)) && Typed(SizedBuffer(counter, payload), v)
    requires IsCounter(counter) && Good(payload) && Typed(payload, v)
    requires Trailing(payload) && CountersFit(payload, e, v)
    requires CounterWidth(counter) + |Ser(payload, e, v)| < SIZE_LIMIT
    ensures Back(SizedBuffer(counter, payload), e, v, rest) <==>
            |Ser(payload, e, v)| < Pow256(CounterWidth(counter))
  {
    hide Ser, Deser, SerCounter, DeserCounter, Good, Typed, Trailing, CountersFit, Pow256, SizeSum, Shift;
    var p := Ser(payload, e, v);
    var m := Pow256(CounterWidth(counter));
    RoundTrip(payload, e, v, []);
    if |p| < m {
      SizedRoundTrip(counter, payload, e, v, rest);
    } else {
      LongPayload(counter, payload, e, v, rest);
    }
  }

  lemma LongPayload(counter: Def, payload: Def, e: Endian, v: Val, rest: seq<byte>)
    requires Good(SizedBuffer(counter, payload)) && Typed(SizedBuffer(counter, payload), v)
    requires IsCounter(counter) && Good(payload) && Typed(payload, v)
    requires Pow256(CounterWidth(counter)) <= |Ser(payload, e, v)| < SIZE_LIMIT
    ensures !Back(SizedBuffer(counter, payload), e, v, rest)
  {
    hide Ser, Deser, SerCounter, DeserCounter, Good, Typed, Pow256, SizeSum;
    WrapperParts(SizedBuffer(counter, payload), e, v);
    var p := Ser(payload, e, v);
    var m := Pow256(CounterWidth(counter));
    var c := SerCounter(counter, e, |p|);
    var b := c + p + rest;
    CounterRoundTrip(counter, e, |p|, p + rest);
    assert b == c + (p + rest);
    var size := |p| % m;
    assert size < m <= |p|;
    SizedCase(counter, payload, e, b);
    var part := Subspan(b, |c|, size);
    if part.Some? {
      assert |part.value| == size;
      UsedInside(payload, e, part.value);
    }
  }

  // ------------------------------------------------------------------ reads outside the buffer

  /** The length check of a sized buffer, with its sum wrapped, lets the payload run past the end of the
      buffer if and only if counter width and counter value together pass the size limit and the value is
      not the greatest one; that one passes the check as well, and stands for the rest. */
  lemma SizedGuardExact(counter: Def, payload: Def, e: Endian, b: seq<byte>)
    requires Good(SizedBuffer(counter, payload)) && |b| < SIZE_LIMIT
    ensures IsCounter(counter) && Good(payload)
    ensures var c := DeserCounter(counter, e, b);
            c.Fine? ==>
              && c.used <= |b|
              && (|b| >= SizeSum(c.used, c.value) && Subspan(b, c.used, c.value) == None <==>
                    c.used + c.value >= SIZE_LIMIT && c.value != SIZE_LIMIT - 1)
              && (c.used + c.value >= SIZE_LIMIT ==>
                    Deser(SizedBuffer(counter, payload), e, b) ==
                    if c.value == SIZE_LIMIT - 1 then Shift(Deser(payload, e, b[c.used..]), c.used) else OutOfBounds)
  {
    hide Deser, DeserCounter, Shift;
    SizedCase(counter, payload, e, b);
    CounterBound(counter, e, b);
  }

  lemma CounterBound(counter: Def, e: Endian, b: seq<byte>)
    requires IsCounter(counter)
    ensures var c := DeserCounter(counter, e, b);
            c.Fine? ==> c.value < Pow256(counter.width) <= SIZE_LIMIT
                        && (counter.width < 8 ==> c.used + c.value < SIZE_LIMIT)
  {
    hide Signed, FromLittle, Ordered;
    WidthBound(counter.width);
  }

  lemma WidthBound(w: nat)
    requires GoodWidth(w)
    ensures Pow256(w) <= SIZE_LIMIT
    ensures w < 8 ==> Pow256(w) <= 0x1_0000_0000
  {
    assert Pow256(2) == 256 * Pow256(1);
    assert Pow256(4) == 256 * (256 * Pow256(2));
    assert Pow256(6) == 256 * (256 * Pow256(4));
    assert Pow256(8) == 256 * (256 * Pow256(6));
  }

  /** Where a sized buffer reads outside: its own check wrapped, or its payload did on the part it got. */
  lemma SizedOutside(counter: Def, payload: Def, e: Endian, b: seq<byte>)
    requires Good(SizedBuffer(counter, payload)) && |b| < SIZE_LIMIT
    ensures IsCounter(counter) && Good(payload)
    ensures Deser(SizedBuffer(counter, payload), e, b) == OutOfBounds <==>
            var c := DeserCounter(counter, e, b);
            && c.Fine?
            && if c.value == SIZE_LIMIT - 1 then c.used <= |b| && Deser(payload, e, b[c.used..]) == OutOfBounds
               else || c.used + c.value >= SIZE_LIMIT
                    || (c.used + c.value <= |b| && Deser(payload, e, b[c.used..c.used + c.value]) == OutOfBounds)
  {
    hide Deser, DeserCounter;
    SizedCase(counter, payload, e, b);
    SizedGuardExact(counter, payload, e, b);
  }

  /** Where an optional reads outside: at its own first byte, or inside its value. */
  lemma OptionalOutside(some: Def, e: Endian, b: seq<byte>)
    requires Good(Optional(some))
    ensures Good(some)
    ensures Deser(Optional(some), e, b) == OutOfBounds <==>
            b == [] || (b[0] == 1 && Deser(some, e, b[1..]) == OutOfBounds)
  {
    hide Deser, Good;
    OptionalCase(some, e, b);
  }

  /** An eight-byte counter that says two less than there are sizes passes the check of a buffer that holds
      nothing else, whatever the payload. */
  lemma WideCounterOverruns(counter: Def, payload: Def, e: Endian)
    requires Good(SizedBuffer(counter, payload)) && IsCounter(counter) && counter.width == 8
    ensures Deser(SizedBuffer(counter, payload), e, SerCounter(counter, e, SIZE_LIMIT - 2)) == OutOfBounds
  {
    hide Deser, SerCounter, DeserCounter;
    var b := SerCounter(counter, e, SIZE_LIMIT - 2);
    WideCounterReads(counter, e, SIZE_LIMIT - 2);
    SizedGuardExact(counter, payload, e, b);
  }

  lemma WideCounterReads(counter: Def, e: Endian, n: nat)
    requires IsCounter(counter) && counter.width == 8 && n < SIZE_LIMIT
    ensures DeserCounter(counter, e, SerCounter(counter, e, n)) == Fine(8, n)
  {
    hide SerCounter, DeserCounter;
    var b := SerCounter(counter, e, n);
    assert b + [] == b;
    CounterRoundTrip(counter, e, n, []);
    assert Pow256(8) == SIZE_LIMIT by { WidthIsLimit(); }
    ModUnique(n, SIZE_LIMIT, 0, n);
  }

  /** FE and seven FF, lowest byte first, is such a counter. */
  lemma WideCounterBytes()
    ensures SerCounter(Int(8, false), Little, SIZE_LIMIT - 2) == [254] + seq(7, _ => 255)
  {
    var b: seq<byte> := [254] + seq(7, _ => 255);
    AllOnes(7);
    assert b[1..] == seq<byte>(7, _ => 255);
    assert Pow256(8) == 256 * Pow256(7) == SIZE_LIMIT by { WidthIsLimit(); }
    assert FromLittle(b) == 254 + 256 * (Pow256(7) - 1) == SIZE_LIMIT - 2;
    ToFromLittle(b);
    ModUnique(SIZE_LIMIT - 2, SIZE_LIMIT, 0, SIZE_LIMIT - 2);
  }

  /** All ones: the payload is decoded from whatever is behind them, and from nothing if that is nothing. */
  lemma AllOnesTakesRest(payload: Def, e: Endian, rest: seq<byte>)
    requires Good(payload)
    ensures Good(SizedBuffer(Int(8, false), payload))
    ensures Deser(SizedBuffer(Int(8, false), payload), e, seq<byte>(8, _ => 255) + rest) ==
            Shift(Deser(payload, e, rest), 8)
  {
    hide Deser, DeserCounter, Shift;
    var ones := seq<byte>(8, _ => 255);
    var b := ones + rest;
    assert b[..8] == ones && b[8..] == rest;
    CounterOfOnes(e, b);
    SizedCase(Int(8, false), payload, e, b);
    assert SizeSum(8, SIZE_LIMIT - 1) == 7 by { ModUnique(SIZE_LIMIT + 7, SIZE_LIMIT, 1, 7); }
  }

  lemma CounterOfOnes(e: Endian, b: seq<byte>)
    requires 8 <= |b| && b[..8] == seq<byte>(8, _ => 255)
    ensures DeserCounter(Int(8, false), e, b) == Fine(8, SIZE_LIMIT - 1)
  {
    AllOnes(8);
    assert Ordered(e, b[..8]) == b[..8];
    assert Pow256(8) == SIZE_LIMIT by { WidthIsLimit(); }
    ModUnique(SIZE_LIMIT - 1, SIZE_LIMIT, 0, SIZE_LIMIT - 1);
  }

  lemma WidthIsLimit()
    ensures Pow256(8) == SIZE_LIMIT
  {
    assert Pow256(2) == 256 * Pow256(1);
    assert Pow256(4) == 256 * (256 * Pow256(2));
    assert Pow256(6) == 256 * (256 * Pow256(4));
  }

  lemma {:induction false} AllOnes(n: nat)
    ensures FromLittle(seq<byte>(n, _ => 255)) == Pow256(n) - 1
  {
    if n > 0 {
      AllOnes(n - 1);
      assert seq<byte>(n, _ => 255)[1..] == seq<byte>(n - 1, _ => 255);
    }
  }

  /** A non-empty buffer is no protection: an empty payload leaves an optional nothing to read. */
  lemma EmptyPayloadOverruns()
    ensures Good(SizedBuffer(Int(1, false), Optional(Monostate)))
    ensures Deser(SizedBuffer(Int(1, false), Optional(Monostate)), Big, [0]) == OutOfBounds
  {
    assert Pow256(1) == 256 * Pow256(0);
    assert Ordered(Big, [0]) == [0] && FromLittle([0]) == 0;
    var c := DeserCounter(Int(1, false), Big, [0]);
    assert [0][..1] == [0];
    assert c == Fine(1, 0);
    hide Deser;
    SizedCase(Int(1, false), Optional(Monostate), Big, [0]);
    OptionalCase(Monostate, Big, [0][1..1]);
  }

  /** No optional, and no counter wide enough to wrap. */
  predicate Guarded(d: Def) {
    match d
    case Array(elem, _) => Guarded(elem)
    case Tuple(items) => forall i :: 0 <= i < |items| ==> Guarded(items[i])
    case Variant(alts) => forall i :: 0 <= i < |alts| ==> Guarded(alts[i])
    case Optional(_) => false
    case SizedBuffer(counter, payload) => IsCounter(counter) && counter.width < 8 && Guarded(payload)
    case Group(alts) => forall i :: 0 <= i < |alts| ==> Guarded(alts[i])
    case TagGroup(_, _, _, alts) => forall i :: 0 <= i < |alts| ==> Guarded(alts[i])
    case WithEndian(_, inner) => Guarded(inner)
    case StaticVector(elem, _) => Guarded(elem)
    case _ => true
  }

  /** Without optionals and eight-byte counters no input makes a decoder read outside its buffer. */
  lemma {:induction false} NeverOutside(d: Def, e: Endian, b: seq<byte>)
    requires Good(d) && Guarded(d)
    ensures Deser(d, e, b) != OutOfBounds
    decreases d, 1
  {
    hide Deser, Good, DeserMany, DeserItems, DeserAlts, DeserInt, DeserCounter, TagIndex, Default;
    match d
    case Array(elem, n) =>
      ArrayCase(elem, n, e, b);
      ManyNeverOutside(elem, e, n, b, 0);
    case Tuple(items) =>
      TupleCase(items, e, b);
      ItemsNeverOutside(items, e, b, 0);
    case Variant(alts) =>
      VariantCase(alts, e, b);
      if b != [] && b[0] < |alts| { NeverOutside(alts[b[0]], e, b[1..]); }
    case SizedBuffer(counter, payload) =>
      SizedCase(counter, payload, e, b);
      CounterBound(counter, e, b);
      var c := DeserCounter(counter, e, b);
      if c.Fine? && Subspan(b, c.used, c.value).Some? {
        NeverOutside(payload, e, Subspan(b, c.used, c.value).value);
      }
    case Group(alts) =>
      GroupCase(alts, e, b);
      AltsNeverOutside(alts, e, b, 0);
    case TagGroup(w, s, ids, alts) =>
      TagGroupCase(w, s, ids, alts, e, b);
      var i := TagIndex(w, s, e, ids, b);
      if i.Some? { NeverOutside(alts[i.value], e, b[w..]); }
    case WithEndian(order, inner) =>
      EndianCase(order, inner, e, b);
      NeverOutside(inner, order, b);
    case StaticVector(elem, cap) =>
      VectorCase(elem, cap, e, b);
      if 2 <= |b| {
        ManyNeverOutside(elem, e, Clamped(DeserInt(2, false, e, b).value, cap), b[2..], 0);
      }
    case _ => LeafNeverOutside(d, e, b);
  }

  lemma LeafNeverOutside(d: Def, e: Endian, b: seq<byte>)
    requires IsLeaf(d) && Good(d)
    ensures Deser(d, e, b) != OutOfBounds
  {
    hide Signed, FromLittle, Ordered, BitOrdered, DeserBits;
  }

  lemma {:induction false} ManyNeverOutside(d: Def, e: Endian, n: nat, b: seq<byte>, offset: nat)
    requires Good(d) && Guarded(d)
    ensures DeserMany(d, e, n, b, offset) != OutOfBounds
    decreases d, 2, n
  {
    hide Deser, Good, Guarded, DeserMany;
    ManyStep(d, e, n, b, offset);
    if n > 0 && offset <= |b| {
      NeverOutside(d, e, b[offset..]);
      var r := Deser(d, e, b[offset..]);
      if r.Fine? { ManyNeverOutside(d, e, n - 1, b, offset + r.used); }
    }
  }

  lemma {:induction false} ItemsNeverOutside(ds: seq<Def>, e: Endian, b: seq<byte>, offset: nat)
    requires AllGood(ds) && forall i :: 0 <= i < |ds| ==> Guarded(ds[i])
    ensures DeserItems(ds, e, b, offset) != OutOfBounds
    decreases ds, 0
  {
    hide Deser, Good, Guarded, DeserItems;
    ItemsStep(ds, e, b, offset);
    if ds != [] && offset <= |b| {
      NeverOutside(ds[0], e, b[offset..]);
      var r := Deser(ds[0], e, b[offset..]);
      if r.Fine? { ItemsNeverOutside(ds[1..], e, b, offset + r.used); }
    }
  }

  lemma {:induction false} AltsNeverOutside(ds: seq<Def>, e: Endian, b: seq<byte>, k: nat)
    requires AllGood(ds) && forall i :: 0 <= i < |ds| ==> Guarded(ds[i])
    ensures DeserAlts(ds, e, b, k) != OutOfBounds
    decreases ds, 0
  {
    hide Deser, Good, Guarded;
    if ds != [] {
      NeverOutside(ds[0], e, b);
      AltsNeverOutside(ds[1..], e, b, k + 1);
    }
  }
}

/** What decoders accept and deliver: every value delivered belongs to its definition, what is accepted is
    an encoding wherever the format has only one, and each rejection has its mark and its place. */
module ProtocolAccept {
  import opened Bytes
  import opened ProtocolDefs
  import opened ProtocolSpec
  import opened ProtocolLeaves
  import opened ProtocolLaws
  import opened ProtocolBounds
  import opened ProtocolExtension
  import opened ProtocolOverrun
  import opened ProtocolWire

  // ------------------------------------------------------------------ values delivered

  /** A value of the definition, except that strings may hold zeros. */
  predicate Held(d: Def, v: Val) {
    match d
    case Int(w, s) => v.VInt? && InRange(w, s, v.i)
    case Bool => v.VBool?
    case Array(elem, n) => v.VList? && |v.items| == n && forall i :: 0 <= i < |v.items| ==> Held(elem, v.items[i])
    case Tuple(items) =>
      v.VList? && |v.items| == |items| && forall i :: 0 <= i < |items| ==> Held(items[i], v.items[i])
    case Variant(alts) => v.VAlt? && v.index < |alts| && Held(alts[v.index], v.alt)
    case Monostate => v.VUnit?
    case Optional(some) => v.VNone? || (v.VSome? && Held(some, v.some))
    case Bitset(n) => v.VBits? && |v.bits| == n
    case Message(cap) => v.VBytes? && |v.bytes| <= cap
    case SizelessMessage(cap) => v.VBytes? && |v.bytes| <= cap
    case Offset(w, _) => v.VInt? && InRange(w, false, v.i)
    case Bounded(w, s, lo, hi) => v.VInt? && lo <= v.i <= hi
    case SizedBuffer(_, payload) => Held(payload, v)
    case Tag(_, _, _) => v.VUnit?
    case Group(alts) => v.VAlt? && v.index < |alts| && Held(alts[v.index], v.alt)
    case TagGroup(_, _, ids, alts) => v.VAlt? && v.index < |alts| && Held(alts[v.index], v.alt)
    case WithEndian(_, inner) => Held(inner, v)
    case StringBuffer(cap) => v.VBytes? && |v.bytes| < cap
    case StaticVector(elem, cap) =>
      v.VList? && |v.items| <= cap && forall i :: 0 <= i < |v.items| ==> Held(elem, v.items[i])
  }

  lemma {:induction false} TypedHeld(d: Def, v: Val)
    requires Typed(d, v)
    ensures Held(d, v)
  {
    match d
    case Array(elem, _) =>
      forall i | 0 <= i < |v.items| ensures Held(elem, v.items[i]) { TypedHeld(elem, v.items[i]); }
    case Tuple(items) =>
      forall i | 0 <= i < |items| ensures Held(items[i], v.items[i]) { TypedHeld(items[i], v.items[i]); }
    case Variant(alts) => TypedHeld(alts[v.index], v.alt);
    case Optional(some) => if v.VSome? { TypedHeld(some, v.some); }
    case SizedBuffer(_, payload) => TypedHeld(payload, v);
    case Group(alts) => TypedHeld(alts[v.index], v.alt);
    case TagGroup(_, _, _, alts) => TypedHeld(alts[v.index], v.alt);
    case WithEndian(_, inner) => TypedHeld(inner, v);
    case StaticVector(elem, _) =>
      forall i | 0 <= i < |v.items| ensures Held(elem, v.items[i]) { TypedHeld(elem, v.items[i]); }
    case _ =>
  }

  ghost predicate Delivers(d: Def, e: Endian, b: seq<byte>)
    requires Good(d)
  {
    Deser(d, e, b).Fine? ==> Held(d, Deser(d, e, b).value)
  }

  /** On every input, a value delivered lies in its definition. */
  lemma {:induction false} Delivered(d: Def, e: Endian, b: seq<byte>)
    requires Good(d)
    ensures Delivers(d, e, b)
    decreases d, 1
  {
    hide Deser, Good, DeserMany, DeserItems, DeserAlts, DeserInt, DeserCounter, TagIndex, Default;
    match d
    case Array(elem, n) =>
      ArrayCase(elem, n, e, b);
      ManyDelivered(elem, e, n, b, 0);
    case Tuple(items) =>
      TupleCase(items, e, b);
      ItemsDelivered(items, e, b, 0);
    case Variant(alts) =>
      VariantCase(alts, e, b);
      if b != [] && b[0] < |alts| { Delivered(alts[b[0]], e, b[1..]); }
    case Optional(some) =>
      OptionalCase(some, e, b);
      if b != [] { Delivered(some, e, b[1..]); }
    case SizedBuffer(counter, payload) =>
      SizedCase(counter, payload, e, b);
      var c := DeserCounter(counter, e, b);
      if c.Fine? && Subspan(b, c.used, c.value).Some? { Delivered(payload, e, Subspan(b, c.used, c.value).value); }
    case Group(alts) =>
      GroupCase(alts, e, b);
      AltsDelivered(alts, e, b, 0);
    case TagGroup(w, s, ids, alts) =>
      TagGroupCase(w, s, ids, alts, e, b);
      var i := TagIndex(w, s, e, ids, b);
      if i.Some? { Delivered(alts[i.value], e, b[w..]); }
      DefaultTyped(d);
      TypedHeld(d, Default(d));
    case WithEndian(order, inner) =>
      EndianCase(order, inner, e, b);
      Delivered(inner, order, b);
    case StaticVector(elem, cap) =>
      VectorCase(elem, cap, e, b);
      if 2 <= |b| { ManyDelivered(elem, e, Clamped(DeserInt(2, false, e, b).value, cap), b[2..], 0); }
    case _ => LeafDelivered(d, e, b);
  }

  lemma LeafDelivered(d: Def, e: Endian, b: seq<byte>)
    requires IsLeaf(d) && Good(d)
    ensures Delivers(d, e, b)
  {
    hide Signed, FromLittle, Ordered, BitOrdered, DeserBits, InRange;
    match d
    case Int(w, s) => if w <= |b| { NumberInRange(w, s, e, b); }
    case Offset(w, off) => UnsignedRange(w);
    case Message(cap) => BytesDelivered(cap, e, b);
    case StringBuffer(cap) => BytesDelivered(cap - 1, e, b);
    case _ =>
  }

  lemma UnsignedRange(w: nat)
    ensures forall x: int :: InRange(w, false, x % Pow256(w))
  {
  }

  lemma BytesDelivered(limit: nat, e: Endian, b: seq<byte>)
    ensures var r := DeserBytes(limit, e, b); r.Fine? ==> r.value.VBytes? && |r.value.bytes| <= limit
  {
    hide Signed, FromLittle, Ordered;
  }

  lemma {:induction false} ManyDelivered(d: Def, e: Endian, n: nat, b: seq<byte>, offset: nat)
    requires Good(d)
    ensures var r := DeserMany(d, e, n, b, offset);
            r.Fine? ==> |r.value| == n && forall i :: 0 <= i < n ==> Held(d, r.value[i])
    decreases d, 2, n
  {
    hide Deser, Good, Held, DeserMany;
    ManyStep(d, e, n, b, offset);
    if n > 0 && offset <= |b| {
      Delivered(d, e, b[offset..]);
      var r := Deser(d, e, b[offset..]);
      if r.Fine? { ManyDelivered(d, e, n - 1, b, offset + r.used); }
    }
  }

  lemma {:induction false} ItemsDelivered(ds: seq<Def>, e: Endian, b: seq<byte>, offset: nat)
    requires AllGood(ds)
    ensures var r := DeserItems(ds, e, b, offset);
            r.Fine? ==> |r.value| == |ds| && forall i :: 0 <= i < |ds| ==> Held(ds[i], r.value[i])
    decreases ds, 0
  {
    hide Deser, Good, Held, DeserItems;
    ItemsStep(ds, e, b, offset);
    if ds != [] && offset <= |b| {
      Delivered(ds[0], e, b[offset..]);
      var r := Deser(ds[0], e, b[offset..]);
      if r.Fine? { ItemsDelivered(ds[1..], e, b, offset + r.used); }
    }
  }

  lemma {:induction false} AltsDelivered(ds: seq<Def>, e: Endian, b: seq<byte>, k: nat)
    requires AllGood(ds)
    ensures var r := DeserAlts(ds, e, b, k);
            r.Fine? ==> r.value.VAlt? && k <= r.value.index < k + |ds| && Held(ds[r.value.index - k], r.value.alt)
    decreases ds, 0
  {
    hide Deser, Good, Held;
    if ds != [] {
      Delivered(ds[0], e, b);
      AltsDelivered(ds[1..], e, b, k + 1);
    }
  }

  // ------------------------------------------------------------------ accepted bytes

  /** Every part met while decoding has the one form an encoder gives it: a boolean byte of 0 or 1, no bits
      behind a bit set, no zero in a string, a count within the capacity, a payload of exactly the length
      announced, a known tag. */
  ghost predicate Canonical(d: Def, e: Endian, b: seq<byte>)
    requires Good(d)
    decreases d, 0
  {
    match d
    case Bool => b != [] ==> b[0] <= 1
    case Array(elem, n) => ManyCanonical(elem, e, n, b, 0)
    case Tuple(items) => ItemsCanonical(items, e, b, 0)
    case Variant(alts) => b != [] && b[0] < |alts| ==> Canonical(alts[b[0]], e, b[1..])
    case Optional(some) => b != [] && b[0] == 1 ==> Canonical(some, e, b[1..])
    case Bitset(n) => BitBytes(n) <= |b| ==> NoSpareBits(n, BitOrdered(e, b[..BitBytes(n)]))
    case SizedBuffer(counter, payload) =>
      var c := DeserCounter(counter, e, b);
      c.Fine? && Subspan(b, c.used, c.value).Some? ==>
        && Canonical(payload, e, Subspan(b, c.used, c.value).value)
        && var r := Deser(payload, e, Subspan(b, c.used, c.value).value); r.Fine? ==> r.used == c.value
    case Group(alts) => AltsCanonical(alts, e, b)
    case TagGroup(w, s, ids, alts) => ChosenCanonical(w, s, ids, alts, e, b)
    case WithEndian(order, inner) => Canonical(inner, order, b)
    case StringBuffer(cap) => var r := DeserBytes(cap - 1, e, b); r.Fine? && r.value.VBytes? ==> 0 !in r.value.bytes
    case StaticVector(elem, cap) =>
      2 <= |b| ==>
        && DeserInt(2, false, e, b).Fine? && DeserInt(2, false, e, b).value <= cap
        && ManyCanonical(elem, e, ElemCount(cap, e, b), b[2..], 0)
    case _ => true
  }

  predicate NoSpareBits(n: nat, b: seq<byte>)
    requires |b| == BitBytes(n)
  {
    forall i :: n <= i < 8 * |b| ==> !Bit(b[i / 8], i % 8)
  }

  ghost predicate AltsCanonical(ds: seq<Def>, e: Endian, b: seq<byte>)
    requires AllGood(ds)
    decreases ds, 0
  {
    forall i :: 0 <= i < |ds| && Deser(ds[i], e, b).Fine? ==> Canonical(ds[i], e, b)
  }

  ghost predicate ChosenCanonical(w: nat, s: bool, ids: seq<int>, alts: seq<Def>, e: Endian, b: seq<byte>)
    requires AllGood(alts) && |ids| == |alts|
    decreases alts, 0
  {
    var i := TagIndex(w, s, e, ids, b);
    i.Some? && Canonical(alts[i.value], e, b[w..])
  }

  ghost predicate ManyCanonical(d: Def, e: Endian, n: nat, b: seq<byte>, offset: nat)
    requires Good(d)
    decreases d, 1 + n
  {
    n > 0 && offset <= |b| ==>
      && Canonical(d, e, b[offset..])
      && var r := Deser(d, e, b[offset..]);
         r.Fine? ==> ManyCanonical(d, e, n - 1, b, offset + r.used)
  }

  ghost predicate ItemsCanonical(ds: seq<Def>, e: Endian, b: seq<byte>, offset: nat)
    requires AllGood(ds)
    decreases ds, 0
  {
    ds != [] && offset <= |b| ==>
      && Canonical(ds[0], e, b[offset..])
      && var r := Deser(ds[0], e, b[offset..]);
         r.Fine? ==> ItemsCanonical(ds[1..], e, b, offset + r.used)
  }

  /** The bytes taken are the encoding of the value delivered. */
  ghost predicate Reencodes(d: Def, e: Endian, b: seq<byte>)
    requires Good(d)
  {
    var r := Deser(d, e, b);
    r.Fine? ==> r.used <= |b| && Typed(d, r.value) && Ser(d, e, r.value) == b[..r.used]
  }

  /** What is accepted in canonical form is an encoding, and nothing else: encoding the value delivered
      gives back the bytes taken. */
  lemma {:induction false} Reencoded(d: Def, e: Endian, b: seq<byte>)
    requires Good(d) && Canonical(d, e, b)
    ensures Reencodes(d, e, b)
    decreases d, 1
  {
    hide Deser, Ser, Good, Typed;
    if IsLeaf(d) {
      LeafReencoded(d, e, b);
    } else if d.Array? || d.StaticVector? || d.Tuple? {
      ListReencoded(d, e, b);
    } else if d.Variant? || d.Group? || d.TagGroup? {
      ChoiceReencoded(d, e, b);
    } else {
      WrapperReencoded(d, e, b);
    }
  }

  lemma {:induction false} ListReencoded(d: Def, e: Endian, b: seq<byte>)
    requires (d.Array? || d.StaticVector? || d.Tuple?) && Good(d) && Canonical(d, e, b)
    ensures Reencodes(d, e, b)
    decreases d, 0
  {
    hide Deser, Ser, Good, DeserMany, DeserItems, DeserInt, SerMany, SerItems, ManyCanonical, ItemsCanonical, SerInt;
    match d
    case Array(elem, n) =>
      ArrayCase(elem, n, e, b);
      ManyReencoded(elem, e, n, b, 0);
      if Deser(d, e, b).Fine? { ListParts(d, e, Deser(d, e, b).value); }
    case Tuple(items) =>
      TupleCase(items, e, b);
      ItemsReencoded(items, e, b, 0);
      if Deser(d, e, b).Fine? { TupleParts(items, e, Deser(d, e, b).value); }
    case StaticVector(elem, cap) => VectorReencoded(elem, cap, e, b);
  }

  lemma {:induction false} VectorReencoded(elem: Def, cap: nat, e: Endian, b: seq<byte>)
    requires Good(StaticVector(elem, cap)) && Canonical(StaticVector(elem, cap), e, b)
    ensures Reencodes(StaticVector(elem, cap), e, b)
    decreases elem, 3
  {
    hide Deser, Ser, Good, DeserMany, DeserInt, SerMany, ManyCanonical, SerInt;
    var d := StaticVector(elem, cap);
    VectorCase(elem, cap, e, b);
    if Deser(d, e, b).Fine? {
      var n := DeserInt(2, false, e, b).value;
      CountRead(e, b);
      ManyReencoded(elem, e, n, b[2..], 0);
      ListParts(d, e, Deser(d, e, b).value);
      var u := DeserMany(elem, e, n, b[2..], 0).used;
      HeadSlices(b, 2, u);
    }
  }

  lemma HeadSlices(b: seq<byte>, head: nat, n: nat)
    requires head + n <= |b|
    ensures b[..head] + b[head..][0..n] == b[..head + n]
  {
  }

  lemma CountRead(e: Endian, b: seq<byte>)
    requires 2 <= |b|
    ensures DeserInt(2, false, e, b).Fine?
    ensures var n := DeserInt(2, false, e, b).value; 0 <= n && SerInt(2, e, n) == b[..2]
  {
    hide SerInt;
    NumberInRange(2, false, e, b);
    NumberWidth(2, false, e, b);
    ReadIsWritten(2, false, e, b, DeserInt(2, false, e, b).value);
  }

  lemma NumberWidth(w: nat, s: bool, e: Endian, b: seq<byte>)
    ensures DeserInt(w, s, e, b) == if w <= |b| then Fine(w, DeserInt(w, s, e, b).value) else Fail(0, SizeErr)
  {
  }

  lemma JoinSlices(b: seq<byte>, from: nat, n: nat, to: nat)
    requires from + n <= to <= |b|
    ensures b[from..][..n] + b[from + n..to] == b[from..to]
  {
  }

  /** The bytes from one place to another are the encodings of these values. */
  ghost predicate Covers(d: Def, e: Endian, b: seq<byte>, from: nat, to: nat, vs: seq<Val>)
    requires Good(d)
  {
    from <= to <= |b| && AllTyped(d, vs) && SerMany(d, e, vs) == b[from..to]
  }

  lemma {:induction false} ManyReencoded(d: Def, e: Endian, n: nat, b: seq<byte>, offset: nat)
    requires Good(d) && offset <= |b| && ManyCanonical(d, e, n, b, offset)
    ensures var r := DeserMany(d, e, n, b, offset);
            r.Fine? ==> |r.value| == n && Covers(d, e, b, offset, r.used, r.value)
    decreases d, 2, n
  {
    hide Deser, Ser, Good, Typed, DeserMany, Canonical, Covers;
    ManyStep(d, e, n, b, offset);
    if n == 0 {
      CoversNothing(d, e, b, offset);
    } else {
      Reencoded(d, e, b[offset..]);
      var r := Deser(d, e, b[offset..]);
      if r.Fine? {
        ManyReencoded(d, e, n - 1, b, offset + r.used);
        var rest := DeserMany(d, e, n - 1, b, offset + r.used);
        if rest.Fine? {
          CoversMore(d, e, b, offset, r.used, r.value, rest.used, rest.value);
        }
      }
    }
  }

  lemma CoversNothing(d: Def, e: Endian, b: seq<byte>, from: nat)
    requires Good(d) && from <= |b|
    ensures Covers(d, e, b, from, from, [])
  {
  }

  lemma CoversMore(d: Def, e: Endian, b: seq<byte>, from: nat, n: nat, v: Val, to: nat, vs: seq<Val>)
    requires Good(d) && from + n <= |b| && Typed(d, v) && Ser(d, e, v) == b[from..][..n]
    requires Covers(d, e, b, from + n, to, vs)
    ensures Covers(d, e, b, from, to, [v] + vs)
  {
    hide Ser, Good, Typed;
    assert ([v] + vs)[1..] == vs;
    JoinSlices(b, from, n, to);
  }

  lemma {:induction false} ItemsReencoded(ds: seq<Def>, e: Endian, b: seq<byte>, offset: nat)
    requires AllGood(ds) && offset <= |b| && ItemsCanonical(ds, e, b, offset)
    ensures var r := DeserItems(ds, e, b, offset);
            r.Fine? ==> && TypedItems(ds, r.value) && offset <= r.used <= |b|
                        && SerItems(ds, e, r.value) == b[offset..r.used]
    decreases ds, 0
  {
    hide Deser, Ser, Good, Typed, DeserItems, Canonical;
    ItemsStep(ds, e, b, offset);
    if ds != [] {
      Reencoded(ds[0], e, b[offset..]);
      var r := Deser(ds[0], e, b[offset..]);
      if r.Fine? {
        ItemsReencoded(ds[1..], e, b, offset + r.used);
        var rest := DeserItems(ds[1..], e, b, offset + r.used);
        if rest.Fine? {
          var vs := [r.value] + rest.value;
          assert vs[1..] == rest.value;
          JoinSlices(b, offset, r.used, rest.used);
        }
      }
    }
  }

  lemma {:induction false} ChoiceReencoded(d: Def, e: Endian, b: seq<byte>)
    requires (d.Variant? || d.Group? || d.TagGroup?) && Good(d) && Canonical(d, e, b)
    ensures Reencodes(d, e, b)
    decreases d, 0
  {
    hide Deser, Ser, Good, DeserAlts, DeserInt, SerInt, TagIndex, Default;
    var r := Deser(d, e, b);
    match d
    case Variant(alts) =>
      VariantCase(alts, e, b);
      if r.Fine? {
        Reencoded(alts[b[0]], e, b[1..]);
        ChoiceParts(d, e, r.value);
        assert [b[0]] + b[1..][..r.used - 1] == b[..r.used];
      }
    case Group(alts) =>
      GroupCase(alts, e, b);
      AltsReencoded(alts, e, b, 0);
      if r.Fine? { ChoiceParts(d, e, r.value); }
    case TagGroup(w, s, ids, alts) => ChosenReencoded(w, s, ids, alts, e, b);
  }

  lemma {:induction false} ChosenReencoded(w: nat, s: bool, ids: seq<int>, alts: seq<Def>, e: Endian, b: seq<byte>)
    requires Good(TagGroup(w, s, ids, alts)) && Canonical(TagGroup(w, s, ids, alts), e, b)
    ensures Reencodes(TagGroup(w, s, ids, alts), e, b)
    decreases alts, 1
  {
    hide Deser, Ser, Good, DeserInt, SerInt, TagIndex, Default, InRange, Typed;
    var d := TagGroup(w, s, ids, alts);
    var r := Deser(d, e, b);
    TagGroupCase(w, s, ids, alts, e, b);
    if r.Fine? {
      var i := TagIndex(w, s, e, ids, b).value;
      Reencoded(alts[i], e, b[w..]);
      TagRead(w, s, e, ids, b);
      AltTyped(w, s, ids, alts, i, r.value.alt);
      ChoiceParts(d, e, r.value);
      assert b[..w] + b[w..][..r.used - w] == b[..r.used];
    }
  }

  lemma AltTyped(w: nat, s: bool, ids: seq<int>, alts: seq<Def>, i: nat, v: Val)
    requires i < |alts| == |ids| && Typed(alts[i], v)
    ensures Typed(TagGroup(w, s, ids, alts), VAlt(i, v))
  {
  }

  lemma {:induction false} AltsReencoded(ds: seq<Def>, e: Endian, b: seq<byte>, k: nat)
    requires AllGood(ds) && AltsCanonical(ds, e, b)
    ensures var r := DeserAlts(ds, e, b, k);
            r.Fine? ==> && r.value.VAlt? && k <= r.value.index < k + |ds| && r.used <= |b|
                        && Typed(ds[r.value.index - k], r.value.alt)
                        && Ser(ds[r.value.index - k], e, r.value.alt) == b[..r.used]
    decreases ds, 0
  {
    hide Deser, Ser, Good, Typed, Canonical;
    if ds != [] {
      if Deser(ds[0], e, b).Fine? { Reencoded(ds[0], e, b); }
      AltsReencoded(ds[1..], e, b, k + 1);
    }
  }

  /** The tag found is the one the bytes begin with. */
  lemma {:induction false} TagRead(w: nat, s: bool, e: Endian, ids: seq<int>, b: seq<byte>)
    ensures var i := TagIndex(w, s, e, ids, b); i.Some? ==> w <= |b| && SerInt(w, e, ids[i.value]) == b[..w]
  {
    hide DeserInt, SerInt;
    if ids != [] {
      if DeserInt(w, s, e, b) == Fine(w, ids[0]) {
        ReadIsWritten(w, s, e, b, ids[0]);
      }
      TagRead(w, s, e, ids[1..], b);
    }
  }

  lemma {:induction false} WrapperReencoded(d: Def, e: Endian, b: seq<byte>)
    requires (d.Optional? || d.SizedBuffer? || d.WithEndian?) && Good(d) && Canonical(d, e, b)
    ensures Reencodes(d, e, b)
    decreases d, 0
  {
    hide Deser, Ser, Good, DeserCounter, SerCounter, Subspan;
    var r := Deser(d, e, b);
    match d
    case Optional(some) =>
      OptionalCase(some, e, b);
      if r.Fine? {
        if b[0] == 1 {
          Reencoded(some, e, b[1..]);
          assert [1] + b[1..][..r.used - 1] == b[..r.used];
        }
        WrapperParts(d, e, r.value);
      }
    case SizedBuffer(counter, payload) =>
      SizedCase(counter, payload, e, b);
      if r.Fine? { SizedReencoded(counter, payload, e, b); }
    case WithEndian(order, inner) =>
      EndianCase(order, inner, e, b);
      Reencoded(inner, order, b);
      if r.Fine? { WrapperParts(d, e, r.value); }
  }

  lemma {:induction false} SizedReencoded(counter: Def, payload: Def, e: Endian, b: seq<byte>)
    requires Good(SizedBuffer(counter, payload)) && Good(payload) && IsCounter(counter)
    requires Canonical(SizedBuffer(counter, payload), e, b) && Deser(SizedBuffer(counter, payload), e, b).Fine?
    ensures Reencodes(SizedBuffer(counter, payload), e, b)
    decreases payload, 2
  {
    hide Deser, Ser, Good, DeserCounter, SerCounter;
    var d := SizedBuffer(counter, payload);
    SizedCase(counter, payload, e, b);
    var c := DeserCounter(counter, e, b);
    var part := Subspan(b, c.used, c.value).value;
    Reencoded(payload, e, part);
    CounterRead(counter, e, b);
    var r := Deser(d, e, b);
    FrontSlices(b, c.used, c.value, part);
    WrapperParts(d, e, r.value);
  }

  lemma FrontSlices(b: seq<byte>, from: nat, n: nat, part: seq<byte>)
    requires Subspan(b, from, n) == Some(part) && n <= |part|
    ensures from + n <= |b| && b[..from] + part[..n] == b[..from + n]
  {
  }

  lemma CounterRead(counter: Def, e: Endian, b: seq<byte>)
    requires IsCounter(counter) && counter.width <= |b|
    ensures var c := DeserCounter(counter, e, b);
            c.Fine? && c.used == counter.width && SerCounter(counter, e, c.value) == b[..counter.width]
  {
    hide DeserInt, SerInt, Pow256;
    var w, off, m := counter.width, CounterShift(counter), Pow256(counter.width);
    NumberWidth(w, false, e, b);
    var x := DeserInt(w, false, e, b).value;
    ReadIsWritten(w, false, e, b, x);
    var n := (x - off) % m;
    ModTwice(n, m);
    ModBack(x, off, m);
    SameInt(w, e, n % m + off, x);
  }

  lemma ModTwice(n: int, m: nat)
    requires m > 0 && 0 <= n < m
    ensures n % m == n
  {
  }

  lemma ModBack(x: int, off: int, m: nat)
    requires m > 0
    ensures ((x - off) % m + off) % m == x % m
  {
    ModShift(x, -off, m);
  }

  /** Numbers that agree modulo the width have the same bytes. */
  lemma SameInt(w: nat, e: Endian, x: int, y: int)
    requires x % Pow256(w) == y % Pow256(w)
    ensures SerInt(w, e, x) == SerInt(w, e, y)
  {
    SameLittle(w, x, y);
  }

  lemma LeafReencoded(d: Def, e: Endian, b: seq<byte>)
    requires IsLeaf(d) && Good(d) && Canonical(d, e, b)
    ensures Reencodes(d, e, b)
  {
    hide DeserInt, SerInt, DeserBytes, InRange, BitOrdered, DeserBits, NoSpareBits, SerBits, Signed;
    match d
    case Int(_, _) => IntLeafReencoded(d, e, b);
    case Bounded(_, _, _, _) => IntLeafReencoded(d, e, b);
    case Tag(_, _, _) => IntLeafReencoded(d, e, b);
    case Offset(w, off) => OffsetReencoded(w, off, e, b);
    case Message(cap) => BytesReencoded(cap, e, b);
    case StringBuffer(cap) => BytesReencoded(cap - 1, e, b);
    case Bitset(n) => if BitBytes(n) <= |b| { BitsReencoded(n, e, b[..BitBytes(n)]); }
    case SizelessMessage(_) => assert b[..|b|] == b;
    case _ =>
  }

  lemma IntLeafReencoded(d: Def, e: Endian, b: seq<byte>)
    requires (d.Int? || d.Bounded? || d.Tag?) && Good(d)
    ensures Reencodes(d, e, b)
  {
    hide DeserInt, SerInt, InRange;
    NumberReencoded(d.width, d.signed, e, b);
  }

  lemma NumberReencoded(w: nat, s: bool, e: Endian, b: seq<byte>)
    requires GoodWidth(w)
    ensures var r := DeserInt(w, s, e, b);
            !r.OutOfBounds? && (r.Fine? <==> w <= |b|)
            && (r.Fine? ==> r.used == w && InRange(w, s, r.value) && SerInt(w, e, r.value) == b[..w])
  {
    hide SerInt, DeserInt;
    NumberWidth(w, s, e, b);
    if w <= |b| {
      NumberInRange(w, s, e, b);
      ReadIsWritten(w, s, e, b, DeserInt(w, s, e, b).value);
    }
  }

  lemma OffsetReencoded(w: nat, off: int, e: Endian, b: seq<byte>)
    requires Good(Offset(w, off))
    ensures Reencodes(Offset(w, off), e, b)
  {
    hide DeserInt, SerInt, Pow256, InRange;
    NumberReencoded(w, false, e, b);
    UnsignedRange(w);
    if w <= |b| {
      var x := DeserInt(w, false, e, b).value;
      ModBack(x, off, Pow256(w));
      SameInt(w, e, (x - off) % Pow256(w) + off, x);
    }
  }

  lemma BytesReencoded(limit: nat, e: Endian, b: seq<byte>)
    ensures var r := DeserBytes(limit, e, b);
            r.Fine? ==> && r.value.VBytes? && |r.value.bytes| <= limit && r.used <= |b|
                        && SerInt(2, e, |r.value.bytes|) + r.value.bytes == b[..r.used]
  {
    hide DeserInt, SerInt;
    NumberWidth(2, false, e, b);
    if 2 <= |b| {
      CountRead(e, b);
      var n := DeserInt(2, false, e, b).value;
      assert 2 + n <= |b| ==> b[..2] + b[2..2 + n] == b[..2 + n];
    }
  }

  lemma BitsReencoded(n: nat, e: Endian, b: seq<byte>)
    requires |b| == BitBytes(n) && NoSpareBits(n, BitOrdered(e, b))
    ensures BitOrdered(e, SerBits(DeserBits(n, BitOrdered(e, b)))) == b
  {
    hide SerBits, DeserBits;
    SpareBits(n, BitOrdered(e, b));
    ReverseTwice(b);
  }

  lemma {:induction false} SpareBits(n: nat, b: seq<byte>)
    requires |b| == BitBytes(n) && NoSpareBits(n, b)
    ensures SerBits(DeserBits(n, b)) == b
    decreases n
  {
    hide UnpackBits, PackBits, Bit;
    if n == 0 {
    } else if n <= 8 {
      forall i | n <= i < 8
        ensures !Bit(b[0], i)
      {
        assert !Bit(b[i / 8], i % 8);
      }
      PackBack(n, b[0]);
      assert b == [b[0]];
    } else {
      var bits := DeserBits(n, b);
      forall i | n - 8 <= i < 8 * |b[1..]|
        ensures !Bit(b[1..][i / 8], i % 8)
      {
        assert !Bit(b[(i + 8) / 8], (i + 8) % 8);
      }
      SpareBits(n - 8, b[1..]);
      assert bits[..8] == UnpackBits(8, b[0]) && bits[8..] == DeserBits(n - 8, b[1..]);
      PackBack(8, b[0]);
    }
  }

  /** A byte is packed from its own bits, if none is left out. */
  lemma {:induction false} PackBack(n: nat, x: nat)
    requires n <= 8 && x < 256 && forall i :: n <= i < 8 ==> !Bit(x, i)
    ensures PackBits(UnpackBits(n, x)) == x
  {
    hide Bit, PackBits, UnpackBits;
    PackLow(n, x);
    BitsAbove(n, x);
    ModUnique(x, Pow2(n), 0, x);
  }

  lemma {:induction false} PackLow(n: nat, x: nat)
    ensures PackBits(UnpackBits(n, x)) == x % Pow2(n)
  {
    if n > 0 {
      PackLow(n - 1, x / 2);
      LowBits(x, Pow2(n - 1));
      assert UnpackBits(n, x)[1..] == UnpackBits(n - 1, x / 2);
    }
  }

  lemma LowBits(x: nat, p: nat)
    requires p >= 1
    ensures x % 2 + 2 * (x / 2 % p) == x % (2 * p)
  {
    var q, r := x / 2 / p, x / 2 % p;
    assert x / 2 == p * q + r;
    assert 2 * (p * q) == 2 * p * q;
    ModUnique(x, 2 * p, q, 2 * r + x % 2);
  }

  lemma {:induction false} BitsAbove(n: nat, x: nat)
    requires n <= 8 && x < 256 && forall i :: n <= i < 8 ==> !Bit(x, i)
    ensures x < Pow2(n)
    decreases 8 - n
  {
    if n == 8 {
      Pow2Add(4, 4);
      assert Pow2(4) == 16;
    } else {
      BitsAbove(n + 1, x);
      assert !Bit(x, n);
      HalfBelow(x, Pow2(n));
    }
  }

  lemma HalfBelow(x: nat, p: nat)
    requires p >= 1 && x < 2 * p && x / p % 2 != 1
    ensures x < p
  {
    if x >= p {
      ModUnique(x, p, 1, x - p);
    }
  }
}

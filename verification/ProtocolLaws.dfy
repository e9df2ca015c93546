/** Laws of every converter, by induction over definitions. */
module ProtocolLaws {
  import opened Bytes
  import opened ProtocolDefs
  import opened ProtocolSpec
  import opened ProtocolLeaves

  /** The counter can tell a payload of n bytes; the greatest size there is does not stand for itself. */
  predicate CounterHolds(counter: Def, n: nat)
    requires IsCounter(counter)
  {
    n < Pow256(CounterWidth(counter)) && n < SIZE_LIMIT - 1
  }

  /** Every sized buffer inside the value is short enough for its counter. */
  predicate CountersFit(d: Def, e: Endian, v: Val)
    requires Good(d) && Typed(d, v)
    decreases d
  {
    match d
    case Array(elem, _) => forall i :: 0 <= i < |v.items| ==> CountersFit(elem, e, v.items[i])
    case Tuple(items) => forall i :: 0 <= i < |items| ==> CountersFit(items[i], e, v.items[i])
    case Variant(alts) => CountersFit(alts[v.index], e, v.alt)
    case Optional(some) => v.VSome? ==> CountersFit(some, e, v.some)
    case SizedBuffer(counter, payload) =>
      CounterHolds(counter, |Ser(payload, e, v)|) && CountersFit(payload, e, v)
    case Group(alts) => CountersFit(alts[v.index], e, v.alt)
    case TagGroup(_, _, _, alts) => CountersFit(alts[v.index], e, v.alt)
    case WithEndian(order, inner) => CountersFit(inner, order, v)
    case StaticVector(elem, _) => forall i :: 0 <= i < |v.items| ==> CountersFit(elem, e, v.items[i])
    case _ => true
  }

  /** rest may follow an encoding of d: anything behind a self-delimiting one, else nothing. */
  predicate MayFollow(d: Def, rest: seq<byte>) {
    Delimited(d) || (Trailing(d) && rest == [])
  }

  /** What decoding gives back for an encoded value. */
  ghost predicate Back(d: Def, e: Endian, v: Val, rest: seq<byte>)
    requires Good(d) && Typed(d, v)
  {
    Deser(d, e, Ser(d, e, v) + rest) == Fine(|Ser(d, e, v)|, v)
  }

  // ------------------------------------------------------------------ sequences of items

  /** Every element comes back whatever follows it. */
  ghost predicate AllBack(d: Def, e: Endian, vs: seq<Val>)
    requires Good(d) && AllTyped(d, vs)
  {
    forall i, r :: 0 <= i < |vs| ==> Back(d, e, vs[i], r)
  }

  lemma BackMeans(d: Def, e: Endian, vs: seq<Val>, i: nat, r: seq<byte>)
    requires Good(d) && AllTyped(d, vs) && AllBack(d, e, vs) && i < |vs|
    ensures Deser(d, e, Ser(d, e, vs[i]) + r) == Fine(|Ser(d, e, vs[i])|, vs[i])
    ensures Typed(d, vs[i]) && AllTyped(d, vs[1..]) && AllBack(d, e, vs[1..])
  {
    hide Deser, Ser, Good, Typed;
    assert Back(d, e, vs[i], r);
  }

  lemma Pieces(pre: seq<byte>, s: seq<byte>, tail: seq<byte>, rest: seq<byte>)
    ensures pre + (s + tail) + rest == (pre + s) + tail + rest
    ensures (pre + (s + tail) + rest)[|pre|..] == s + (tail + rest)
  {
  }

  lemma {:induction false} ManyRoundTrip(d: Def, e: Endian, vs: seq<Val>, pre: seq<byte>, rest: seq<byte>)
    requires Good(d) && AllTyped(d, vs) && AllBack(d, e, vs)
    ensures DeserMany(d, e, |vs|, pre + SerMany(d, e, vs) + rest, |pre|)
            == Fine(|pre| + |SerMany(d, e, vs)|, vs)
  {
    hide Deser, Ser, Good, Typed, AllBack, Back, AllTyped, DeserMany;
    ManyStep(d, e, |vs|, pre + SerMany(d, e, vs) + rest, |pre|);
    if vs != [] {
      assert AllTyped(d, vs[1..]) && Typed(d, vs[0]) by { BackMeans(d, e, vs, 0, []); }
      var s := Ser(d, e, vs[0]);
      var tail := SerMany(d, e, vs[1..]);
      var b := pre + SerMany(d, e, vs) + rest;
      Pieces(pre, s, tail, rest);
      BackMeans(d, e, vs, 0, tail + rest);
      ManyRoundTrip(d, e, vs[1..], pre + s, rest);
      assert vs == [vs[0]] + vs[1..];
    }
  }

  predicate ItemsMayFollow(ds: seq<Def>, rest: seq<byte>) {
    forall i :: 0 <= i < |ds| ==> Delimited(ds[i]) || (Trailing(ds[i]) && i == |ds| - 1 && rest == [])
  }

  lemma {:induction false} ItemsRoundTrip(ds: seq<Def>, e: Endian, vs: seq<Val>, pre: seq<byte>, rest: seq<byte>)
    requires AllGood(ds) && TypedItems(ds, vs) && ItemsMayFollow(ds, rest)
    requires forall i, r :: 0 <= i < |ds| && MayFollow(ds[i], r) ==> Back(ds[i], e, vs[i], r)
    ensures DeserItems(ds, e, pre + SerItems(ds, e, vs) + rest, |pre|)
            == Fine(|pre| + |SerItems(ds, e, vs)|, vs)
  {
    hide Deser, Ser, Good, Typed, Delimited, Trailing, DeserItems;
    ItemsStep(ds, e, pre + SerItems(ds, e, vs) + rest, |pre|);
    if ds != [] {
      var s := Ser(ds[0], e, vs[0]);
      var tail := SerItems(ds[1..], e, vs[1..]);
      var b := pre + SerItems(ds, e, vs) + rest;
      Pieces(pre, s, tail, rest);
      assert MayFollow(ds[0], tail + rest) by {
        if !Delimited(ds[0]) {
          assert ds[1..] == [] && tail == [];
        }
      }
      assert Back(ds[0], e, vs[0], tail + rest);
      assert forall i :: 0 <= i < |ds[1..]| ==> ds[1..][i] == ds[i + 1] && vs[1..][i] == vs[i + 1];
      ItemsRoundTrip(ds[1..], e, vs[1..], pre + s, rest);
      assert vs == [vs[0]] + vs[1..];
    }
  }

  // ------------------------------------------------------------------ groups

  /** The encoding of a tag-led tuple starts with its tag. */
  lemma StartsWithTag(d: Def, e: Endian, v: Val)
    requires Good(d) && TagLed(d) && Typed(d, v)
    ensures var t := d.items[0];
            exists more :: Ser(d, e, v) == SerInt(t.width, e, t.id) + more
  {
    assert Ser(d, e, v) == Ser(d.items[0], e, v.items[0]) + SerItems(d.items[1..], e, v.items[1..]);
    assert Ser(d.items[0], e, v.items[0]) == SerInt(d.items[0].width, e, d.items[0].id);
  }

  /** A tag-led alternative with another tag fails without consuming anything. */
  lemma OtherTagFails(d: Def, e: Endian, id: int, more: seq<byte>)
    requires Good(d) && TagLed(d) && InRange(d.items[0].width, d.items[0].signed, id) && id != d.items[0].id
    ensures Deser(d, e, SerInt(d.items[0].width, e, id) + more) == Fail(0, BadValErr)
  {
    hide SerInt, DeserInt, InRange;
    var t := d.items[0];
    var b := SerInt(t.width, e, id) + more;
    IntRoundTrip(t.width, t.signed, e, id, more);
    assert b[0..] == b;
    assert Deser(t, e, b) == Fail(0, BadValErr);
    assert DeserItems(d.items, e, b, 0) == Fail(0, BadValErr);
  }

  lemma {:induction false} AltFound(ds: seq<Def>, e: Endian, i: nat, b: seq<byte>, n: nat, v: Val,
                                    more: seq<byte>, k: nat)
    requires AllGood(ds) && TagsDiffer(ds) && i < |ds|
    requires b == SerInt(ds[i].items[0].width, e, ds[i].items[0].id) + more
    requires Deser(ds[i], e, b) == Fine(n, v) && n > 0
    ensures DeserAlts(ds, e, b, k) == Fine(n, VAlt(k + i, v))
  {
    hide Deser, SerInt;
    if i > 0 {
      var t := ds[i].items[0];
      assert Good(ds[i]) && Good(t);
      OtherTagFails(ds[0], e, t.id, more);
      AltFound(ds[1..], e, i - 1, b, n, v, more, k + 1);
    }
  }

  // ------------------------------------------------------------------ the round trip

  /** Decoding an encoded value gives the value back and consumes exactly its encoding, whatever
      follows a self-delimiting definition. */
  lemma {:induction false} RoundTrip(d: Def, e: Endian, v: Val, rest: seq<byte>)
    requires Good(d) && Typed(d, v) && CountersFit(d, e, v) && MayFollow(d, rest)
    ensures Back(d, e, v, rest)
    decreases d, 1
  {
    hide Ser, Deser, Good, Typed, CountersFit;
    if IsLeaf(d) {
      LeafRoundTrip(d, e, v, rest);
    } else if d.Array? || d.StaticVector? || d.Tuple? {
      ListBack(d, e, v, rest);
    } else if d.Variant? || d.Group? || d.TagGroup? {
      ChoiceBack(d, e, v, rest);
    } else {
      WrapperBack(d, e, v, rest);
    }
  }

  lemma {:induction false} ListBack(d: Def, e: Endian, v: Val, rest: seq<byte>)
    requires (d.Array? || d.StaticVector? || d.Tuple?) && Good(d) && Typed(d, v) && CountersFit(d, e, v)
    requires MayFollow(d, rest)
    ensures Back(d, e, v, rest)
    decreases d, 0
  {
    hide Ser, Deser, InRange;
    if d.Tuple? {
      forall i, r | 0 <= i < |d.items| && MayFollow(d.items[i], r)
        ensures Back(d.items[i], e, v.items[i], r)
      {
        RoundTrip(d.items[i], e, v.items[i], r);
      }
      TupleRoundTrip(d.items, e, v, rest);
    } else {
      forall i, r | 0 <= i < |v.items|
        ensures Back(d.elem, e, v.items[i], r)
      {
        RoundTrip(d.elem, e, v.items[i], r);
      }
      if d.Array? {
        ArrayRoundTrip(d.elem, d.n, e, v, rest);
      } else {
        VectorRoundTrip(d.elem, d.cap, e, v, rest);
      }
    }
  }

  lemma {:induction false} ChoiceBack(d: Def, e: Endian, v: Val, rest: seq<byte>)
    requires (d.Variant? || d.Group? || d.TagGroup?) && Good(d) && Typed(d, v) && CountersFit(d, e, v)
    requires MayFollow(d, rest)
    ensures Back(d, e, v, rest)
    decreases d, 0
  {
    hide Ser, Deser, InRange;
    RoundTrip(d.alts[v.index], e, v.alt, rest);
    match d
    case Variant(alts) => VariantRoundTrip(alts, e, v, rest);
    case Group(alts) => GroupRoundTrip(alts, e, v, rest);
    case TagGroup(w, sg, ids, alts) => TagGroupRoundTrip(w, sg, ids, alts, e, v, rest);
  }

  lemma {:induction false} WrapperBack(d: Def, e: Endian, v: Val, rest: seq<byte>)
    requires (d.Optional? || d.SizedBuffer? || d.WithEndian?) && Good(d) && Typed(d, v) && CountersFit(d, e, v)
    requires MayFollow(d, rest)
    ensures Back(d, e, v, rest)
    decreases d, 0
  {
    hide Ser, Deser, InRange;
    match d
    case Optional(some) =>
      if v.VSome? {
        RoundTrip(some, e, v.some, rest);
      }
      OptionalRoundTrip(some, e, v, rest);
    case SizedBuffer(counter, payload) =>
      RoundTrip(payload, e, v, []);
      SizedRoundTrip(counter, payload, e, v, rest);
    case WithEndian(order, inner) =>
      RoundTrip(inner, order, v, rest);
      EndianRoundTrip(order, inner, e, v, rest);
  }

  lemma ArrayRoundTrip(elem: Def, n: nat, e: Endian, v: Val, rest: seq<byte>)
    requires Good(Array(elem, n)) && Typed(Array(elem, n), v)
    requires v.VList? && Good(elem) && AllTyped(elem, v.items) && AllBack(elem, e, v.items)
    ensures Back(Array(elem, n), e, v, rest)
  {
    hide Ser, Deser, Good, Typed, SerMany, DeserMany, AllBack, AllTyped;
    ListParts(Array(elem, n), e, v);
    var m := SerMany(elem, e, v.items);
    ManyRoundTrip(elem, e, v.items, [], rest);
    assert [] + m + rest == m + rest;
    ArrayCase(elem, n, e, m + rest);
  }

  lemma TupleRoundTrip(items: seq<Def>, e: Endian, v: Val, rest: seq<byte>)
    requires Good(Tuple(items)) && Typed(Tuple(items), v) && MayFollow(Tuple(items), rest)
    requires AllGood(items) && v.VList? && TypedItems(items, v.items)
    requires forall i, r :: 0 <= i < |items| && MayFollow(items[i], r) ==> Back(items[i], e, v.items[i], r)
    ensures Back(Tuple(items), e, v, rest)
  {
    hide Ser, Deser, Typed, Good, SerItems, DeserItems;
    TupleParts(items, e, v);
    var m := SerItems(items, e, v.items);
    assert ItemsMayFollow(items, rest);
    ItemsRoundTrip(items, e, v.items, [], rest);
    assert [] + m + rest == m + rest;
    TupleCase(items, e, m + rest);
  }

  lemma VariantRoundTrip(alts: seq<Def>, e: Endian, v: Val, rest: seq<byte>)
    requires Good(Variant(alts)) && Typed(Variant(alts), v)
    requires v.VAlt? && v.index < |alts| && Good(alts[v.index]) && Typed(alts[v.index], v.alt)
    requires Back(alts[v.index], e, v.alt, rest)
    ensures Back(Variant(alts), e, v, rest)
  {
    hide Ser, Deser, Good, Typed;
    ChoiceParts(Variant(alts), e, v);
    var b := Ser(Variant(alts), e, v) + rest;
    assert b[1..] == Ser(alts[v.index], e, v.alt) + rest;
    VariantCase(alts, e, b);
  }

  lemma OptionalRoundTrip(some: Def, e: Endian, v: Val, rest: seq<byte>)
    requires Good(Optional(some)) && Typed(Optional(some), v)
    requires v.VSome? ==> Good(some) && Typed(some, v.some) && Back(some, e, v.some, rest)
    ensures Back(Optional(some), e, v, rest)
  {
    hide Ser, Deser, Good, Typed;
    WrapperParts(Optional(some), e, v);
    var b := Ser(Optional(some), e, v) + rest;
    OptionalCase(some, e, b);
    if v.VSome? {
      assert b[1..] == Ser(some, e, v.some) + rest;
    }
  }

  lemma EndianRoundTrip(order: Endian, inner: Def, e: Endian, v: Val, rest: seq<byte>)
    requires Good(WithEndian(order, inner)) && Typed(WithEndian(order, inner), v)
    requires Good(inner) && Typed(inner, v) && Back(inner, order, v, rest)
    ensures Back(WithEndian(order, inner), e, v, rest)
  {
    hide Ser, Deser, Good, Typed;
    WrapperParts(WithEndian(order, inner), e, v);
    EndianCase(order, inner, e, Ser(inner, order, v) + rest);
  }

  predicate IsLeaf(d: Def) {
    d.Int? || d.Bool? || d.Monostate? || d.Bitset? || d.Message? || d.SizelessMessage? || d.Offset?
    || d.Bounded? || d.Tag? || d.StringBuffer?
  }

  lemma LeafRoundTrip(d: Def, e: Endian, v: Val, rest: seq<byte>)
    requires IsLeaf(d) && Good(d) && Typed(d, v) && MayFollow(d, rest)
    ensures Back(d, e, v, rest)
  {
    hide SerInt, DeserInt, DeserBytes, InRange, BitOrdered, Deser, Ser, Good, Typed;
    match d
    case Int(_, _) => IntLeaf(d, e, v, rest);
    case Offset(_, _) => IntLeaf(d, e, v, rest);
    case Bounded(_, _, _, _) => IntLeaf(d, e, v, rest);
    case Tag(_, _, _) => IntLeaf(d, e, v, rest);
    case _ => BytesLeaf(d, e, v, rest);
  }

  lemma IntLeaf(d: Def, e: Endian, v: Val, rest: seq<byte>)
    requires (d.Int? || d.Offset? || d.Bounded? || d.Tag?) && Good(d) && Typed(d, v)
    ensures Back(d, e, v, rest)
  {
    hide SerInt, DeserInt, InRange;
    match d
    case Int(w, sg) => IntRoundTrip(w, sg, e, v.i, rest);
    case Offset(w, off) => OffsetRoundTrip(w, off, e, v.i, rest);
    case Bounded(w, sg, lo, hi) =>
      BoundedInRange(w, sg, lo, hi, v.i);
      IntRoundTrip(w, sg, e, v.i, rest);
    case Tag(w, sg, id) => IntRoundTrip(w, sg, e, id, rest);
  }

  lemma BytesLeaf(d: Def, e: Endian, v: Val, rest: seq<byte>)
    requires d.Bool? || d.Monostate? || d.Bitset? || d.Message? || d.SizelessMessage? || d.StringBuffer?
    requires Good(d) && Typed(d, v) && MayFollow(d, rest)
    ensures Back(d, e, v, rest)
  {
    hide SerInt, DeserBytes, BitOrdered;
    match d
    case Bool =>
    case Monostate =>
    case Bitset(n) => BitsetRoundTrip(e, v.bits, rest);
    case Message(cap) => BytesRoundTrip(cap, e, v.bytes, rest);
    case SizelessMessage(cap) => assert v.bytes + rest == v.bytes;
    case StringBuffer(cap) => BytesRoundTrip(cap - 1, e, v.bytes, rest);
  }

  /** A sized buffer comes back when, and consumes exactly its encoding only when, the payload length
      fits the counter. */
  lemma SizedRoundTrip(counter: Def, payload: Def, e: Endian, v: Val, rest: seq<byte>)
    requires Good(SizedBuffer(counter, payload)) && Typed(SizedBuffer(counter, payload), v)
    requires IsCounter(counter) && Good(payload) && Typed(payload, v) && Back(payload, e, v, [])
    requires CounterHolds(counter, |Ser(payload, e, v)|)
    ensures Back(SizedBuffer(counter, payload), e, v, rest)
  {
    hide Ser, Deser, Good, Typed, SerCounter, DeserCounter, Pow256;
    WrapperParts(SizedBuffer(counter, payload), e, v);
    var p := Ser(payload, e, v);
    var c := SerCounter(counter, e, |p|);
    assert p + [] == p;
    CounterRoundTrip(counter, e, |p|, p + rest);
    ModUnique(|p|, Pow256(counter.width), 0, |p|);
    assert c + p + rest == c + (p + rest);
    assert (c + p + rest)[|c|..|c| + |p|] == p;
    SizedCase(counter, payload, e, c + p + rest);
  }

  lemma TagGroupRoundTrip(w: nat, sg: bool, ids: seq<int>, alts: seq<Def>, e: Endian, v: Val, rest: seq<byte>)
    requires Good(TagGroup(w, sg, ids, alts)) && Typed(TagGroup(w, sg, ids, alts), v)
    requires v.VAlt? && v.index < |alts| && Good(alts[v.index]) && Typed(alts[v.index], v.alt)
    requires Back(alts[v.index], e, v.alt, rest)
    ensures Back(TagGroup(w, sg, ids, alts), e, v, rest)
  {
    hide Ser, Deser, Good, Typed, SerInt, DeserInt, InRange, TagIndex;
    ChoiceParts(TagGroup(w, sg, ids, alts), e, v);
    var p := Ser(alts[v.index], e, v.alt);
    var t := SerInt(w, e, ids[v.index]);
    assert t + p + rest == t + (p + rest);
    TagGroupCase(w, sg, ids, alts, e, t + p + rest);
    TagFound(w, sg, e, ids, v.index, p + rest);
    assert (t + p + rest)[w..] == p + rest;
  }

  lemma BoundedInRange(w: nat, signed: bool, lo: int, hi: int, x: int)
    requires InRange(w, signed, lo) && InRange(w, signed, hi) && lo <= x <= hi
    ensures InRange(w, signed, x)
  {
  }

  lemma GroupRoundTrip(alts: seq<Def>, e: Endian, v: Val, rest: seq<byte>)
    requires Good(Group(alts)) && Typed(Group(alts), v)
    requires v.VAlt? && v.index < |alts| && Good(alts[v.index]) && Typed(alts[v.index], v.alt)
    requires Back(alts[v.index], e, v.alt, rest)
    ensures Back(Group(alts), e, v, rest)
  {
    hide Ser, Deser, SerInt, Typed, Good, DeserAlts;
    ChoiceParts(Group(alts), e, v);
    var d := alts[v.index];
    var t := d.items[0];
    var s := Ser(d, e, v.alt);
    GroupCase(alts, e, s + rest);
    StartsWithTag(d, e, v.alt);
    var more :| s == SerInt(t.width, e, t.id) + more;
    assert s + rest == SerInt(t.width, e, t.id) + (more + rest);
    AltFound(alts, e, v.index, s + rest, |s|, v.alt, more + rest, 0);
  }

  lemma VectorRoundTrip(elem: Def, cap: nat, e: Endian, v: Val, rest: seq<byte>)
    requires Good(StaticVector(elem, cap)) && Typed(StaticVector(elem, cap), v)
    requires v.VList? && Good(elem) && AllTyped(elem, v.items) && AllBack(elem, e, v.items)
    ensures Back(StaticVector(elem, cap), e, v, rest)
  {
    hide Ser, Deser, Good, Typed, SerInt, DeserInt, InRange, DeserMany, SerMany, AllBack, AllTyped;
    ListParts(StaticVector(elem, cap), e, v);
    var n := |v.items|;
    var h := SerInt(2, e, n);
    var m := SerMany(elem, e, v.items);
    CountRange(n);
    ManyRoundTrip(elem, e, v.items, [], rest);
    assert [] + m + rest == m + rest;
    assert h + m + rest == h + (m + rest);
    IntRoundTrip(2, false, e, n, m + rest);
    assert (h + m + rest)[2..] == m + rest;
    VectorCase(elem, cap, e, h + m + rest);
  }
}

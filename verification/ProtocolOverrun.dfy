/** Which definitions have an input on which their decoder reads outside its buffer. */
module ProtocolOverrun {
  import opened Bytes
  import opened ProtocolDefs
  import opened ProtocolSpec
  import opened ProtocolLeaves
  import opened ProtocolLaws
  import opened ProtocolBounds
  import opened ProtocolExtension

  /** Every part can be reached: lists have elements, and a counter can tell the longest payload. */
  predicate Roomy(d: Def) {
    match d
    case Array(elem, n) => n > 0 && Roomy(elem)
    case Tuple(items) => forall i :: 0 <= i < |items| ==> Roomy(items[i])
    case Variant(alts) => forall i :: 0 <= i < |alts| ==> Roomy(alts[i])
    case Optional(some) => Roomy(some)
    case SizedBuffer(counter, payload) =>
      IsCounter(counter) && CounterHolds(counter, MaxSize(payload)) && Roomy(payload)
    case Group(alts) => forall i :: 0 <= i < |alts| ==> Roomy(alts[i])
    case TagGroup(_, _, _, alts) => forall i :: 0 <= i < |alts| ==> Roomy(alts[i])
    case WithEndian(_, inner) => Roomy(inner)
    case StaticVector(elem, cap) => cap > 0 && Roomy(elem)
    case _ => true
  }

  predicate AllRoomy(ds: seq<Def>) {
    forall i :: 0 <= i < |ds| ==> Roomy(ds[i])
  }

  predicate AllGuarded(ds: seq<Def>) {
    forall i :: 0 <= i < |ds| ==> Guarded(ds[i])
  }

  /** Unsized messages only in the last item. */
  predicate TrailingItems(ds: seq<Def>) {
    forall i :: 0 <= i < |ds| ==> Trailing(ds[i]) && (i < |ds| - 1 ==> Delimited(ds[i]))
  }

  lemma {:induction false} DelimitedTrails(d: Def)
    requires Delimited(d)
    ensures Trailing(d)
  {
    match d
    case Tuple(items) => if items != [] { DelimitedTrails(items[|items| - 1]); }
    case Variant(alts) =>
      forall i | 0 <= i < |alts| ensures Trailing(alts[i]) { DelimitedTrails(alts[i]); }
    case Optional(some) => DelimitedTrails(some);
    case Group(alts) =>
      forall i | 0 <= i < |alts| ensures Trailing(alts[i]) { DelimitedTrails(alts[i]); }
    case TagGroup(_, _, _, alts) =>
      forall i | 0 <= i < |alts| ensures Trailing(alts[i]) { DelimitedTrails(alts[i]); }
    case WithEndian(_, inner) => DelimitedTrails(inner);
    case _ =>
  }

  // ------------------------------------------------------------------ a value to stand in front

  lemma ZeroInRange(w: nat, signed: bool)
    requires GoodWidth(w)
    ensures InRange(w, signed, 0)
  {
    assert Pow256(w) == 256 * Pow256(w - 1);
  }

  lemma {:induction false} DefaultTyped(d: Def)
    requires Good(d)
    ensures Typed(d, Default(d))
    decreases d, 0
  {
    match d
    case Int(w, s) => ZeroInRange(w, s);
    case Offset(w, _) => ZeroInRange(w, false);
    case Array(elem, n) => DefaultTyped(elem);
    case Tuple(items) => DefaultsTyped(items);
    case Variant(alts) => DefaultTyped(alts[0]);
    case SizedBuffer(_, payload) => DefaultTyped(payload);
    case Group(alts) => DefaultTyped(alts[0]);
    case TagGroup(_, _, _, alts) => DefaultTyped(alts[0]);
    case WithEndian(_, inner) => DefaultTyped(inner);
    case _ =>
  }

  lemma {:induction false} DefaultsTyped(ds: seq<Def>)
    requires AllGood(ds)
    ensures TypedItems(ds, Defaults(ds))
    decreases ds, 0
  {
    hide Good, Typed;
    if ds != [] {
      DefaultTyped(ds[0]);
      DefaultsTyped(ds[1..]);
    }
  }

  lemma DefaultsAt(ds: seq<Def>, i: nat)
    requires i < |ds|
    ensures |Defaults(ds)| == |ds| && Defaults(ds)[i] == Default(ds[i])
  {
    if i > 0 {
      DefaultsAt(ds[1..], i - 1);
    } else if |ds| > 1 {
      DefaultsAt(ds[1..], 0);
    }
  }

  lemma {:induction false} DefaultFits(d: Def, e: Endian)
    requires Good(d) && Roomy(d)
    ensures Typed(d, Default(d)) && CountersFit(d, e, Default(d))
  {
    DefaultTyped(d);
    match d
    case Array(elem, n) => DefaultFits(elem, e);
    case Tuple(items) =>
      forall i | 0 <= i < |items|
        ensures CountersFit(items[i], e, Default(d).items[i])
      {
        DefaultsAt(items, i);
        DefaultFits(items[i], e);
      }
    case Variant(alts) => DefaultFits(alts[0], e);
    case SizedBuffer(_, payload) =>
      DefaultFits(payload, e);
      SizeBounds(payload, e, Default(payload));
    case Group(alts) => DefaultFits(alts[0], e);
    case TagGroup(_, _, _, alts) => DefaultFits(alts[0], e);
    case WithEndian(order, inner) => DefaultFits(inner, order);
    case _ =>
  }

  // ------------------------------------------------------------------ an input that overruns

  ghost predicate Overruns(d: Def, e: Endian, b: seq<byte>)
    requires Good(d)
  {
    Deser(d, e, b) == OutOfBounds && |b| <= MaxSize(d)
  }

  /** Every definition with an optional or an eight-byte counter in it has an input, no longer than an
      encoding may be, on which its decoder reads outside. */
  lemma {:induction false} Overrun(d: Def, e: Endian) returns (b: seq<byte>)
    requires Good(d) && Trailing(d) && Roomy(d) && !Guarded(d)
    ensures Overruns(d, e, b)
    decreases d, 1
  {
    hide Deser, Good, DeserCounter, DeserItems, TagIndex, Default, DeserInt;
    match d
    case Array(elem, n) =>
      ArrayCase(elem, n, e, []);
      b := ArrayOverrun(elem, n, e);
    case StaticVector(elem, cap) =>
      VectorCase(elem, cap, e, []);
      b := VectorOverrun(elem, cap, e);
    case Tuple(items) => b := TupleOverrun(items, e);
    case Variant(alts) =>
      VariantCase(alts, e, []);
      b := VariantOverrun(alts, e);
    case Optional(some) =>
      b := [];
      OptionalCase(some, e, b);
    case SizedBuffer(counter, payload) =>
      SizedCase(counter, payload, e, []);
      b := SizedOverrun(counter, payload, e);
    case Group(alts) =>
      GroupCase(alts, e, []);
      b := GroupOverrun(alts, e);
    case TagGroup(w, s, ids, alts) =>
      TagGroupCase(w, s, ids, alts, e, []);
      b := TagGroupOverrun(w, s, ids, alts, e);
    case WithEndian(order, inner) =>
      EndianCase(order, inner, e, []);
      b := Overrun(inner, order);
      EndianCase(order, inner, e, b);
  }

  lemma {:induction false} TupleOverrun(items: seq<Def>, e: Endian) returns (b: seq<byte>)
    requires Good(Tuple(items)) && Trailing(Tuple(items)) && AllRoomy(items) && !AllGuarded(items)
    ensures Overruns(Tuple(items), e, b)
    decreases items, 1
  {
    hide Deser, Good, DeserItems;
    TupleCase(items, e, []);
    forall i | 0 <= i < |items| - 1
      ensures Trailing(items[i])
    {
      DelimitedTrails(items[i]);
    }
    b := ItemsOverrun(items, e, []);
    TupleCase(items, e, b);
    assert [] + b == b;
  }

  lemma {:induction false} ArrayOverrun(elem: Def, n: nat, e: Endian) returns (b: seq<byte>)
    requires Good(Array(elem, n)) && Good(elem) && Delimited(elem) && Roomy(elem) && !Guarded(elem) && n > 0
    ensures Overruns(Array(elem, n), e, b)
    decreases elem, 2
  {
    hide Deser, Good, DeserMany;
    DelimitedTrails(elem);
    b := Overrun(elem, e);
    ArrayCase(elem, n, e, b);
    ManyStep(elem, e, n, b, 0);
    assert b[0..] == b;
    MulBoundBy(MaxSize(elem), 1, n);
  }

  lemma {:induction false} VectorOverrun(elem: Def, cap: nat, e: Endian) returns (b: seq<byte>)
    requires Good(StaticVector(elem, cap)) && Good(elem) && Delimited(elem) && Roomy(elem) && !Guarded(elem)
    requires cap > 0
    ensures Overruns(StaticVector(elem, cap), e, b)
    decreases elem, 2
  {
    hide Deser, Good, DeserMany, SerInt, DeserInt, InRange;
    DelimitedTrails(elem);
    var c := Overrun(elem, e);
    b := SerInt(2, e, 1) + c;
    CountRange(1);
    IntRoundTrip(2, false, e, 1, c);
    VectorCase(elem, cap, e, b);
    assert b[2..] == c && c[0..] == c;
    ManyStep(elem, e, 1, c, 0);
    MulBoundBy(MaxSize(elem), 1, cap);
  }

  /** The items in front of the first unguarded one are given their default values. */
  lemma {:induction false} ItemsOverrun(ds: seq<Def>, e: Endian, pre: seq<byte>) returns (b: seq<byte>)
    requires AllGood(ds) && TrailingItems(ds) && AllRoomy(ds) && !AllGuarded(ds)
    ensures DeserItems(ds, e, pre + b, |pre|) == OutOfBounds && |b| <= SumMax(ds)
    decreases ds, 0
  {
    hide Deser, Ser, Good, Typed, Trailing, Delimited, Roomy, Guarded, DeserItems, CountersFit, MaxSize;
    if !Guarded(ds[0]) {
      b := Overrun(ds[0], e);
      assert (pre + b)[|pre|..] == b;
      ItemsStep(ds, e, pre + b, |pre|);
    } else {
      var v := Default(ds[0]);
      DefaultFits(ds[0], e);
      SizeBounds(ds[0], e, v);
      var s := Ser(ds[0], e, v);
      var c := ItemsOverrun(ds[1..], e, pre + s);
      b := s + c;
      assert pre + s + c == pre + b && (pre + b)[|pre|..] == s + c;
      RoundTrip(ds[0], e, v, c);
      ItemsStep(ds, e, pre + b, |pre|);
    }
  }

  lemma {:induction false} VariantOverrun(alts: seq<Def>, e: Endian) returns (b: seq<byte>)
    requires Good(Variant(alts)) && AllGood(alts) && |alts| <= MAX_ITEMS && AllRoomy(alts) && !AllGuarded(alts)
    requires forall i :: 0 <= i < |alts| ==> Trailing(alts[i])
    ensures Overruns(Variant(alts), e, b)
    decreases alts, 0
  {
    hide Deser, Good, Trailing, Roomy, Guarded, MaxSize;
    var i :| 0 <= i < |alts| && !Guarded(alts[i]);
    var c := Overrun(alts[i], e);
    b := [i] + c;
    assert b[1..] == c;
    VariantCase(alts, e, b);
    AltMax(alts, i, |c|);
    ChoiceMax(Variant(alts));
  }

  lemma {:induction false} SizedOverrun(counter: Def, payload: Def, e: Endian) returns (b: seq<byte>)
    requires Good(SizedBuffer(counter, payload)) && IsCounter(counter) && Good(payload) && Trailing(payload)
    requires Roomy(payload) && CounterHolds(counter, MaxSize(payload))
    requires counter.width == 8 || !Guarded(payload)
    ensures Overruns(SizedBuffer(counter, payload), e, b)
    decreases payload, 2
  {
    hide Deser, Good, Trailing, Roomy, Guarded, DeserCounter, SerCounter, Pow256, MaxSize, Subspan;
    SizedMax(counter, payload);
    if counter.width == 8 {
      b := SerCounter(counter, e, SIZE_LIMIT - 2);
      WideCounterOverruns(counter, payload, e);
    } else {
      var c := Overrun(payload, e);
      b := SerCounter(counter, e, |c|) + c;
      CounterRoundTrip(counter, e, |c|, c);
      ModUnique(|c|, Pow256(counter.width), 0, |c|);
      WidthBound(counter.width);
      SizedCase(counter, payload, e, b);
      PartBehind(SerCounter(counter, e, |c|), c);
    }
  }

  lemma PartBehind(h: seq<byte>, c: seq<byte>)
    requires |c| < SIZE_LIMIT - 1
    ensures Subspan(h + c, |h|, |c|) == Some(c)
  {
    assert (h + c)[|h|..|h| + |c|] == c;
  }

  lemma SizedMax(counter: Def, payload: Def)
    requires IsCounter(counter)
    ensures MaxSize(SizedBuffer(counter, payload)) == counter.width + MaxSize(payload)
  {
  }

  lemma {:induction false} GroupOverrun(alts: seq<Def>, e: Endian) returns (b: seq<byte>)
    requires Good(Group(alts)) && AllGood(alts) && TagsDiffer(alts) && AllRoomy(alts) && !AllGuarded(alts)
    requires forall i :: 0 <= i < |alts| ==> Trailing(alts[i])
    ensures Overruns(Group(alts), e, b)
    decreases alts, 0
  {
    hide Deser, Good, Trailing, Roomy, Guarded, MaxSize;
    var i :| 0 <= i < |alts| && !Guarded(alts[i]);
    b := Overrun(alts[i], e);
    GroupCase(alts, e, b);
    AltReached(alts, e, b, i, 0);
    AltMax(alts, i, |b|);
    ChoiceMax(Group(alts));
  }

  /** Bytes on which an alternative reads outside begin with its tag, so no other one takes them. */
  lemma {:induction false} AltReached(ds: seq<Def>, e: Endian, b: seq<byte>, i: nat, k: nat)
    requires AllGood(ds) && TagsDiffer(ds) && i < |ds| && Deser(ds[i], e, b) == OutOfBounds
    ensures DeserAlts(ds, e, b, k) == OutOfBounds
    decreases ds
  {
    hide Deser, Good, DeserInt;
    TagDecides(ds[i], e, b);
    TagDecides(ds[0], e, b);
    if i > 0 {
      AltReached(ds[1..], e, b, i - 1, k + 1);
    }
  }

  lemma {:induction false} TagGroupOverrun(w: nat, s: bool, ids: seq<int>, alts: seq<Def>, e: Endian)
    returns (b: seq<byte>)
    requires Good(TagGroup(w, s, ids, alts)) && AllGood(alts) && AllRoomy(alts) && !AllGuarded(alts)
    requires forall i :: 0 <= i < |alts| ==> Trailing(alts[i])
    ensures Overruns(TagGroup(w, s, ids, alts), e, b)
    decreases alts, 0
  {
    hide Deser, Good, Trailing, Roomy, Guarded, MaxSize, SerInt, TagIndex, InRange, Default;
    TagGroupCase(w, s, ids, alts, e, []);
    var i :| 0 <= i < |alts| && !Guarded(alts[i]);
    var c := Overrun(alts[i], e);
    b := SerInt(w, e, ids[i]) + c;
    assert b[w..] == c;
    TagFound(w, s, e, ids, i, c);
    TagGroupCase(w, s, ids, alts, e, b);
    AltMax(alts, i, |c|);
    ChoiceMax(TagGroup(w, s, ids, alts));
  }

  lemma {:induction false} AltMax(ds: seq<Def>, i: nat, n: nat)
    requires i < |ds| && n <= MaxSize(ds[i])
    ensures n <= LargestMax(ds)
  {
    hide MaxSize;
    if i > 0 {
      AltMax(ds[1..], i - 1, n);
    }
  }

  lemma ChoiceMax(d: Def)
    requires d.Variant? || d.Group? || d.TagGroup?
    ensures MaxSize(d) == LargestMax(d.alts) + if d.Variant? then 1 else if d.Group? then 0 else d.width
  {
  }

  /** A decoder reads outside on some input if and only if its definition has an optional or an eight-byte
      counter. */
  lemma OverrunExactly(d: Def, e: Endian)
    requires Good(d) && Trailing(d) && Roomy(d)
    ensures (exists b: seq<byte> :: Deser(d, e, b) == OutOfBounds) <==> !Guarded(d)
  {
    hide Deser, Good, Trailing, Roomy, Guarded;
    if Guarded(d) {
      forall b: seq<byte>
        ensures Deser(d, e, b) != OutOfBounds
      {
        NeverOutside(d, e, b);
      }
    } else {
      var b := Overrun(d, e);
      assert Deser(d, e, b) == OutOfBounds;
    }
  }
}

/** The compile-time size bounds are the best ones: values whose encodings are exactly as short and as long. */
module ProtocolTight {
  import opened Bytes
  import opened ProtocolDefs
  import opened ProtocolSpec
  import opened ProtocolLaws
  import opened ProtocolBounds
  import opened ProtocolOverrun

  /** A value whose encoding is n bytes long. */
  ghost predicate Sized(d: Def, e: Endian, v: Val, n: nat)
    requires Good(d)
  {
    Typed(d, v) && |Ser(d, e, v)| == n
  }

  /** No string: its size bound counts a terminator that is not sent. */
  predicate NoStrings(d: Def) {
    match d
    case Array(elem, _) => NoStrings(elem)
    case Tuple(items) => forall i :: 0 <= i < |items| ==> NoStrings(items[i])
    case Variant(alts) => forall i :: 0 <= i < |alts| ==> NoStrings(alts[i])
    case Optional(some) => NoStrings(some)
    case SizedBuffer(_, payload) => NoStrings(payload)
    case Group(alts) => forall i :: 0 <= i < |alts| ==> NoStrings(alts[i])
    case TagGroup(_, _, _, alts) => forall i :: 0 <= i < |alts| ==> NoStrings(alts[i])
    case WithEndian(_, inner) => NoStrings(inner)
    case StringBuffer(_) => false
    case StaticVector(elem, _) => NoStrings(elem)
    case _ => true
  }

  /** Which of the two bounds is asked for. */
  function BoundOf(max: bool, d: Def): nat {
    if max then MaxSize(d) else MinSize(d)
  }

  /** Each bound is the size of some encoding; the upper one, of definitions without strings. */
  lemma {:induction false} BoundAttained(max: bool, d: Def, e: Endian) returns (v: Val)
    requires Good(d) && (max ==> NoStrings(d))
    ensures Sized(d, e, v, BoundOf(max, d))
    decreases d, 1
  {
    hide Good, Typed, Ser, MaxSize, MinSize, Default;
    if IsLeaf(d) {
      v := LeafAttained(max, d, e);
    } else if d.Array? || d.StaticVector? || d.Tuple? {
      v := ListAttained(max, d, e);
    } else if d.Variant? || d.Group? || d.TagGroup? {
      v := ChoiceAttained(max, d, e);
    } else {
      v := WrapperAttained(max, d, e);
    }
  }

  lemma {:induction false} ListAttained(max: bool, d: Def, e: Endian) returns (v: Val)
    requires (d.Array? || d.StaticVector? || d.Tuple?) && Good(d) && (max ==> NoStrings(d))
    ensures Sized(d, e, v, BoundOf(max, d))
    decreases d, 0
  {
    hide Ser;
    match d
    case Array(elem, n) =>
      var x := BoundAttained(max, elem, e);
      v := VList(seq(n, _ => x));
      SameElements(elem, e, x, n);
      Commutes(BoundOf(max, elem), n);
      ListParts(d, e, v);
    case Tuple(items) =>
      var vs := ItemsAttained(max, items, e);
      v := VList(vs);
      TupleParts(items, e, v);
    case StaticVector(elem, cap) =>
      if max {
        var x := BoundAttained(max, elem, e);
        v := VList(seq(cap, _ => x));
        SameElements(elem, e, x, cap);
        Commutes(MaxSize(elem), cap);
      } else {
        v := VList([]);
      }
      ListParts(d, e, v);
  }

  lemma {:induction false} ChoiceAttained(max: bool, d: Def, e: Endian) returns (v: Val)
    requires (d.Variant? || d.Group? || d.TagGroup?) && Good(d) && (max ==> NoStrings(d))
    ensures Sized(d, e, v, BoundOf(max, d))
    decreases d, 0
  {
    hide Ser;
    var i, x := AltAttained(max, d.alts, e);
    v := VAlt(i, x);
    ChoiceParts(d, e, v);
  }

  lemma {:induction false} WrapperAttained(max: bool, d: Def, e: Endian) returns (v: Val)
    requires (d.Optional? || d.SizedBuffer? || d.WithEndian?) && Good(d) && (max ==> NoStrings(d))
    ensures Sized(d, e, v, BoundOf(max, d))
    decreases d, 0
  {
    hide Ser, SerCounter;
    match d
    case Optional(some) =>
      if max {
        var x := BoundAttained(max, some, e);
        v := VSome(x);
      } else {
        v := VNone;
      }
      WrapperParts(d, e, v);
    case SizedBuffer(counter, payload) =>
      v := BoundAttained(max, payload, e);
      CounterSize(counter);
      WrapperParts(d, e, v);
    case WithEndian(order, inner) =>
      v := BoundAttained(max, inner, order);
      WrapperParts(d, e, v);
  }

  lemma Commutes(a: nat, b: nat)
    ensures a * b == b * a
  {
  }

  lemma LeafAttained(max: bool, d: Def, e: Endian) returns (v: Val)
    requires IsLeaf(d) && Good(d) && (max ==> NoStrings(d))
    ensures Sized(d, e, v, BoundOf(max, d))
  {
    DefaultTyped(d);
    v := match d
      case Message(cap) => VBytes(if max then Zeros(cap) else [])
      case SizelessMessage(cap) => VBytes(if max then Zeros(cap) else [])
      case _ => Default(d);
  }

  lemma {:induction false} SameElements(d: Def, e: Endian, v: Val, n: nat)
    requires Good(d) && Typed(d, v)
    ensures var vs := seq(n, _ => v); AllTyped(d, vs) && |SerMany(d, e, vs)| == n * |Ser(d, e, v)|
  {
    hide Good, Typed, Ser;
    if n > 0 {
      SameElements(d, e, v, n - 1);
      assert seq(n, _ => v)[1..] == seq(n - 1, _ => v);
      OneMore(n - 1, |Ser(d, e, v)|);
    }
  }

  lemma OneMore(n: nat, k: nat)
    ensures (n + 1) * k == n * k + k
  {
  }

  lemma {:induction false} ItemsAttained(max: bool, ds: seq<Def>, e: Endian) returns (vs: seq<Val>)
    requires AllGood(ds) && (max ==> forall i :: 0 <= i < |ds| ==> NoStrings(ds[i]))
    ensures TypedItems(ds, vs) && |SerItems(ds, e, vs)| == if max then SumMax(ds) else SumMin(ds)
    decreases ds, 0
  {
    hide Good, Typed, Ser, NoStrings, MaxSize, MinSize;
    if ds == [] {
      vs := [];
    } else {
      var v := BoundAttained(max, ds[0], e);
      var rest := ItemsAttained(max, ds[1..], e);
      vs := [v] + rest;
      assert vs[1..] == rest;
    }
  }

  lemma {:induction false} AltAttained(max: bool, ds: seq<Def>, e: Endian) returns (i: nat, v: Val)
    requires ds != [] && AllGood(ds) && (max ==> forall i :: 0 <= i < |ds| ==> NoStrings(ds[i]))
    ensures i < |ds| && Sized(ds[i], e, v, if max then LargestMax(ds) else SmallestMin(ds))
    decreases ds, 0
  {
    hide Good, Typed, Ser, NoStrings, MaxSize, MinSize;
    if |ds| == 1 || (if max then MaxSize(ds[0]) >= LargestMax(ds[1..]) else MinSize(ds[0]) <= SmallestMin(ds[1..])) {
      i := 0;
      v := BoundAttained(max, ds[0], e);
      assert |ds| == 1 ==> LargestMax(ds[1..]) == 0;
    } else {
      var j;
      j, v := AltAttained(max, ds[1..], e);
      i := j + 1;
    }
  }

  /** A string takes at most one byte less than its bound says. */
  lemma StringBound(cap: nat, e: Endian, v: Val)
    requires Good(StringBuffer(cap)) && Typed(StringBuffer(cap), v)
    ensures |Ser(StringBuffer(cap), e, v)| < MaxSize(StringBuffer(cap))
  {
  }

  /** And some string takes that much. */
  lemma StringAttained(cap: nat, e: Endian) returns (v: Val)
    requires Good(StringBuffer(cap))
    ensures Sized(StringBuffer(cap), e, v, MaxSize(StringBuffer(cap)) - 1)
  {
    v := VBytes(seq(cap - 1, _ => 1));
  }
}

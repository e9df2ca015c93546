/** Protocol definitions, the values they describe, and the size bounds of their encodings.

    The original selects a converter at compile time from the type of the definition; here a
    definition is a tree and every converter is one case. */
module ProtocolDefs {
  import opened Bytes

  datatype Endian = Big | Little

  datatype Mark = SizeErr | BigSizeErr | BoundsErr | UndefVarErr | BadValErr | GroupErr | ChecksumErr

  datatype Def =
    | Int(width: nat, signed: bool)
    | Bool
    | Array(elem: Def, n: nat)
    | Tuple(items: seq<Def>)
    | Variant(alts: seq<Def>)
    | Monostate
    | Optional(some: Def)
    | Bitset(bits: nat)
    | Message(cap: nat)
    | SizelessMessage(cap: nat)
    | Offset(width: nat, offset: int)  // an unsigned integer shifted by a constant
    | Bounded(width: nat, signed: bool, min: int, max: int)
    | SizedBuffer(counter: Def, payload: Def)
    | Tag(width: nat, signed: bool, id: int)
    | Group(alts: seq<Def>)
    | TagGroup(width: nat, signed: bool, ids: seq<int>, alts: seq<Def>)
    | WithEndian(order: Endian, inner: Def)
    | StringBuffer(cap: nat)
    | StaticVector(elem: Def, cap: nat)

  datatype Val =
    | VUnit
    | VInt(i: int)
    | VBool(b: bool)
    | VList(items: seq<Val>)
    | VAlt(index: nat, alt: Val)
    | VNone
    | VSome(some: Val)
    | VBits(bits: seq<bool>)
    | VBytes(bytes: seq<byte>)

  const MAX_ITEMS: nat := 64  // the index helpers repeat positions from here on
  const MAX_COUNT: nat := 0xFFFF

  // ------------------------------------------------------------------ integers

  predicate InRange(w: nat, signed: bool, x: int) {
    if signed then -(Pow256(w) / 2) <= x < Pow256(w) / 2 else 0 <= x < Pow256(w)
  }

  predicate GoodWidth(w: nat) {
    w == 1 || w == 2 || w == 4 || w == 8
  }

  // ------------------------------------------------------------------ which definitions compile

  predicate IsCounter(d: Def) {
    (d.Int? && !d.signed && GoodWidth(d.width)) || (d.Offset? && GoodWidth(d.width))
  }

  function CounterWidth(d: Def): nat
    requires IsCounter(d)
  {
    d.width
  }

  predicate Distinct(ids: seq<int>) {
    forall i, j :: 0 <= i < j < |ids| ==> ids[i] != ids[j]
  }

  /** An alternative of a group: a tuple that starts with a tag. */
  predicate TagLed(d: Def) {
    d.Tuple? && d.items != [] && d.items[0].Tag?
  }

  predicate TagsDiffer(ds: seq<Def>) {
    && (forall i :: 0 <= i < |ds| ==> TagLed(ds[i]))
    && (forall i :: 0 <= i < |ds| ==>
          ds[i].items[0].width == ds[0].items[0].width && ds[i].items[0].signed == ds[0].items[0].signed)
    && (forall i, j :: 0 <= i < j < |ds| ==> ds[i].items[0].id != ds[j].items[0].id)
  }

  predicate Good(d: Def)
  {
    match d
    case Int(w, _) => GoodWidth(w)
    case Bool => true
    case Array(elem, _) => Good(elem)
    case Tuple(items) => |items| <= MAX_ITEMS && (forall i :: 0 <= i < |items| ==> Good(items[i]))
    case Variant(alts) => 1 <= |alts| <= MAX_ITEMS && (forall i :: 0 <= i < |alts| ==> Good(alts[i]))
    case Monostate => true
    case Optional(some) => Good(some)
    case Bitset(_) => true
    case Message(cap) => cap <= MAX_COUNT
    case SizelessMessage(_) => true
    case Offset(w, _) => GoodWidth(w)
    case Bounded(w, s, lo, hi) => GoodWidth(w) && lo <= hi && InRange(w, s, lo) && InRange(w, s, hi)
    case SizedBuffer(counter, payload) => IsCounter(counter) && Good(payload)
    case Tag(w, s, id) => GoodWidth(w) && InRange(w, s, id)
    case Group(alts) => 1 <= |alts| <= MAX_ITEMS && (forall i :: 0 <= i < |alts| ==> Good(alts[i])) && TagsDiffer(alts)
    case TagGroup(w, s, ids, alts) =>
      && GoodWidth(w) && 1 <= |alts| <= MAX_ITEMS && |ids| == |alts| && Distinct(ids)
      && (forall i :: 0 <= i < |ids| ==> InRange(w, s, ids[i])) && (forall i :: 0 <= i < |alts| ==> Good(alts[i]))
    case WithEndian(_, inner) => Good(inner)
    case StringBuffer(cap) => 1 <= cap <= MAX_COUNT
    case StaticVector(elem, cap) => cap <= MAX_COUNT && Good(elem)
  }

  predicate AllGood(ds: seq<Def>) {
    forall i :: 0 <= i < |ds| ==> Good(ds[i])
  }

  /** The encoding tells where it ends: no unsized message outside a sized buffer. */
  predicate Delimited(d: Def)
  {
    match d
    case Array(elem, _) => Delimited(elem)
    case Tuple(items) => (forall i :: 0 <= i < |items| ==> Delimited(items[i]))
    case Variant(alts) => (forall i :: 0 <= i < |alts| ==> Delimited(alts[i]))
    case Optional(some) => Delimited(some)
    case SizelessMessage(_) => false
    case SizedBuffer(_, payload) => Trailing(payload)
    case Group(alts) => (forall i :: 0 <= i < |alts| ==> Delimited(alts[i]))
    case TagGroup(_, _, _, alts) => (forall i :: 0 <= i < |alts| ==> Delimited(alts[i]))
    case WithEndian(_, inner) => Delimited(inner)
    case StaticVector(elem, _) => Delimited(elem)
    case _ => true
  }

  /** Unsized messages stand at most at the very end. */
  predicate Trailing(d: Def)
  {
    match d
    case Array(elem, _) => Delimited(elem)
    case Tuple(items) =>
      && (forall i :: 0 <= i < |items| - 1 ==> Delimited(items[i]))
      && (items != [] ==> Trailing(items[|items| - 1]))
    case Variant(alts) => (forall i :: 0 <= i < |alts| ==> Trailing(alts[i]))
    case Optional(some) => Trailing(some)
    case SizelessMessage(_) => true
    case SizedBuffer(_, payload) => Trailing(payload)
    case Group(alts) => (forall i :: 0 <= i < |alts| ==> Trailing(alts[i]))
    case TagGroup(_, _, _, alts) => (forall i :: 0 <= i < |alts| ==> Trailing(alts[i]))
    case WithEndian(_, inner) => Trailing(inner)
    case StaticVector(elem, _) => Delimited(elem)
    case _ => true
  }

  // ------------------------------------------------------------------ values of a definition

  predicate Typed(d: Def, v: Val)
  {
    match d
    case Int(w, s) => v.VInt? && InRange(w, s, v.i)
    case Bool => v.VBool?
    case Array(elem, n) => v.VList? && |v.items| == n && (forall i :: 0 <= i < |v.items| ==> Typed(elem, v.items[i]))
    case Tuple(items) =>
      v.VList? && |v.items| == |items| && forall i :: 0 <= i < |items| ==> Typed(items[i], v.items[i])
    case Variant(alts) => v.VAlt? && v.index < |alts| && Typed(alts[v.index], v.alt)
    case Monostate => v.VUnit?
    case Optional(some) => v.VNone? || (v.VSome? && Typed(some, v.some))
    case Bitset(n) => v.VBits? && |v.bits| == n
    case Message(cap) => v.VBytes? && |v.bytes| <= cap
    case SizelessMessage(cap) => v.VBytes? && |v.bytes| <= cap
    case Offset(w, _) => v.VInt? && InRange(w, false, v.i)
    case Bounded(w, s, lo, hi) => v.VInt? && lo <= v.i <= hi
    case SizedBuffer(_, payload) => Typed(payload, v)
    case Tag(_, _, _) => v.VUnit?
    case Group(alts) => v.VAlt? && v.index < |alts| && Typed(alts[v.index], v.alt)
    case TagGroup(_, _, ids, alts) =>
      v.VAlt? && v.index < |alts| && v.index < |ids| && Typed(alts[v.index], v.alt)
    case WithEndian(_, inner) => Typed(inner, v)
    case StringBuffer(cap) => v.VBytes? && |v.bytes| < cap && 0 !in v.bytes
    case StaticVector(elem, cap) =>
      v.VList? && |v.items| <= cap && forall i :: 0 <= i < |v.items| ==> Typed(elem, v.items[i])
  }

  predicate AllTyped(d: Def, vs: seq<Val>) {
    forall i :: 0 <= i < |vs| ==> Typed(d, vs[i])
  }

  predicate TypedItems(ds: seq<Def>, vs: seq<Val>) {
    |ds| == |vs| && forall i :: 0 <= i < |ds| ==> Typed(ds[i], vs[i])
  }

  /** The value an output variable starts with. */
  function Default(d: Def): Val
    decreases d, 0
  {
    match d
    case Int(_, _) => VInt(0)
    case Bool => VBool(false)
    case Array(elem, n) => VList(seq(n, _ => Default(elem)))
    case Tuple(items) => VList(Defaults(items))
    case Variant(alts) => VAlt(0, if alts == [] then VUnit else Default(alts[0]))
    case Monostate => VUnit
    case Optional(_) => VNone
    case Bitset(n) => VBits(seq(n, _ => false))
    case Message(_) => VBytes([])
    case SizelessMessage(_) => VBytes([])
    case Offset(_, _) => VInt(0)
    case Bounded(_, _, lo, _) => VInt(lo)
    case SizedBuffer(_, payload) => Default(payload)
    case Tag(_, _, _) => VUnit
    case Group(alts) => VAlt(0, if alts == [] then VUnit else Default(alts[0]))
    case TagGroup(_, _, _, alts) => VAlt(0, if alts == [] then VUnit else Default(alts[0]))
    case WithEndian(_, inner) => Default(inner)
    case StringBuffer(_) => VBytes([])
    case StaticVector(_, _) => VList([])
  }

  function Defaults(ds: seq<Def>): seq<Val>
    decreases ds, 0
  {
    if ds == [] then [] else [Default(ds[0])] + Defaults(ds[1..])
  }

  // ------------------------------------------------------------------ size bounds

  function BitBytes(n: nat): nat {
    (n + 7) / 8
  }

  function MaxSize(d: Def): nat
    decreases d, 0
  {
    match d
    case Int(w, _) => w
    case Bool => 1
    case Array(elem, n) => MaxSize(elem) * n
    case Tuple(items) => SumMax(items)
    case Variant(alts) => 1 + LargestMax(alts)
    case Monostate => 0
    case Optional(some) => 1 + MaxSize(some)
    case Bitset(n) => BitBytes(n)
    case Message(cap) => 2 + cap
    case SizelessMessage(cap) => cap
    case Offset(w, _) => w
    case Bounded(w, _, _, _) => w
    case SizedBuffer(counter, payload) => MaxSize(counter) + MaxSize(payload)
    case Tag(w, _, _) => w
    case Group(alts) => LargestMax(alts)
    case TagGroup(w, _, _, alts) => w + LargestMax(alts)
    case WithEndian(_, inner) => MaxSize(inner)
    case StringBuffer(cap) => cap + 2
    case StaticVector(elem, cap) => 2 + MaxSize(elem) * cap
  }

  function SumMax(ds: seq<Def>): nat
    decreases ds, 0
  {
    if ds == [] then 0 else MaxSize(ds[0]) + SumMax(ds[1..])
  }

  function LargestMax(ds: seq<Def>): nat
    decreases ds, 0
  {
    if ds == [] then 0
    else
      var m := LargestMax(ds[1..]);
      if MaxSize(ds[0]) >= m then MaxSize(ds[0]) else m
  }

  function MinSize(d: Def): nat
    decreases d, 0
  {
    match d
    case Int(w, _) => w
    case Bool => 1
    case Array(elem, n) => MinSize(elem) * n
    case Tuple(items) => SumMin(items)
    case Variant(alts) => 1 + SmallestMin(alts)
    case Monostate => 0
    case Optional(_) => 1
    case Bitset(n) => BitBytes(n)
    case Message(_) => 2
    case SizelessMessage(_) => 0
    case Offset(w, _) => w
    case Bounded(w, _, _, _) => w
    case SizedBuffer(counter, payload) => MinSize(counter) + MinSize(payload)
    case Tag(w, _, _) => w
    case Group(alts) => SmallestMin(alts)
    case TagGroup(w, _, _, alts) => w + SmallestMin(alts)
    case WithEndian(_, inner) => MinSize(inner)
    case StringBuffer(_) => 2
    case StaticVector(_, _) => 2
  }

  function SumMin(ds: seq<Def>): nat
    decreases ds, 0
  {
    if ds == [] then 0 else MinSize(ds[0]) + SumMin(ds[1..])
  }

  function SmallestMin(ds: seq<Def>): nat
    decreases ds, 0
  {
    if ds == [] then 0
    else if |ds| == 1 then MinSize(ds[0])
    else
      var m := SmallestMin(ds[1..]);
      if MinSize(ds[0]) <= m then MinSize(ds[0]) else m
  }
}

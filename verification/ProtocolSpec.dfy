/** What the converters compute: the encoding of a value and the result of decoding a buffer. */
module ProtocolSpec {
  import opened Bytes
  import opened ProtocolDefs

  /** Outcome of a deserialization.  OutOfBounds marks a read outside the buffer, after which the
      original promises nothing: an optional takes the first byte without asking whether there is
      one, and the length check of a sized buffer compares with a sum that wraps. */
  datatype Res<+T> =
    | Fine(used: nat, value: T)
    | Fail(used: nat, err: Mark)
    | OutOfBounds

  function Reverse<T>(s: seq<T>): (r: seq<T>)
    ensures |r| == |s|
    ensures forall i :: 0 <= i < |s| ==> r[i] == s[|s| - 1 - i]
  {
    seq(|s|, i requires 0 <= i < |s| => s[|s| - 1 - i])
  }

  /** Little-endian bytes in the requested order. */
  function Ordered(e: Endian, s: seq<byte>): (r: seq<byte>)
    ensures |r| == |s|
  {
    if e == Little then s else Reverse(s)
  }

  // ------------------------------------------------------------------ leaves

  function SerInt(w: nat, e: Endian, x: int): (r: seq<byte>)
    ensures |r| == w
  {
    Ordered(e, ToLittle(w, x))
  }

  /** The number a w-byte pattern stands for. */
  function Signed(w: nat, signed: bool, raw: nat): int {
    if signed && raw >= Pow256(w) / 2 then raw - Pow256(w) else raw
  }

  function DeserInt(w: nat, signed: bool, e: Endian, b: seq<byte>): Res<int> {
    if |b| < w then Fail(0, SizeErr)
    else Fine(w, Signed(w, signed, FromLittle(Ordered(e, b[..w]))))
  }

  /** Up to eight bits packed into a byte, first bit lowest. */
  function PackBits(bits: seq<bool>): (r: nat)
    ensures |bits| <= 8 ==> r < 256
    ensures r < Pow2(|bits|)
  {
    PowerOfTwo(|bits|);
    if bits == [] then 0 else (if bits[0] then 1 else 0) + 2 * PackBits(bits[1..])
  }

  lemma PowerOfTwo(n: nat)
    ensures Pow2(n) >= 1
    ensures n <= 8 ==> Pow2(n) <= 256
  {
    assert n <= 8 ==> n == 0 || n == 1 || n == 2 || n == 3 || n == 4 || n == 5 || n == 6 || n == 7 || n == 8;
    if n > 0 { PowerOfTwo(n - 1); }
  }

  function UnpackBits(n: nat, x: nat): (bits: seq<bool>)
    ensures |bits| == n
  {
    if n == 0 then [] else [x % 2 == 1] + UnpackBits(n - 1, x / 2)
  }

  function Chunk(bits: seq<bool>): (c: seq<bool>)
    ensures |c| <= 8 && |c| <= |bits|
  {
    if |bits| <= 8 then bits else bits[..8]
  }

  /** Eight bits a byte, lowest bits in the first byte. */
  function SerBits(bits: seq<bool>): (r: seq<byte>)
    ensures |r| == BitBytes(|bits|)
  {
    if bits == [] then [] else [PackBits(Chunk(bits))] + SerBits(bits[|Chunk(bits)|..])
  }

  function DeserBits(n: nat, b: seq<byte>): (bits: seq<bool>)
    requires |b| == BitBytes(n)
    ensures |bits| == n
    decreases n
  {
    if n == 0 then []
    else if n <= 8 then UnpackBits(n, b[0])
    else UnpackBits(8, b[0]) + DeserBits(n - 8, b[1..])
  }

  /** Bytes of a bitset are ordered the other way round: the big-endian form starts with bit 0. */
  function BitOrdered(e: Endian, s: seq<byte>): (r: seq<byte>)
    ensures |r| == |s|
  {
    if e == Big then s else Reverse(s)
  }

  /** Length-prefixed bytes: the buffer is checked before the capacity. */
  function DeserBytes(limit: nat, e: Endian, b: seq<byte>): Res<Val> {
    match DeserInt(2, false, e, b)
    case Fail(u, err) => Fail(u, err)
    case OutOfBounds => OutOfBounds
    case Fine(u, size) =>
      if |b| < u + size then Fail(u, SizeErr)
      else if size < 0 || size > limit then Fail(u, BigSizeErr)
      else Fine(u + size, VBytes(b[u..u + size]))
  }

  /** The part of a buffer that a count selects: the greatest count there is stands for all the rest.
      None: the part would end behind the buffer. */
  function Subspan(b: seq<byte>, from: nat, count: nat): (part: Option<seq<byte>>)
    ensures part.Some? ==> from <= |b| && |part.value| <= |b| - from
  {
    if from <= |b| && count == SIZE_LIMIT - 1 then Some(b[from..])
    else if from + count <= |b| then Some(b[from..from + count])
    else None
  }

  function CounterShift(d: Def): int
    requires IsCounter(d)
  {
    if d.Offset? then d.offset else 0
  }

  function SerCounter(d: Def, e: Endian, count: nat): (r: seq<byte>)
    requires IsCounter(d)
    ensures |r| == CounterWidth(d)
  {
    SerInt(d.width, e, count % Pow256(d.width) + CounterShift(d))
  }

  function DeserCounter(d: Def, e: Endian, b: seq<byte>): Res<nat>
    requires IsCounter(d)
  {
    match DeserInt(d.width, false, e, b)
    case Fail(u, err) => Fail(u, err)
    case OutOfBounds => OutOfBounds
    case Fine(u, x) => Fine(u, (x - CounterShift(d)) % Pow256(d.width))
  }

  // ------------------------------------------------------------------ encoding

  function Ser(d: Def, e: Endian, v: Val): seq<byte>
    requires Good(d) && Typed(d, v)
    decreases d, 0
  {
    match d
    case Int(w, _) => SerInt(w, e, v.i)
    case Bool => [if v.b then 1 else 0]
    case Array(elem, _) => SerMany(elem, e, v.items)
    case Tuple(items) => SerItems(items, e, v.items)
    case Variant(alts) => [v.index] + Ser(alts[v.index], e, v.alt)
    case Monostate => []
    case Optional(some) => if v.VNone? then [0] else [1] + Ser(some, e, v.some)
    case Bitset(_) => BitOrdered(e, SerBits(v.bits))
    case Message(_) => SerInt(2, e, |v.bytes|) + v.bytes
    case SizelessMessage(_) => v.bytes
    case Offset(w, off) => SerInt(w, e, v.i + off)
    case Bounded(w, _, _, _) => SerInt(w, e, v.i)
    case SizedBuffer(counter, payload) =>
      var p := Ser(payload, e, v);
      SerCounter(counter, e, |p|) + p
    case Tag(w, _, id) => SerInt(w, e, id)
    case Group(alts) => Ser(alts[v.index], e, v.alt)
    case TagGroup(w, _, ids, alts) => SerInt(w, e, ids[v.index]) + Ser(alts[v.index], e, v.alt)
    case WithEndian(order, inner) => Ser(inner, order, v)
    case StringBuffer(_) => SerInt(2, e, |v.bytes|) + v.bytes
    case StaticVector(elem, _) => SerInt(2, e, |v.items|) + SerMany(elem, e, v.items)
  }

  function SerMany(d: Def, e: Endian, vs: seq<Val>): seq<byte>
    requires Good(d) && AllTyped(d, vs)
    decreases d, 1 + |vs|
  {
    if vs == [] then [] else Ser(d, e, vs[0]) + SerMany(d, e, vs[1..])
  }

  function SerItems(ds: seq<Def>, e: Endian, vs: seq<Val>): seq<byte>
    requires AllGood(ds) && TypedItems(ds, vs)
    decreases ds, 0
  {
    if ds == [] then [] else Ser(ds[0], e, vs[0]) + SerItems(ds[1..], e, vs[1..])
  }

  // ------------------------------------------------------------------ decoding

  function Shift<T>(r: Res<T>, n: nat): Res<T> {
    match r
    case Fine(u, v) => Fine(u + n, v)
    case Fail(u, err) => Fail(u + n, err)
    case OutOfBounds => OutOfBounds
  }

  function AsAlt(r: Res<Val>, index: nat): Res<Val> {
    if r.Fine? then Fine(r.used, VAlt(index, r.value)) else r
  }

  function AsList(r: Res<seq<Val>>): Res<Val> {
    match r
    case Fine(u, vs) => Fine(u, VList(vs))
    case Fail(u, err) => Fail(u, err)
    case OutOfBounds => OutOfBounds
  }

  function AsInt(r: Res<int>): Res<Val> {
    match r
    case Fine(u, x) => Fine(u, VInt(x))
    case Fail(u, err) => Fail(u, err)
    case OutOfBounds => OutOfBounds
  }

  function Deser(d: Def, e: Endian, b: seq<byte>): Res<Val>
    requires Good(d)
    decreases d, 0
  {
    match d
    case Int(w, s) => AsInt(DeserInt(w, s, e, b))
    case Bool => if b == [] then Fail(0, SizeErr) else Fine(1, VBool(b[0] == 1))
    case Array(elem, n) => AsList(DeserMany(elem, e, n, b, 0))
    case Tuple(items) => AsList(DeserItems(items, e, b, 0))
    case Variant(alts) =>
      if b == [] then Fail(0, SizeErr)
      else if b[0] >= |alts| then Fail(0, UndefVarErr)
      else Shift(AsAlt(Deser(alts[b[0]], e, b[1..]), b[0]), 1)
    case Monostate => Fine(0, VUnit)
    case Optional(some) =>
      if b == [] then OutOfBounds
      else if b[0] > 1 then Fail(0, BoundsErr)
      else if b[0] == 0 then Fine(1, VNone)
      else
        (match Deser(some, e, b[1..])
         case Fine(u, v) => Fine(u + 1, VSome(v))
         case Fail(u, err) => Fail(u + 1, err)
         case OutOfBounds => OutOfBounds)
    case Bitset(n) =>
      if |b| < BitBytes(n) then Fail(0, SizeErr)
      else Fine(BitBytes(n), VBits(DeserBits(n, BitOrdered(e, b[..BitBytes(n)]))))
    case Message(cap) => DeserBytes(cap, e, b)
    case SizelessMessage(cap) => if |b| > cap then Fail(0, BigSizeErr) else Fine(|b|, VBytes(b))
    case Offset(w, off) =>
      (match DeserInt(w, false, e, b)
       case Fine(u, x) => Fine(u, VInt((x - off) % Pow256(w)))
       case Fail(u, err) => Fail(u, err)
       case OutOfBounds => OutOfBounds)
    case Bounded(w, s, lo, hi) =>
      var r := DeserInt(w, s, e, b);
      if r.Fine? && !(lo <= r.value <= hi) then Fail(0, BoundsErr) else AsInt(r)
    case SizedBuffer(counter, payload) =>
      (match DeserCounter(counter, e, b)
       case Fail(u, err) => Fail(u, err)
       case OutOfBounds => OutOfBounds
       case Fine(u, size) =>
         if |b| < SizeSum(u, size) then Fail(u, SizeErr)
         else
           match Subspan(b, u, size)
           case None => OutOfBounds
           case Some(part) => Shift(Deser(payload, e, part), u))
    case Tag(w, s, id) =>
      (match DeserInt(w, s, e, b)
       case Fail(u, err) => Fail(u, err)
       case OutOfBounds => OutOfBounds
       case Fine(u, x) => if x != id then Fail(0, BadValErr) else Fine(u, VUnit))
    case Group(alts) => DeserAlts(alts, e, b, 0)
    case TagGroup(w, s, ids, alts) =>
      (match TagIndex(w, s, e, ids, b)
       case None => Fine(0, Default(d))
       case Some(i) => Shift(AsAlt(Deser(alts[i], e, b[w..]), i), w))
    case WithEndian(order, inner) => Deser(inner, order, b)
    case StringBuffer(cap) => DeserBytes(cap - 1, e, b)
    case StaticVector(elem, cap) =>
      (match DeserInt(2, false, e, b)
       case Fail(u, err) => Fail(u, err)
       case OutOfBounds => OutOfBounds
       case Fine(u, count) =>
         Shift(AsList(DeserMany(elem, e, if 0 <= count <= cap then count else cap, b[u..], 0)), u))
  }

  /** An item in front of what was decoded behind it. */
  function Cons(v: Val, r: Res<seq<Val>>): Res<seq<Val>> {
    if r.Fine? then Fine(r.used, [v] + r.value) else r
  }

  /** An item that did not decode ends the whole sequence. */
  function Stop(r: Res<Val>, offset: nat): Res<seq<Val>> {
    match r
    case Fail(u, err) => Fail(offset + u, err)
    case _ => OutOfBounds
  }

  /** n elements, one behind the other, from offset on. */
  function DeserMany(d: Def, e: Endian, n: nat, b: seq<byte>, offset: nat): Res<seq<Val>>
    requires Good(d)
    decreases d, 1 + n
  {
    if n == 0 then Fine(offset, [])
    else if offset > |b| then Fail(offset, SizeErr)
    else
      var r := Deser(d, e, b[offset..]);
      if r.Fine? then Cons(r.value, DeserMany(d, e, n - 1, b, offset + r.used)) else Stop(r, offset)
  }

  /** One item per definition, one behind the other, from offset on. */
  function DeserItems(ds: seq<Def>, e: Endian, b: seq<byte>, offset: nat): Res<seq<Val>>
    requires AllGood(ds)
    decreases ds, 0
  {
    if ds == [] then Fine(offset, [])
    else if offset > |b| then Fail(offset, SizeErr)
    else
      var r := Deser(ds[0], e, b[offset..]);
      if r.Fine? then Cons(r.value, DeserItems(ds[1..], e, b, offset + r.used)) else Stop(r, offset)
  }

  lemma ManyStep(d: Def, e: Endian, n: nat, b: seq<byte>, offset: nat)
    requires Good(d)
    ensures n == 0 ==> DeserMany(d, e, n, b, offset) == Fine(offset, [])
    ensures n > 0 && offset > |b| ==> DeserMany(d, e, n, b, offset) == Fail(offset, SizeErr)
    ensures n > 0 && offset <= |b| ==>
              var r := Deser(d, e, b[offset..]);
              DeserMany(d, e, n, b, offset) ==
              if r.Fine? then Cons(r.value, DeserMany(d, e, n - 1, b, offset + r.used)) else Stop(r, offset)
  {
    hide Deser, Good, Cons, Stop;
  }

  lemma ItemsStep(ds: seq<Def>, e: Endian, b: seq<byte>, offset: nat)
    requires AllGood(ds)
    ensures ds == [] ==> DeserItems(ds, e, b, offset) == Fine(offset, [])
    ensures ds != [] ==> Good(ds[0]) && AllGood(ds[1..])
    ensures ds != [] && offset > |b| ==> DeserItems(ds, e, b, offset) == Fail(offset, SizeErr)
    ensures ds != [] && offset <= |b| ==>
              var r := Deser(ds[0], e, b[offset..]);
              DeserItems(ds, e, b, offset) ==
              if r.Fine? then Cons(r.value, DeserItems(ds[1..], e, b, offset + r.used)) else Stop(r, offset)
  {
    hide Deser, Good, Cons, Stop;
  }

  /** The first alternative, from the k-th on, that consumes anything, in success or failure. */
  function DeserAlts(ds: seq<Def>, e: Endian, b: seq<byte>, k: nat): Res<Val>
    requires AllGood(ds)
    decreases ds, 0
  {
    if ds == [] then Fail(0, GroupErr)
    else
      var r := Deser(ds[0], e, b);
      if r.OutOfBounds? || r.used != 0 then AsAlt(r, k) else DeserAlts(ds[1..], e, b, k + 1)
  }

  /** The position of the tag at the front of the buffer. */
  function TagIndex(w: nat, s: bool, e: Endian, ids: seq<int>, b: seq<byte>): (r: Option<nat>)
    ensures r.Some? ==> r.value < |ids| && w <= |b|
  {
    if ids == [] then None
    else if DeserInt(w, s, e, b) == Fine(w, ids[0]) then Some(0)
    else
      match TagIndex(w, s, e, ids[1..], b)
      case None => None
      case Some(i) => Some(i + 1)
  }

  // ------------------------------------------------------------------ one case at a time

  lemma ArrayCase(elem: Def, n: nat, e: Endian, b: seq<byte>)
    requires Good(Array(elem, n))
    ensures Good(elem) && Deser(Array(elem, n), e, b) == AsList(DeserMany(elem, e, n, b, 0))
  {
  }

  lemma TupleCase(items: seq<Def>, e: Endian, b: seq<byte>)
    requires Good(Tuple(items))
    ensures AllGood(items) && Deser(Tuple(items), e, b) == AsList(DeserItems(items, e, b, 0))
  {
  }

  lemma VariantCase(alts: seq<Def>, e: Endian, b: seq<byte>)
    requires Good(Variant(alts))
    ensures AllGood(alts) && |alts| <= MAX_ITEMS
    ensures Deser(Variant(alts), e, b) ==
            if b == [] then Fail(0, SizeErr)
            else if b[0] >= |alts| then Fail(0, UndefVarErr)
            else Shift(AsAlt(Deser(alts[b[0]], e, b[1..]), b[0]), 1)
  {
  }

  lemma OptionalCase(some: Def, e: Endian, b: seq<byte>)
    requires Good(Optional(some))
    ensures Good(some)
    ensures b == [] ==> Deser(Optional(some), e, b) == OutOfBounds
    ensures b != [] && b[0] > 1 ==> Deser(Optional(some), e, b) == Fail(0, BoundsErr)
    ensures b != [] && b[0] == 0 ==> Deser(Optional(some), e, b) == Fine(1, VNone)
    ensures b != [] && b[0] == 1 ==>
              Deser(Optional(some), e, b) == Shift(AsSome(Deser(some, e, b[1..])), 1)
  {
  }

  function AsSome(r: Res<Val>): Res<Val> {
    if r.Fine? then Fine(r.used, VSome(r.value)) else r
  }

  lemma SizedCase(counter: Def, payload: Def, e: Endian, b: seq<byte>)
    requires Good(SizedBuffer(counter, payload))
    ensures IsCounter(counter) && counter.width > 0 && Good(payload)
    ensures var c := DeserCounter(counter, e, b);
            && (c.Fine? <==> counter.width <= |b|) && (c.Fine? ==> c.used == counter.width)
            && Deser(SizedBuffer(counter, payload), e, b) ==
               if !c.Fine? then Fail(0, SizeErr)
               else if |b| < SizeSum(c.used, c.value) then Fail(c.used, SizeErr)
               else
                 match Subspan(b, c.used, c.value)
                 case None => OutOfBounds
                 case Some(part) => Shift(Deser(payload, e, part), c.used)
  {
    hide DeserCounter, Shift, SizeSum, Subspan;
    CounterCase(counter, e, b);
  }

  lemma CounterCase(counter: Def, e: Endian, b: seq<byte>)
    requires IsCounter(counter)
    ensures var c := DeserCounter(counter, e, b);
            if counter.width <= |b| then c.Fine? && c.used == counter.width else c == Fail(0, SizeErr)
  {
    hide Signed, FromLittle, Ordered;
  }

  lemma GroupCase(alts: seq<Def>, e: Endian, b: seq<byte>)
    requires Good(Group(alts))
    ensures AllGood(alts) && TagsDiffer(alts) && Deser(Group(alts), e, b) == DeserAlts(alts, e, b, 0)
  {
  }

  lemma TagGroupCase(w: nat, s: bool, ids: seq<int>, alts: seq<Def>, e: Endian, b: seq<byte>)
    requires Good(TagGroup(w, s, ids, alts))
    ensures w > 0 && AllGood(alts) && |ids| == |alts| && Distinct(ids)
    ensures forall i :: 0 <= i < |ids| ==> InRange(w, s, ids[i])
    ensures Deser(TagGroup(w, s, ids, alts), e, b) ==
            match TagIndex(w, s, e, ids, b)
            case None => Fine(0, Default(TagGroup(w, s, ids, alts)))
            case Some(i) => Shift(AsAlt(Deser(alts[i], e, b[w..]), i), w)
  {
    hide TagIndex, Default;
  }

  lemma EndianCase(order: Endian, inner: Def, e: Endian, b: seq<byte>)
    requires Good(WithEndian(order, inner))
    ensures Good(inner) && Deser(WithEndian(order, inner), e, b) == Deser(inner, order, b)
  {
  }

  /** How many elements a vector reads: the counter, cut off at the capacity. */
  function Clamped(count: int, cap: nat): nat {
    if 0 <= count <= cap then count else cap
  }

  lemma VectorCase(elem: Def, cap: nat, e: Endian, b: seq<byte>)
    requires Good(StaticVector(elem, cap))
    ensures Good(elem) && cap <= MAX_COUNT
    ensures |b| < 2 ==> Deser(StaticVector(elem, cap), e, b) == Fail(0, SizeErr)
    ensures |b| >= 2 ==>
              DeserInt(2, false, e, b).Fine?
              && Deser(StaticVector(elem, cap), e, b) ==
                 Shift(AsList(DeserMany(elem, e, Clamped(DeserInt(2, false, e, b).value, cap), b[2..], 0)), 2)
  {
    hide Signed, FromLittle, Ordered, DeserMany;
  }

  lemma ListParts(d: Def, e: Endian, v: Val)
    requires (d.Array? || d.StaticVector?) && Good(d) && Typed(d, v)
    ensures v.VList? && Good(d.elem) && AllTyped(d.elem, v.items)
    ensures d.Array? ==> |v.items| == d.n && Ser(d, e, v) == SerMany(d.elem, e, v.items)
    ensures d.StaticVector? ==> |v.items| <= d.cap <= MAX_COUNT
                                && Ser(d, e, v) == SerInt(2, e, |v.items|) + SerMany(d.elem, e, v.items)
  {
    hide SerInt;
  }

  lemma TupleParts(items: seq<Def>, e: Endian, v: Val)
    requires Good(Tuple(items)) && Typed(Tuple(items), v)
    ensures v.VList? && AllGood(items) && TypedItems(items, v.items)
    ensures Ser(Tuple(items), e, v) == SerItems(items, e, v.items)
  {
  }

  lemma ChoiceParts(d: Def, e: Endian, v: Val)
    requires (d.Variant? || d.Group? || d.TagGroup?) && Good(d) && Typed(d, v)
    ensures v.VAlt? && v.index < |d.alts| <= MAX_ITEMS && Good(d.alts[v.index]) && Typed(d.alts[v.index], v.alt)
    ensures d.Variant? ==> Ser(d, e, v) == [v.index] + Ser(d.alts[v.index], e, v.alt)
    ensures d.Group? ==> Ser(d, e, v) == Ser(d.alts[v.index], e, v.alt)
                         && AllGood(d.alts) && TagsDiffer(d.alts) && d.alts[v.index].items[0].width > 0
    ensures d.TagGroup? ==> |d.ids| == |d.alts| && d.width > 0
                            && Ser(d, e, v) == SerInt(d.width, e, d.ids[v.index]) + Ser(d.alts[v.index], e, v.alt)
  {
    hide SerInt;
    if d.Group? {
      assert Good(d.alts[v.index].items[0]);
    }
  }

  lemma WrapperParts(d: Def, e: Endian, v: Val)
    requires (d.Optional? || d.SizedBuffer? || d.WithEndian?) && Good(d) && Typed(d, v)
    ensures d.Optional? ==> Good(d.some) && (v.VNone? || v.VSome?)
    ensures d.Optional? && v.VNone? ==> Ser(d, e, v) == [0]
    ensures d.Optional? && v.VSome? ==> Typed(d.some, v.some) && Ser(d, e, v) == [1] + Ser(d.some, e, v.some)
    ensures d.SizedBuffer? ==>
              && IsCounter(d.counter) && Good(d.payload) && Typed(d.payload, v)
              && Ser(d, e, v) == SerCounter(d.counter, e, |Ser(d.payload, e, v)|) + Ser(d.payload, e, v)
    ensures d.WithEndian? ==> Good(d.inner) && Typed(d.inner, v) && Ser(d, e, v) == Ser(d.inner, d.order, v)
  {
    hide SerCounter;
  }
}

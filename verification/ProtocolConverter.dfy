/** The converters as they run: loops that write into a buffer of bytes and read back from a view. */
module ProtocolConverter {
  import opened Bytes
  import opened ProtocolDefs
  import opened ProtocolSpec
  import opened ProtocolLeaves
  import opened ProtocolLaws
  import opened ProtocolBounds

  // ------------------------------------------------------------------ writing into a buffer

  /** Going from m to m', data was put at off and nothing else was touched. */
  ghost predicate Wrote(m: seq<byte>, m': seq<byte>, off: nat, data: seq<byte>) {
    && off + |data| <= |m|
    && SameOutside(m, m', off, off + |data|)
    && m'[off..off + |data|] == data
  }

  /** A piece and then the one behind it. */
  lemma WroteBehind(m0: seq<byte>, m1: seq<byte>, m2: seq<byte>, off: nat, a: seq<byte>, b: seq<byte>)
    requires Wrote(m0, m1, off, a) && Wrote(m1, m2, off + |a|, b)
    ensures Wrote(m0, m2, off, a + b)
  {
    assert m2[off..off + |a|] == m1[off..off + |a|];
    assert m2[off..off + |a| + |b|] == m2[off..off + |a|] + m2[off + |a|..off + |a| + |b|];
  }

  /** A piece and then the one in front of it. */
  lemma WroteBefore(m0: seq<byte>, m1: seq<byte>, m2: seq<byte>, off: nat, a: seq<byte>, b: seq<byte>)
    requires Wrote(m0, m1, off + |a|, b) && Wrote(m1, m2, off, a)
    ensures Wrote(m0, m2, off, a + b)
  {
    assert m2[off + |a|..off + |a| + |b|] == m1[off + |a|..off + |a| + |b|];
    assert m2[off..off + |a| + |b|] == m2[off..off + |a|] + m2[off + |a|..off + |a| + |b|];
  }

  lemma WroteNothing(m: seq<byte>, off: nat)
    requires off <= |m|
    ensures Wrote(m, m, off, [])
  {
  }

  // ------------------------------------------------------------------ integers

  /** Position of the i-th most significant byte among w. */
  function Position(w: nat, e: Endian, i: nat): nat
    requires i < w
  {
    if e == Big then i else w - 1 - i
  }

  /** A conversion to the w-byte integer type. */
  function Wrap(w: nat, signed: bool, x: int): int {
    Signed(w, signed, x % Pow256(w))
  }

  lemma WrapCongruent(w: nat, signed: bool, x: int, k: int, c: int)
    ensures Wrap(w, signed, Wrap(w, signed, x) * k + c) == Wrap(w, signed, x * k + c)
  {
    var m := Pow256(w);
    var t := x / m;
    assert x == m * t + x % m;
    var t' := if signed && x % m >= m / 2 then t + 1 else t;
    assert Wrap(w, signed, x) == x - m * t';
    var y := x * k + c;
    assert Wrap(w, signed, x) * k + c == y - m * (t' * k) by {
      assert (x - m * t') * k == x * k - m * t' * k;
      assert m * t' * k == m * (t' * k);
    }
    ModPeriodic(y, m, t' * k);
  }

  lemma ModPeriodic(y: int, m: nat, q: int)
    requires m > 0
    ensures (y - m * q) % m == y % m
  {
    assert y == m * (y / m) + y % m;
    assert m * (y / m) - m * q == m * (y / m - q);
    ModUnique(y - m * q, m, y / m - q, y % m);
  }

  lemma LittleStep(little: seq<byte>, i: nat, item: int)
    requires i < |little| && little[i..] == ToLittle(|little| - i, item)
    ensures little[i] == item % 256
    ensures little[i + 1..] == ToLittle(|little| - i - 1, item / 256)
  {
    assert little[i] == little[i..][0];
    assert little[i + 1..] == little[i..][1..];
  }

  method SerializeInt(w: nat, e: Endian, x: int, buf: array<byte>, off: nat)
    requires off + w <= buf.Length
    modifies buf
    ensures Wrote(old(buf[..]), buf[..], off, SerInt(w, e, x))
  {
    hide ToLittle, Reverse;
    var item := x;
    ghost var little := ToLittle(w, x);
    var i := 0;
    assert little[0..] == little;
    while i < w
      invariant 0 <= i <= w
      invariant little[i..] == ToLittle(w - i, item)
      invariant forall j :: 0 <= j < i ==> buf[off + Position(w, e, w - 1 - j)] == little[j]
      invariant SameOutside(old(buf[..]), buf[..], off, off + w)
    {
      LittleStep(little, i, item);
      buf[off + Position(w, e, w - i - 1)] := item % 256;
      item := item / 256;
      i := i + 1;
    }
    forall k | 0 <= k < w
      ensures buf[off + k] == SerInt(w, e, x)[k]
    {
      var j := if e == Big then w - 1 - k else k;
      assert Position(w, e, w - 1 - j) == k;
    }
  }

  /** One turn of the reading loop: shift the next lower byte in. */
  lemma WrapStep(w: nat, signed: bool, little: seq<byte>, i: nat)
    requires 0 < i <= |little|
    ensures Wrap(w, signed, Wrap(w, signed, Wrap(w, signed, FromLittle(little[i..])) * 256) + little[i - 1])
            == Wrap(w, signed, FromLittle(little[i - 1..]))
  {
    hide Wrap;
    var high := FromLittle(little[i..]);
    assert little[i - 1..][1..] == little[i..];
    WrapCongruent(w, signed, high, 256, 0);
    WrapCongruent(w, signed, high * 256, 1, little[i - 1]);
  }

  lemma WrapEnds(w: nat, signed: bool, raw: nat)
    requires w > 0 && raw < Pow256(w)
    ensures Wrap(w, signed, raw) == Signed(w, signed, raw)
    ensures Wrap(w, signed, 0) == 0
  {
    ModUnique(raw, Pow256(w), 0, raw);
    ModUnique(0, Pow256(w), 0, 0);
    assert Pow256(w) == 256 * Pow256(w - 1);
  }

  method DeserializeInt(w: nat, signed: bool, e: Endian, b: seq<byte>) returns (r: Res<int>)
    requires w > 0
    ensures r == DeserInt(w, signed, e, b)
    ensures r.Fine? ==> r.used == w <= |b|
  {
    hide Wrap, FromLittle, Signed, Pow256;
    if |b| < w {
      return Fail(0, SizeErr);
    }
    ghost var little := Ordered(e, b[..w]);
    WrapEnds(w, signed, FromLittle(little));
    var res := 0;
    var i := 0;
    assert FromLittle(little[w..]) == 0 by {
      assert little[w..] == [];
      FromNothing();
    }
    while i < w
      invariant 0 <= i <= w
      invariant res == Wrap(w, signed, FromLittle(little[w - i..]))
    {
      var next := b[Position(w, e, i)];
      assert next == little[w - i - 1];
      WrapStep(w, signed, little, w - i);
      res := Wrap(w, signed, res * 256);
      res := Wrap(w, signed, res + next);
      i := i + 1;
    }
    assert little[0..] == little;
    return Fine(w, res);
  }

  lemma FromNothing()
    ensures FromLittle([]) == 0
  {
  }

  // ------------------------------------------------------------------ bit sets

  lemma {:induction false} PackSnoc(bits: seq<bool>, b: bool)
    ensures PackBits(bits + [b]) == PackBits(bits) + (if b then Pow2(|bits|) else 0)
  {
    if bits == [] {
      assert bits + [b] == [b];
      assert PackBits([b][1..]) == 0;
    } else {
      assert (bits + [b])[1..] == bits[1..] + [b];
      PackSnoc(bits[1..], b);
    }
  }

  lemma {:induction false} SerBitsAt(bits: seq<bool>, i: nat)
    requires i < BitBytes(|bits|)
    ensures 8 * i < |bits| && SerBits(bits)[i] == PackBits(Chunk(bits[8 * i..]))
    decreases |bits|
  {
    var c := Chunk(bits);
    if i > 0 {
      SerBitsAt(bits[8..], i - 1);
      assert bits[8..][8 * (i - 1)..] == bits[8 * i..];
    } else {
      assert bits[0..] == bits;
    }
  }

  /** Position of byte i of a bit set. */
  function BitPosition(n: nat, e: Endian, i: nat): nat
    requires i < n
  {
    if e == Big then i else n - 1 - i
  }

  method SerializeBits(e: Endian, bits: seq<bool>, buf: array<byte>, off: nat)
    requires off + BitBytes(|bits|) <= buf.Length
    modifies buf
    ensures Wrote(old(buf[..]), buf[..], off, BitOrdered(e, SerBits(bits)))
  {
    hide BitBytes, SerBits, PackBits, Chunk;
    var n := BitBytes(|bits|);
    ghost var bytes := SerBits(bits);
    var i := 0;
    while i < n
      invariant 0 <= i <= n
      invariant forall k :: 0 <= k < i ==> buf[off + BitPosition(n, e, k)] == bytes[k]
      invariant SameOutside(old(buf[..]), buf[..], off, off + n)
    {
      SerBitsAt(bits, i);
      var byte := PackByte(bits, i);
      buf[off + BitPosition(n, e, i)] := byte;
      i := i + 1;
    }
    forall k | 0 <= k < n
      ensures buf[off + k] == BitOrdered(e, bytes)[k]
    {
      assert BitPosition(n, e, BitPosition(n, e, k)) == k;
    }
  }

  lemma PackNothing(chunk: seq<bool>)
    ensures PackBits(chunk[..0]) == 0
  {
  }

  method PackByte(bits: seq<bool>, i: nat) returns (byte: byte)
    requires 8 * i < |bits|
    ensures byte == PackBits(Chunk(bits[8 * i..]))
  {
    var m := if |bits| - 8 * i < 8 then |bits| - 8 * i else 8;
    ghost var chunk := Chunk(bits[8 * i..]);
    var acc, weight, j := 0, 1, 0;
    PackNothing(chunk);
    hide PackBits, Chunk;
    while j < m
      invariant 0 <= j <= m == |chunk|
      invariant acc == PackBits(chunk[..j]) && weight == Pow2(j)
    {
      assert chunk[j] == bits[8 * i + j] && chunk[..j + 1] == chunk[..j] + [chunk[j]];
      PackSnoc(chunk[..j], chunk[j]);
      if bits[8 * i + j] {
        acc := acc + weight;
      }
      weight := 2 * weight;
      j := j + 1;
    }
    assert chunk[..m] == chunk;
    return acc;
  }

  method UnpackByte(m: nat, x: byte) returns (bits: seq<bool>)
    ensures bits == UnpackBits(m, x)
  {
    ghost var all := UnpackBits(m, x);
    var rest: nat := x;
    bits := [];
    var j := 0;
    while j < m
      invariant 0 <= j <= m
      invariant bits == all[..j]
      invariant UnpackBits(m - j, rest) == all[j..]
    {
      assert all[j] == all[j..][0] && all[j + 1..] == all[j..][1..];
      bits := bits + [rest % 2 == 1];
      rest := rest / 2;
      j := j + 1;
    }
  }

  method DeserializeBits(n: nat, e: Endian, b: seq<byte>) returns (bits: seq<bool>)
    requires |b| == BitBytes(n)
    ensures bits == DeserBits(n, BitOrdered(e, b))
  {
    hide UnpackBits, DeserBits, BitOrdered;
    ghost var bytes := BitOrdered(e, b);
    bits := [];
    assert bytes[0..] == bytes;
    var i := 0;
    while i < |b|
      invariant 0 <= i <= |b|
      invariant |bits| == (if 8 * i < n then 8 * i else n)
      invariant bits + DeserBits(n - |bits|, bytes[i..]) == DeserBits(n, bytes)
    {
      var m := if n - i * 8 < 8 then n - i * 8 else 8;
      var x := b[BitPosition(|b|, e, i)];
      assert x == bytes[i] by { BitOrderedAt(e, b, i); }
      var chunk := UnpackByte(m, x);
      DeserBitsStep(n - |bits|, bytes, i, bits);
      bits := bits + chunk;
      i := i + 1;
    }
    assert bits + DeserBits(0, bytes[i..]) == bits;
  }

  lemma BitOrderedAt(e: Endian, b: seq<byte>, i: nat)
    requires i < |b|
    ensures BitOrdered(e, b)[i] == b[BitPosition(|b|, e, i)]
  {
  }

  lemma DeserBitsStep(left: nat, bytes: seq<byte>, i: nat, done: seq<bool>)
    requires i < |bytes| && |bytes| - i == BitBytes(left)
    ensures var m := if left < 8 then left else 8;
            done + DeserBits(left, bytes[i..]) == done + UnpackBits(m, bytes[i]) + DeserBits(left - m, bytes[i + 1..])
  {
    hide UnpackBits;
    assert bytes[i..][0] == bytes[i] && bytes[i..][1..] == bytes[i + 1..];
    if left <= 8 {
      assert UnpackBits(left, bytes[i]) + [] == UnpackBits(left, bytes[i]);
    }
    var m := if left < 8 then left else 8;
    var chunk, tail := UnpackBits(m, bytes[i]), DeserBits(left - m, bytes[i + 1..]);
    assert done + (chunk + tail) == done + chunk + tail;
  }

  // ------------------------------------------------------------------ serialization

  method SerializeBytes(bytes: seq<byte>, buf: array<byte>, off: nat)
    requires off + |bytes| <= buf.Length
    modifies buf
    ensures Wrote(old(buf[..]), buf[..], off, bytes)
  {
    forall i | 0 <= i < |bytes| {
      buf[off + i] := bytes[i];
    }
  }

  method SerializeByte(b: byte, buf: array<byte>, off: nat)
    requires off < buf.Length
    modifies buf
    ensures Wrote(old(buf[..]), buf[..], off, [b])
  {
    buf[off] := b;
  }

  lemma ItemsSplit(ds: seq<Def>, e: Endian, vs: seq<Val>, i: nat)
    requires AllGood(ds) && TypedItems(ds, vs) && i < |ds|
    ensures AllGood(ds[i..]) && AllGood(ds[i + 1..])
    ensures TypedItems(ds[i..], vs[i..]) && TypedItems(ds[i + 1..], vs[i + 1..])
    ensures SerItems(ds[i..], e, vs[i..]) == Ser(ds[i], e, vs[i]) + SerItems(ds[i + 1..], e, vs[i + 1..])
    ensures SumMax(ds[i..]) == MaxSize(ds[i]) + SumMax(ds[i + 1..])
  {
    hide Ser, Good, Typed, MaxSize;
    assert ds[i..][1..] == ds[i + 1..] && vs[i..][1..] == vs[i + 1..];
  }

  function ManyMax(d: Def, n: nat): nat {
    MaxSize(d) * n
  }

  lemma ManySplit(d: Def, e: Endian, vs: seq<Val>, i: nat)
    requires Good(d) && AllTyped(d, vs) && i < |vs|
    ensures AllTyped(d, vs[i..]) && AllTyped(d, vs[i + 1..])
    ensures SerMany(d, e, vs[i..]) == Ser(d, e, vs[i]) + SerMany(d, e, vs[i + 1..])
    ensures ManyMax(d, |vs| - i) == MaxSize(d) + ManyMax(d, |vs| - i - 1)
  {
    hide Ser, Good, Typed, MaxSize;
    assert vs[i..][1..] == vs[i + 1..];
    Distribute(MaxSize(d), |vs| - i - 1);
  }

  /** One item after the other, each where the previous one ended. */
  method SerializeItems(ds: seq<Def>, e: Endian, vs: seq<Val>, buf: array<byte>, off: nat) returns (used: nat)
    requires AllGood(ds) && TypedItems(ds, vs) && off + SumMax(ds) <= buf.Length
    modifies buf
    ensures used == |SerItems(ds, e, vs)| && Wrote(old(buf[..]), buf[..], off, SerItems(ds, e, vs))
    decreases ds, 0
  {
    hide Ser, Good, Typed, MaxSize, SumMax, SerItems, Wrote;
    WroteNothing(buf[..], off);
    ghost var all := SerItems(ds, e, vs);
    ghost var done: seq<byte> := [];
    used := 0;
    var i := 0;
    assert ds[0..] == ds && vs[0..] == vs;
    while i < |ds|
      invariant 0 <= i <= |ds| && used == |done|
      invariant AllGood(ds[i..]) && TypedItems(ds[i..], vs[i..])
      invariant done + SerItems(ds[i..], e, vs[i..]) == all
      invariant off + used + SumMax(ds[i..]) <= buf.Length
      invariant Wrote(old(buf[..]), buf[..], off, done)
    {
      ItemsSplit(ds, e, vs, i);
      SizeBounds(ds[i], e, vs[i]);
      ghost var piece := Ser(ds[i], e, vs[i]);
      ghost var m := buf[..];
      var u := SerializeAt(ds[i], e, vs[i], buf, off + used);
      WroteBehind(old(buf[..]), m, buf[..], off, done, piece);
      ghost var rest := SerItems(ds[i + 1..], e, vs[i + 1..]);
      assert done + (piece + rest) == done + piece + rest;
      done := done + piece;
      used := used + u;
      i := i + 1;
    }
    NoItems(ds[i..], e, vs[i..]);
    assert done == all;
  }

  lemma NoItems(ds: seq<Def>, e: Endian, vs: seq<Val>)
    requires ds == [] && vs == []
    ensures SerItems(ds, e, vs) == []
  {
  }

  /** The elements of a range, each where the previous one ended. */
  method SerializeRange(d: Def, e: Endian, vs: seq<Val>, buf: array<byte>, off: nat) returns (used: nat)
    requires Good(d) && AllTyped(d, vs) && off + ManyMax(d, |vs|) <= buf.Length
    modifies buf
    ensures used == |SerMany(d, e, vs)| && Wrote(old(buf[..]), buf[..], off, SerMany(d, e, vs))
    decreases d, 3
  {
    hide Ser, Good, Typed, MaxSize, SerMany, Wrote, ManyMax;
    WroteNothing(buf[..], off);
    ghost var all := SerMany(d, e, vs);
    ghost var done: seq<byte> := [];
    used := 0;
    var i := 0;
    assert vs[0..] == vs;
    while i < |vs|
      invariant 0 <= i <= |vs| && used == |done|
      invariant AllTyped(d, vs[i..])
      invariant done + SerMany(d, e, vs[i..]) == all
      invariant off + used + ManyMax(d, |vs| - i) <= buf.Length
      invariant Wrote(old(buf[..]), buf[..], off, done)
    {
      ManySplit(d, e, vs, i);
      SizeBounds(d, e, vs[i]);
      ghost var piece := Ser(d, e, vs[i]);
      ghost var m := buf[..];
      var u := SerializeAt(d, e, vs[i], buf, off + used);
      WroteBehind(old(buf[..]), m, buf[..], off, done, piece);
      assert done + (piece + SerMany(d, e, vs[i + 1..])) == done + piece + SerMany(d, e, vs[i + 1..]);
      done := done + piece;
      used := used + u;
      i := i + 1;
    }
    NoElements(d, e, vs[i..]);
    assert done == all;
  }

  lemma NoElements(d: Def, e: Endian, vs: seq<Val>)
    requires Good(d) && vs == []
    ensures SerMany(d, e, vs) == []
  {
  }

  lemma {:induction false} LargestAt(ds: seq<Def>, i: nat)
    requires i < |ds|
    ensures MaxSize(ds[i]) <= LargestMax(ds)
  {
    hide MaxSize;
    if i > 0 {
      LargestAt(ds[1..], i - 1);
    }
  }

  method SerializeLeaf(d: Def, e: Endian, v: Val, buf: array<byte>, off: nat) returns (used: nat)
    requires IsLeaf(d) && Good(d) && Typed(d, v) && off + MaxSize(d) <= buf.Length
    modifies buf
    ensures used == |Ser(d, e, v)| && Wrote(old(buf[..]), buf[..], off, Ser(d, e, v))
  {
    hide SerInt, Wrote, BitOrdered, SerBits, InRange;
    match d
    case Int(w, _) => SerializeInt(w, e, v.i, buf, off); used := w;
    case Bool => SerializeByte(if v.b then 1 else 0, buf, off); used := 1;
    case Monostate => WroteNothing(buf[..], off); used := 0;
    case Bitset(n) => SerializeBits(e, v.bits, buf, off); used := BitBytes(n);
    case Message(_) => used := SerializeString(e, v.bytes, buf, off);
    case SizelessMessage(_) => SerializeBytes(v.bytes, buf, off); used := |v.bytes|;
    case Offset(w, offset) => SerializeInt(w, e, v.i + offset, buf, off); used := w;
    case Bounded(w, _, _, _) => SerializeInt(w, e, v.i, buf, off); used := w;
    case Tag(w, _, id) => SerializeInt(w, e, id, buf, off); used := w;
    case StringBuffer(_) => used := SerializeString(e, v.bytes, buf, off);
  }

  /** A two-byte length and the bytes. */
  method SerializeString(e: Endian, bytes: seq<byte>, buf: array<byte>, off: nat) returns (used: nat)
    requires off + 2 + |bytes| <= buf.Length
    modifies buf
    ensures used == 2 + |bytes| && Wrote(old(buf[..]), buf[..], off, SerInt(2, e, |bytes|) + bytes)
  {
    hide SerInt, Wrote;
    SerializeInt(2, e, |bytes|, buf, off);
    ghost var m := buf[..];
    SerializeBytes(bytes, buf, off + 2);
    WroteBehind(old(buf[..]), m, buf[..], off, SerInt(2, e, |bytes|), bytes);
    return 2 + |bytes|;
  }

  /** What the pieces of a composite encoding are and that they fit where they go. */
  lemma ChoicePieces(d: Def, e: Endian, v: Val)
    requires (d.Variant? || d.Group? || d.TagGroup?) && Good(d) && Typed(d, v)
    ensures v.VAlt? && v.index < |d.alts| && Good(d.alts[v.index]) && Typed(d.alts[v.index], v.alt)
    ensures d.Variant? ==> v.index < 256 && 1 + MaxSize(d.alts[v.index]) <= MaxSize(d)
                           && Ser(d, e, v) == [v.index] + Ser(d.alts[v.index], e, v.alt)
    ensures d.Group? ==> MaxSize(d.alts[v.index]) <= MaxSize(d) && Ser(d, e, v) == Ser(d.alts[v.index], e, v.alt)
    ensures d.TagGroup? ==> |d.ids| == |d.alts| && d.width + MaxSize(d.alts[v.index]) <= MaxSize(d)
                            && Ser(d, e, v) == SerInt(d.width, e, d.ids[v.index]) + Ser(d.alts[v.index], e, v.alt)
  {
    LargestAt(d.alts, v.index);
  }

  lemma ListPieces(d: Def, e: Endian, v: Val)
    requires (d.Array? || d.StaticVector? || d.Tuple?) && Good(d) && Typed(d, v)
    ensures v.VList?
    ensures d.Array? ==> Good(d.elem) && AllTyped(d.elem, v.items) && ManyMax(d.elem, |v.items|) == MaxSize(d)
                         && Ser(d, e, v) == SerMany(d.elem, e, v.items)
    ensures d.Tuple? ==> AllGood(d.items) && TypedItems(d.items, v.items) && SumMax(d.items) == MaxSize(d)
                         && Ser(d, e, v) == SerItems(d.items, e, v.items)
    ensures d.StaticVector? ==> Good(d.elem) && AllTyped(d.elem, v.items)
                                && 2 + ManyMax(d.elem, |v.items|) <= MaxSize(d)
                                && Ser(d, e, v) == SerInt(2, e, |v.items|) + SerMany(d.elem, e, v.items)
  {
    if d.StaticVector? {
      MulBoundBy(MaxSize(d.elem), |v.items|, d.cap);
    }
  }

  lemma WrapperPieces(d: Def, e: Endian, v: Val)
    requires (d.Optional? || d.SizedBuffer? || d.WithEndian?) && Good(d) && Typed(d, v)
    ensures d.Optional? ==> 1 <= MaxSize(d) && (v.VNone? || v.VSome?)
    ensures d.Optional? && v.VNone? ==> Ser(d, e, v) == [0]
    ensures d.Optional? && v.VSome? ==> Good(d.some) && Typed(d.some, v.some)
                                        && 1 + MaxSize(d.some) <= MaxSize(d)
                                        && Ser(d, e, v) == [1] + Ser(d.some, e, v.some)
    ensures d.SizedBuffer? ==>
              && IsCounter(d.counter) && Good(d.payload) && Typed(d.payload, v)
              && MaxSize(d.counter) == d.counter.width && MaxSize(d) == d.counter.width + MaxSize(d.payload)
              && Ser(d, e, v) == SerInt(d.counter.width, e, |Ser(d.payload, e, v)| % Pow256(d.counter.width)
                                                            + CounterShift(d.counter))
                                 + Ser(d.payload, e, v)
    ensures d.WithEndian? ==> Good(d.inner) && Typed(d.inner, v) && MaxSize(d.inner) == MaxSize(d)
                              && Ser(d, e, v) == Ser(d.inner, d.order, v)
  {
    hide SerInt, Ser, Good, Typed;
    WrapperParts(d, e, v);
  }

  method SerializeAt(d: Def, e: Endian, v: Val, buf: array<byte>, off: nat) returns (used: nat)
    requires Good(d) && Typed(d, v) && off + MaxSize(d) <= buf.Length
    modifies buf
    ensures used == |Ser(d, e, v)| && Wrote(old(buf[..]), buf[..], off, Ser(d, e, v))
    decreases d, 2
  {
    hide Ser, MaxSize, Wrote, Good, Typed;
    if IsLeaf(d) {
      used := SerializeLeaf(d, e, v, buf, off);
    } else if d.Array? || d.StaticVector? || d.Tuple? {
      used := SerializeList(d, e, v, buf, off);
    } else if d.Variant? || d.Group? || d.TagGroup? {
      used := SerializeChoice(d, e, v, buf, off);
    } else {
      used := SerializeWrapper(d, e, v, buf, off);
    }
  }

  method SerializeList(d: Def, e: Endian, v: Val, buf: array<byte>, off: nat) returns (used: nat)
    requires (d.Array? || d.StaticVector? || d.Tuple?) && Good(d) && Typed(d, v) && off + MaxSize(d) <= buf.Length
    modifies buf
    ensures used == |Ser(d, e, v)| && Wrote(old(buf[..]), buf[..], off, Ser(d, e, v))
    decreases d, 1
  {
    hide Ser, MaxSize, SerInt, Wrote, SerMany, SerItems, ManyMax, SumMax, Good, Typed;
    ListPieces(d, e, v);
    match d
    case Array(elem, _) => used := SerializeRange(elem, e, v.items, buf, off);
    case Tuple(items) => used := SerializeItems(items, e, v.items, buf, off);
    case StaticVector(elem, cap) =>
      SerializeInt(2, e, |v.items|, buf, off);
      ghost var m := buf[..];
      used := SerializeRange(elem, e, v.items, buf, off + 2);
      WroteBehind(old(buf[..]), m, buf[..], off, SerInt(2, e, |v.items|), SerMany(elem, e, v.items));
      used := used + 2;
  }

  method SerializeChoice(d: Def, e: Endian, v: Val, buf: array<byte>, off: nat) returns (used: nat)
    requires (d.Variant? || d.Group? || d.TagGroup?) && Good(d) && Typed(d, v) && off + MaxSize(d) <= buf.Length
    modifies buf
    ensures used == |Ser(d, e, v)| && Wrote(old(buf[..]), buf[..], off, Ser(d, e, v))
    decreases d, 1
  {
    hide Ser, MaxSize, SerInt, Wrote, Good, Typed;
    ChoicePieces(d, e, v);
    match d
    case Variant(alts) =>
      SerializeByte(v.index, buf, off);
      ghost var m := buf[..];
      used := SerializeAt(alts[v.index], e, v.alt, buf, off + 1);
      WroteBehind(old(buf[..]), m, buf[..], off, [v.index], Ser(alts[v.index], e, v.alt));
      used := used + 1;
    case Group(alts) => used := SerializeAt(alts[v.index], e, v.alt, buf, off);
    case TagGroup(w, _, ids, alts) =>
      SerializeInt(w, e, ids[v.index], buf, off);
      ghost var m := buf[..];
      used := SerializeAt(alts[v.index], e, v.alt, buf, off + w);
      WroteBehind(old(buf[..]), m, buf[..], off, SerInt(w, e, ids[v.index]), Ser(alts[v.index], e, v.alt));
      used := used + w;
  }

  method SerializeWrapper(d: Def, e: Endian, v: Val, buf: array<byte>, off: nat) returns (used: nat)
    requires d.Optional? || d.SizedBuffer? || d.WithEndian?
    requires Good(d) && Typed(d, v) && off + MaxSize(d) <= buf.Length
    modifies buf
    ensures used == |Ser(d, e, v)| && Wrote(old(buf[..]), buf[..], off, Ser(d, e, v))
    decreases d, 1
  {
    hide Ser, MaxSize, SerInt, Wrote, Good, Typed, Pow256;
    WrapperPieces(d, e, v);
    match d
    case Optional(some) =>
      if v.VNone? {
        SerializeByte(0, buf, off);
        return 1;
      }
      SerializeByte(1, buf, off);
      ghost var m := buf[..];
      used := SerializeAt(some, e, v.some, buf, off + 1);
      WroteBehind(old(buf[..]), m, buf[..], off, [1], Ser(some, e, v.some));
      used := used + 1;
    case SizedBuffer(counter, payload) =>
      used := SerializeAt(payload, e, v, buf, off + MaxSize(counter));
      ghost var m := buf[..];
      var count := used % Pow256(counter.width);
      SerializeInt(counter.width, e, count + CounterShift(counter), buf, off);
      ghost var prefix := SerInt(counter.width, e, count + CounterShift(counter));
      WroteBefore(old(buf[..]), m, buf[..], off, prefix, Ser(payload, e, v));
      used := used + counter.width;
    case WithEndian(order, inner) => used := SerializeAt(inner, order, v, buf, off);
  }

  // ------------------------------------------------------------------ deserialization

  function Prepend(done: seq<Val>, r: Res<seq<Val>>): Res<seq<Val>> {
    if r.Fine? then Fine(r.used, done + r.value) else r
  }

  lemma PrependEnds(done: seq<Val>, r: Res<seq<Val>>)
    ensures Prepend([], r) == r
    ensures r.Fine? && r.value == [] ==> Prepend(done, r) == Fine(r.used, done)
  {
    if r.Fine? {
      assert [] + r.value == r.value;
      assert done + [] == done;
    }
  }

  lemma PrependStep(done: seq<Val>, v: Val, tail: Res<seq<Val>>)
    ensures Prepend(done, Cons(v, tail)) == Prepend(done + [v], tail)
  {
    if tail.Fine? {
      assert done + ([v] + tail.value) == done + [v] + tail.value;
    }
  }

  lemma PrependStop(done: seq<Val>, r: Res<seq<Val>>)
    requires !r.Fine?
    ensures Prepend(done, r) == r
  {
  }

  method DeserializeRange(d: Def, e: Endian, n: nat, b: seq<byte>) returns (r: Res<seq<Val>>)
    requires Good(d)
    ensures r == DeserMany(d, e, n, b, 0)
    decreases d, 1
  {
    hide Deser, Good, DeserMany, Prepend, Cons;
    var done: seq<Val> := [];
    var offset: nat := 0;
    var i := 0;
    PrependEnds(done, DeserMany(d, e, n, b, 0));
    while i < n
      invariant 0 <= i <= n
      invariant DeserMany(d, e, n, b, 0) == Prepend(done, DeserMany(d, e, n - i, b, offset))
    {
      ghost var more := DeserMany(d, e, n - i, b, offset);
      ManyStep(d, e, n - i, b, offset);
      if !more.Fine? { PrependStop(done, more); }
      if offset > |b| {
        return Fail(offset, SizeErr);
      }
      var sres := Deserialize(d, e, b[offset..]);
      match sres {
        case Fail(u, err) => return Fail(offset + u, err);
        case OutOfBounds => return OutOfBounds;
        case Fine(u, v) =>
          PrependStep(done, v, DeserMany(d, e, n - i - 1, b, offset + u));
          done := done + [v];
          offset := offset + u;
      }
      i := i + 1;
    }
    ManyStep(d, e, 0, b, offset);
    PrependEnds(done, Fine(offset, []));
    return Fine(offset, done);
  }

  method DeserializeItems(ds: seq<Def>, e: Endian, b: seq<byte>) returns (r: Res<seq<Val>>)
    requires AllGood(ds)
    ensures r == DeserItems(ds, e, b, 0)
    decreases ds, 0
  {
    hide Deser, Good, DeserItems, Prepend, Cons;
    var done: seq<Val> := [];
    var offset: nat := 0;
    var i := 0;
    assert ds[0..] == ds;
    PrependEnds(done, DeserItems(ds, e, b, 0));
    while i < |ds|
      invariant 0 <= i <= |ds| && AllGood(ds[i..])
      invariant DeserItems(ds, e, b, 0) == Prepend(done, DeserItems(ds[i..], e, b, offset))
    {
      assert ds[i..][1..] == ds[i + 1..];
      ghost var more := DeserItems(ds[i..], e, b, offset);
      ItemsStep(ds[i..], e, b, offset);
      if !more.Fine? { PrependStop(done, more); }
      if offset > |b| {
        return Fail(offset, SizeErr);
      }
      var sres := Deserialize(ds[i], e, b[offset..]);
      match sres {
        case Fail(u, err) => return Fail(offset + u, err);
        case OutOfBounds => return OutOfBounds;
        case Fine(u, v) =>
          PrependStep(done, v, DeserItems(ds[i + 1..], e, b, offset + u));
          done := done + [v];
          offset := offset + u;
      }
      i := i + 1;
    }
    ItemsStep(ds[i..], e, b, offset);
    PrependEnds(done, Fine(offset, []));
    return Fine(offset, done);
  }

  /** Tries the alternatives in order until one consumes something. */
  method DeserializeGroup(ds: seq<Def>, e: Endian, b: seq<byte>) returns (r: Res<Val>)
    requires AllGood(ds)
    ensures r == DeserAlts(ds, e, b, 0)
    decreases ds, 0
  {
    hide Deser, Good;
    var i := 0;
    assert ds[0..] == ds;
    while i < |ds|
      invariant 0 <= i <= |ds| && AllGood(ds[i..])
      invariant DeserAlts(ds, e, b, 0) == DeserAlts(ds[i..], e, b, i)
    {
      assert ds[i..][1..] == ds[i + 1..];
      var sres := Deserialize(ds[i], e, b);
      if sres.OutOfBounds? || sres.used != 0 {
        return AsAlt(sres, i);
      }
      i := i + 1;
    }
    return Fail(0, GroupErr);
  }

  method FindTag(w: nat, s: bool, e: Endian, ids: seq<int>, b: seq<byte>) returns (r: Option<nat>)
    requires w > 0
    ensures r == TagIndex(w, s, e, ids, b)
  {
    hide DeserInt;
    var i := 0;
    assert ids[0..] == ids;
    while i < |ids|
      invariant 0 <= i <= |ids|
      invariant TagIndex(w, s, e, ids, b)
                == match TagIndex(w, s, e, ids[i..], b) case None => None case Some(k) => Some(k + i)
    {
      assert ids[i..][1..] == ids[i + 1..];
      var tag := DeserializeInt(w, s, e, b);
      if tag == Fine(w, ids[i]) {
        return Some(i);
      }
      i := i + 1;
    }
    return None;
  }

  method DeserializeString(limit: nat, e: Endian, b: seq<byte>) returns (r: Res<Val>)
    ensures r == DeserBytes(limit, e, b)
  {
    hide Signed, FromLittle, Ordered;
    var size := DeserializeInt(2, false, e, b);
    match size
    case Fail(u, err) => return Fail(u, err);
    case OutOfBounds => return OutOfBounds;
    case Fine(u, n) =>
      if |b| < u + n {
        return Fail(u, SizeErr);
      }
      if n < 0 || n > limit {
        return Fail(u, BigSizeErr);
      }
      return Fine(u + n, VBytes(b[u..u + n]));
  }

  method DeserializeLeaf(d: Def, e: Endian, b: seq<byte>) returns (r: Res<Val>)
    requires IsLeaf(d) && Good(d)
    ensures r == Deser(d, e, b)
  {
    hide DeserInt, DeserBytes, DeserBits, BitOrdered, InRange;
    match d
    case Int(w, s) =>
      var x := DeserializeInt(w, s, e, b);
      return AsInt(x);
    case Bool =>
      if b == [] {
        return Fail(0, SizeErr);
      }
      return Fine(1, VBool(b[0] == 1));
    case Monostate => return Fine(0, VUnit);
    case Bitset(n) =>
      if |b| < BitBytes(n) {
        return Fail(0, SizeErr);
      }
      var bits := DeserializeBits(n, e, b[..BitBytes(n)]);
      return Fine(BitBytes(n), VBits(bits));
    case Message(cap) => r := DeserializeString(cap, e, b);
    case SizelessMessage(cap) =>
      if |b| > cap {
        return Fail(0, BigSizeErr);
      }
      return Fine(|b|, VBytes(b));
    case Offset(w, offset) =>
      var x := DeserializeInt(w, false, e, b);
      return if x.Fine? then Fine(x.used, VInt((x.value - offset) % Pow256(w))) else AsInt(x);
    case Bounded(w, s, lo, hi) =>
      var x := DeserializeInt(w, s, e, b);
      if x.Fine? && !(lo <= x.value <= hi) {
        return Fail(0, BoundsErr);
      }
      return AsInt(x);
    case Tag(w, s, id) =>
      var x := DeserializeInt(w, s, e, b);
      if x.Fine? {
        return if x.value != id then Fail(0, BadValErr) else Fine(x.used, VUnit);
      }
      return AsInt(x);
    case StringBuffer(cap) => r := DeserializeString(cap - 1, e, b);
  }

  method Deserialize(d: Def, e: Endian, b: seq<byte>) returns (r: Res<Val>)
    requires Good(d)
    ensures r == Deser(d, e, b)
    decreases d, 0
  {
    hide Deser, Good, DeserInt, DeserCounter, InRange, DeserMany, DeserItems, DeserAlts, TagIndex, Default;
    if IsLeaf(d) {
      r := DeserializeLeaf(d, e, b);
      return;
    }
    match d
    case Array(elem, n) =>
      ArrayCase(elem, n, e, b);
      var vs := DeserializeRange(elem, e, n, b);
      return AsList(vs);
    case Tuple(items) =>
      TupleCase(items, e, b);
      var vs := DeserializeItems(items, e, b);
      return AsList(vs);
    case Variant(alts) =>
      VariantCase(alts, e, b);
      if b == [] {
        return Fail(0, SizeErr);
      }
      var id := b[0];
      var i := 0;
      while i < |alts|
        invariant 0 <= i <= |alts| && i <= id
      {
        if id == i {
          var res := Deserialize(alts[i], e, b[1..]);
          return Shift(AsAlt(res, i), 1);
        }
        i := i + 1;
      }
      return Fail(0, UndefVarErr);
    case Optional(some) =>
      OptionalCase(some, e, b);
      if b == [] {
        return OutOfBounds;
      }
      if b[0] > 1 {
        return Fail(0, BoundsErr);
      }
      if b[0] == 0 {
        return Fine(1, VNone);
      }
      var res := Deserialize(some, e, b[1..]);
      return match res
        case Fine(u, v) => Fine(u + 1, VSome(v))
        case Fail(u, err) => Fail(u + 1, err)
        case OutOfBounds => OutOfBounds;
    case SizedBuffer(counter, payload) => r := DeserializeSized(counter, payload, e, b);
    case Group(alts) =>
      GroupCase(alts, e, b);
      r := DeserializeGroup(alts, e, b);
    case TagGroup(w, s, ids, alts) =>
      TagGroupCase(w, s, ids, alts, e, b);
      var i := FindTag(w, s, e, ids, b);
      if i == None {
        return Fine(0, Default(d));
      }
      var res := Deserialize(alts[i.value], e, b[w..]);
      return Shift(AsAlt(res, i.value), w);
    case WithEndian(order, inner) =>
      EndianCase(order, inner, e, b);
      r := Deserialize(inner, order, b);
    case StaticVector(elem, cap) =>
      VectorCase(elem, cap, e, b);
      var c := DeserializeInt(2, false, e, b);
      IntShort(2, false, e, b);
      match c {
        case Fail(u, err) => return Fail(u, err);
        case OutOfBounds => return OutOfBounds;
        case Fine(u, count) =>
          var vs := DeserializeRange(elem, e, if 0 <= count <= cap then count else cap, b[u..]);
          return Shift(AsList(vs), u);
      }
  }

  lemma IntShort(w: nat, s: bool, e: Endian, b: seq<byte>)
    ensures |b| < w ==> DeserInt(w, s, e, b) == Fail(0, SizeErr)
    ensures |b| >= w ==> DeserInt(w, s, e, b).Fine? && DeserInt(w, s, e, b).used == w
  {
    hide Signed, FromLittle, Ordered;
  }

  method DeserializeSized(counter: Def, payload: Def, e: Endian, b: seq<byte>) returns (r: Res<Val>)
    requires Good(SizedBuffer(counter, payload))
    ensures r == Deser(SizedBuffer(counter, payload), e, b)
    decreases payload, 1
  {
    hide Deser, Good, DeserInt;
    SizedCase(counter, payload, e, b);
    var c := DeserializeCounter(counter, e, b);
    IntShort(counter.width, false, e, b);
    match c
    case Fail(u, err) => return Fail(u, err);
    case OutOfBounds => return OutOfBounds;
    case Fine(u, size) =>
      if |b| < SizeSum(u, size) {
        return Fail(u, SizeErr);
      }
      var part := Subspan(b, u, size);
      if part == None {
        return OutOfBounds;
      }
      var res := Deserialize(payload, e, part.value);
      return Shift(res, u);
  }

  method DeserializeCounter(counter: Def, e: Endian, b: seq<byte>) returns (r: Res<nat>)
    requires IsCounter(counter)
    ensures r == DeserCounter(counter, e, b)
  {
    hide DeserInt;
    var x := DeserializeInt(counter.width, false, e, b);
    match x
    case Fail(u, err) => return Fail(u, err);
    case OutOfBounds => return OutOfBounds;
    case Fine(u, n) => return Fine(u, (n - CounterShift(counter)) % Pow256(counter.width));
  }
}

/** Bytes, fixed-width integers and the two byte orders.

    Integers are stored by the shifting loops of the serializer: the low byte is `item & 0xFF`,
    the rest is `item >> 8`.  On two's complement integers these are the remainder and the floor
    quotient by 256, so both work on negative numbers too. */
module Bytes {
  type byte = x: int | 0 <= x < 256

  datatype Option<+T> = None | Some(value: T)

  /** The number of values of a size or an address. */
  const SIZE_LIMIT: nat := 0x1_0000_0000_0000_0000

  /** A sum of sizes: it wraps. */
  function SizeSum(a: nat, b: nat): (r: nat)
    ensures r < SIZE_LIMIT && r <= a + b
    ensures r == a + b <==> a + b < SIZE_LIMIT
  {
    (a + b) % SIZE_LIMIT
  }

  /** The number of values a w-byte integer has. */
  function Pow256(w: nat): (p: nat)
    ensures p >= 1
  {
    if w == 0 then 1 else 256 * Pow256(w - 1)
  }

  function Pow2(k: nat): (p: nat)
    ensures p >= 1
  {
    if k == 0 then 1 else 2 * Pow2(k - 1)
  }

  lemma {:induction false} Pow2Add(i: nat, j: nat)
    ensures Pow2(i + j) == Pow2(i) * Pow2(j)
  {
    if i > 0 {
      Pow2Add(i - 1, j);
      assert Pow2(i + j) == 2 * (Pow2(i - 1) * Pow2(j));
    }
  }

  /** The w low bytes of x, lowest first. */
  function ToLittle(w: nat, x: int): (s: seq<byte>)
    ensures |s| == w
  {
    if w == 0 then [] else [x % 256] + ToLittle(w - 1, x / 256)
  }

  function FromLittle(s: seq<byte>): (x: nat)
    ensures x < Pow256(|s|)
  {
    if s == [] then 0 else s[0] + 256 * FromLittle(s[1..])
  }

  function Zeros(n: nat): (s: seq<byte>)
    ensures |s| == n
  {
    seq(n, _ => 0)
  }

  lemma MulBound(m: int, d: int)
    requires m >= 0
    ensures d >= 1 ==> m * d >= m
    ensures d <= -1 ==> m * d <= -m
  {
  }

  lemma ModUnique(x: int, m: int, q: int, r: int)
    requires 0 <= r < m && x == m * q + r
    ensures x % m == r && x / m == q
  {
    var d := x / m - q;
    assert x == m * (x / m) + x % m;
    assert m * d == r - x % m;
    MulBound(m, d);
  }

  lemma ModSplit(x: int, p: nat)
    requires p >= 1
    ensures x % (256 * p) == x % 256 + 256 * ((x / 256) % p)
  {
    var y := x / 256;
    var q := y / p;
    assert y == p * q + y % p;
    assert x == 256 * p * q + (256 * (y % p) + x % 256);
    ModUnique(x, 256 * p, q, 256 * (y % p) + x % 256);
  }

  /** Reading back what was stored gives the number modulo the width: exactly C++'s truncation. */
  lemma {:induction false} FromToLittle(w: nat, x: int)
    ensures FromLittle(ToLittle(w, x)) == x % Pow256(w)
  {
    if w > 0 {
      FromToLittle(w - 1, x / 256);
      ModSplit(x, Pow256(w - 1));
      assert ToLittle(w, x)[1..] == ToLittle(w - 1, x / 256);
    }
  }

  lemma {:induction false} ToFromLittle(s: seq<byte>)
    ensures ToLittle(|s|, FromLittle(s)) == s
  {
    if s != [] {
      ToFromLittle(s[1..]);
      var x := FromLittle(s);
      ModUnique(x, 256, FromLittle(s[1..]), s[0]);
    }
  }

  function Splice(m: seq<byte>, addr: nat, data: seq<byte>): (r: seq<byte>)
    requires addr + |data| <= |m|
    ensures |r| == |m|
  {
    m[..addr] + data + m[addr + |data|..]
  }

  /** Nothing changed outside lo..hi. */
  ghost predicate SameOutside(m: seq<byte>, m': seq<byte>, lo: nat, hi: nat) {
    |m'| == |m| && forall i :: 0 <= i < |m| && (i < lo || hi <= i) ==> m'[i] == m[i]
  }

  lemma SpliceAt(m: seq<byte>, addr: nat, data: seq<byte>)
    requires addr + |data| <= |m|
    ensures Splice(m, addr, data)[addr..addr + |data|] == data
    ensures forall i :: (0 <= i < addr || addr + |data| <= i < |m|) ==> Splice(m, addr, data)[i] == m[i]
  {
  }
}

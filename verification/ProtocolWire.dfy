/** What is on the wire: where each byte of a number and each bit of a bit set lies, in both orders. */
module ProtocolWire {
  import opened Bytes
  import opened ProtocolDefs
  import opened ProtocolSpec
  import opened ProtocolLeaves
  import opened ProtocolLaws
  import opened ProtocolBounds
  import opened ProtocolExtension

  // ------------------------------------------------------------------ numbers

  /** The place of the byte worth 256^k among w: big-endian numbers begin with the highest. */
  function Place(w: nat, e: Endian, k: nat): nat
    requires k < w
  {
    if e == Big then w - 1 - k else k
  }

  lemma DivTwice(x: int, a: nat, b: nat)
    requires a > 0 && b > 0
    ensures a * b > 0 && x / a / b == x / (a * b)
  {
    var q, r := x / a, x % a;
    var p, t := q / b, q % b;
    assert x == a * q + r && q == b * p + t;
    assert a * (b * p) == a * b * p && a * (b * p + t) == a * (b * p) + a * t;
    MulBoundBy(a, t + 1, b);
    assert a * (t + 1) == a * t + a;
    ModUnique(x, a * b, p, a * t + r);
  }

  lemma {:induction false} LittleByte(w: nat, x: int, k: nat)
    requires k < w
    ensures ToLittle(w, x)[k] == x / Pow256(k) % 256
  {
    if k > 0 {
      LittleByte(w - 1, x / 256, k - 1);
      DivTwice(x, 256, Pow256(k - 1));
    }
  }

  /** Each byte written is the one of its weight, in two's complement. */
  lemma IntByte(w: nat, e: Endian, x: int, k: nat)
    requires k < w
    ensures SerInt(w, e, x)[Place(w, e, k)] == x / Pow256(k) % 256
  {
    LittleByte(w, x, k);
  }

  /** The number read is the only one in range that has the bytes found. */
  lemma IntReads(w: nat, s: bool, e: Endian, b: seq<byte>, x: int)
    requires GoodWidth(w) && w <= |b|
    ensures DeserInt(w, s, e, b) == Fine(w, x) <==>
            InRange(w, s, x) && forall k :: 0 <= k < w ==> b[Place(w, e, k)] == x / Pow256(k) % 256
  {
    if DeserInt(w, s, e, b) == Fine(w, x) {
      ReadIsWritten(w, s, e, b, x);
      NumberInRange(w, s, e, b);
      forall k | 0 <= k < w
        ensures b[Place(w, e, k)] == x / Pow256(k) % 256
      {
        IntByte(w, e, x, k);
        assert b[..w][Place(w, e, k)] == b[Place(w, e, k)];
      }
    }
    if InRange(w, s, x) && forall k :: 0 <= k < w ==> b[Place(w, e, k)] == x / Pow256(k) % 256 {
      SameBytes(w, e, b, x);
      IntRoundTrip(w, s, e, x, b[w..]);
      assert b[..w] + b[w..] == b;
    }
  }

  lemma SameBytes(w: nat, e: Endian, b: seq<byte>, x: int)
    requires w <= |b| && forall k :: 0 <= k < w ==> b[Place(w, e, k)] == x / Pow256(k) % 256
    ensures SerInt(w, e, x) == b[..w]
  {
    hide SerInt, Pow256;
    forall j | 0 <= j < w
      ensures SerInt(w, e, x)[j] == b[j]
    {
      var k := Place(w, e, j);
      assert Place(w, e, k) == j;
      IntByte(w, e, x, k);
    }
  }

  lemma NumberInRange(w: nat, s: bool, e: Endian, b: seq<byte>)
    requires GoodWidth(w) && w <= |b|
    ensures DeserInt(w, s, e, b).Fine? && InRange(w, s, DeserInt(w, s, e, b).value)
  {
    hide FromLittle, Ordered;
    assert Pow256(w) == 256 * Pow256(w - 1);
  }

  // ------------------------------------------------------------------ bits

  function Bit(x: int, j: nat): bool {
    x / Pow2(j) % 2 == 1
  }

  lemma BitStep(x: int, j: nat)
    requires j > 0
    ensures Bit(x, j) == Bit(x / 2, j - 1)
  {
    DivTwice(x, 2, Pow2(j - 1));
  }

  lemma {:induction false} PackedBit(bits: seq<bool>, j: nat)
    ensures Bit(PackBits(bits), j) <==> j < |bits| && bits[j]
  {
    if bits == [] {
      ZeroBit(j);
    } else if j > 0 {
      PackedBit(bits[1..], j - 1);
      BitStep(PackBits(bits), j);
      assert PackBits(bits) / 2 == PackBits(bits[1..]);
    } else {
      assert Pow2(0) == 1;
    }
  }

  lemma ZeroBit(j: nat)
    ensures !Bit(0, j)
  {
  }

  lemma {:induction false} UnpackedBit(n: nat, x: nat, j: nat)
    requires j < n
    ensures UnpackBits(n, x)[j] <==> Bit(x, j)
  {
    hide Bit;
    if j > 0 {
      UnpackedBit(n - 1, x / 2, j - 1);
      BitStep(x, j);
    } else {
      LowBit(x);
    }
  }

  lemma LowBit(x: int)
    ensures Bit(x, 0) <==> x % 2 == 1
  {
    assert Pow2(0) == 1;
  }

  /** The place of the byte that holds bits 8 k to 8 k + 7: a big-endian bit set begins with bit 0. */
  function BitByte(e: Endian, bytes: nat, k: nat): nat
    requires k < bytes
  {
    if e == Big then k else bytes - 1 - k
  }

  lemma {:induction false} SerBit(bits: seq<bool>, i: nat)
    requires i < 8 * BitBytes(|bits|)
    ensures Bit(SerBits(bits)[i / 8], i % 8) <==> i < |bits| && bits[i]
    decreases |bits|
  {
    hide PackBits, Bit;
    if i < 8 {
      PackedBit(Chunk(bits), i);
    } else {
      SerBit(bits[8..], i - 8);
      NextByte(i);
      assert SerBits(bits)[i / 8] == SerBits(bits[8..])[i / 8 - 1];
      assert i - 8 < |bits| - 8 ==> bits[8..][i - 8] == bits[i];
    }
  }

  lemma NextByte(i: nat)
    requires 8 <= i
    ensures (i - 8) / 8 == i / 8 - 1 && (i - 8) % 8 == i % 8
  {
  }

  lemma {:induction false} DeserBit(n: nat, b: seq<byte>, i: nat)
    requires |b| == BitBytes(n) && i < n
    ensures DeserBits(n, b)[i] <==> Bit(b[i / 8], i % 8)
    decreases n
  {
    hide UnpackBits, Bit;
    if n <= 8 {
      UnpackedBit(n, b[0], i);
    } else if i < 8 {
      UnpackedBit(8, b[0], i);
    } else {
      DeserBit(n - 8, b[1..], i - 8);
      assert b[1..][(i - 8) / 8] == b[i / 8];
    }
  }

  /** Bit i lies in its byte at place i % 8 from the low end; bits behind the last one are zero. */
  lemma BitWritten(e: Endian, bits: seq<bool>, i: nat)
    requires i < 8 * BitBytes(|bits|)
    ensures var s := BitOrdered(e, SerBits(bits));
            && |s| == BitBytes(|bits|)
            && (Bit(s[BitByte(e, |s|, i / 8)], i % 8) <==> i < |bits| && bits[i])
  {
    hide Bit, SerBits;
    SerBit(bits, i);
  }

  lemma BitRead(e: Endian, n: nat, b: seq<byte>, i: nat)
    requires |b| == BitBytes(n) && i < n
    ensures DeserBits(n, BitOrdered(e, b))[i] <==> Bit(b[BitByte(e, |b|, i / 8)], i % 8)
  {
    hide Bit, DeserBits;
    DeserBit(n, BitOrdered(e, b), i);
  }
}

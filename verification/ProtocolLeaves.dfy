/** Round trips of the converters that do not nest: integers, counters, bit sets, byte strings. */
module ProtocolLeaves {
  import opened Bytes
  import opened ProtocolDefs
  import opened ProtocolSpec

  lemma ReverseTwice<T>(s: seq<T>)
    ensures Reverse(Reverse(s)) == s
  {
  }

  lemma TakeFront<T>(a: seq<T>, rest: seq<T>)
    ensures (a + rest)[..|a|] == a && (a + rest)[|a|..] == rest
  {
  }

  lemma OrderedTwice(e: Endian, s: seq<byte>)
    ensures Ordered(e, Ordered(e, s)) == s
  {
    ReverseTwice(s);
  }

  /** Decoding what was encoded gives the number modulo the width, read in the wanted sign. */
  lemma IntWraps(w: nat, signed: bool, e: Endian, x: int, rest: seq<byte>)
    ensures DeserInt(w, signed, e, SerInt(w, e, x) + rest) == Fine(w, Signed(w, signed, x % Pow256(w)))
  {
    TakeFront(SerInt(w, e, x), rest);
    OrderedTwice(e, ToLittle(w, x));
    FromToLittle(w, x);
  }

  lemma SignedInverse(w: nat, signed: bool, x: int)
    requires w > 0 && InRange(w, signed, x)
    ensures Signed(w, signed, x % Pow256(w)) == x
  {
    var m := Pow256(w);
    assert m == 256 * Pow256(w - 1);
    if x < 0 {
      ModUnique(x, m, -1, x + m);
    } else {
      ModUnique(x, m, 0, x);
    }
  }

  lemma IntRoundTrip(w: nat, signed: bool, e: Endian, x: int, rest: seq<byte>)
    requires w > 0 && InRange(w, signed, x)
    ensures DeserInt(w, signed, e, SerInt(w, e, x) + rest) == Fine(w, x)
  {
    IntWraps(w, signed, e, x, rest);
    SignedInverse(w, signed, x);
  }

  lemma ModShift(x: int, off: int, m: nat)
    requires m > 0
    ensures ((x + off) % m - off) % m == x % m
  {
    var q := (x + off) / m;
    var p := ((x + off) % m - off) / m;
    assert x + off == m * q + (x + off) % m;
    assert x == m * q + ((x + off) % m - off);
    var r := ((x + off) % m - off) % m;
    assert (x + off) % m - off == m * p + r;
    assert x == m * (q + p) + r;
    ModUnique(x, m, q + p, r);
  }

  lemma OffsetRoundTrip(w: nat, off: int, e: Endian, x: int, rest: seq<byte>)
    requires InRange(w, false, x)
    ensures var r := DeserInt(w, false, e, SerInt(w, e, x + off) + rest);
            r.Fine? && r.used == w && (r.value - off) % Pow256(w) == x
  {
    hide SerInt, DeserInt, Pow256;
    IntWraps(w, false, e, x + off, rest);
    ModShift(x, off, Pow256(w));
    ModUnique(x, Pow256(w), 0, x);
  }

  /** A counter comes back modulo its width. */
  lemma CounterRoundTrip(d: Def, e: Endian, count: nat, rest: seq<byte>)
    requires IsCounter(d)
    ensures DeserCounter(d, e, SerCounter(d, e, count) + rest) == Fine(CounterWidth(d), count % Pow256(d.width))
  {
    hide SerInt, DeserInt, Pow256;
    var m := Pow256(d.width);
    IntWraps(d.width, false, e, count % m + CounterShift(d), rest);
    ModShift(count % m, CounterShift(d), m);
    ModUnique(count % m, m, 0, count % m);
  }

  lemma {:induction false} PackUnpack(bits: seq<bool>)
    ensures UnpackBits(|bits|, PackBits(bits)) == bits
  {
    if bits != [] {
      PackUnpack(bits[1..]);
      assert bits == [bits[0]] + bits[1..];
    }
  }

  lemma {:induction false} BitsRoundTrip(bits: seq<bool>)
    ensures DeserBits(|bits|, SerBits(bits)) == bits
    decreases |bits|
  {
    hide PackBits, UnpackBits;
    if bits != [] {
      var c := Chunk(bits);
      PackUnpack(c);
      BitsRoundTrip(bits[|c|..]);
      assert bits == c + bits[|c|..];
      assert SerBits(bits)[0] == PackBits(c) && SerBits(bits)[1..] == SerBits(bits[|c|..]);
    }
  }

  lemma BitsetRoundTrip(e: Endian, bits: seq<bool>, rest: seq<byte>)
    ensures var s := BitOrdered(e, SerBits(bits));
            |s| == BitBytes(|bits|) && (s + rest)[..|s|] == s && DeserBits(|bits|, BitOrdered(e, s)) == bits
  {
    TakeFront(BitOrdered(e, SerBits(bits)), rest);
    ReverseTwice(SerBits(bits));
    BitsRoundTrip(bits);
  }

  lemma CountRange(n: nat)
    requires n <= MAX_COUNT
    ensures InRange(2, false, n)
  {
    assert Pow256(2) == 256 * Pow256(1) == 0x1_0000;
  }

  lemma BytesRoundTrip(limit: nat, e: Endian, bytes: seq<byte>, rest: seq<byte>)
    requires |bytes| <= limit <= MAX_COUNT
    ensures DeserBytes(limit, e, SerInt(2, e, |bytes|) + bytes + rest) == Fine(2 + |bytes|, VBytes(bytes))
  {
    CountRange(|bytes|);
    var h := SerInt(2, e, |bytes|);
    assert h + bytes + rest == h + (bytes + rest);
    IntRoundTrip(2, false, e, |bytes|, bytes + rest);
    TakeFront(h, bytes + rest);
    TakeFront(bytes, rest);
    assert (h + bytes + rest)[2..2 + |bytes|] == (h + (bytes + rest))[2..][..|bytes|];
  }

  /** A tag is found behind every other tag of the same type. */
  lemma {:induction false} TagFound(w: nat, s: bool, e: Endian, ids: seq<int>, i: nat, rest: seq<byte>)
    requires w > 0 && i < |ids| && Distinct(ids) && InRange(w, s, ids[i])
    ensures TagIndex(w, s, e, ids, SerInt(w, e, ids[i]) + rest) == Some(i)
  {
    hide SerInt, DeserInt, InRange;
    IntRoundTrip(w, s, e, ids[i], rest);
    if i > 0 {
      assert ids[0] != ids[i];
      TagFound(w, s, e, ids[1..], i - 1, rest);
    }
  }
}

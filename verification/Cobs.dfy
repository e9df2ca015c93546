/** The in-place encoder with its back-patched code bytes, and the streaming decoder. */
module Cobs {
  import opened Bytes
  import opened CobsSpec

  /** A buffer holds closed blocks, a hole at lastP for the code of the open block, and its run. */
  ghost predicate LaidOut(t: seq<byte>, lastP: nat, p: nat, taken: seq<byte>) {
    && lastP < p <= |t|
    && p - lastP < 255
    && Open(taken, t[..lastP], t[lastP + 1..p])
  }

  lemma PutByte(t: seq<byte>, lastP: nat, p: nat, taken: seq<byte>, b: byte)
    requires LaidOut(t, lastP, p, taken) && p < |t| && b != 0 && p - lastP < 254
    ensures LaidOut(t[p := b], lastP, p + 1, taken + [b])
  {
    hide Open;
    OpenByte(taken, t[..lastP], t[lastP + 1..p], b);
    assert t[p := b][..lastP] == t[..lastP];
    assert t[p := b][lastP + 1..p + 1] == t[lastP + 1..p] + [b];
  }

  lemma PutZero(t: seq<byte>, lastP: nat, p: nat, taken: seq<byte>)
    requires LaidOut(t, lastP, p, taken) && p < |t|
    ensures LaidOut(t[lastP := p - lastP], p, p + 1, taken + [0])
  {
    hide Open;
    OpenZero(taken, t[..lastP], t[lastP + 1..p]);
    assert t[lastP := p - lastP][..p] == t[..lastP] + ([p - lastP] + t[lastP + 1..p]);
    assert t[lastP := p - lastP][p + 1..p + 1] == [];
  }

  lemma PutFull(t: seq<byte>, lastP: nat, p: nat, taken: seq<byte>, b: byte)
    requires LaidOut(t, lastP, p, taken) && p + 1 < |t| && b != 0 && p - lastP == 254
    ensures LaidOut(t[p := b][lastP := 255], p + 1, p + 2, taken + [b])
  {
    hide Open;
    OpenFull(taken, t[..lastP], t[lastP + 1..p], b);
    var after := t[p := b][lastP := 255];
    assert after[..p + 1] == t[..lastP] + ([255] + (t[lastP + 1..p] + [b]));
    assert after[p + 2..p + 2] == [];
  }

  /** What is laid out is as long as the encoding so far, and no continuation is shorter. */
  lemma LaidLength(t: seq<byte>, lastP: nat, p: nat, taken: seq<byte>)
    requires LaidOut(t, lastP, p, taken)
    ensures |Encode(taken)| == p
    ensures Encode(taken) == t[..p][lastP := p - lastP]
    ensures forall more: seq<byte> :: |Encode(taken + more)| >= p + |more|
  {
    hide Open, Encode;
    OpenCommit(taken, t[..lastP], t[lastP + 1..p]);
    forall more: seq<byte>
      ensures |Encode(taken + more)| >= p + |more|
    {
      OpenGrows(taken, t[..lastP], t[lastP + 1..p], more);
    }
  }

  /** Writes run bytes as they come and fills in the code of a block once the block is closed. */
  class CobsEncoder {
    const target: array<byte>
    var lastP: nat
    var p: nat
    var count: byte
    ghost var taken: seq<byte>

    ghost predicate Laid()
      reads this, target
    {
      LaidOut(target[..], lastP, p, taken) && count == p - lastP
    }

    constructor (target: array<byte>)
      requires target.Length >= 1
      ensures Laid() && this.target == target && taken == [] && p == 1
    {
      this.target := target;
      lastP, p, count, taken := 0, 1, 1, [];
      new;
      OpenStart();
      assert target[..][..0] == [] && target[..][1..1] == [];
    }

    /** True exactly when the encoding so far leaves room in the target; a false answer is final. */
    method Insert(b: byte) returns (ok: bool)
      requires Laid() && p < target.Length
      modifies this, target
      ensures taken == old(taken) + [b]
      ensures ok <==> |Encode(taken)| < target.Length
      ensures ok ==> Laid() && old(p) < p < target.Length && target[p..] == old(target[..])[p..]
      ensures !ok ==> forall more: seq<byte> :: |Encode(taken + more)| >= target.Length
    {
      hide Encode, Open, LaidOut;
      assert lastP < p && p - lastP < 255 by { LaidIndices(target[..], lastP, p, taken); }
      ghost var t := target[..];
      if b != 0 {
        count := count + 1;
        target[p] := b;
        if count < 255 {
          PutByte(t, lastP, p, taken, b);
        } else {
          TooLong(t, lastP, p, taken, b);
          if p + 1 < |t| {
            PutFull(t, lastP, p, taken, b);
          }
        }
        assert target[..] == t[p := b];
      } else {
        target[lastP] := count;
        PutZero(t, lastP, p, taken);
        assert target[..] == t[lastP := count];
        count := 1;
        lastP := p;
      }
      taken := taken + [b];
      p := p + 1;
      if p == target.Length {
        if count < 255 {
          LaidLength(target[..], lastP, p, taken);
          assert taken + [] == taken;
        }
        return false;
      }
      if count == 255 {
        target[lastP] := 255;
        assert target[..] == t[p - 1 := b][lastP := 255];
        count := 1;
        lastP := p;
        p := p + 1;
      }
      LaidLength(target[..], lastP, p, taken);
      return p != target.Length;
    }

    /** Fills in the last code: the target starts with the encoding of everything inserted. */
    method Commit() returns (used: nat)
      requires Laid()
      modifies target
      ensures used == |Encode(taken)| <= target.Length
      ensures target[..used] == Encode(taken)
      ensures target[used..] == old(target[used..])
    {
      hide Encode, Open;
      LaidLength(target[..], lastP, p, taken);
      target[lastP] := count;
      return p;
    }
  }

  lemma LaidIndices(t: seq<byte>, lastP: nat, p: nat, taken: seq<byte>)
    requires LaidOut(t, lastP, p, taken)
    ensures lastP < p <= |t| && p - lastP < 255
  {
  }

  /** A byte more cannot be laid out in less. */
  lemma TooLong(t: seq<byte>, lastP: nat, p: nat, taken: seq<byte>, b: byte)
    requires LaidOut(t, lastP, p, taken)
    ensures |Encode(taken + [b])| >= p + 1
    ensures forall more: seq<byte> :: |Encode(taken + [b] + more)| >= p + 1
  {
    hide Encode, Open;
    LaidLength(t, lastP, p, taken);
    forall more: seq<byte>
      ensures |Encode(taken + [b] + more)| >= p + 1
    {
      assert taken + [b] + more == taken + ([b] + more);
    }
    assert taken + [b] + [] == taken + [b];
  }

  /** Encoding succeeds exactly when the encoding is shorter than the target. */
  method EncodeCobs(source: seq<byte>, target: array<byte>) returns (ok: bool, used: nat)
    requires target.Length >= 2 || (source == [] && target.Length == 1)
    modifies target
    ensures ok <==> source == [] || |Encode(source)| < target.Length
    ensures ok ==> used == |Encode(source)| <= target.Length && target[..used] == Encode(source)
    ensures ok ==> target[used..] == old(target[used..])
  {
    hide Encode, LaidOut;
    ghost var before := target[..];
    var e := new CobsEncoder(target);
    var i := 0;
    assert source[..0] == [];
    while i < |source|
      invariant i <= |source|
      invariant fresh(e) && e.target == target && e.taken == source[..i]
      invariant e.Laid()
      invariant source != [] ==> e.p < target.Length
      invariant i > 0 ==> |Encode(source[..i])| < target.Length
      invariant e.p <= target.Length && target[e.p..] == before[e.p..]
    {
      assert source[..i + 1] == source[..i] + [source[i]];
      ghost var p := e.p;
      ghost var was := target[..];
      var more := e.Insert(source[i]);
      if !more {
        assert source == source[..i + 1] + source[i + 1..];
        return false, 0;
      }
      assert was[e.p..] == was[p..][e.p - p..] && before[e.p..] == before[p..][e.p - p..];
      i := i + 1;
    }
    assert source[..i] == source;
    LaidLength(target[..], e.lastP, e.p, e.taken);
    used := e.Commit();
    ok := true;
  }

  /** The decoder's two fields. */
  class CobsDecoder {
    var nonzero: bool
    var offset: byte

    ghost function Model(): Decoder
      reads this
    {
      Decoder(nonzero, offset)
    }

    constructor (b: byte)
      ensures Model() == Start(b)
    {
      nonzero := b == 255;
      offset := b;
    }

    method Advance(input: byte)
      modifies this
      ensures Model() == old(Model()).Advance(input)
    {
      if offset == 1 {
        nonzero := input == 255;
        offset := input;
      } else {
        offset := (offset + 255) % 256;
      }
    }

    method Iter(input: byte) returns (b: Option<byte>)
      modifies this
      ensures b == old(Model()).Get(input)
      ensures Model() == old(Model()).Advance(input)
    {
      if offset == 1 {
        b := if nonzero then None else Some(0);
      } else {
        b := Some(input);
      }
      Advance(input);
    }
  }

  /** The first used bytes of t are the first decoded ones; the rest is still to come from position i. */
  ghost predicate Decoding(source: seq<byte>, i: nat, d: Decoder, t: seq<byte>, used: nat) {
    && i <= |source| && used <= |t|
    && t[..used] + DecodeFrom(d, source[i..]) == Decode(source)
  }

  lemma DecodingStarts(source: seq<byte>, t: seq<byte>)
    requires source != []
    ensures Decoding(source, 1, Start(source[0]), t, 0)
  {
    assert t[..0] == [];
  }

  lemma DecodingGoesOn(source: seq<byte>, i: nat, d: Decoder, t: seq<byte>, used: nat)
    requires Decoding(source, i, d, t, used) && i < |source|
    ensures var x := source[i];
            if d.Get(x) == None then Decoding(source, i + 1, d.Advance(x), t, used)
            else used < |t| ==> Decoding(source, i + 1, d.Advance(x), t[used := d.Get(x).value], used + 1)
    ensures d.Get(source[i]).Some? ==> used < |Decode(source)|
  {
    hide Decode, DecodeFrom;
    var x, tail := source[i], DecodeFrom(d.Advance(source[i]), source[i + 1..]);
    assert source[i..] == [x] + source[i + 1..];
    DecodeStep(d, x, source[i + 1..]);
    if d.Get(x).Some? {
      var b := d.Get(x).value;
      assert t[..used] + ([b] + tail) == t[..used] + [b] + tail;
      if used < |t| {
        assert t[used := b][..used + 1] == t[..used] + [b];
      }
    } else {
      assert [] + tail == tail;
    }
  }

  lemma DecodingSoFar(source: seq<byte>, i: nat, d: Decoder, t: seq<byte>, used: nat)
    requires Decoding(source, i, d, t, used)
    ensures used <= |t| && used <= |Decode(source)| && t[..used] <= Decode(source)
    ensures i == |source| ==> t[..used] == Decode(source)
  {
    hide Decode, DecodeFrom;
    if i == |source| {
      DecodeNothing(d);
      assert source[i..] == [] && t[..used] + [] == t[..used];
    }
  }

  /** Succeeds exactly when the decoded bytes leave room in the target; otherwise the target is full
      of the first of them. */
  method DecodeCobs(source: seq<byte>, target: array<byte>) returns (ok: bool, used: nat)
    requires source != []
    requires target.Length > 0 || Decode(source) == []
    modifies target
    ensures ok <==> Decode(source) == [] || |Decode(source)| < target.Length
    ensures used <= target.Length && target[..used] <= Decode(source)
    ensures used == if ok then |Decode(source)| else target.Length
    ensures target[used..] == old(target[used..])
  {
    hide *;
    ghost var before := target[..];
    DecodingStarts(source, target[..]);
    var dec := new CobsDecoder(source[0]);
    used := 0;
    var i := 1;
    while i < |source|
      invariant 1 <= i <= |source| && used <= target.Length && fresh(dec)
      invariant Decoding(source, i, dec.Model(), target[..], used)
      invariant used < target.Length || (used == 0 && Decode(source) == [])
      invariant target[used..] == before[used..]
    {
      ghost var t := target[..];
      DecodingGoesOn(source, i, dec.Model(), t, used);
      var val := dec.Iter(source[i]);
      i := i + 1;
      if val.Some? {
        target[used] := val.value;
        assert target[..] == t[used := val.value];
        assert target[used + 1..] == t[used + 1..] == before[used + 1..];
        used := used + 1;
        if used == target.Length {
          DecodingSoFar(source, i, dec.Model(), target[..], used);
          assert target[..used] == target[..][..used];
          return false, used;
        }
      }
    }
    DecodingSoFar(source, i, dec.Model(), target[..], used);
    assert target[..used] == target[..][..used];
    ok := true;
  }
}

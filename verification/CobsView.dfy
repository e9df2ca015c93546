/** The iterator that decodes as it walks: on which bytes its view ends, and with what. */
module CobsView {
  import opened Bytes
  import opened CobsSpec

  // ------------------------------------------------------------------ the walk as a function

  function Front(b: byte, r: Option<seq<byte>>): Option<seq<byte>> {
    if r.Some? then Some([b] + r.value) else None
  }

  /** The bytes delivered from a place on, until the iterator stands at end; nothing when it reads
      outside the data first.  A step that completes a full block also steps over the next byte. */
  function Walk(data: seq<byte>, end: nat, d: Decoder, pos: nat): Option<seq<byte>>
    decreases |data| - pos
  {
    if pos == end then Some([])
    else if pos >= |data| || d.NonValueByte() then None
    else
      var d1 := d.Advance(data[pos]);
      var b := d.Get(data[pos]).value;
      if !d1.NonValueByte() then Front(b, Walk(data, end, d1, pos + 1))
      else if pos + 1 >= |data| then None
      else Front(b, Walk(data, end, d1.Advance(data[pos + 1]), pos + 2))
  }

  /** The whole view: it begins one step behind the first byte and ends at the first zero. */
  function View(data: seq<byte>): Option<seq<byte>> {
    if data == [] then None else Walk(data, ZeroAt(data), Start(data[0]), 1)
  }

  /** Position of the first zero, or the end. */
  function ZeroAt(data: seq<byte>): (end: nat)
    ensures end <= |data| && (forall i :: 0 <= i < end ==> data[i] != 0)
    ensures end < |data| ==> data[end] == 0
  {
    if data == [] || data[0] == 0 then 0 else 1 + ZeroAt(data[1..])
  }

  /** The bytes in front of the first zero. */
  function Frame(data: seq<byte>): seq<byte> {
    data[..ZeroAt(data)]
  }

  /** The last block is a full one that ends with the last byte. */
  predicate EndsFull(b: seq<byte>)
    decreases |b|
  {
    b != [] && b[0] > 0
    && if |b| > b[0] then EndsFull(b[b[0]..]) else |b| == b[0] == 255
  }

  /** The decoder after some bytes. */
  function RunOut(d: Decoder, t: seq<byte>): Decoder
    decreases |t|
  {
    if t == [] then d else RunOut(d.Advance(t[0]), t[1..])
  }

  /** Behind the end there is no way back. */
  lemma {:induction false} WalkPast(data: seq<byte>, end: nat, d: Decoder, pos: nat)
    requires pos > end
    ensures Walk(data, end, d, pos) == None
    decreases |data| - pos
  {
    if pos < |data| && !d.NonValueByte() {
      var d1 := d.Advance(data[pos]);
      WalkPast(data, end, d1, pos + 1);
      if pos + 1 < |data| {
        WalkPast(data, end, d1.Advance(data[pos + 1]), pos + 2);
      }
    }
  }

  /** From any place the walk decodes what is left up to the end, unless the decoder would stand on a
      byte without a value there. */
  lemma {:induction false} WalkDecodes(data: seq<byte>, end: nat, d: Decoder, pos: nat)
    requires pos <= end <= |data| && !d.NonValueByte()
    ensures var t := data[pos..end];
            Walk(data, end, d, pos) == if RunOut(d, t).NonValueByte() then None else Some(DecodeFrom(d, t))
    decreases end - pos
  {
    hide DecodeFrom;
    var t := data[pos..end];
    if pos == end {
      DecodeNothing(d);
    } else {
      var x, d1 := data[pos], d.Advance(data[pos]);
      assert t == [x] + data[pos + 1..end] && t[1..] == data[pos + 1..end];
      DecodeStep(d, x, data[pos + 1..end]);
      if !d1.NonValueByte() {
        WalkDecodes(data, end, d1, pos + 1);
      } else if pos + 1 == end {
        if end < |data| {
          WalkPast(data, end, d1.Advance(data[pos + 1]), pos + 2);
        }
      } else {
        WalkCode(data, end, d1, pos + 1);
        WalkDecodes(data, end, d1.Advance(data[pos + 1]), pos + 2);
      }
    }
  }

  /** The code behind a full block has no value of its own. */
  lemma WalkCode(data: seq<byte>, end: nat, d: Decoder, pos: nat)
    requires pos < end <= |data| && d.NonValueByte()
    ensures var d1 := d.Advance(data[pos]);
            && !d1.NonValueByte()
            && DecodeFrom(d, data[pos..end]) == DecodeFrom(d1, data[pos + 1..end])
            && RunOut(d, data[pos..end]) == RunOut(d1, data[pos + 1..end])
  {
    var t := data[pos..end];
    assert t == [data[pos]] + data[pos + 1..end] && t[1..] == data[pos + 1..end];
    DecodeStep(d, data[pos], data[pos + 1..end]);
    var rest := DecodeFrom(d.Advance(data[pos]), data[pos + 1..end]);
    assert [] + rest == rest;
  }

  lemma {:induction false} RunInside(nonzero: bool, k: byte, t: seq<byte>)
    requires |t| < k
    ensures RunOut(Decoder(nonzero, k), t) == Decoder(nonzero, k - |t|)
    decreases |t|
  {
    if t != [] {
      RunInside(nonzero, k - 1, t[1..]);
    }
  }

  lemma {:induction false} RunAppend(d: Decoder, a: seq<byte>, b: seq<byte>)
    ensures RunOut(d, a + b) == RunOut(RunOut(d, a), b)
    decreases |a|
  {
    if a == [] {
      assert a + b == b;
    } else {
      assert (a + b)[1..] == a[1..] + b;
      RunAppend(d.Advance(a[0]), a[1..], b);
    }
  }

  /** Where the decoder ends is told by the blocks alone. */
  lemma {:induction false} EndsFullExactly(b: seq<byte>)
    requires b != [] && forall i :: 0 <= i < |b| ==> b[i] != 0
    ensures RunOut(Start(b[0]), b[1..]).NonValueByte() <==> EndsFull(b)
    decreases |b|
  {
    var c := b[0];
    if |b| <= c {
      RunInside(c == 255, c, b[1..]);
    } else {
      var rest := b[c..];
      assert b[1..] == b[1..c] + rest && rest == [rest[0]] + rest[1..];
      RunAppend(Start(c), b[1..c], rest);
      RunInside(c == 255, c, b[1..c]);
      EndsFullExactly(rest);
    }
  }

  /** On all data: the view delivers the decoded bytes in front of the first zero and stops there, if
      and only if there are any and their last block is not a full one that ends with them. */
  lemma ViewExact(data: seq<byte>)
    ensures View(data) == if Frame(data) != [] && !EndsFull(Frame(data)) then Some(Decode(Frame(data))) else None
  {
    hide Walk, EndsFull, DecodeFrom;
    var b, end := Frame(data), ZeroAt(data);
    if data != [] {
      if end == 0 {
        WalkPast(data, end, Start(data[0]), 1);
      } else {
        assert b[1..] == data[1..end] && b[0] == data[0];
        WalkDecodes(data, end, Start(data[0]), 1);
        EndsFullExactly(b);
      }
    }
  }

  /** The encoder never ends with a full block. */
  lemma {:induction false} EncodedEndsOpen(s: seq<byte>)
    ensures !EndsFull(Encode(s))
    decreases |s|
  {
    hide Encode;
    var run, rest := FirstBlock(s);
    if |run| == BLOCK {
      FullBlock(run, rest);
      EncodedEndsOpen(rest);
      assert Encode(s)[255..] == Encode(rest);
    } else if s == run {
      LastBlock(run);
    } else {
      ZeroBlock(run, rest);
      EncodedEndsOpen(rest);
      assert Encode(s)[|run| + 1..] == Encode(rest);
    }
  }

  /** An encoding, alone or followed by a zero and anything, is viewed as the bytes that were encoded. */
  lemma ViewEncoded(data: seq<byte>, s: seq<byte>)
    requires data == Encode(s) || Encode(s) + [0] <= data
    ensures ZeroAt(data) == |Encode(s)| && Frame(data) == Encode(s)
    ensures View(data) == Some(s)
  {
    hide Encode, Decode, EndsFull, View, ZeroAt;
    var e := Encode(s);
    EncodedHasNoZero(s);
    assert data[..|e|] == e;
    assert forall i :: 0 <= i < |e| ==> data[i] == e[i] && e[i] != 0;
    assert |e| < |data| ==> data[|e|] == 0;
    ViewExact(data);
    EncodedEndsOpen(s);
    DecodeEncode(s);
  }

  /** A full block at the very end makes the iterator step past the data. */
  lemma FullBlockOverruns()
    ensures var data: seq<byte> := [255] + seq(254, _ => 1);
            Frame(data) == data && EndsFull(data) && View(data) == None
  {
    var data: seq<byte> := [255] + seq(254, _ => 1);
    hide ZeroAt, View;
    assert forall i :: 0 <= i < |data| ==> data[i] != 0;
    assert ZeroAt(data) == |data|;
    ViewExact(data);
  }

  // ------------------------------------------------------------------ the iterator

  /** A decoder and a place in the data. */
  class DecodeCobsIter {
    const data: seq<byte>
    var dec: Decoder
    var pos: nat

    constructor (data: seq<byte>, pos: nat)
      ensures this.data == data && this.pos == pos && dec == Decoder(false, 1)
    {
      this.data := data;
      this.pos := pos;
      dec := Decoder(false, 1);
    }

    /** The place is one that stands for a byte. */
    method Get() returns (b: byte)
      requires pos < |data| && !dec.NonValueByte()
      ensures dec.Get(data[pos]) == Some(b)
    {
      b := dec.Get(data[pos]).value;
    }

    /** One step, and a second one over the code byte behind a full block, which must be there. */
    method Increment()
      requires pos < |data|
      requires dec.Advance(data[pos]).NonValueByte() ==> pos + 1 < |data|
      modifies this
      ensures old(dec).Advance(data[old(pos)]).NonValueByte() ==>
                pos == old(pos) + 2 && dec == old(dec).Advance(data[old(pos)]).Advance(data[old(pos) + 1])
      ensures !old(dec).Advance(data[old(pos)]).NonValueByte() ==>
                pos == old(pos) + 1 && dec == old(dec).Advance(data[old(pos)])
    {
      dec := dec.Advance(data[pos]);
      pos := pos + 1;
      if dec.NonValueByte() {
        dec := dec.Advance(data[pos]);
        pos := pos + 1;
      }
    }
  }

  /** The position of the first zero byte, or the end. */
  method FindZero(data: seq<byte>) returns (end: nat)
    ensures end == ZeroAt(data)
  {
    end := 0;
    while end < |data| && data[end] != 0
      invariant end <= |data| && forall i :: 0 <= i < end ==> data[i] != 0
    {
      end := end + 1;
    }
  }

  /** Walking the view, on all data on which it ends. */
  method WalkView(data: seq<byte>) returns (out: seq<byte>, stop: nat)
    requires Frame(data) != [] && !EndsFull(Frame(data))
    ensures out == Decode(Frame(data)) && stop == ZeroAt(data)
  {
    hide Decode, EndsFull, Walk;
    ViewExact(data);
    var end := FindZero(data);
    var it := new DecodeCobsIter(data, 0);
    it.Increment();
    out := [];
    while it.pos != end
      invariant fresh(it) && it.data == data
      invariant Walk(data, end, it.dec, it.pos).Some?
      invariant out + Walk(data, end, it.dec, it.pos).value == Decode(Frame(data))
      decreases |data| - it.pos
    {
      WalkStep(data, end, it.dec, it.pos);
      var b := it.Get();
      ghost var before := out;
      out := out + [b];
      it.Increment();
      assert before + ([b] + Walk(data, end, it.dec, it.pos).value) == out + Walk(data, end, it.dec, it.pos).value;
    }
    WalkStop(data, end, it.dec);
    assert out + [] == out;
    stop := it.pos;
  }

  lemma WalkStep(data: seq<byte>, end: nat, d: Decoder, pos: nat)
    requires Walk(data, end, d, pos).Some? && pos != end
    ensures pos < |data| && !d.NonValueByte()
    ensures var d1 := d.Advance(data[pos]);
            var b := d.Get(data[pos]).value;
            if d1.NonValueByte() then
              && pos + 1 < |data|
              && Walk(data, end, d, pos) == Front(b, Walk(data, end, d1.Advance(data[pos + 1]), pos + 2))
            else Walk(data, end, d, pos) == Front(b, Walk(data, end, d1, pos + 1))
  {
  }

  lemma WalkStop(data: seq<byte>, end: nat, d: Decoder)
    ensures Walk(data, end, d, end) == Some([])
  {
  }
}

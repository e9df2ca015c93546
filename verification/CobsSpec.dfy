/** Consistent overhead byte stuffing, after Cheshire and Baker (IEEE/ACM Transactions on Networking,
    1999): the reference encoding, the decoder as a byte-by-byte machine, and the laws between them. */
module CobsSpec {
  import opened Bytes

  const BLOCK: nat := 254

  /** Length of the leading run without zeros, cut off at a full block. */
  function RunLength(s: seq<byte>): (n: nat)
    ensures n <= |s| && n <= BLOCK
    ensures forall i :: 0 <= i < n ==> s[i] != 0
    ensures n < BLOCK && n < |s| ==> s[n] == 0
  {
    Run(s, BLOCK)
  }

  function Run(s: seq<byte>, limit: nat): (n: nat)
    ensures n <= |s| && n <= limit
    ensures forall i :: 0 <= i < n ==> s[i] != 0
    ensures n < limit && n < |s| ==> s[n] == 0
  {
    if s == [] || limit == 0 || s[0] == 0 then 0 else 1 + Run(s[1..], limit - 1)
  }

  /** The encoding: blocks of a code byte and the run it announces.  A code of 255 stands for a full
      run with no zero behind it; every other code stands for its run and the zero that ended it.  A
      full block at the very end is followed by an empty one. */
  function Encode(s: seq<byte>): (r: seq<byte>)
    ensures r != []
    decreases |s|
  {
    var n := RunLength(s);
    if n == BLOCK then [255] + s[..n] + Encode(s[n..])
    else if n == |s| then [n + 1] + s
    else [n + 1] + s[..n] + Encode(s[n + 1..])
  }

  /** Full blocks in the encoding. */
  function FullBlocks(s: seq<byte>): nat
    decreases |s|
  {
    var n := RunLength(s);
    if n == BLOCK then 1 + FullBlocks(s[n..])
    else if n == |s| then 0
    else FullBlocks(s[n + 1..])
  }

  // ------------------------------------------------------------------ the encoding block by block

  lemma {:induction false} RunOf(run: seq<byte>, more: seq<byte>, limit: nat)
    requires |run| <= limit && forall i :: 0 <= i < |run| ==> run[i] != 0
    ensures Run(run + more, limit) == |run| + Run(more, limit - |run|)
  {
    if run == [] {
      assert run + more == more;
    } else {
      assert (run + more)[1..] == run[1..] + more;
      RunOf(run[1..], more, limit - 1);
    }
  }

  /** The three shapes of an encoding, by the length of the first run. */
  lemma EncodeByRun(s: seq<byte>, n: nat)
    requires n == RunLength(s)
    ensures n == BLOCK ==>
              Encode(s) == [255] + s[..n] + Encode(s[n..]) && FullBlocks(s) == 1 + FullBlocks(s[n..])
    ensures n < BLOCK && n < |s| ==>
              Encode(s) == [n + 1] + s[..n] + Encode(s[n + 1..]) && FullBlocks(s) == FullBlocks(s[n + 1..])
    ensures n < BLOCK && n == |s| ==> Encode(s) == [n + 1] + s && FullBlocks(s) == 0
  {
    hide RunLength;
  }

  lemma Assoc(a: seq<byte>, b: seq<byte>, c: seq<byte>)
    ensures a + (b + c) == a + b + c
  {
  }

  lemma Halves(a: seq<byte>, b: seq<byte>)
    ensures (a + b)[..|a|] == a && (a + b)[|a|..] == b
  {
  }

  lemma SplitAtZero(run: seq<byte>, more: seq<byte>)
    ensures (run + ([0] + more))[..|run|] == run && (run + ([0] + more))[|run| + 1..] == more
  {
    Halves(run + [0], more);
    Assoc(run, [0], more);
    Halves(run, [0] + more);
  }

  ghost predicate NoZeros(run: seq<byte>) {
    forall i :: 0 <= i < |run| ==> run[i] != 0
  }

  /** The leading run of an input that starts with a run and a zero, or with a full run. */
  lemma RunLengthOf(run: seq<byte>, more: seq<byte>)
    requires NoZeros(run) && |run| <= BLOCK
    ensures |run| == BLOCK ==> RunLength(run + more) == BLOCK
    ensures RunLength(run + ([0] + more)) == |run|
    ensures RunLength(run) == |run|
  {
    hide Run;
    RunOf(run, more, BLOCK);
    RunOf(run, [0] + more, BLOCK);
    assert ([0] + more)[0] == 0;
    RunOf(run, [], BLOCK);
    assert run + [] == run;
  }

  lemma FullBlock(full: seq<byte>, more: seq<byte>)
    requires |full| == BLOCK && NoZeros(full)
    ensures Encode(full + more) == [255] + full + Encode(more)
    ensures FullBlocks(full + more) == 1 + FullBlocks(more)
  {
    hide Encode, FullBlocks, RunLength, NoZeros;
    RunLengthOf(full, more);
    EncodeByRun(full + more, BLOCK);
    Halves(full, more);
  }

  lemma ZeroBlock(run: seq<byte>, more: seq<byte>)
    requires |run| < BLOCK && NoZeros(run)
    ensures Encode(run + ([0] + more)) == [|run| + 1] + run + Encode(more)
    ensures FullBlocks(run + ([0] + more)) == FullBlocks(more)
  {
    hide Encode, FullBlocks, RunLength, NoZeros;
    RunLengthOf(run, more);
    EncodeByRun(run + ([0] + more), |run|);
    SplitAtZero(run, more);
  }

  lemma LastBlock(run: seq<byte>)
    requires |run| < BLOCK && NoZeros(run)
    ensures Encode(run) == [|run| + 1] + run && FullBlocks(run) == 0
  {
    hide Encode, FullBlocks, RunLength, NoZeros;
    RunLengthOf(run, []);
    EncodeByRun(run, |run|);
  }

  /** Every input is a full block and a rest, a run, a zero and a rest, or a last run. */
  lemma FirstBlock(s: seq<byte>) returns (run: seq<byte>, rest: seq<byte>)
    ensures NoZeros(run)
    ensures |run| <= BLOCK && |rest| <= |s|
    ensures |run| == BLOCK ==> s == run + rest
    ensures |run| < BLOCK ==> s == run || s == run + ([0] + rest)
    ensures s == run || |rest| < |s|
  {
    var n := RunLength(s);
    run := s[..n];
    rest := if n == BLOCK || n == |s| then s[n..] else s[n + 1..];
    assert s == s[..n] + s[n..];
    if n < BLOCK && n < |s| {
      assert s[n..] == [0] + rest;
    }
  }

  /** One byte more than the input, and one more for each full block. */
  lemma {:induction false} EncodedLength(s: seq<byte>)
    ensures |Encode(s)| == |s| + 1 + FullBlocks(s)
    ensures BLOCK * FullBlocks(s) <= |s|
    decreases |s|
  {
    hide *;
    var run, rest := FirstBlock(s);
    if |run| == BLOCK {
      FullBlock(run, rest);
      EncodedLength(rest);
    } else if s == run {
      LastBlock(run);
    } else {
      ZeroBlock(run, rest);
      EncodedLength(rest);
    }
  }

  lemma {:induction false} EncodedHasNoZero(s: seq<byte>)
    ensures 0 !in Encode(s)
    decreases |s|
  {
    hide *;
    var run, rest := FirstBlock(s);
    if |run| == BLOCK {
      FullBlock(run, rest);
      EncodedHasNoZero(rest);
    } else if s == run {
      LastBlock(run);
    } else {
      ZeroBlock(run, rest);
      EncodedHasNoZero(rest);
    }
  }

  // ------------------------------------------------------------------ the decoder as a machine

  /** offset counts down to the next code byte; nonzero says that no zero is to be put there. */
  datatype Decoder = Decoder(nonzero: bool, offset: byte) {
    /** The byte a code or data byte stands for, if any. */
    function Get(input: byte): Option<byte> {
      if offset == 1 then (if nonzero then None else Some(0)) else Some(input)
    }

    predicate NonValueByte() {
      offset == 1 && nonzero
    }

    /** The counter is a byte and wraps below zero. */
    function Advance(input: byte): Decoder {
      if offset == 1 then Decoder(input == 255, input) else Decoder(nonzero, (offset + 255) % 256)
    }
  }

  function Start(code: byte): Decoder {
    Decoder(code == 255, code)
  }

  function Optional(o: Option<byte>): seq<byte> {
    if o.Some? then [o.value] else []
  }

  /** All bytes a decoder delivers for an input. */
  function DecodeFrom(d: Decoder, b: seq<byte>): seq<byte>
    decreases |b|
  {
    if b == [] then [] else Optional(d.Get(b[0])) + DecodeFrom(d.Advance(b[0]), b[1..])
  }

  /** Decoding a whole encoding; its first byte is a code. */
  function Decode(b: seq<byte>): seq<byte> {
    if b == [] then [] else DecodeFrom(Start(b[0]), b[1..])
  }

  lemma DecodeStep(d: Decoder, x: byte, b: seq<byte>)
    ensures DecodeFrom(d, [x] + b) == Optional(d.Get(x)) + DecodeFrom(d.Advance(x), b)
  {
    assert ([x] + b)[1..] == b;
  }

  /** Inside a block the data bytes come out as they are. */
  lemma {:induction false} DecodeRun(nonzero: bool, run: seq<byte>, rest: seq<byte>)
    requires |run| <= BLOCK
    ensures DecodeFrom(Decoder(nonzero, |run| + 1), run + rest)
            == run + DecodeFrom(Decoder(nonzero, 1), rest)
  {
    hide DecodeFrom;
    if run == [] {
      assert run + rest == rest;
    } else {
      assert run + rest == [run[0]] + (run[1..] + rest);
      DecodeStep(Decoder(nonzero, |run| + 1), run[0], run[1..] + rest);
      DecodeRun(nonzero, run[1..], rest);
      assert run == [run[0]] + run[1..];
    }
  }

  /** At a block boundary: the zero the last block ended with, unless it was full, and the rest. */
  lemma BlockBoundary(nonzero: bool, b: seq<byte>)
    requires b != []
    ensures DecodeFrom(Decoder(nonzero, 1), b) == (if nonzero then [] else [0]) + Decode(b)
  {
  }

  /** Decoding one block, with whatever follows it. */
  lemma DecodeBlock(code: byte, run: seq<byte>, rest: seq<byte>)
    requires code == |run| + 1
    ensures Decode([code] + run + rest)
            == run + (if rest == [] then [] else if code == 255 then Decode(rest) else [0] + Decode(rest))
  {
    hide DecodeFrom;
    assert ([code] + run + rest)[1..] == run + rest;
    DecodeRun(code == 255, run, rest);
    if rest == [] {
      DecodeNothing(Decoder(code == 255, 1));
    } else {
      BlockBoundary(code == 255, rest);
    }
  }

  lemma DecodeNothing(d: Decoder)
    ensures DecodeFrom(d, []) == []
  {
  }

  // ------------------------------------------------------------------ decoding block by block

  /** How many data bytes a code announces; the counter of a zero code wraps to all 255. */
  function Announced(code: byte): nat {
    if code == 0 then 255 else code - 1
  }

  /** Decoding read off the blocks: the data of a block, and a zero behind it unless the block was full or
      nothing follows.  A last block may be cut short. */
  function Unstuff(b: seq<byte>): seq<byte>
    decreases |b|
  {
    if b == [] then []
    else
      var n := Announced(b[0]);
      if |b| - 1 <= n then b[1..]
      else b[1..n + 1] + (if b[0] == 255 then [] else [0]) + Unstuff(b[n + 1..])
  }

  /** A run that does not pass the end of its block comes out as it is. */
  lemma {:induction false} DecodeOpen(nonzero: bool, k: nat, run: seq<byte>, rest: seq<byte>)
    requires 1 <= k <= 256 && |run| < k && (rest != [] ==> |run| == k - 1)
    ensures DecodeFrom(Decoder(nonzero, k % 256), run + rest) == run + DecodeFrom(Decoder(nonzero, 1), rest)
  {
    hide DecodeFrom;
    if run == [] {
      assert run + rest == rest;
      if rest == [] {
        DecodeNothing(Decoder(nonzero, k % 256));
        DecodeNothing(Decoder(nonzero, 1));
      }
    } else {
      assert run + rest == [run[0]] + (run[1..] + rest);
      DecodeStep(Decoder(nonzero, k % 256), run[0], run[1..] + rest);
      DecodeOpen(nonzero, k - 1, run[1..], rest);
      assert run == [run[0]] + run[1..];
    }
  }

  /** On all bytes, the machine delivers what the blocks say. */
  lemma {:induction false} DecodeUnstuffs(b: seq<byte>)
    ensures Decode(b) == Unstuff(b)
    decreases |b|
  {
    hide Decode;
    if b == [] {
      DecodeEmpty();
    } else {
      var n := Announced(b[0]);
      DecodeFirst(b, n);
      if |b| - 1 > n {
        DecodeUnstuffs(b[n + 1..]);
      }
    }
  }

  lemma DecodeEmpty()
    ensures Decode([]) == []
  {
  }

  /** The first block of any bytes, which may be cut short. */
  lemma DecodeFirst(b: seq<byte>, n: nat)
    requires b != [] && n == Announced(b[0])
    ensures |b| - 1 <= n ==> Decode(b) == b[1..]
    ensures |b| - 1 > n ==> Decode(b) == b[1..n + 1] + (if b[0] == 255 then [] else [0]) + Decode(b[n + 1..])
  {
    hide DecodeFrom;
    assert Start(b[0]) == Decoder(b[0] == 255, (n + 1) % 256);
    if |b| - 1 <= n {
      DecodeOpen(b[0] == 255, n + 1, b[1..], []);
      DecodeNothing(Decoder(b[0] == 255, 1));
      assert b[1..] + [] == b[1..];
    } else {
      var run, rest := b[1..n + 1], b[n + 1..];
      assert b[1..] == run + rest;
      DecodeOpen(b[0] == 255, n + 1, run, rest);
      BlockBoundary(b[0] == 255, rest);
      Assoc(run, if b[0] == 255 then [] else [0], Decode(rest));
    }
  }

  /** Decoding undoes encoding. */
  lemma {:induction false} DecodeEncode(s: seq<byte>)
    ensures Decode(Encode(s)) == s
    decreases |s|
  {
    hide Encode, Decode, DecodeFrom;
    var run, rest := FirstBlock(s);
    if |run| == BLOCK {
      FullBlock(run, rest);
      DecodeBlock(255, run, Encode(rest));
      DecodeEncode(rest);
    } else if s == run {
      LastBlock(run);
      DecodeBlock(|run| + 1, run, []);
      assert [|run| + 1] + run + [] == [|run| + 1] + run && run + [] == run;
    } else {
      ZeroBlock(run, rest);
      DecodeBlock(|run| + 1, run, Encode(rest));
      DecodeEncode(rest);
    }
  }

  /** The encoding is a code: different inputs, different outputs. */
  lemma EncodeInjective(s: seq<byte>, t: seq<byte>)
    requires Encode(s) == Encode(t)
    ensures s == t
  {
    DecodeEncode(s);
    DecodeEncode(t);
  }

  // ------------------------------------------------------------------ encodings piece by piece

  /** The blocks already closed and the run still open, while an encoding grows. */
  ghost predicate Open(s: seq<byte>, closed: seq<byte>, run: seq<byte>) {
    && |run| < BLOCK
    && NoZeros(run)
    && forall more: seq<byte> :: Encode(s + more) == closed + Encode(run + more)
  }

  lemma OpenStart()
    ensures Open([], [], [])
  {
    forall more: seq<byte>
      ensures Encode([] + more) == [] + Encode([] + more)
    {
    }
  }

  lemma OpenMeans(s: seq<byte>, closed: seq<byte>, run: seq<byte>, more: seq<byte>)
    requires Open(s, closed, run)
    ensures |run| < BLOCK && NoZeros(run)
    ensures Encode(s + more) == closed + Encode(run + more)
  {
  }

  /** A byte that is not zero and does not fill the block. */
  lemma OpenByte(s: seq<byte>, closed: seq<byte>, run: seq<byte>, b: byte)
    requires Open(s, closed, run) && b != 0 && |run| + 1 < BLOCK
    ensures Open(s + [b], closed, run + [b])
  {
    hide Encode;
    forall more: seq<byte>
      ensures Encode(s + [b] + more) == closed + Encode(run + [b] + more)
    {
      Assoc(s, [b], more);
      Assoc(run, [b], more);
      OpenMeans(s, closed, run, [b] + more);
    }
  }

  /** The byte that fills the block closes it. */
  lemma OpenFull(s: seq<byte>, closed: seq<byte>, run: seq<byte>, b: byte)
    requires Open(s, closed, run) && b != 0 && |run| + 1 == BLOCK
    ensures Open(s + [b], closed + ([255] + (run + [b])), [])
  {
    hide Encode;
    var full := run + [b];
    forall more: seq<byte>
      ensures Encode(s + [b] + more) == closed + ([255] + full) + Encode([] + more)
    {
      Assoc(s, [b], more);
      Assoc(run, [b], more);
      OpenMeans(s, closed, run, [b] + more);
      FullBlock(full, more);
      assert [] + more == more;
      Assoc(closed, [255] + full, Encode(more));
    }
  }

  /** A zero closes the block with the length of its run. */
  lemma OpenZero(s: seq<byte>, closed: seq<byte>, run: seq<byte>)
    requires Open(s, closed, run)
    ensures Open(s + [0], closed + ([|run| + 1] + run), [])
  {
    hide Encode, NoZeros;
    forall more: seq<byte>
      ensures Encode(s + [0] + more) == closed + ([|run| + 1] + run) + Encode([] + more)
    {
      ZeroClosed(s, closed, run, more);
    }
    NoZerosEmpty();
  }

  lemma NoZerosEmpty()
    ensures NoZeros([])
  {
  }

  lemma ZeroClosed(s: seq<byte>, closed: seq<byte>, run: seq<byte>, more: seq<byte>)
    requires Open(s, closed, run)
    ensures Encode(s + [0] + more) == closed + ([|run| + 1] + run) + Encode([] + more)
  {
    OpenMeans(s, closed, run, [0] + more);
    hide Encode, NoZeros, Open;
    Assoc(s, [0], more);
    ZeroBlock(run, more);
    assert [] + more == more;
    Assoc(closed, [|run| + 1] + run, Encode(more));
  }

  /** Committing the open block gives the encoding. */
  lemma OpenCommit(s: seq<byte>, closed: seq<byte>, run: seq<byte>)
    requires Open(s, closed, run)
    ensures Encode(s) == closed + ([|run| + 1] + run)
  {
    hide Encode;
    OpenMeans(s, closed, run, []);
    assert s + [] == s && run + [] == run;
    LastBlock(run);
  }

  /** No continuation has an encoding shorter than what is already laid out. */
  lemma OpenGrows(s: seq<byte>, closed: seq<byte>, run: seq<byte>, more: seq<byte>)
    requires Open(s, closed, run)
    ensures |Encode(s + more)| >= |closed| + 1 + |run| + |more|
  {
    hide Encode;
    OpenMeans(s, closed, run, more);
    EncodedLength(run + more);
  }
}

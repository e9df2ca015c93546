/** Greedy parsing of a byte stream into messages: what the sequencer computes, chunk by chunk. */
module SequencerSpec {
  import opened Bytes

  /** The stream format: a prefix, a number of leading bytes that fix the message size, the size. */
  datatype StreamDef = StreamDef(prefix: seq<byte>, fixedSize: nat, capacity: nat, getSize: seq<byte> -> nat)

  /** The message size at the front of a buffer: it depends on the fixed part only. */
  function SizeAt(d: StreamDef, b: seq<byte>): nat
    requires d.fixedSize <= |b|
  {
    d.getSize(b[..d.fixedSize])
  }

  ghost predicate GoodStream(d: StreamDef) {
    0 < |d.prefix| <= d.fixedSize <= d.capacity
  }

  /** Every message covers at least its fixed part. */
  ghost predicate SizesCover(d: StreamDef) {
    forall head: seq<byte> :: |head| == d.fixedSize ==> d.fixedSize <= d.getSize(head)
  }

  /** How many leading bytes of b match the prefix. */
  function MatchLen(prefix: seq<byte>, b: seq<byte>): (m: nat)
    ensures m <= |prefix| && m <= |b|
    ensures forall j :: 0 <= j < m ==> prefix[j] == b[j]
    ensures m < |prefix| && m < |b| ==> prefix[m] != b[m]
  {
    if prefix == [] || b == [] || prefix[0] != b[0] then 0
    else
      1 + MatchLen(prefix[1..], b[1..])
  }

  datatype Step = Drop | Need(k: nat) | Emit(n: nat)

  /** The decision at the front of the buffer. */
  function StepOf(d: StreamDef, b: seq<byte>): Step {
    var m := MatchLen(d.prefix, b);
    if b == [] then Need(d.fixedSize)
    else if m < |d.prefix| && m < |b| then Drop
    else if m < |d.prefix| then Need(if d.fixedSize >= m then d.fixedSize - m else 0)
    else if |b| < d.fixedSize then Need(d.fixedSize - |b|)
    else if |b| < SizeAt(d, b) then Need(SizeAt(d, b) - |b|)
    else Emit(SizeAt(d, b))
  }

  datatype Seg = Junk(b: byte) | Msg(bytes: seq<byte>)

  datatype Parsed = Parsed(segs: seq<Seg>, rest: seq<byte>)

  /** A size of nothing: get_message hands out an empty message again and again. */
  predicate Stuck(d: StreamDef, b: seq<byte>) {
    StepOf(d, b) == Emit(0)
  }

  /** One greedy pass over a whole stream; it ends where more bytes are needed or where it is stuck. */
  ghost function Parse(d: StreamDef, s: seq<byte>): (p: Parsed)
    requires GoodStream(d)
    decreases |s|
  {
    match StepOf(d, s)
    case Need(_) => Parsed([], s)
    case Drop =>
      var p := Parse(d, s[1..]);
      Parsed([Junk(s[0])] + p.segs, p.rest)
    case Emit(n) =>
      if n == 0 then Parsed([], s)
      else
        var p := Parse(d, s[n..]);
        Parsed([Msg(s[..n])] + p.segs, p.rest)
  }

  function Messages(segs: seq<Seg>): seq<seq<byte>> {
    if segs == [] then []
    else (if segs[0].Msg? then [segs[0].bytes] else []) + Messages(segs[1..])
  }

  /** No message is longer than the buffer for one, and the pass does not get stuck. */
  ghost predicate MessagesFit(d: StreamDef, s: seq<byte>)
    requires GoodStream(d)
  {
    && !Stuck(d, Parse(d, s).rest)
    && forall m :: m in Messages(Parse(d, s).segs) ==> |m| <= d.capacity
  }

  /** A stream that starts with a whole message. */
  lemma ParseEmit(d: StreamDef, b: seq<byte>, tail: seq<byte>)
    requires GoodStream(d) && b != [] && StepOf(d, b + tail) == Emit(|b|)
    ensures Parse(d, b + tail).rest == Parse(d, tail).rest
    ensures |Parse(d, b + tail).segs| == 1 + |Parse(d, tail).segs|
    ensures Messages(Parse(d, b + tail).segs) == [b] + Messages(Parse(d, tail).segs)
    ensures |b| <= d.capacity && MessagesFit(d, tail) ==> MessagesFit(d, b + tail)
  {
    hide StepOf, Stuck, GoodStream;
    assert (b + tail)[|b|..] == tail && (b + tail)[..|b|] == b;
    var segs := Parse(d, tail).segs;
    assert ([Msg(b)] + segs)[1..] == segs;
  }

  lemma {:induction false} MessagesConcat(a: seq<Seg>, b: seq<Seg>)
    ensures Messages(a + b) == Messages(a) + Messages(b)
  {
    if a == [] {
      assert a + b == b;
    } else {
      assert (a + b)[1..] == a[1..] + b;
      MessagesConcat(a[1..], b);
    }
  }

  // ------------------------------------------------------------------ a stream in pieces

  /** A decision that is not a request for more bytes stays when more bytes arrive. */
  lemma StepStable(d: StreamDef, a: seq<byte>, b: seq<byte>)
    requires GoodStream(d) && !StepOf(d, a).Need?
    ensures StepOf(d, a + b) == StepOf(d, a)
  {
    var m := MatchLen(d.prefix, a);
    var n := MatchLen(d.prefix, a + b);
    assert n == m by {
      assert n < |d.prefix| ==> n < |a| ==> (a + b)[n] == a[n];
    }
    if StepOf(d, a).Emit? {
      assert (a + b)[..d.fixedSize] == a[..d.fixedSize];
    }
  }

  /** Parsing a stream in two pieces, keeping the rest of the first, is parsing it at once. */
  lemma {:induction false} ParseAppend(d: StreamDef, a: seq<byte>, b: seq<byte>)
    requires GoodStream(d)
    ensures Parse(d, a + b)
            == Parsed(Parse(d, a).segs + Parse(d, Parse(d, a).rest + b).segs, Parse(d, Parse(d, a).rest + b).rest)
    decreases |a|
  {
    hide StepOf;
    match StepOf(d, a)
    case Need(_) =>
      assert [] + Parse(d, a + b).segs == Parse(d, a + b).segs;
    case Drop =>
      NonEmptyStep(d, a);
      StepStable(d, a, b);
      ParseAppend(d, a[1..], b);
      assert (a + b)[1..] == a[1..] + b;
      SegsAssoc([Junk(a[0])], Parse(d, a[1..]).segs, Parse(d, Parse(d, a).rest + b).segs);
    case Emit(n) =>
      NonEmptyStep(d, a);
      StepStable(d, a, b);
      if n == 0 {
        assert [] + Parse(d, a + b).segs == Parse(d, a + b).segs;
      } else {
        ParseAppend(d, a[n..], b);
        assert (a + b)[n..] == a[n..] + b && (a + b)[..n] == a[..n];
        SegsAssoc([Msg(a[..n])], Parse(d, a[n..]).segs, Parse(d, Parse(d, a).rest + b).segs);
      }
  }

  lemma SegsAssoc(a: seq<Seg>, b: seq<Seg>, c: seq<Seg>)
    ensures a + (b + c) == (a + b) + c
  {
  }

  lemma NonEmptyStep(d: StreamDef, s: seq<byte>)
    requires GoodStream(d) && !StepOf(d, s).Need?
    ensures s != []
    ensures StepOf(d, s).Emit? ==> d.fixedSize <= |s| && SizeAt(d, s) == StepOf(d, s).n <= |s|
  {
  }

  // ------------------------------------------------------------------ what a parse means

  ghost predicate Mismatch(d: StreamDef, s: seq<byte>) {
    exists j :: 0 <= j < |d.prefix| && j < |s| && s[j] != d.prefix[j]
  }

  /** The segments account for s byte by byte: a dropped byte stands where the prefix mismatches, a
      message starts with the prefix and has the size its own fixed part asks for. */
  ghost predicate Explains(d: StreamDef, segs: seq<Seg>, rest: seq<byte>, s: seq<byte>) {
    if segs == [] then s == rest
    else if segs[0].Junk? then
      s != [] && s[0] == segs[0].b && Mismatch(d, s) && Explains(d, segs[1..], rest, s[1..])
    else
      var m := segs[0].bytes;
      && 0 < |m| <= |s| && m == s[..|m|]
      && d.fixedSize <= |s| && d.prefix <= s && SizeAt(d, s) == |m|
      && Explains(d, segs[1..], rest, s[|m|..])
  }

  lemma MismatchDrops(d: StreamDef, s: seq<byte>)
    requires GoodStream(d)
    ensures StepOf(d, s) == Drop <==> Mismatch(d, s)
  {
    var m := MatchLen(d.prefix, s);
    if m < |d.prefix| && m < |s| {
      assert s[m] != d.prefix[m];
    }
  }

  lemma MessageEmits(d: StreamDef, s: seq<byte>, n: nat)
    requires GoodStream(d) && n <= |s|
    ensures StepOf(d, s) == Emit(n) <==> d.fixedSize <= |s| && d.prefix <= s && SizeAt(d, s) == n
  {
    var p := d.prefix;
    var m := MatchLen(p, s);
    if StepOf(d, s) == Emit(n) {
      assert forall j :: 0 <= j < |p| ==> s[j] == p[j];
    }
  }

  lemma {:induction false} ParseExplains(d: StreamDef, s: seq<byte>)
    requires GoodStream(d)
    ensures Explains(d, Parse(d, s).segs, Parse(d, s).rest, s)
    ensures StepOf(d, Parse(d, s).rest).Need? || Stuck(d, Parse(d, s).rest)
    decreases |s|
  {
    hide StepOf, Mismatch;
    match StepOf(d, s)
    case Need(_) =>
    case Drop =>
      NonEmptyStep(d, s);
      MismatchDrops(d, s);
      ParseExplains(d, s[1..]);
      assert ([Junk(s[0])] + Parse(d, s[1..]).segs)[1..] == Parse(d, s[1..]).segs;
    case Emit(n) =>
      NonEmptyStep(d, s);
      MessageEmits(d, s, n);
      if n > 0 {
        ParseExplains(d, s[n..]);
        assert ([Msg(s[..n])] + Parse(d, s[n..]).segs)[1..] == Parse(d, s[n..]).segs;
      }
  }

  /** There is no other way to account for the stream and stop where it has to stop. */
  lemma {:induction false} ParseUnique(d: StreamDef, segs: seq<Seg>, rest: seq<byte>, s: seq<byte>)
    requires GoodStream(d) && Explains(d, segs, rest, s) && (StepOf(d, rest).Need? || Stuck(d, rest))
    ensures Parse(d, s) == Parsed(segs, rest)
    decreases |segs|
  {
    hide StepOf, Mismatch;
    if segs != [] {
      assert segs == [segs[0]] + segs[1..];
      if segs[0].Junk? {
        MismatchDrops(d, s);
        ParseUnique(d, segs[1..], rest, s[1..]);
      } else {
        var n := |segs[0].bytes|;
        MessageEmits(d, s, n);
        ParseUnique(d, segs[1..], rest, s[n..]);
      }
    }
  }

  // ------------------------------------------------------------------ read requests

  lemma {:induction false} ShortHasNoMessage(d: StreamDef, s: seq<byte>)
    requires GoodStream(d) && |s| < d.fixedSize
    ensures Messages(Parse(d, s).segs) == []
    decreases |s|
  {
    if StepOf(d, s) == Drop {
      ShortHasNoMessage(d, s[1..]);
      assert ([Junk(s[0])] + Parse(d, s[1..]).segs)[1..] == Parse(d, s[1..]).segs;
    }
  }

  /** A request for k bytes: with fewer than k more, no message can be completed. */
  lemma RequestIsNeeded(d: StreamDef, b: seq<byte>, more: seq<byte>)
    requires GoodStream(d) && StepOf(d, b).Need? && |more| < StepOf(d, b).k
    ensures Messages(Parse(d, b + more).segs) == []
  {
    WaitingFor(d, b);
    if |b| + |more| < d.fixedSize {
      ShortHasNoMessage(d, b + more);
    } else {
      assert (b + more)[..d.fixedSize] == b[..d.fixedSize];
      WaitingStays(d, b, more);
    }
  }

  /** A request is positive and aims at the end of the fixed part or of the message begun. */
  lemma WaitingFor(d: StreamDef, b: seq<byte>)
    requires GoodStream(d) && StepOf(d, b).Need?
    ensures StepOf(d, b).k > 0
    ensures |b| + StepOf(d, b).k == if |b| < d.fixedSize then d.fixedSize else SizeAt(d, b)
  {
  }

  lemma WaitingStays(d: StreamDef, b: seq<byte>, more: seq<byte>)
    requires GoodStream(d) && StepOf(d, b).Need? && d.fixedSize <= |b| && |more| < StepOf(d, b).k
    ensures StepOf(d, b + more).Need?
  {
    var p := d.prefix;
    var m := MatchLen(p, b + more);
    assert (b + more)[..d.fixedSize] == b[..d.fixedSize];
    assert forall j :: 0 <= j < |b| ==> (b + more)[j] == b[j];
  }

  /** A reader that supplies exactly the requested bytes never reads past the end of a message: when
      one is complete, nothing is left over and nothing was dropped in front of it. */
  lemma ExactReadConsumesAll(d: StreamDef, b: seq<byte>, more: seq<byte>)
    requires GoodStream(d) && SizesCover(d) && StepOf(d, b).Need? && |more| == StepOf(d, b).k
    requires Messages(Parse(d, b + more).segs) != []
    ensures Parse(d, b + more) == Parsed([Msg(b + more)], [])
  {
    hide Parse, Messages, SizesCover;
    var s := b + more;
    WaitingFor(d, b);
    FirstStep(d, s);
    if StepOf(d, s) == Drop {
      NonEmptyStep(d, s);
      if |b| < d.fixedSize {
        ShortHasNoMessage(d, s[1..]);
      } else {
        PrefixStays(d, b, more);
      }
    } else if StepOf(d, s).Emit? {
      CoveredSize(d, s);
      if d.fixedSize <= |b| {
        assert s[..d.fixedSize] == b[..d.fixedSize];
      }
      assert s[|s|..] == [] && s[..|s|] == s;
      FirstStep(d, []);
    }
  }

  /** One decision, then the rest of the pass. */
  lemma FirstStep(d: StreamDef, s: seq<byte>)
    requires GoodStream(d)
    ensures StepOf(d, s).Need? ==> Parse(d, s) == Parsed([], s) && Messages(Parse(d, s).segs) == []
    ensures StepOf(d, s) == Drop ==> s != [] && Messages(Parse(d, s).segs) == Messages(Parse(d, s[1..]).segs)
    ensures StepOf(d, s).Emit? && StepOf(d, s).n > 0 ==>
              && StepOf(d, s).n <= |s|
              && var p := Parse(d, s[StepOf(d, s).n..]);
                 Parse(d, s) == Parsed([Msg(s[..StepOf(d, s).n])] + p.segs, p.rest)
  {
    hide StepOf;
    if !StepOf(d, s).Need? {
      NonEmptyStep(d, s);
    }
    if StepOf(d, s) == Drop {
      assert ([Junk(s[0])] + Parse(d, s[1..]).segs)[1..] == Parse(d, s[1..]).segs;
    }
  }

  lemma CoveredSize(d: StreamDef, s: seq<byte>)
    requires SizesCover(d) && d.fixedSize <= |s|
    ensures d.fixedSize <= SizeAt(d, s)
  {
  }

  lemma PrefixStays(d: StreamDef, b: seq<byte>, more: seq<byte>)
    requires GoodStream(d) && StepOf(d, b).Need? && d.fixedSize <= |b|
    ensures StepOf(d, b + more) != Drop
  {
    var p := d.prefix;
    var m := MatchLen(p, b + more);
    assert forall j :: 0 <= j < |b| ==> (b + more)[j] == b[j];
  }
}

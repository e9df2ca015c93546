/** The sequencer: finds messages in a stream of bytes held in a ring buffer. */
module Sequencer {
  import opened Bytes
  import opened SequencerSpec

  datatype Reply = ReadRequest(k: nat) | Message(bytes: seq<byte>)

  /** Where get_message looks: in a full ring whose size is a power of two the begin and end iterators
      coincide, the buffer looks empty to the first comparison and its first byte is lost. */
  function Seen(ring: nat, overflowing: bool, b: seq<byte>): seq<byte> {
    if overflowing && |b| == ring && b != [] then b[1..] else b
  }

  /** What one call returns and leaves: the first message, or a request when there is none. */
  ghost function Next(d: StreamDef, b: seq<byte>): (r: (Reply, seq<byte>))
    requires GoodStream(d)
    decreases |b|
  {
    match StepOf(d, b)
    case Need(k) => (ReadRequest(k), b)
    case Drop => Next(d, b[1..])
    case Emit(n) => (Message(b[..n]), b[n..])
  }

  /** The first message, if there is one, is not longer than a message may be. */
  ghost predicate FirstFits(d: StreamDef, b: seq<byte>)
    requires GoodStream(d)
  {
    Next(d, b).0.Message? ==> |Next(d, b).0.bytes| <= d.capacity
  }

  /** A call takes nothing out of a non-empty buffer and delivers an empty message, this time and every time
      after, if and only if the buffer begins with a message of size 0. */
  lemma StuckRepeats(d: StreamDef, b: seq<byte>)
    requires GoodStream(d)
    ensures Next(d, b) == (Message([]), b) <==> Stuck(d, b)
  {
    hide StepOf;
    NextByStep(d, b);
    if !StepOf(d, b).Need? {
      NonEmptyStep(d, b);
      NextLength(d, b[1..]);
    }
  }

  /** Repeated calls deliver the messages of the greedy parse, one by one. */
  lemma {:induction false} NextParses(d: StreamDef, b: seq<byte>)
    requires GoodStream(d) && !Stuck(d, Parse(d, b).rest)
    ensures var (r, rest) := Next(d, b); var p := Parse(d, b);
            && |rest| <= |b|
            && (r.Message? ==> |rest| < |b| && Messages(p.segs) == [r.bytes] + Messages(Parse(d, rest).segs)
                               && Parse(d, rest).rest == p.rest)
            && (r.ReadRequest? ==> Messages(p.segs) == [] && rest == p.rest
                                   && StepOf(d, rest) == Need(r.k))
    decreases |b|
  {
    hide StepOf;
    var p := Parse(d, b);
    match StepOf(d, b)
    case Need(_) =>
    case Drop =>
      NonEmptyStep(d, b);
      NextParses(d, b[1..]);
      assert p.segs[1..] == Parse(d, b[1..]).segs;
    case Emit(n) =>
      NonEmptyStep(d, b);
      assert n > 0;
      assert p.segs[1..] == Parse(d, b[n..]).segs;
  }

  /** One decision, then the rest of the call. */
  lemma NextByStep(d: StreamDef, b: seq<byte>)
    requires GoodStream(d)
    ensures StepOf(d, b).Need? ==> Next(d, b) == (ReadRequest(StepOf(d, b).k), b)
    ensures StepOf(d, b).Drop? ==> Next(d, b) == Next(d, b[1..])
    ensures StepOf(d, b).Emit? ==> Next(d, b) == (Message(b[..StepOf(d, b).n]), b[StepOf(d, b).n..])
  {
  }

  lemma {:induction false} NextLength(d: StreamDef, b: seq<byte>)
    requires GoodStream(d)
    ensures var (r, rest) := Next(d, b);
            |rest| + (if r.Message? then |r.bytes| else 0) <= |b|
    decreases |b|
  {
    hide StepOf;
    match StepOf(d, b)
    case Need(_) =>
    case Drop =>
      NonEmptyStep(d, b);
      NextLength(d, b[1..]);
    case Emit(n) => NonEmptyStep(d, b);
  }

  /** Losing the first byte of a full ring is harmless exactly when the prefix mismatches there. */
  lemma FullRingLosesByte(d: StreamDef, ring: nat, b: seq<byte>)
    requires GoodStream(d) && |b| == ring > 0
    ensures Next(d, Seen(ring, true, b)) == Next(d, b) <==> Mismatch(d, b)
  {
    MismatchDrops(d, b);
    NextLength(d, b[1..]);
    if StepOf(d, b).Emit? {
      NonEmptyStep(d, b);
    }
  }

  class Receiver {
    const d: StreamDef
    const ring: nat
    const overflowing: bool
    var buffer: seq<byte>

    ghost predicate Valid()
      reads this
    {
      GoodStream(d) && ring == 2 * d.capacity && |buffer| <= ring
    }

    constructor (d: StreamDef, overflowing: bool)
      requires GoodStream(d)
      ensures Valid() && buffer == [] && this.d == d && this.overflowing == overflowing
    {
      this.d, this.ring, this.overflowing := d, 2 * d.capacity, overflowing;
      buffer := [];
    }

    method Insert(data: seq<byte>)
      requires Valid() && |buffer| + |data| <= ring
      modifies this
      ensures Valid() && buffer == old(buffer) + data
    {
      var i := 0;
      while i < |data|
        invariant 0 <= i <= |data|
        invariant buffer == old(buffer) + data[..i]
      {
        buffer := buffer + [data[i]];
        assert data[..i + 1] == data[..i] + [data[i]];
        i := i + 1;
      }
      assert data[..i] == data;
    }

    /** How far two ranges agree from their starts. */
    method MismatchAt(a: seq<byte>, b: seq<byte>) returns (m: nat)
      ensures m == MatchLen(a, b)
    {
      m := 0;
      assert a[0..] == a && b[0..] == b;
      while m < |a| && m < |b| && a[m] == b[m]
        invariant m <= |a| && m <= |b|
        invariant MatchLen(a, b) == m + MatchLen(a[m..], b[m..])
      {
        assert a[m..][1..] == a[m + 1..] && b[m..][1..] == b[m + 1..];
        m := m + 1;
      }
    }

    method GetMessage() returns (r: Reply)
      requires Valid() && FirstFits(d, Seen(ring, overflowing, buffer))
      modifies this
      ensures Valid()
      ensures (r, buffer) == Next(d, Seen(ring, overflowing, old(buffer)))
      ensures !overflowing || old(|buffer|) < ring ==> (r, buffer) == Next(d, old(buffer))
    {
      hide Next, MatchLen;
      ghost var seen := Seen(ring, overflowing, buffer);
      ghost var target := Next(d, seen);
      var aliased := overflowing && |buffer| == ring;
      while buffer != []
        invariant |buffer| <= ring
        invariant aliased ==> buffer == old(buffer) && overflowing && |buffer| == ring
        invariant target == Next(d, if aliased then Seen(ring, overflowing, buffer) else buffer)
        decreases |buffer|
      {
        NextByStep(d, buffer);
        var m := MismatchAt(d.prefix, if aliased then [] else buffer);
        if m == 0 {
          buffer := buffer[1..];
          aliased := false;
          continue;
        }
        assert !aliased;
        if m < |d.prefix| && m < |buffer| {
          buffer := buffer[1..];
          continue;
        }
        if m < |d.prefix| {
          return ReadRequest(d.fixedSize - m);
        }
        assert target == Next(d, buffer) && MatchLen(d.prefix, buffer) == |d.prefix|;
        break;
      }
      NextByStep(d, buffer);
      if buffer == [] {
        return ReadRequest(d.fixedSize);
      }
      var bsize := |buffer|;
      if bsize < d.fixedSize {
        return ReadRequest(d.fixedSize - bsize);
      }
      var desired := SizeAt(d, buffer);
      if bsize < desired {
        return ReadRequest(desired - bsize);
      }
      assert desired <= d.capacity;
      r := Message(buffer[..desired]);
      ghost var before := buffer;
      var i := desired;
      while i > 0
        invariant 0 <= i <= desired
        invariant buffer == before[desired - i..]
      {
        buffer := buffer[1..];
        i := i - 1;
      }
    }

    lemma StreamIsGood()
      requires Valid()
      ensures GoodStream(d)
    {
    }

    /** Calls get_message until it asks for more. */
    method Drain() returns (msgs: seq<seq<byte>>, k: nat)
      requires Valid() && |buffer| < ring && MessagesFit(d, buffer)
      modifies this
      ensures Valid()
      ensures msgs == Messages(Parse(d, old(buffer)).segs) && buffer == Parse(d, old(buffer)).rest
      ensures StepOf(d, buffer) == Need(k) && |buffer| <= old(|buffer|)
    {
      hide Parse, Messages, StepOf, Next, FirstFits, MessagesFit, GoodStream;
      StreamIsGood();
      msgs := [];
      while true
        invariant Valid() && GoodStream(d) && |buffer| <= old(|buffer|) && MessagesFit(d, buffer)
        invariant msgs + Messages(Parse(d, buffer).segs) == Messages(Parse(d, old(buffer)).segs)
        invariant Parse(d, buffer).rest == Parse(d, old(buffer)).rest
        decreases |buffer|
      {
        AllFit(d, buffer);
        NextFits(d, buffer);
        var r := GetMessage();
        if r.ReadRequest? {
          assert msgs + [] == msgs;
          return msgs, r.k;
        }
        ghost var later := Messages(Parse(d, buffer).segs);
        assert msgs + ([r.bytes] + later) == msgs + [r.bytes] + later;
        msgs := msgs + [r.bytes];
      }
    }

    /** Takes the bytes a reader was asked for and all messages they complete. */
    method Accept(data: seq<byte>) returns (msgs: seq<seq<byte>>, k: nat)
      requires Valid() && GoodStream(d) && d.capacity > 0
      requires |buffer + data| <= d.capacity && MessagesFit(d, buffer + data)
      modifies this
      ensures Valid()
      ensures msgs == Messages(Parse(d, old(buffer) + data).segs) && buffer == Parse(d, old(buffer) + data).rest
      ensures StepOf(d, buffer) == Need(k)
    {
      hide Parse, Messages, StepOf, MessagesFit;
      Insert(data);
      msgs, k := Drain();
    }

    /** Any chunking of a stream, draining after each chunk, yields the messages of one greedy parse. */
    method Feed(chunks: seq<seq<byte>>) returns (msgs: seq<seq<byte>>)
      requires Valid() && StepOf(d, buffer).Need?
      requires MessagesFit(d, buffer + Concat(chunks))
      requires forall i :: 0 <= i < |chunks| ==>
                 |Parse(d, buffer + Concat(chunks[..i])).rest| + |chunks[i]| < ring
      modifies this
      ensures Valid()
      ensures msgs == Messages(Parse(d, old(buffer) + Concat(chunks)).segs)
      ensures buffer == Parse(d, old(buffer) + Concat(chunks)).rest
    {
      hide Parse, Messages, StepOf, MessagesFit, Concat, GoodStream;
      msgs := [];
      ghost var start := buffer;
      assert chunks[..0] == [] && Concat(chunks[..0]) == [] && start + [] == start by {
        ConcatNothing();
      }
      AtRest(d, start);
      var i := 0;
      while i < |chunks|
        invariant 0 <= i <= |chunks| && Valid()
        invariant msgs == Messages(Parse(d, start + Concat(chunks[..i])).segs)
        invariant buffer == Parse(d, start + Concat(chunks[..i])).rest
      {
        FeedStep(d, start, chunks, i);
        LaterMessagesFit(d, start, chunks, i);
        Insert(chunks[i]);
        var more, k := Drain();
        msgs := msgs + more;
        i := i + 1;
      }
      assert chunks[..i] == chunks;
    }
  }

  /** A reader that supplies exactly the bytes requested gets all messages of the stream.  marks are the
      places where it stands between two reads: every message ends at one of them, and what it holds
      together with what it reads next is never longer than one message may be. */
  method ReadExactly(receiver: Receiver, stream: seq<byte>)
    returns (msgs: seq<seq<byte>>, ghost marks: seq<nat>)
    requires receiver.Valid() && receiver.buffer == [] && SizesCover(receiver.d) && MessagesFit(receiver.d, stream)
    modifies receiver
    ensures receiver.Valid() && msgs == Messages(Parse(receiver.d, stream).segs)
    ensures Reads(receiver.d, stream, marks) && EndAtMarks(receiver.d, stream, msgs, marks)
    ensures receiver.buffer == Parse(receiver.d, stream[..marks[|marks| - 1]]).rest
    ensures marks[|marks| - 1] + Request(receiver.d, stream, marks[|marks| - 1]) > |stream|
    ensures Loads(receiver.d, stream, marks)
  {
    hide *;
    ghost var d := receiver.d;
    ReceiverGood(receiver);
    var pos: nat, k: nat := 0, receiver.d.fixedSize;
    msgs, marks := [], [0];
    ReadingStarts(d, stream);
    while pos + k <= |stream|
      invariant receiver.Valid() && receiver.d == d && pos <= |stream| && k > 0
      invariant Reading(d, stream, pos, receiver.buffer, k, msgs, marks)
      decreases |stream| - pos
    {
      var more := stream[pos..pos + k];
      ghost var b := receiver.buffer;
      ReadingFits(d, stream, pos, b, k, msgs, marks);
      var got, next := receiver.Accept(more);
      ReadingGoesOn(d, stream, pos, b, k, msgs, marks, receiver.buffer, next);
      msgs := msgs + got;
      pos, k := pos + k, next;
      marks := marks + [pos];
    }
    ReadingEnds(d, stream, pos, receiver.buffer, k, msgs, marks);
  }

  lemma ReceiverGood(receiver: Receiver)
    requires receiver.Valid()
    ensures GoodStream(receiver.d)
  {
  }

  /** The bytes requested by a receiver that has taken pos bytes of the stream. */
  ghost function Request(d: StreamDef, stream: seq<byte>, pos: nat): nat {
    if GoodStream(d) && pos <= |stream| && StepOf(d, Parse(d, stream[..pos]).rest).Need? then
      StepOf(d, Parse(d, stream[..pos]).rest).k
    else
      0
  }

  /** What it holds once it has got them. */
  ghost function Load(d: StreamDef, stream: seq<byte>, pos: nat): nat {
    Request(d, stream, pos) + if GoodStream(d) && pos <= |stream| then |Parse(d, stream[..pos]).rest| else 0
  }

  /** From the start of the stream, exactly the requested bytes are read each time. */
  ghost predicate Reads(d: StreamDef, stream: seq<byte>, marks: seq<nat>) {
    && marks != [] && marks[0] == 0
    && (forall i :: 0 <= i < |marks| ==> marks[i] <= |stream|)
    && forall i :: 0 <= i < |marks| - 1 ==> marks[i + 1] == marks[i] + Request(d, stream, marks[i])
  }

  /** No read makes it hold more than one message may have. */
  ghost predicate Loads(d: StreamDef, stream: seq<byte>, marks: seq<nat>) {
    forall i :: 0 <= i < |marks| - 1 ==> Load(d, stream, marks[i]) <= d.capacity
  }

  /** The first pos bytes of the stream hold these messages and end with the last of them. */
  ghost predicate EndsAt(d: StreamDef, stream: seq<byte>, msgs: seq<seq<byte>>, pos: nat)
    requires msgs != []
  {
    && GoodStream(d) && pos <= |stream|
    && Messages(Parse(d, stream[..pos]).segs) == msgs && Suffix(stream, msgs[|msgs| - 1], pos)
  }

  ghost predicate EndsAtMark(d: StreamDef, stream: seq<byte>, msgs: seq<seq<byte>>, marks: seq<nat>)
    requires msgs != []
  {
    exists j :: 0 <= j < |marks| && EndsAt(d, stream, msgs, marks[j])
  }

  /** Each message ends at a mark. */
  ghost predicate EndAtMarks(d: StreamDef, stream: seq<byte>, msgs: seq<seq<byte>>, marks: seq<nat>) {
    forall k :: 0 < k <= |msgs| ==> EndsAtMark(d, stream, msgs[..k], marks)
  }

  /** The reader has just read the last byte of m. */
  ghost predicate Suffix(stream: seq<byte>, m: seq<byte>, stop: nat) {
    |m| <= stop <= |stream| && stream[stop - |m|..stop] == m
  }

  /** The state of a reader that has taken pos bytes and is asked for k more. */
  ghost predicate Reading(d: StreamDef, stream: seq<byte>, pos: nat, b: seq<byte>, k: nat,
                          msgs: seq<seq<byte>>, marks: seq<nat>) {
    && GoodStream(d) && pos <= |stream|
    && b == Parse(d, stream[..pos]).rest && StepOf(d, b) == Need(k)
    && msgs == Messages(Parse(d, stream[..pos]).segs)
    && Reads(d, stream, marks) && marks[|marks| - 1] == pos
    && EndAtMarks(d, stream, msgs, marks)
    && Loads(d, stream, marks)
    && Suffix(stream, b, pos)
  }

  lemma ReadingStarts(d: StreamDef, stream: seq<byte>)
    requires GoodStream(d)
    ensures Reading(d, stream, 0, [], d.fixedSize, [], [0]) && d.fixedSize > 0
  {
    EmptyWaits(d, stream);
    hide Parse, Messages, StepOf;
    assert stream[..0] == [];
  }

  lemma ReadingFits(d: StreamDef, stream: seq<byte>, pos: nat, b: seq<byte>, k: nat,
                    msgs: seq<seq<byte>>, marks: seq<nat>)
    requires Reading(d, stream, pos, b, k, msgs, marks) && pos + k <= |stream|
    requires SizesCover(d) && MessagesFit(d, stream)
    ensures GoodStream(d)
    ensures var more := stream[pos..pos + k];
            |b + more| <= d.capacity && 0 < d.capacity && MessagesFit(d, b + more)
  {
    hide Parse, Messages, StepOf, MessagesFit, SizesCover, Suffix, Reads, EndAtMarks, Load;
    var a, more, z := stream[..pos], stream[pos..pos + k], stream[pos + k..];
    assert stream == a + (more + z);
    ExactPiece(d, a, more, z);
  }

  lemma ReadingGoesOn(d: StreamDef, stream: seq<byte>, pos: nat, b: seq<byte>, k: nat,
                      msgs: seq<seq<byte>>, marks: seq<nat>, b': seq<byte>, k': nat)
    requires Reading(d, stream, pos, b, k, msgs, marks) && pos + k <= |stream|
    requires SizesCover(d) && MessagesFit(d, stream)
    requires b' == Parse(d, b + stream[pos..pos + k]).rest && StepOf(d, b') == Need(k')
    ensures var got := Messages(Parse(d, b + stream[pos..pos + k]).segs);
            Reading(d, stream, pos + k, b', k', msgs + got, marks + [pos + k])
    ensures k' > 0
  {
    hide Parse, Messages, StepOf, MessagesFit, SizesCover, Suffix, EndAtMarks, Reads, Loads;
    var a, more, z := stream[..pos], stream[pos..pos + k], stream[pos + k..];
    assert stream == a + (more + z) && stream[..pos + k] == a + more;
    ExactPiece(d, a, more, z);
    ReadOn(stream, b, more, pos);
    RestEnds(d, stream, b + more, pos + k);
    WaitingFor(d, b');
    var got := Messages(Parse(d, b + more).segs);
    if got == [] {
      assert msgs + got == msgs;
    }
    MarksGrow(d, stream, msgs, marks, got, pos + k);
    ReadsGrow(d, stream, marks, k);
  }

  lemma ReadsGrow(d: StreamDef, stream: seq<byte>, marks: seq<nat>, k: nat)
    requires Reads(d, stream, marks) && Loads(d, stream, marks)
    requires var pos := marks[|marks| - 1];
             Request(d, stream, pos) == k && pos + k <= |stream| && Load(d, stream, pos) <= d.capacity
    ensures Reads(d, stream, marks + [marks[|marks| - 1] + k])
    ensures Loads(d, stream, marks + [marks[|marks| - 1] + k])
  {
    hide Load, Request;
  }

  lemma MarksGrow(d: StreamDef, stream: seq<byte>, msgs: seq<seq<byte>>, marks: seq<nat>, got: seq<seq<byte>>, pos: nat)
    requires EndAtMarks(d, stream, msgs, marks) && |got| <= 1
    requires got != [] ==> EndsAt(d, stream, msgs + got, pos)
    ensures EndAtMarks(d, stream, msgs + got, marks + [pos])
  {
    hide EndsAt;
    var all, more := msgs + got, marks + [pos];
    forall k | 0 < k <= |all|
      ensures EndsAtMark(d, stream, all[..k], more)
    {
      if k <= |msgs| {
        assert all[..k] == msgs[..k];
        assert EndsAtMark(d, stream, msgs[..k], marks);
        var j :| 0 <= j < |marks| && EndsAt(d, stream, msgs[..k], marks[j]);
        assert more[j] == marks[j];
      } else {
        assert all[..k] == all && more[|marks|] == pos;
      }
    }
  }

  lemma ReadingEnds(d: StreamDef, stream: seq<byte>, pos: nat, b: seq<byte>, k: nat,
                    msgs: seq<seq<byte>>, marks: seq<nat>)
    requires Reading(d, stream, pos, b, k, msgs, marks) && pos + k > |stream|
    ensures GoodStream(d) && marks != [] && marks[|marks| - 1] == pos <= |stream|
    ensures b == Parse(d, stream[..pos]).rest && pos + Request(d, stream, pos) > |stream|
    ensures msgs == Messages(Parse(d, stream).segs)
    ensures Reads(d, stream, marks) && EndAtMarks(d, stream, msgs, marks)
    ensures Loads(d, stream, marks)
  {
    hide Parse, Messages, StepOf, Suffix, EndAtMarks, Load;
    assert stream == stream[..pos] + stream[pos..];
    NothingMore(d, stream[..pos], stream[pos..]);
  }

  lemma EmptyWaits(d: StreamDef, stream: seq<byte>)
    requires GoodStream(d)
    ensures StepOf(d, []) == Need(d.fixedSize) && d.fixedSize > 0
    ensures Parse(d, []) == Parsed([], []) && Messages([]) == []
    ensures Suffix(stream, [], 0)
  {
  }

  lemma ReadOn(stream: seq<byte>, b: seq<byte>, more: seq<byte>, pos: nat)
    requires Suffix(stream, b, pos) && pos + |more| <= |stream| && stream[pos..pos + |more|] == more
    ensures Suffix(stream, b + more, pos + |more|)
  {
    assert stream[pos - |b|..pos + |more|] == stream[pos - |b|..pos] + stream[pos..pos + |more|];
  }

  lemma RestEnds(d: StreamDef, stream: seq<byte>, b: seq<byte>, pos: nat)
    requires GoodStream(d) && Suffix(stream, b, pos)
    ensures Suffix(stream, Parse(d, b).rest, pos)
  {
    hide Parse;
    RestIsSuffix(d, b);
  }

  lemma {:induction false} RestIsSuffix(d: StreamDef, b: seq<byte>)
    requires GoodStream(d)
    ensures var rest := Parse(d, b).rest; |rest| <= |b| && b[|b| - |rest|..] == rest
    decreases |b|
  {
    hide StepOf;
    match StepOf(d, b)
    case Need(_) =>
    case Drop =>
      NonEmptyStep(d, b);
      RestIsSuffix(d, b[1..]);
    case Emit(n) =>
      NonEmptyStep(d, b);
      if n > 0 { RestIsSuffix(d, b[n..]); }
  }

  function Concat(chunks: seq<seq<byte>>): seq<byte> {
    if chunks == [] then [] else chunks[0] + Concat(chunks[1..])
  }

  lemma ConcatFront(chunk: seq<byte>, chunks: seq<seq<byte>>)
    ensures Concat([chunk] + chunks) == chunk + Concat(chunks)
    ensures Concat([]) == []
  {
    assert ([chunk] + chunks)[1..] == chunks;
  }

  lemma {:induction false} ConcatSnoc(chunks: seq<seq<byte>>, i: nat)
    requires i < |chunks|
    ensures Concat(chunks[..i + 1]) == Concat(chunks[..i]) + chunks[i]
    ensures Concat(chunks) == Concat(chunks[..i]) + Concat(chunks[i..])
  {
    if i > 0 {
      ConcatSnoc(chunks[1..], i - 1);
      assert chunks[..i + 1][1..] == chunks[1..][..i] && chunks[..i][1..] == chunks[1..][..i - 1];
      assert chunks[1..][i - 1..] == chunks[i..];
    } else {
      assert chunks[..1][1..] == [] && chunks[0..] == chunks && chunks[..0] == [];
    }
  }

  lemma ConcatNothing()
    ensures Concat([]) == []
  {
  }

  lemma FeedStep(d: StreamDef, start: seq<byte>, chunks: seq<seq<byte>>, i: nat)
    requires GoodStream(d) && i < |chunks|
    ensures var a := Parse(d, start + Concat(chunks[..i]));
            var b := Parse(d, a.rest + chunks[i]);
            var c := Parse(d, start + Concat(chunks[..i + 1]));
            Messages(c.segs) == Messages(a.segs) + Messages(b.segs) && c.rest == b.rest
  {
    hide Parse, Messages, Concat;
    var a := start + Concat(chunks[..i]);
    ConcatSnoc(chunks, i);
    assert start + Concat(chunks[..i + 1]) == a + chunks[i];
    ParseAppend(d, a, chunks[i]);
    MessagesConcat(Parse(d, a).segs, Parse(d, Parse(d, a).rest + chunks[i]).segs);
  }

  lemma AtRest(d: StreamDef, b: seq<byte>)
    requires GoodStream(d) && StepOf(d, b).Need?
    ensures Parse(d, b) == Parsed([], b) && Messages(Parse(d, b).segs) == []
  {
  }

  /** Where all messages fit, so do those behind the first one. */
  lemma NextFits(d: StreamDef, b: seq<byte>)
    requires GoodStream(d) && MessagesFit(d, b)
    ensures var (r, rest) := Next(d, b); var p := Parse(d, b);
            && |rest| <= |b| && Parse(d, rest).rest == p.rest && MessagesFit(d, rest)
            && (r.Message? ==> |rest| < |b| && Messages(p.segs) == [r.bytes] + Messages(Parse(d, rest).segs))
            && (r.ReadRequest? ==> Messages(p.segs) == [] && rest == p.rest && StepOf(d, rest) == Need(r.k))
  {
    hide Messages, StepOf, Next, Stuck;
    NextParses(d, b);
    var (r, rest) := Next(d, b);
    if r.Message? {
      var later := Messages(Parse(d, rest).segs);
      assert forall m :: m in later ==> m in [r.bytes] + later;
    } else {
      AtRest(d, rest);
    }
  }

  lemma AllFit(d: StreamDef, b: seq<byte>)
    requires GoodStream(d) && MessagesFit(d, b)
    ensures FirstFits(d, b)
  {
    NextParses(d, b);
    if Next(d, b).0.Message? {
      assert Next(d, b).0.bytes in Messages(Parse(d, b).segs);
    }
  }

  /** If all messages of the stream fit, so do those completed by chunk i. */
  lemma LaterMessagesFit(d: StreamDef, start: seq<byte>, chunks: seq<seq<byte>>, i: nat)
    requires GoodStream(d) && i < |chunks| && MessagesFit(d, start + Concat(chunks))
    ensures MessagesFit(d, Parse(d, start + Concat(chunks[..i])).rest + chunks[i])
  {
    hide Parse, Messages, MessagesFit;
    ConcatSnoc(chunks, i);
    assert chunks[i..][1..] == chunks[i + 1..];
    var a, c, z := start + Concat(chunks[..i]), chunks[i], Concat(chunks[i + 1..]);
    assert Concat(chunks[i..]) == c + z;
    assert start + Concat(chunks) == a + (c + z);
    PieceFits(d, a, c, z);
  }

  lemma PieceFits(d: StreamDef, a: seq<byte>, c: seq<byte>, z: seq<byte>)
    requires GoodStream(d) && MessagesFit(d, a + (c + z))
    ensures MessagesFit(d, Parse(d, a).rest + c)
  {
    hide Parse, Messages, Stuck;
    var rest := Parse(d, a).rest;
    ParseAppend(d, a, c + z);
    assert rest + (c + z) == rest + c + z;
    MessagesConcat(Parse(d, a).segs, Parse(d, rest + c + z).segs);
    PrefixFits(d, rest + c, z);
  }

  lemma PrefixFits(d: StreamDef, a: seq<byte>, z: seq<byte>)
    requires GoodStream(d) && MessagesFit(d, a + z)
    ensures MessagesFit(d, a)
  {
    hide Parse, Messages, Stuck;
    ParseAppend(d, a, z);
    MessagesConcat(Parse(d, a).segs, Parse(d, Parse(d, a).rest + z).segs);
    StuckStays(d, Parse(d, a).rest, z);
  }

  lemma StuckStays(d: StreamDef, b: seq<byte>, z: seq<byte>)
    requires GoodStream(d)
    ensures Stuck(d, b) ==> Stuck(d, Parse(d, b + z).rest)
  {
    hide StepOf;
    if Stuck(d, b) {
      StepStable(d, b, z);
    }
  }

  /** What the requested bytes complete: nothing, or one message that ends with them. */
  lemma ExactPiece(d: StreamDef, a: seq<byte>, more: seq<byte>, z: seq<byte>)
    requires GoodStream(d) && SizesCover(d) && MessagesFit(d, a + (more + z))
    requires var b := Parse(d, a).rest; StepOf(d, b).Need? && |more| == StepOf(d, b).k
    ensures var b := Parse(d, a).rest;
            && MessagesFit(d, b + more) && |b + more| <= d.capacity
            && Messages(Parse(d, a + more).segs) == Messages(Parse(d, a).segs) + Messages(Parse(d, b + more).segs)
            && Parse(d, a + more).rest == Parse(d, b + more).rest
            && (Messages(Parse(d, b + more).segs) != [] ==>
                  Messages(Parse(d, b + more).segs) == [b + more] && Parse(d, b + more).rest == [])
  {
    hide Parse, Messages, StepOf, MessagesFit, SizesCover;
    var b := Parse(d, a).rest;
    PieceFits(d, a, more, z);
    ParseAppend(d, a, more);
    MessagesConcat(Parse(d, a).segs, Parse(d, b + more).segs);
    if Messages(Parse(d, b + more).segs) != [] {
      ExactReadConsumesAll(d, b, more);
      OneMessage(b + more);
    }
    ExactFits(d, b, more);
  }

  lemma OneMessage(m: seq<byte>)
    ensures Messages([Msg(m)]) == [m]
  {
  }

  /** The bytes held and requested never exceed one message. */
  lemma ExactFits(d: StreamDef, b: seq<byte>, more: seq<byte>)
    requires GoodStream(d) && StepOf(d, b).Need? && |more| == StepOf(d, b).k
    requires MessagesFit(d, b + more)
    ensures |b + more| <= d.capacity
  {
    WaitingFor(d, b);
    if d.fixedSize <= |b| {
      var s := b + more;
      PrefixStays(d, b, more);
      assert s[..d.fixedSize] == b[..d.fixedSize];
      assert StepOf(d, s) == Emit(|s|);
      hide StepOf;
      assert s[..|s|] == s;
      assert Messages(Parse(d, s).segs)[0] == s;
    }
  }

  /** The bytes behind the last request complete nothing. */
  lemma NothingMore(d: StreamDef, a: seq<byte>, z: seq<byte>)
    requires GoodStream(d)
    requires var b := Parse(d, a).rest; StepOf(d, b).Need? && |z| < StepOf(d, b).k
    ensures Messages(Parse(d, a + z).segs) == Messages(Parse(d, a).segs)
  {
    hide Parse, Messages, StepOf;
    var b := Parse(d, a).rest;
    ParseAppend(d, a, z);
    MessagesConcat(Parse(d, a).segs, Parse(d, b + z).segs);
    RequestIsNeeded(d, b, z);
  }
}

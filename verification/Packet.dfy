/** Packets: prefix, sized payload, checksum; and their way through a byte stream. */
module Packet {
  import opened Bytes
  import opened ProtocolDefs
  import opened ProtocolSpec
  import opened ProtocolLeaves
  import opened ProtocolLaws
  import opened ProtocolBounds
  import opened ProtocolConverter
  import Stream = SequencerSpec
  import Seqr = Sequencer

  datatype ErrorRecord = ErrorRecord(mark: Mark, offset: nat)

  datatype Extracted = Value(v: Val) | Error(record: ErrorRecord) | Undefined

  // ------------------------------------------------------------------ handler

  /** Encodes into a message of maximal size and cuts it to the bytes used. */
  method HandlerSerialize(d: Def, e: Endian, v: Val) returns (msg: array<byte>)
    requires Good(d) && Typed(d, v)
    ensures fresh(msg) && msg[..] == Ser(d, e, v) && msg.Length <= MaxSize(d)
  {
    var res := new byte[MaxSize(d)];
    var used := SerializeAt(d, e, v, res, 0);
    SizeBounds(d, e, v);
    msg := new byte[used](i requires 0 <= i < used <= res.Length reads res => res[i]);
    assert msg[..] == res[..used];
    assert res[0..0 + used] == res[..used];
  }

  method HandlerExtract(d: Def, e: Endian, msg: seq<byte>) returns (r: Extracted)
    requires Good(d)
    ensures r == match Deser(d, e, msg)
                 case Fine(_, v) => Value(v)
                 case Fail(used, err) => Error(ErrorRecord(err, used))
                 case OutOfBounds => Undefined
  {
    var res := Deserialize(d, e, msg);
    match res
    case Fine(_, v) => return Value(v);
    case Fail(used, err) => return Error(ErrorRecord(err, used));
    case OutOfBounds => return Undefined;
  }

  // ------------------------------------------------------------------ packets

  datatype PacketDef = PacketDef(
    order: Endian, prefix: seq<byte>, sizeWidth: nat, payload: Def, sumWidth: nat, checksum: seq<byte> -> nat)

  /** No object is larger than half the address space, so neither is the message of a packet. */
  ghost predicate GoodPacket(p: PacketDef) {
    && p.prefix != [] && GoodWidth(p.sizeWidth) && GoodWidth(p.sumWidth)
    && Good(p.payload) && Trailing(p.payload)
    && MaxSize(Layout(p)) < SIZE_LIMIT / 2
    && forall b: seq<byte> :: p.checksum(b) < Pow256(p.sumWidth)
  }

  function Fields(p: PacketDef): seq<Def> {
    [Array(Int(1, false), |p.prefix|), SizedBuffer(Int(p.sizeWidth, false), p.payload), Int(p.sumWidth, false)]
  }

  function Layout(p: PacketDef): Def {
    WithEndian(p.order, Tuple(Fields(p)))
  }

  function PrefixVal(prefix: seq<byte>): (vs: seq<Val>)
    ensures |vs| == |prefix| && forall i :: 0 <= i < |vs| ==> vs[i] == VInt(prefix[i])
  {
    seq(|prefix|, i requires 0 <= i < |prefix| => VInt(prefix[i]))
  }

  function FieldVals(p: PacketDef, v: Val, sum: nat): seq<Val> {
    [VList(PrefixVal(p.prefix)), v, VInt(sum)]
  }

  /** Payload and a payload length its counter can hold. */
  predicate Sendable(p: PacketDef, v: Val)
    requires Good(p.payload)
  {
    && Typed(p.payload, v) && CountersFit(p.payload, p.order, v)
    && |Ser(p.payload, p.order, v)| < Pow256(p.sizeWidth)
  }

  /** Everything in front of the checksum. */
  function Body(p: PacketDef, v: Val): seq<byte>
    requires Good(p.payload) && Typed(p.payload, v)
  {
    var s := Ser(p.payload, p.order, v);
    p.prefix + SerInt(p.sizeWidth, p.order, |s| % Pow256(p.sizeWidth)) + s
  }

  function PacketBytes(p: PacketDef, v: Val): seq<byte>
    requires Good(p.payload) && Typed(p.payload, v)
  {
    Body(p, v) + SerInt(p.sumWidth, p.order, p.checksum(Body(p, v)))
  }

  lemma OneByte(e: Endian, b: byte)
    ensures SerInt(1, e, b) == [b]
    ensures InRange(1, false, b)
  {
    assert Pow256(1) == 256 * Pow256(0) == 256;
    assert ToLittle(1, b) == [b % 256] + ToLittle(0, b / 256);
    assert Reverse([b]) == [b];
  }

  lemma {:induction false} PrefixBytes(e: Endian, prefix: seq<byte>)
    ensures AllTyped(Int(1, false), PrefixVal(prefix))
    ensures SerMany(Int(1, false), e, PrefixVal(prefix)) == prefix
  {
    forall i | 0 <= i < |prefix|
      ensures Typed(Int(1, false), PrefixVal(prefix)[i])
    {
      OneByte(e, prefix[i]);
    }
    if prefix != [] {
      PrefixBytes(e, prefix[1..]);
      assert PrefixVal(prefix)[1..] == PrefixVal(prefix[1..]);
      OneByte(e, prefix[0]);
      assert prefix == [prefix[0]] + prefix[1..];
    }
  }

  lemma LayoutGood(p: PacketDef)
    requires GoodPacket(p)
    ensures Good(Layout(p)) && Delimited(Layout(p)) && AllGood(Fields(p))
    ensures Good(Tuple(Fields(p)))
  {
    var fs := Fields(p);
    assert Good(fs[0]) && Good(fs[1]) && Good(fs[2]);
    assert Good(Tuple(fs));
    assert Delimited(fs[0]) && Delimited(fs[1]) && Delimited(fs[2]);
    assert Delimited(Tuple(fs));
  }

  lemma LayoutTyped(p: PacketDef, v: Val, sum: nat)
    requires GoodPacket(p) && Typed(p.payload, v) && sum < Pow256(p.sumWidth)
    ensures Good(Layout(p)) && Good(Tuple(Fields(p))) && AllGood(Fields(p))
    ensures TypedItems(Fields(p), FieldVals(p, v, sum))
    ensures Typed(Layout(p), VList(FieldVals(p, v, sum)))
  {
    hide Typed, Good, Delimited;
    LayoutGood(p);
    PrefixTyped(p.prefix);
    LeafInt(p.sumWidth, p.order, sum);
    var fs, vs := Fields(p), FieldVals(p, v, sum);
    TypedSized(Int(p.sizeWidth, false), p.payload, v);
    assert Typed(fs[0], vs[0]) && Typed(fs[1], vs[1]) && Typed(fs[2], vs[2]);
    TypedTuple(p.order, fs, vs);
  }

  lemma PrefixTyped(prefix: seq<byte>)
    ensures Typed(Array(Int(1, false), |prefix|), VList(PrefixVal(prefix)))
  {
    PrefixBytes(Big, prefix);
  }

  lemma TypedSized(counter: Def, payload: Def, v: Val)
    requires Typed(payload, v)
    ensures Typed(SizedBuffer(counter, payload), v)
  {
  }

  lemma TypedTuple(order: Endian, ds: seq<Def>, vs: seq<Val>)
    requires TypedItems(ds, vs)
    ensures Typed(Tuple(ds), VList(vs)) && Typed(WithEndian(order, Tuple(ds)), VList(vs))
  {
  }

  /** The encoding of the three fields. */
  lemma LayoutBytes(p: PacketDef, e: Endian, v: Val, sum: nat)
    requires GoodPacket(p) && Typed(p.payload, v) && sum < Pow256(p.sumWidth)
    ensures Good(Layout(p)) && Typed(Layout(p), VList(FieldVals(p, v, sum)))
    ensures Ser(Layout(p), e, VList(FieldVals(p, v, sum))) == Body(p, v) + SerInt(p.sumWidth, p.order, sum)
  {
    hide Ser, Typed, Good, SerInt, SerCounter, SerItems, SerMany;
    LayoutTyped(p, v, sum);
    var fs, vs, o := Fields(p), FieldVals(p, v, sum), p.order;
    WrapperParts(Layout(p), e, VList(vs));
    TupleParts(fs, o, VList(vs));
    ListParts(fs[0], o, vs[0]);
    PrefixBytes(o, p.prefix);
    WrapperParts(fs[1], o, v);
    SerLast(fs, o, vs);
    LeafInt(p.sumWidth, o, sum);
    CounterBytes(p.sizeWidth, o, |Ser(p.payload, o, v)|);
    var s := Ser(p.payload, o, v);
    Regroup(p.prefix, SerInt(p.sizeWidth, o, |s| % Pow256(p.sizeWidth)), s, SerInt(p.sumWidth, o, sum));
  }

  lemma Regroup(a: seq<byte>, b: seq<byte>, c: seq<byte>, d: seq<byte>)
    ensures a + b + c + d == a + ((b + c) + d)
  {
  }

  lemma SerLast(ds: seq<Def>, e: Endian, vs: seq<Val>)
    requires |ds| == 3 && AllGood(ds) && TypedItems(ds, vs)
    ensures SerItems(ds, e, vs) == Ser(ds[0], e, vs[0]) + (Ser(ds[1], e, vs[1]) + Ser(ds[2], e, vs[2]))
  {
    hide Ser, Typed, Good;
    var ds1, vs1 := ds[1..], vs[1..];
    var ds2, vs2 := ds1[1..], vs1[1..];
    assert SerItems(ds2[1..], e, vs2[1..]) == [];
    assert SerItems(ds2, e, vs2) == Ser(ds[2], e, vs[2]) + [];
    assert SerItems(ds1, e, vs1) == Ser(ds[1], e, vs[1]) + SerItems(ds2, e, vs2);
  }

  lemma LeafInt(w: nat, e: Endian, x: int)
    requires GoodWidth(w) && InRange(w, false, x)
    ensures Good(Int(w, false)) && Typed(Int(w, false), VInt(x)) && Ser(Int(w, false), e, VInt(x)) == SerInt(w, e, x)
  {
  }

  lemma CounterBytes(w: nat, e: Endian, n: nat)
    requires GoodWidth(w)
    ensures IsCounter(Int(w, false)) && SerCounter(Int(w, false), e, n) == SerInt(w, e, n % Pow256(w))
  {
  }

  /** The encoding with a zero checksum, then the checksum of the rest patched in. */
  method Serialize(p: PacketDef, v: Val) returns (msg: array<byte>)
    requires GoodPacket(p) && Typed(p.payload, v)
    ensures fresh(msg) && msg[..] == PacketBytes(p, v) && msg.Length <= MaxSize(Layout(p))
  {
    LayoutBytes(p, Big, v, 0);
    hide Ser, Typed, Good, SerInt, MaxSize, Body;
    msg := HandlerSerialize(Layout(p), Big, VList(FieldVals(p, v, 0)));
    ghost var body := Body(p, v);
    var n := msg.Length - p.sumWidth;
    assert msg[..n] == body;
    var sum := p.checksum(msg[..n]);
    ghost var m := msg[..];
    SerializeInt(p.sumWidth, p.order, sum, msg, n);
    assert msg[..n] == m[..n];
    assert msg[..] == msg[..n] + msg[n..n + p.sumWidth];
  }

  ghost function Decoded(p: PacketDef, msg: seq<byte>): Res<Val>
    requires GoodPacket(p)
  {
    LayoutGood(p);
    Deser(Layout(p), Big, msg)
  }

  /** Decodes and compares the checksum found with that of everything in front of the last bytes. */
  method Extract(p: PacketDef, msg: seq<byte>) returns (r: Extracted)
    requires GoodPacket(p)
    ensures Decoded(p, msg).Fine? ==>
              var pack := Decoded(p, msg).value;
              && pack.VList? && |pack.items| == 3 && pack.items[2].VInt? && p.sumWidth <= |msg|
              && r == if pack.items[2].i == p.checksum(msg[..|msg| - p.sumWidth]) then Value(pack.items[1])
                      else Error(ErrorRecord(ChecksumErr, |msg| - p.sumWidth))
    ensures Decoded(p, msg).OutOfBounds? ==> r == Undefined
    ensures Decoded(p, msg).Fail? ==> r == Error(ErrorRecord(Decoded(p, msg).err, Decoded(p, msg).used))
  {
    LayoutGood(p);
    if Decoded(p, msg).Fine? {
      LayoutShape(p, msg);
    }
    hide Deser, Good;
    var sub := HandlerExtract(Layout(p), Big, msg);
    match sub
    case Error(record) => return Error(record);
    case Undefined => return Undefined;
    case Value(pack) =>
      var present := pack.items[2].i;
      var pos := |msg| - p.sumWidth;
      if present != p.checksum(msg[..pos]) {
        return Error(ErrorRecord(ChecksumErr, pos));
      }
      return Value(pack.items[1]);
  }

  /** A decoded packet has its three fields and is at least as long as the checksum. */
  lemma LayoutShape(p: PacketDef, msg: seq<byte>)
    requires GoodPacket(p) && Good(Layout(p)) && Deser(Layout(p), Big, msg).Fine?
    ensures var v := Deser(Layout(p), Big, msg).value;
            v.VList? && |v.items| == 3 && v.items[2].VInt? && p.sumWidth <= |msg|
  {
    LayoutGood(p);
    hide Deser, Good;
    var fs := Fields(p);
    EndianCase(p.order, Tuple(fs), Big, msg);
    TupleCase(fs, p.order, msg);
    ThreeItems(fs, p.order, msg, p.sumWidth);
  }

  lemma ThreeItems(ds: seq<Def>, e: Endian, b: seq<byte>, w: nat)
    requires |ds| == 3 && AllGood(ds) && ds[2] == Int(w, false) && DeserItems(ds, e, b, 0).Fine?
    ensures var vs := DeserItems(ds, e, b, 0).value;
            |vs| == 3 && vs[2].VInt? && w <= |b|
  {
    hide Deser, Good, DeserItems;
    var ds1 := ds[1..];
    var ds2 := ds1[1..];
    ItemsStep(ds, e, b, 0);
    var r0 := Deser(ds[0], e, b[0..]);
    ItemsStep(ds1, e, b, r0.used);
    var r1 := Deser(ds1[0], e, b[r0.used..]);
    var at := r0.used + r1.used;
    ItemsStep(ds2, e, b, at);
    var r2 := Deser(ds2[0], e, b[at..]);
    ItemsStep(ds2[1..], e, b, at + r2.used);
    LeafCase(w, e, b[at..]);
  }

  lemma LeafCase(w: nat, e: Endian, b: seq<byte>)
    requires Good(Int(w, false))
    ensures Deser(Int(w, false), e, b).Fine? ==> Deser(Int(w, false), e, b).value.VInt? && w <= |b|
  {
  }

  /** What was serialized is extracted again. */
  lemma PacketRoundTrip(p: PacketDef, v: Val)
    requires GoodPacket(p) && Sendable(p, v)
    ensures Good(Layout(p))
    ensures var b := PacketBytes(p, v);
            && p.sumWidth <= |b| && b[..|b| - p.sumWidth] == Body(p, v)
            && Deser(Layout(p), Big, b) == Fine(|b|, VList(FieldVals(p, v, p.checksum(Body(p, v)))))
  {
    var sum := p.checksum(Body(p, v));
    LayoutGood(p);
    LayoutTyped(p, v, sum);
    LayoutCounters(p, v, sum);
    LayoutBytes(p, Big, v, sum);
    hide Deser, Ser, Typed, Good, SerInt, Body, CountersFit, Delimited;
    RoundTrip(Layout(p), Big, VList(FieldVals(p, v, sum)), []);
    assert PacketBytes(p, v) + [] == PacketBytes(p, v);
  }

  lemma LayoutCounters(p: PacketDef, v: Val, sum: nat)
    requires GoodPacket(p) && Sendable(p, v) && sum < Pow256(p.sumWidth)
    requires Good(Layout(p)) && Typed(Layout(p), VList(FieldVals(p, v, sum)))
    ensures CountersFit(Layout(p), Big, VList(FieldVals(p, v, sum)))
  {
    hide Ser, Good, Typed, CountersFit;
    LayoutTyped(p, v, sum);
    var fs, vs := Fields(p), FieldVals(p, v, sum);
    assert Good(fs[0]) && Good(fs[1]) && Good(fs[2]);
    assert Typed(fs[0], vs[0]) && Typed(fs[1], vs[1]) && Typed(fs[2], vs[2]);
    PrefixCounters(p.prefix, p.order);
    assert CounterHolds(Int(p.sizeWidth, false), |Ser(p.payload, p.order, v)|) by { LengthHolds(p, v); }
    SizedCounters(Int(p.sizeWidth, false), p.payload, p.order, v);
    SumCounters(p.sumWidth, p.order, sum);
    assert CountersFit(fs[0], p.order, vs[0]) && CountersFit(fs[1], p.order, vs[1]);
    assert CountersFit(fs[2], p.order, vs[2]);
    TupleCounters(p.order, fs, vs);
  }

  lemma LengthHolds(p: PacketDef, v: Val)
    requires GoodPacket(p) && Sendable(p, v)
    ensures CounterHolds(Int(p.sizeWidth, false), |Ser(p.payload, p.order, v)|)
  {
    hide Ser, Good, Typed, CountersFit, MaxSize, Pow256;
    LayoutSize(p);
    SizeBounds(p.payload, p.order, v);
  }

  lemma PrefixCounters(prefix: seq<byte>, e: Endian)
    requires Good(Array(Int(1, false), |prefix|)) && Typed(Array(Int(1, false), |prefix|), VList(PrefixVal(prefix)))
    ensures CountersFit(Array(Int(1, false), |prefix|), e, VList(PrefixVal(prefix)))
  {
  }

  lemma SizedCounters(counter: Def, payload: Def, e: Endian, v: Val)
    requires Good(SizedBuffer(counter, payload)) && Typed(SizedBuffer(counter, payload), v)
    requires IsCounter(counter) && Good(payload) && Typed(payload, v) && CountersFit(payload, e, v)
    requires CounterHolds(counter, |Ser(payload, e, v)|)
    ensures CountersFit(SizedBuffer(counter, payload), e, v)
  {
    hide Ser, Pow256;
  }

  lemma SumCounters(w: nat, e: Endian, sum: nat)
    requires Good(Int(w, false)) && Typed(Int(w, false), VInt(sum))
    ensures CountersFit(Int(w, false), e, VInt(sum))
  {
  }

  lemma TupleCounters(order: Endian, ds: seq<Def>, vs: seq<Val>)
    requires AllGood(ds) && TypedItems(ds, vs)
    requires Good(WithEndian(order, Tuple(ds))) && Typed(WithEndian(order, Tuple(ds)), VList(vs))
    requires forall i :: 0 <= i < |ds| ==> CountersFit(ds[i], order, vs[i])
    ensures CountersFit(WithEndian(order, Tuple(ds)), Big, VList(vs))
  {
    hide Ser;
    assert CountersFit(Tuple(ds), order, VList(vs));
  }

  // ------------------------------------------------------------------ packets in a stream

  /** The payload length in the fixed part. */
  function LengthField(p: PacketDef, head: seq<byte>): nat {
    if |head| == |p.prefix| + p.sizeWidth then FromLittle(Ordered(p.order, head[|p.prefix|..])) else 0
  }

  /** The size a sequencer reads off the fixed part: a sum that wraps. */
  function SizeOf(p: PacketDef, head: seq<byte>): nat {
    SizeSum(LengthField(p, head), |p.prefix| + p.sizeWidth + p.sumWidth)
  }

  function StreamOf(p: PacketDef): Stream.StreamDef {
    Stream.StreamDef(p.prefix, |p.prefix| + p.sizeWidth, MaxSize(Layout(p)), head => SizeOf(p, head))
  }

  lemma StreamGood(p: PacketDef)
    requires GoodPacket(p)
    ensures Stream.GoodStream(StreamOf(p))
  {
    LayoutSize(p);
  }

  /** Every size read off a fixed part covers that part if and only if the length field is narrower than
      eight bytes. */
  lemma SizesCoverExactly(p: PacketDef)
    requires GoodPacket(p)
    ensures Stream.SizesCover(StreamOf(p)) <==> p.sizeWidth < 8
  {
    hide SizeOf, LengthField, Good, MaxSize, Pow256;
    LayoutSize(p);
    if p.sizeWidth < 8 {
      forall head: seq<byte> | |head| == |p.prefix| + p.sizeWidth
        ensures |p.prefix| + p.sizeWidth <= SizeOf(p, head)
      {
        NarrowLength(p, head);
      }
    } else {
      var head := WrappingHead(p);
      assert StreamOf(p).getSize(head) == 0;
    }
  }

  lemma NarrowLength(p: PacketDef, head: seq<byte>)
    requires GoodPacket(p) && p.sizeWidth < 8
    ensures SizeOf(p, head) == LengthField(p, head) + |p.prefix| + p.sizeWidth + p.sumWidth
  {
    hide Good, MaxSize, FromLittle, Ordered;
    LayoutSize(p);
    WidthBound(p.sizeWidth);
    assert LengthField(p, head) < 0x1_0000_0000;
  }

  /** An eight-byte length that makes the packet size wrap to nothing: the sequencer is stuck with it. */
  lemma WrappingHead(p: PacketDef) returns (head: seq<byte>)
    requires GoodPacket(p) && p.sizeWidth == 8
    ensures |head| == |p.prefix| + 8 && SizeOf(p, head) == 0
    ensures Stream.Stuck(StreamOf(p), head)
  {
    hide Good, MaxSize, FromLittle, Ordered, SerInt;
    LayoutSize(p);
    WidthIsLimit();
    var n := SIZE_LIMIT - (|p.prefix| + p.sizeWidth + p.sumWidth);
    CounterReads(8, p.order, n);
    head := p.prefix + SerInt(8, p.order, n);
    assert head[|p.prefix|..] == SerInt(8, p.order, n);
    assert SizeOf(p, head) == SIZE_LIMIT % SIZE_LIMIT;
    StreamGood(p);
    assert head[..|head|] == head;
    Stream.MessageEmits(StreamOf(p), head, 0);
  }

  lemma LayoutSize(p: PacketDef)
    ensures MaxSize(Layout(p)) == |p.prefix| + p.sizeWidth + MaxSize(p.payload) + p.sumWidth
  {
    var fs := Fields(p);
    assert MaxSize(Layout(p)) == SumMax(fs);
    assert MaxSize(fs[0]) == |p.prefix|;
    assert MaxSize(fs[1]) == p.sizeWidth + MaxSize(p.payload);
    assert MaxSize(fs[2]) == p.sumWidth;
    hide MaxSize;
    assert fs[1..][0] == fs[1] && fs[1..][1..][0] == fs[2] && fs[1..][1..][1..] == [];
    assert SumMax(fs[1..][1..]) == MaxSize(fs[2]) + 0;
    assert SumMax(fs[1..]) == MaxSize(fs[1]) + SumMax(fs[1..][1..]);
  }

  /** The head of a packet: prefix and payload length. */
  lemma PacketHead(p: PacketDef, v: Val)
    requires GoodPacket(p) && Sendable(p, v)
    ensures var b := PacketBytes(p, v); var n := |p.prefix| + p.sizeWidth;
            && n <= |b| && p.prefix <= b && SizeOf(p, b[..n]) == |b|
  {
    var s := Ser(p.payload, p.order, v);
    var w := p.sizeWidth;
    var h := SerInt(w, p.order, |s|);
    var sum := SerInt(p.sumWidth, p.order, p.checksum(Body(p, v)));
    hide Ser, Typed, Good, CountersFit, Pow256, SerInt, PacketBytes, Body, MaxSize, SizeOf, Layout;
    PacketPieces(p, v);
    HeadPieces(p.prefix, h, s, sum);
    PacketLength(p, v);
    HeadSize(p, |s|);
  }

  lemma HeadSize(p: PacketDef, n: nat)
    requires n < Pow256(p.sizeWidth) && |p.prefix| + p.sizeWidth + n + p.sumWidth < SIZE_LIMIT
    ensures SizeOf(p, p.prefix + SerInt(p.sizeWidth, p.order, n)) == |p.prefix| + p.sizeWidth + n + p.sumWidth
  {
    hide Pow256, FromLittle, Ordered, SerInt;
    var h := SerInt(p.sizeWidth, p.order, n);
    CounterReads(p.sizeWidth, p.order, n);
    assert (p.prefix + h)[|p.prefix|..] == h;
  }

  /** A packet is its prefix, the payload length, the payload, and the checksum of all that. */
  lemma PacketPieces(p: PacketDef, v: Val)
    requires GoodPacket(p) && Sendable(p, v)
    ensures var s := Ser(p.payload, p.order, v);
            var front := p.prefix + SerInt(p.sizeWidth, p.order, |s|) + s;
            Body(p, v) == front && PacketBytes(p, v) == front + SerInt(p.sumWidth, p.order, p.checksum(front))
  {
    hide Ser, Typed, Good, CountersFit, Pow256, SerInt;
    CounterModulo(|Ser(p.payload, p.order, v)|, p.sizeWidth);
  }

  lemma CounterModulo(n: nat, w: nat)
    requires n < Pow256(w)
    ensures n % Pow256(w) == n
  {
    ModUnique(n, Pow256(w), 0, n);
  }

  lemma HeadPieces(prefix: seq<byte>, h: seq<byte>, s: seq<byte>, sum: seq<byte>)
    ensures prefix <= prefix + h + s + sum
    ensures (prefix + h + s + sum)[..|prefix| + |h|] == prefix + h
  {
  }

  lemma CounterReads(w: nat, e: Endian, n: nat)
    requires n < Pow256(w)
    ensures FromLittle(Ordered(e, SerInt(w, e, n))) == n
  {
    CounterModulo(n, w);
    FromToLittle(w, n);
    OrderedTwice(e, ToLittle(w, n));
  }

  /** get_size of a serialized packet is its length, whatever follows. */
  lemma PacketEmits(p: PacketDef, v: Val, rest: seq<byte>)
    requires GoodPacket(p) && Sendable(p, v)
    ensures Stream.GoodStream(StreamOf(p))
    ensures var b := PacketBytes(p, v);
            && Stream.StepOf(StreamOf(p), b + rest) == Stream.Emit(|b|)
            && 0 < |b| <= StreamOf(p).capacity
  {
    hide Stream.StepOf, SizeOf, PacketBytes, MaxSize, Ser, Typed, Good, CountersFit, Pow256;
    StreamGood(p);
    PacketLength(p, v);
    PacketHead(p, v);
    var b := PacketBytes(p, v);
    var n := |p.prefix| + p.sizeWidth;
    assert (b + rest)[..n] == b[..n] && p.prefix <= b + rest;
    Stream.MessageEmits(StreamOf(p), b + rest, |b|);
  }

  lemma PacketLength(p: PacketDef, v: Val)
    requires GoodPacket(p) && Typed(p.payload, v)
    ensures |PacketBytes(p, v)| <= MaxSize(Layout(p))
  {
    var sum := p.checksum(Body(p, v));
    LayoutBytes(p, Big, v, sum);
    hide Ser, Typed, Good, MaxSize, SerInt, Body;
    SizeBounds(Layout(p), Big, VList(FieldVals(p, v, sum)));
  }

  function AllPackets(p: PacketDef, vs: seq<Val>): seq<seq<byte>>
    requires Good(p.payload) && AllTyped(p.payload, vs)
  {
    if vs == [] then [] else [PacketBytes(p, vs[0])] + AllPackets(p, vs[1..])
  }

  ghost predicate AllSendable(p: PacketDef, vs: seq<Val>)
    requires Good(p.payload)
  {
    forall i :: 0 <= i < |vs| ==> Sendable(p, vs[i])
  }

  /** Packets sent back to back are found again, each whole, in order, with nothing left over. */
  lemma {:induction false} PacketsParse(p: PacketDef, vs: seq<Val>)
    requires GoodPacket(p) && AllTyped(p.payload, vs) && AllSendable(p, vs)
    ensures Stream.GoodStream(StreamOf(p))
    ensures var r := Stream.Parse(StreamOf(p), Seqr.Concat(AllPackets(p, vs)));
            && r.rest == []
            && Stream.Messages(r.segs) == AllPackets(p, vs)
            && |r.segs| == |vs|
    ensures Stream.MessagesFit(StreamOf(p), Seqr.Concat(AllPackets(p, vs)))
  {
    StreamGood(p);
    hide Sendable, Typed, Good, PacketBytes, StreamOf, Stream.StepOf, Stream.GoodStream, Stream.Parse, Stream.Messages;
    hide Stream.MessagesFit, Seqr.Concat;
    var d := StreamOf(p);
    if vs == [] {
      EmptyParse(d);
    } else {
      var b := PacketBytes(p, vs[0]);
      var tail := Seqr.Concat(AllPackets(p, vs[1..]));
      assert Sendable(p, vs[0]);
      PacketEmits(p, vs[0], tail);
      PacketsParse(p, vs[1..]);
      assert AllPackets(p, vs) == [b] + AllPackets(p, vs[1..]);
      hide AllPackets;
      Seqr.ConcatFront(b, AllPackets(p, vs[1..]));
      Stream.ParseEmit(d, b, tail);
    }
  }

  lemma EmptyParse(d: Stream.StreamDef)
    requires Stream.GoodStream(d)
    ensures Stream.Parse(d, []) == Stream.Parsed([], [])
  {
  }

  /** Part of a complete stream leaves less than one message behind. */
  lemma RestIsShort(d: Stream.StreamDef, a: seq<byte>, z: seq<byte>)
    requires Stream.GoodStream(d) && Stream.MessagesFit(d, a + z) && Stream.Parse(d, a + z).rest == []
    ensures |Stream.Parse(d, a).rest| < d.capacity
  {
    hide Stream.Parse, Stream.StepOf, Stream.Messages;
    var r := Stream.Parse(d, a).rest;
    Stream.ParseExplains(d, a);
    Stream.ParseAppend(d, a, z);
    Seqr.StuckStays(d, r, z);
    StartsEmpty(d);
    Stream.WaitingFor(d, r);
    Stream.MessagesConcat(Stream.Parse(d, a).segs, Stream.Parse(d, r + z).segs);
    if d.fixedSize <= |r| {
      RestCompletes(d, r, z);
      var m := (r + z)[..Stream.SizeAt(d, r)];
      assert m in Stream.Messages(Stream.Parse(d, a + z).segs);
      assert |r| < |m| <= d.capacity;
    } else {
      FixedFits(d);
    }
  }

  lemma FixedFits(d: Stream.StreamDef)
    requires Stream.GoodStream(d)
    ensures d.fixedSize <= d.capacity
  {
  }

  /** If a begun message is completed, it is the first one found. */
  lemma RestCompletes(d: Stream.StreamDef, r: seq<byte>, z: seq<byte>)
    requires Stream.GoodStream(d) && Stream.StepOf(d, r).Need? && d.fixedSize <= |r|
    requires Stream.Parse(d, r + z).rest == []
    ensures Stream.SizeAt(d, r) <= |r + z|
    ensures (r + z)[..Stream.SizeAt(d, r)] in Stream.Messages(Stream.Parse(d, r + z).segs)
  {
    Stream.PrefixStays(d, r, z);
    assert (r + z)[..d.fixedSize] == r[..d.fixedSize];
    assert Stream.StepOf(d, r + z).Emit?;
    var n := Stream.SizeAt(d, r);
    assert Stream.StepOf(d, r + z) == Stream.Emit(n);
    hide Stream.StepOf;
    var m := Stream.Msg((r + z)[..n]);
    assert Stream.Messages(Stream.Parse(d, r + z).segs)[0] == m.bytes;
  }

  /** Sender to receiver: values turned into packets, the bytes cut into any chunks of at most one
      message capacity, sequenced and extracted, are the values again. */
  method Transmit(p: PacketDef, vs: seq<Val>, chunks: seq<seq<byte>>, overflowing: bool) returns (out: seq<Extracted>)
    requires GoodPacket(p) && AllTyped(p.payload, vs) && AllSendable(p, vs)
    requires Seqr.Concat(chunks) == Seqr.Concat(AllPackets(p, vs))
    requires forall i :: 0 <= i < |chunks| ==> |chunks[i]| <= MaxSize(Layout(p))
    ensures |out| == |vs| && forall i :: 0 <= i < |vs| ==> out[i] == Value(vs[i])
  {
    hide Stream.Parse, Stream.Messages, Stream.StepOf, Stream.GoodStream, Stream.MessagesFit, Seqr.Concat;
    hide Sendable, Good, Typed, PacketBytes, MaxSize, Deser, AllPackets;
    PacketsParse(p, vs);
    var d := StreamOf(p);
    var receiver := new Seqr.Receiver(d, overflowing);
    assert [] + Seqr.Concat(chunks) == Seqr.Concat(chunks);
    StartsEmpty(d);
    forall i | 0 <= i < |chunks|
      ensures |Stream.Parse(d, [] + Seqr.Concat(chunks[..i])).rest| < d.capacity
    {
      Seqr.ConcatSnoc(chunks, i);
      assert [] + Seqr.Concat(chunks[..i]) == Seqr.Concat(chunks[..i]);
      RestIsShort(d, Seqr.Concat(chunks[..i]), Seqr.Concat(chunks[i..]));
    }
    var msgs := receiver.Feed(chunks);
    out := ExtractAll(p, msgs, vs);
  }

  lemma StartsEmpty(d: Stream.StreamDef)
    ensures Stream.StepOf(d, []).Need?
  {
  }

  method ExtractAll(p: PacketDef, msgs: seq<seq<byte>>, ghost vs: seq<Val>) returns (out: seq<Extracted>)
    requires GoodPacket(p) && AllTyped(p.payload, vs) && AllSendable(p, vs) && msgs == AllPackets(p, vs)
    ensures |out| == |vs| && forall i :: 0 <= i < |vs| ==> out[i] == Value(vs[i])
  {
    hide Sendable, Good, Typed, PacketBytes, MaxSize, Deser, AllPackets;
    PacketsAt(p, vs);
    out := [];
    var i := 0;
    while i < |msgs|
      invariant 0 <= i <= |msgs| && |out| == i
      invariant forall k :: 0 <= k < i ==> out[k] == Value(vs[k])
    {
      PacketRoundTrip(p, vs[i]);
      var r := Extract(p, msgs[i]);
      out := out + [r];
      i := i + 1;
    }
  }

  lemma {:induction false} PacketsAt(p: PacketDef, vs: seq<Val>)
    requires Good(p.payload) && AllTyped(p.payload, vs)
    ensures |AllPackets(p, vs)| == |vs|
    ensures forall i :: 0 <= i < |vs| ==> AllPackets(p, vs)[i] == PacketBytes(p, vs[i])
  {
    hide PacketBytes, Good, Typed;
    if vs != [] {
      PacketsAt(p, vs[1..]);
    }
  }
}

/** Bytes behind a value: when a successful decoding stays the same, whatever is appended. */
module ProtocolExtension {
  import opened Bytes
  import opened ProtocolDefs
  import opened ProtocolSpec
  import opened ProtocolLeaves
  import opened ProtocolLaws
  import opened ProtocolBounds

  /** A success does not look behind the bytes it consumed. */
  ghost predicate Stable(d: Def, e: Endian, b: seq<byte>, more: seq<byte>)
    requires Good(d)
  {
    Deser(d, e, b).Fine? ==> Deser(d, e, b + more) == Deser(d, e, b)
  }

  lemma IntStable(w: nat, s: bool, e: Endian, b: seq<byte>, more: seq<byte>)
    requires w <= |b|
    ensures DeserInt(w, s, e, b + more) == DeserInt(w, s, e, b)
  {
    assert (b + more)[..w] == b[..w];
  }

  lemma DropFront(b: seq<byte>, more: seq<byte>, n: nat)
    requires n <= |b|
    ensures (b + more)[n..] == b[n..] + more
  {
  }

  // ------------------------------------------------------------------ decodings that are settled

  /** No id's encoding starts with these bytes. */
  predicate NoTagStarts(w: nat, e: Endian, ids: seq<int>, b: seq<byte>) {
    forall i :: 0 <= i < |ids| ==> !(b <= SerInt(w, e, ids[i]))
  }

  /** Every tag group met while decoding sees a whole tag, or bytes that no id starts with, and no message
      without a length is met: not even in the payload of a sized buffer, if that takes all the rest. */
  ghost predicate Settled(d: Def, e: Endian, b: seq<byte>)
    requires Good(d)
    decreases d, 0
  {
    match d
    case Array(elem, n) => ManySettled(elem, e, n, b, 0)
    case Tuple(items) => ItemsSettled(items, e, b, 0)
    case Variant(alts) => b != [] && b[0] < |alts| ==> Settled(alts[b[0]], e, b[1..])
    case Optional(some) => b != [] && b[0] == 1 ==> Settled(some, e, b[1..])
    case Group(alts) => AltsSettled(alts, e, b)
    case SizelessMessage(_) => false
    case SizedBuffer(counter, payload) => TakesRest(counter, e, b) ==> Settled(payload, e, b[counter.width..])
    case TagGroup(w, s, ids, alts) => ChosenSettled(w, s, ids, alts, e, b)
    case WithEndian(order, inner) => Settled(inner, order, b)
    case StaticVector(elem, cap) => 2 <= |b| ==> ManySettled(elem, e, ElemCount(cap, e, b), b[2..], 0)
    case _ => true
  }

  ghost predicate ChosenSettled(w: nat, s: bool, ids: seq<int>, alts: seq<Def>, e: Endian, b: seq<byte>)
    requires AllGood(alts) && |ids| == |alts|
    decreases alts, 0
  {
    var i := TagIndex(w, s, e, ids, b);
    if i.Some? then Settled(alts[i.value], e, b[w..]) else w <= |b| || NoTagStarts(w, e, ids, b)
  }

  /** How many elements a vector reads. */
  function ElemCount(cap: nat, e: Endian, b: seq<byte>): nat {
    var c := DeserInt(2, false, e, b);
    if c.Fine? then Clamped(c.value, cap) else 0
  }

  ghost predicate AltsSettled(ds: seq<Def>, e: Endian, b: seq<byte>)
    requires AllGood(ds)
    decreases ds, 0
  {
    forall i :: 0 <= i < |ds| && Deser(ds[i], e, b).Fine? ==> Settled(ds[i], e, b)
  }

  /** The counter has the value that stands for all the rest of the buffer. */
  predicate TakesRest(counter: Def, e: Endian, b: seq<byte>)
    requires IsCounter(counter)
  {
    counter.width <= |b| && DeserCounter(counter, e, b) == Fine(counter.width, SIZE_LIMIT - 1)
  }

  ghost predicate ManySettled(d: Def, e: Endian, n: nat, b: seq<byte>, offset: nat)
    requires Good(d)
    decreases d, 1 + n
  {
    n > 0 && offset <= |b| ==>
      && Settled(d, e, b[offset..])
      && var r := Deser(d, e, b[offset..]);
         r.Fine? ==> ManySettled(d, e, n - 1, b, offset + r.used)
  }

  ghost predicate ItemsSettled(ds: seq<Def>, e: Endian, b: seq<byte>, offset: nat)
    requires AllGood(ds)
    decreases ds, 0
  {
    ds != [] && offset <= |b| ==>
      && Settled(ds[0], e, b[offset..])
      && var r := Deser(ds[0], e, b[offset..]);
         r.Fine? ==> ItemsSettled(ds[1..], e, b, offset + r.used)
  }

  /** The bytes a number was read from are its encoding. */
  lemma ReadIsWritten(w: nat, s: bool, e: Endian, b: seq<byte>, x: int)
    requires DeserInt(w, s, e, b) == Fine(w, x)
    ensures w <= |b| && SerInt(w, e, x) == b[..w]
  {
    var little := Ordered(e, b[..w]);
    var raw: int := FromLittle(little);
    ToFromLittle(little);
    OrderedTwice(e, b[..w]);
    var m := Pow256(w);
    ModUnique(raw, m, 0, raw);
    ModUnique(raw - m, m, -1, raw);
    SameLittle(w, x, raw);
  }

  /** Only the number modulo the width is stored. */
  lemma SameLittle(w: nat, x: int, y: int)
    requires x % Pow256(w) == y % Pow256(w)
    ensures ToLittle(w, x) == ToLittle(w, y)
  {
    FromToLittle(w, x);
    FromToLittle(w, y);
    ToFromLittle(ToLittle(w, x));
    ToFromLittle(ToLittle(w, y));
  }

  lemma BeginsTag(w: nat, s: bool, e: Endian, b: seq<byte>, more: seq<byte>, id: int)
    requires |b| <= w && DeserInt(w, s, e, b + more) == Fine(w, id)
    ensures b <= SerInt(w, e, id)
  {
    ReadIsWritten(w, s, e, b + more, id);
    assert (b + more)[..w][..|b|] == b;
  }

  /** A settled tag stays what it is. */
  lemma {:induction false} TagSettled(w: nat, s: bool, e: Endian, ids: seq<int>, b: seq<byte>, more: seq<byte>)
    requires w <= |b| || NoTagStarts(w, e, ids, b)
    ensures TagIndex(w, s, e, ids, b + more) == TagIndex(w, s, e, ids, b)
  {
    hide DeserInt, SerInt;
    if ids != [] {
      assert NoTagStarts(w, e, ids, b) ==> NoTagStarts(w, e, ids[1..], b);
      TagSettled(w, s, e, ids[1..], b, more);
      if w <= |b| {
        IntStable(w, s, e, b, more);
      } else {
        ShortTag(w, s, e, b);
        if DeserInt(w, s, e, b + more) == Fine(w, ids[0]) {
          BeginsTag(w, s, e, b, more, ids[0]);
        }
      }
    }
  }

  lemma ShortTag(w: nat, s: bool, e: Endian, b: seq<byte>)
    requires |b| < w
    ensures DeserInt(w, s, e, b) == Fail(0, SizeErr)
  {
  }

  /** How a tag-led alternative begins: with its tag, or by failing without consuming anything. */
  lemma TagDecides(d: Def, e: Endian, b: seq<byte>)
    requires Good(d) && TagLed(d)
    ensures var t := d.items[0]; var r := DeserInt(t.width, t.signed, e, b);
            if r == Fine(t.width, t.id) then Deser(d, e, b).OutOfBounds? || Deser(d, e, b).used >= t.width > 0
            else Deser(d, e, b) == Fail(0, if |b| < t.width then SizeErr else BadValErr)
  {
    hide Signed, FromLittle, Ordered, InRange;
    var t := d.items[0];
    assert Good(t);
    assert b[0..] == b;
    var r := DeserInt(t.width, t.signed, e, b);
    if r == Fine(t.width, t.id) {
      assert Deser(t, e, b) == Fine(t.width, VUnit);
      ItemsAdvance(d.items[1..], e, b, t.width);
    } else {
      assert Deser(t, e, b) == Fail(0, if |b| < t.width then SizeErr else BadValErr);
    }
  }

  lemma {:induction false} ItemsAdvance(ds: seq<Def>, e: Endian, b: seq<byte>, offset: nat)
    requires AllGood(ds)
    ensures var r := DeserItems(ds, e, b, offset); r.OutOfBounds? || r.used >= offset
  {
    hide Deser, Good;
    if ds != [] && offset <= |b| {
      var r := Deser(ds[0], e, b[offset..]);
      if r.Fine? {
        ItemsAdvance(ds[1..], e, b, offset + r.used);
      }
    }
  }

  lemma {:induction false} AltsNeedTag(ds: seq<Def>, e: Endian, b: seq<byte>, k: nat)
    requires AllGood(ds) && TagsDiffer(ds) && DeserAlts(ds, e, b, k).Fine?
    ensures ds != [] && |b| >= ds[0].items[0].width
  {
    hide Deser;
    TagDecides(ds[0], e, b);
    if Deser(ds[0], e, b).Fail? && Deser(ds[0], e, b).used == 0 {
      AltsNeedTag(ds[1..], e, b, k + 1);
    }
  }

  // ------------------------------------------------------------------ settled is enough

  /** Appending bytes changes nothing about a successful decoding that is settled. */
  lemma {:induction false} ExtensionStable(d: Def, e: Endian, b: seq<byte>, more: seq<byte>)
    requires Good(d) && Settled(d, e, b)
    ensures Stable(d, e, b, more)
    decreases d, 1
  {
    hide Deser, Good;
    if IsLeaf(d) {
      LeafStable(d, e, b, more);
    } else if d.Array? || d.StaticVector? || d.Tuple? {
      ListStable(d, e, b, more);
    } else if d.Variant? || d.Group? || d.TagGroup? {
      ChoiceStable(d, e, b, more);
    } else {
      WrapperStable(d, e, b, more);
    }
  }

  lemma {:induction false} ListStable(d: Def, e: Endian, b: seq<byte>, more: seq<byte>)
    requires (d.Array? || d.StaticVector? || d.Tuple?) && Good(d) && Settled(d, e, b)
    ensures Stable(d, e, b, more)
    decreases d, 0
  {
    hide Deser, Good, DeserMany, DeserItems, DeserInt, ManySettled, ItemsSettled;
    match d
    case Array(elem, n) =>
      ArrayCase(elem, n, e, b);
      ArrayCase(elem, n, e, b + more);
      ManyStable(elem, e, n, b, 0, more);
    case Tuple(items) =>
      TupleCase(items, e, b);
      TupleCase(items, e, b + more);
      ItemsStable(items, e, b, 0, more);
    case StaticVector(elem, cap) =>
      VectorCase(elem, cap, e, b);
      if 2 <= |b| {
        VectorCase(elem, cap, e, b + more);
        IntStable(2, false, e, b, more);
        DropFront(b, more, 2);
        ManyStable(elem, e, Clamped(DeserInt(2, false, e, b).value, cap), b[2..], 0, more);
      }
  }

  lemma {:induction false} ManyStable(d: Def, e: Endian, n: nat, b: seq<byte>, offset: nat, more: seq<byte>)
    requires Good(d) && ManySettled(d, e, n, b, offset)
    ensures DeserMany(d, e, n, b, offset).Fine? ==>
              DeserMany(d, e, n, b + more, offset) == DeserMany(d, e, n, b, offset)
    decreases d, 2, n
  {
    hide Deser, Good, Settled, DeserMany;
    ManyStep(d, e, n, b, offset);
    ManyStep(d, e, n, b + more, offset);
    if n > 0 && offset <= |b| {
      var r := Deser(d, e, b[offset..]);
      DropFront(b, more, offset);
      ExtensionStable(d, e, b[offset..], more);
      if r.Fine? {
        ManyStable(d, e, n - 1, b, offset + r.used, more);
      }
    }
  }

  lemma {:induction false} ItemsStable(ds: seq<Def>, e: Endian, b: seq<byte>, offset: nat, more: seq<byte>)
    requires AllGood(ds) && ItemsSettled(ds, e, b, offset)
    ensures DeserItems(ds, e, b, offset).Fine? ==>
              DeserItems(ds, e, b + more, offset) == DeserItems(ds, e, b, offset)
    decreases ds, 0
  {
    hide Deser, Good, Settled, DeserItems;
    ItemsStep(ds, e, b, offset);
    ItemsStep(ds, e, b + more, offset);
    if ds != [] && offset <= |b| {
      var r := Deser(ds[0], e, b[offset..]);
      DropFront(b, more, offset);
      ExtensionStable(ds[0], e, b[offset..], more);
      if r.Fine? {
        ItemsStable(ds[1..], e, b, offset + r.used, more);
      }
    }
  }

  lemma {:induction false} ChoiceStable(d: Def, e: Endian, b: seq<byte>, more: seq<byte>)
    requires (d.Variant? || d.Group? || d.TagGroup?) && Good(d) && Settled(d, e, b)
    ensures Stable(d, e, b, more)
    decreases d, 0
  {
    hide Deser, Good, DeserAlts, TagIndex, NoTagStarts, Default;
    match d
    case Variant(alts) =>
      VariantCase(alts, e, b);
      VariantCase(alts, e, b + more);
      if b != [] && b[0] < |alts| {
        DropFront(b, more, 1);
        ExtensionStable(alts[b[0]], e, b[1..], more);
      }
    case Group(alts) =>
      GroupCase(alts, e, b);
      GroupCase(alts, e, b + more);
      AltsStable(alts, e, b, 0, more);
    case TagGroup(w, s, ids, alts) =>
      TagGroupCase(w, s, ids, alts, e, b);
      TagGroupCase(w, s, ids, alts, e, b + more);
      TagSettled(w, s, e, ids, b, more);
      var i := TagIndex(w, s, e, ids, b);
      if i.Some? {
        DropFront(b, more, w);
        ExtensionStable(alts[i.value], e, b[w..], more);
      }
  }

  lemma {:induction false} AltsStable(ds: seq<Def>, e: Endian, b: seq<byte>, k: nat, more: seq<byte>)
    requires AllGood(ds) && TagsDiffer(ds)
    requires forall i :: 0 <= i < |ds| && Deser(ds[i], e, b).Fine? ==> Settled(ds[i], e, b)
    ensures DeserAlts(ds, e, b, k).Fine? ==> DeserAlts(ds, e, b + more, k) == DeserAlts(ds, e, b, k)
    decreases ds, 0
  {
    hide Deser, Good, DeserInt, Settled;
    if ds != [] && DeserAlts(ds, e, b, k).Fine? {
      var t := ds[0].items[0];
      AltsNeedTag(ds, e, b, k);
      TagDecides(ds[0], e, b);
      TagDecides(ds[0], e, b + more);
      IntStable(t.width, t.signed, e, b, more);
      if DeserInt(t.width, t.signed, e, b) != Fine(t.width, t.id) {
        AltsStable(ds[1..], e, b, k + 1, more);
      } else {
        ExtensionStable(ds[0], e, b, more);
      }
    }
  }

  lemma {:induction false} WrapperStable(d: Def, e: Endian, b: seq<byte>, more: seq<byte>)
    requires (d.Optional? || d.SizedBuffer? || d.WithEndian?) && Good(d) && Settled(d, e, b)
    ensures Stable(d, e, b, more)
    decreases d, 0
  {
    hide Deser, Good, DeserCounter;
    match d
    case Optional(some) =>
      OptionalCase(some, e, b);
      OptionalCase(some, e, b + more);
      if b != [] && b[0] == 1 {
        DropFront(b, more, 1);
        ExtensionStable(some, e, b[1..], more);
      }
    case SizedBuffer(counter, payload) =>
      SizedCase(counter, payload, e, b);
      SizedStable(counter, payload, e, b, more);
    case WithEndian(order, inner) =>
      EndianCase(order, inner, e, b);
      EndianCase(order, inner, e, b + more);
      ExtensionStable(inner, order, b, more);
  }

  lemma {:induction false} SizedStable(counter: Def, payload: Def, e: Endian, b: seq<byte>, more: seq<byte>)
    requires Good(SizedBuffer(counter, payload)) && IsCounter(counter) && Good(payload)
    requires TakesRest(counter, e, b) ==> Settled(payload, e, b[counter.width..])
    ensures Stable(SizedBuffer(counter, payload), e, b, more)
    decreases payload, 2
  {
    hide Deser, Good, DeserInt, Settled, DeserCounter, SizeSum;
    SizedCase(counter, payload, e, b);
    if counter.width <= |b| {
      CounterStable(counter, e, b, more);
      var c := DeserCounter(counter, e, b);
      SizedCase(counter, payload, e, b + more);
      if c.value == SIZE_LIMIT - 1 {
        DropFront(b, more, c.used);
        ExtensionStable(payload, e, b[c.used..], more);
      } else if c.used + c.value <= |b| {
        assert (b + more)[c.used..c.used + c.value] == b[c.used..c.used + c.value];
      }
    }
  }

  lemma CounterStable(counter: Def, e: Endian, b: seq<byte>, more: seq<byte>)
    requires IsCounter(counter) && counter.width <= |b|
    ensures DeserCounter(counter, e, b + more) == DeserCounter(counter, e, b)
  {
    hide DeserInt;
    IntStable(counter.width, false, e, b, more);
  }

  lemma LeafStable(d: Def, e: Endian, b: seq<byte>, more: seq<byte>)
    requires IsLeaf(d) && Good(d) && !d.SizelessMessage?
    ensures Stable(d, e, b, more)
  {
    hide Deser, Good;
    if d.Int? || d.Offset? || d.Bounded? || d.Tag? {
      IntLeafStable(d, e, b, more);
    } else {
      BytesLeafStable(d, e, b, more);
    }
  }

  lemma IntLeafStable(d: Def, e: Endian, b: seq<byte>, more: seq<byte>)
    requires (d.Int? || d.Offset? || d.Bounded? || d.Tag?) && Good(d)
    ensures Stable(d, e, b, more)
  {
    hide Signed, FromLittle, Ordered, InRange;
    if d.width <= |b| {
      IntStable(d.width, !d.Offset? && d.signed, e, b, more);
    }
  }

  lemma BytesLeafStable(d: Def, e: Endian, b: seq<byte>, more: seq<byte>)
    requires d.Bool? || d.Monostate? || d.Bitset? || d.Message? || d.StringBuffer?
    requires Good(d)
    ensures Stable(d, e, b, more)
  {
    hide Signed, FromLittle, Ordered, BitOrdered, DeserBits;
    match d
    case Bitset(n) =>
      if BitBytes(n) <= |b| {
        assert (b + more)[..BitBytes(n)] == b[..BitBytes(n)];
      }
    case Message(cap) => BytesStable(cap, e, b, more);
    case StringBuffer(cap) => BytesStable(cap - 1, e, b, more);
    case _ =>
  }

  lemma BytesStable(limit: nat, e: Endian, b: seq<byte>, more: seq<byte>)
    ensures DeserBytes(limit, e, b).Fine? ==> DeserBytes(limit, e, b + more) == DeserBytes(limit, e, b)
  {
    hide Signed, FromLittle, Ordered;
    if 2 <= |b| {
      IntStable(2, false, e, b, more);
      var size := DeserInt(2, false, e, b).value;
      if 0 <= size && 2 + size <= |b| {
        assert (b + more)[2..2 + size] == b[2..2 + size];
      }
    }
  }

  // ------------------------------------------------------------------ settled is needed

  /** With these bytes behind it, the decoding fails or takes more than it was given before. */
  ghost predicate Outgrows(d: Def, e: Endian, b: seq<byte>, more: seq<byte>)
    requires Good(d)
  {
    Deser(d, e, b + more).Fine? ==> Deser(d, e, b + more).used > |b|
  }

  /** A tag cut short can be completed, and then the tag group takes its bytes; what takes the rest takes
      more of it. */
  lemma {:induction false} Unsettled(d: Def, e: Endian, b: seq<byte>) returns (more: seq<byte>)
    requires Good(d) && Deser(d, e, b).Fine? && !Settled(d, e, b)
    ensures Outgrows(d, e, b, more)
    decreases d, 1
  {
    hide Deser, Good, DeserCounter, TakesRest, Shift;
    if d.Array? || d.StaticVector? || d.Tuple? {
      more := ListUnsettled(d, e, b);
    } else if d.Variant? || d.Group? || d.TagGroup? {
      more := ChoiceUnsettled(d, e, b);
    } else if d.SizelessMessage? {
      more := [0];
      SizelessOutgrows(d.cap, e, b, more);
    } else if d.SizedBuffer? {
      SizedCase(d.counter, d.payload, e, b);
      more := SizedUnsettled(d.counter, d.payload, e, b);
    } else if d.Optional? {
      OptionalCase(d.some, e, b);
      more := OptionalUnsettled(d.some, e, b);
    } else {
      EndianCase(d.order, d.inner, e, b);
      more := Unsettled(d.inner, d.order, b);
      EndianCase(d.order, d.inner, e, b + more);
    }
  }

  lemma {:induction false} OptionalUnsettled(some: Def, e: Endian, b: seq<byte>) returns (more: seq<byte>)
    requires Good(Optional(some)) && Good(some) && b != [] && b[0] == 1 && !Settled(some, e, b[1..])
    requires Deser(Optional(some), e, b).Fine?
    ensures Outgrows(Optional(some), e, b, more)
    decreases some, 2
  {
    hide Deser, Good, Settled;
    OptionalCase(some, e, b);
    more := Unsettled(some, e, b[1..]);
    OptionalCase(some, e, b + more);
    DropFront(b, more, 1);
  }

  lemma {:induction false} SizedUnsettled(counter: Def, payload: Def, e: Endian, b: seq<byte>)
    returns (more: seq<byte>)
    requires Good(SizedBuffer(counter, payload)) && IsCounter(counter) && Good(payload)
    requires TakesRest(counter, e, b) && !Settled(payload, e, b[counter.width..])
    requires Deser(SizedBuffer(counter, payload), e, b).Fine?
    ensures Outgrows(SizedBuffer(counter, payload), e, b, more)
    decreases payload, 2
  {
    hide Deser, Good, Settled, DeserCounter, SizeSum;
    SizedCase(counter, payload, e, b);
    more := Unsettled(payload, e, b[counter.width..]);
    CounterStable(counter, e, b, more);
    SizedCase(counter, payload, e, b + more);
    DropFront(b, more, counter.width);
  }

  lemma SizelessOutgrows(cap: nat, e: Endian, b: seq<byte>, more: seq<byte>)
    requires more != []
    ensures Outgrows(SizelessMessage(cap), e, b, more)
  {
  }

  lemma {:induction false} ListUnsettled(d: Def, e: Endian, b: seq<byte>) returns (more: seq<byte>)
    requires (d.Array? || d.StaticVector? || d.Tuple?) && Good(d)
    requires Deser(d, e, b).Fine? && !Settled(d, e, b)
    ensures Outgrows(d, e, b, more)
    decreases d, 0
  {
    hide Deser, Good, DeserMany, DeserItems, DeserInt, ManySettled, ItemsSettled;
    match d
    case Array(elem, n) =>
      ArrayCase(elem, n, e, b);
      more := ManyUnsettled(elem, e, n, b, 0);
      ArrayCase(elem, n, e, b + more);
    case Tuple(items) =>
      TupleCase(items, e, b);
      more := ItemsUnsettled(items, e, b, 0);
      TupleCase(items, e, b + more);
    case StaticVector(elem, cap) =>
      VectorCase(elem, cap, e, b);
      more := ManyUnsettled(elem, e, Clamped(DeserInt(2, false, e, b).value, cap), b[2..], 0);
      VectorCase(elem, cap, e, b + more);
      IntStable(2, false, e, b, more);
      DropFront(b, more, 2);
  }

  lemma {:induction false} ManyUnsettled(d: Def, e: Endian, n: nat, b: seq<byte>, offset: nat) returns (more: seq<byte>)
    requires Good(d)
    requires DeserMany(d, e, n, b, offset).Fine? && !ManySettled(d, e, n, b, offset)
    ensures DeserMany(d, e, n, b + more, offset).Fine? ==> DeserMany(d, e, n, b + more, offset).used > |b|
    decreases d, 2, n
  {
    hide Deser, Good, Settled, DeserMany;
    ManyStep(d, e, n, b, offset);
    var r := Deser(d, e, b[offset..]);
    if Settled(d, e, b[offset..]) {
      more := ManyUnsettled(d, e, n - 1, b, offset + r.used);
      ExtensionStable(d, e, b[offset..], more);
    } else {
      more := Unsettled(d, e, b[offset..]);
    }
    DropFront(b, more, offset);
    ManyStep(d, e, n, b + more, offset);
    var r' := Deser(d, e, (b + more)[offset..]);
    if r'.Fine? {
      ManyAdvance(d, e, n - 1, b + more, offset + r'.used);
    }
  }

  lemma {:induction false} ManyAdvance(d: Def, e: Endian, n: nat, b: seq<byte>, offset: nat)
    requires Good(d)
    ensures var r := DeserMany(d, e, n, b, offset); r.OutOfBounds? || r.used >= offset
  {
    hide Deser, Good, DeserMany;
    ManyStep(d, e, n, b, offset);
    if n > 0 && offset <= |b| {
      var r := Deser(d, e, b[offset..]);
      if r.Fine? {
        ManyAdvance(d, e, n - 1, b, offset + r.used);
      }
    }
  }

  lemma {:induction false} ItemsUnsettled(ds: seq<Def>, e: Endian, b: seq<byte>, offset: nat) returns (more: seq<byte>)
    requires AllGood(ds)
    requires DeserItems(ds, e, b, offset).Fine? && !ItemsSettled(ds, e, b, offset)
    ensures DeserItems(ds, e, b + more, offset).Fine? ==> DeserItems(ds, e, b + more, offset).used > |b|
    decreases ds, 0
  {
    hide Deser, Good, Settled, DeserItems;
    ItemsStep(ds, e, b, offset);
    var r := Deser(ds[0], e, b[offset..]);
    if Settled(ds[0], e, b[offset..]) {
      more := ItemsUnsettled(ds[1..], e, b, offset + r.used);
      ExtensionStable(ds[0], e, b[offset..], more);
    } else {
      more := Unsettled(ds[0], e, b[offset..]);
    }
    DropFront(b, more, offset);
    ItemsStep(ds, e, b + more, offset);
    var r' := Deser(ds[0], e, (b + more)[offset..]);
    if r'.Fine? {
      ItemsAdvance(ds[1..], e, b + more, offset + r'.used);
    }
  }

  lemma {:induction false} ChoiceUnsettled(d: Def, e: Endian, b: seq<byte>) returns (more: seq<byte>)
    requires (d.Variant? || d.Group? || d.TagGroup?) && Good(d)
    requires Deser(d, e, b).Fine? && !Settled(d, e, b)
    ensures Outgrows(d, e, b, more)
    decreases d, 0
  {
    hide Deser, Good, DeserAlts, DeserInt, SerInt, TagIndex, Default;
    match d
    case Variant(alts) =>
      VariantCase(alts, e, b);
      more := Unsettled(alts[b[0]], e, b[1..]);
      VariantCase(alts, e, b + more);
      DropFront(b, more, 1);
    case Group(alts) =>
      GroupCase(alts, e, b);
      var i :| 0 <= i < |alts| && Deser(alts[i], e, b).Fine? && !Settled(alts[i], e, b);
      more := Unsettled(alts[i], e, b);
      GroupCase(alts, e, b + more);
      AltOutgrows(alts, e, b, i, more, 0);
    case TagGroup(w, s, ids, alts) =>
      TagGroupCase(w, s, ids, alts, e, b);
      var k := TagIndex(w, s, e, ids, b);
      if k.Some? {
        more := Unsettled(alts[k.value], e, b[w..]);
        TagSettled(w, s, e, ids, b, more);
        DropFront(b, more, w);
        TagGroupCase(w, s, ids, alts, e, b + more);
      } else {
        more := TagCompleted(w, s, ids, alts, e, b);
      }
  }

  /** A tag begun is completed: the group then takes at least the whole tag. */
  lemma TagCompleted(w: nat, s: bool, ids: seq<int>, alts: seq<Def>, e: Endian, b: seq<byte>) returns (more: seq<byte>)
    requires Good(TagGroup(w, s, ids, alts)) && |b| < w && !NoTagStarts(w, e, ids, b)
    ensures Outgrows(TagGroup(w, s, ids, alts), e, b, more)
  {
    hide Deser, Good, DeserInt, SerInt, TagIndex, Default;
    var i :| 0 <= i < |ids| && b <= SerInt(w, e, ids[i]);
    var tag := SerInt(w, e, ids[i]);
    more := tag[|b|..];
    assert b + more == tag == tag + [];
    TagGroupCase(w, s, ids, alts, e, tag);
    TagFound(w, s, e, ids, i, []);
  }

  /** If the chosen alternative outgrows its bytes, so does the group. */
  lemma {:induction false} AltOutgrows(ds: seq<Def>, e: Endian, b: seq<byte>, i: nat, more: seq<byte>, k: nat)
    requires AllGood(ds) && TagsDiffer(ds) && i < |ds|
    requires Deser(ds[i], e, b).Fine? && Outgrows(ds[i], e, b, more)
    ensures DeserAlts(ds, e, b + more, k).Fine? ==> DeserAlts(ds, e, b + more, k).used > |b|
    decreases ds
  {
    hide Deser, Good, DeserInt;
    var t := ds[i].items[0];
    TagDecides(ds[i], e, b);
    HasTag(t.width, t.signed, e, b, t.id, more);
    TagDecides(ds[0], e, b + more);
    if i > 0 {
      AltOutgrows(ds[1..], e, b, i - 1, more, k + 1);
    }
  }

  lemma HasTag(w: nat, s: bool, e: Endian, b: seq<byte>, id: int, more: seq<byte>)
    requires DeserInt(w, s, e, b) == Fine(w, id)
    ensures DeserInt(w, s, e, b + more) == Fine(w, id)
  {
    IntStable(w, s, e, b, more);
  }

  /** A successful decoding is unchanged by every extension if and only if it is settled. */
  lemma ExtensionExact(d: Def, e: Endian, b: seq<byte>)
    requires Good(d) && Deser(d, e, b).Fine?
    ensures (forall more: seq<byte> :: Stable(d, e, b, more)) <==> Settled(d, e, b)
  {
    hide Deser, Good, Settled;
    if Settled(d, e, b) {
      forall more: seq<byte>
        ensures Stable(d, e, b, more)
      {
        ExtensionStable(d, e, b, more);
      }
    } else {
      var more := Unsettled(d, e, b);
      UsedInside(d, e, b);
      assert !Stable(d, e, b, more);
    }
  }

  /** A tag group that took its default: unchanged by every extension if and only if a whole tag was there
      or no id's encoding starts with the bytes. */
  lemma TagGroupExact(w: nat, s: bool, ids: seq<int>, alts: seq<Def>, e: Endian, b: seq<byte>)
    requires Good(TagGroup(w, s, ids, alts))
    requires |b| < w || TagIndex(w, s, e, ids, b) == None
    ensures (forall more: seq<byte> :: Stable(TagGroup(w, s, ids, alts), e, b, more)) <==>
            w <= |b| || NoTagStarts(w, e, ids, b)
  {
    hide Deser, Good, DeserInt, SerInt, Default, Stable;
    if |b| < w {
      NoShortTag(w, s, e, ids, b);
    }
    TagGroupCase(w, s, ids, alts, e, b);
    ExtensionExact(TagGroup(w, s, ids, alts), e, b);
  }

  lemma {:induction false} NoShortTag(w: nat, s: bool, e: Endian, ids: seq<int>, b: seq<byte>)
    requires |b| < w
    ensures TagIndex(w, s, e, ids, b) == None
  {
    if ids != [] {
      NoShortTag(w, s, e, ids[1..], b);
    }
  }

  /** An empty buffer is taken for the first alternative; one more byte makes it a tag. */
  lemma EmptyBufferUnstable()
    ensures Good(TagGroup(1, false, [5], [Monostate]))
    ensures !Stable(TagGroup(1, false, [5], [Monostate]), Big, [], SerInt(1, Big, 5))
  {
    hide Deser, DeserInt, Default;
    assert Pow256(1) == 256 * Pow256(0);
    NoShortTag(1, false, Big, [5], []);
    TagGroupCase(1, false, [5], [Monostate], Big, []);
    var tag := SerInt(1, Big, 5);
    assert [] + tag == tag == tag + [];
    TagFound(1, false, Big, [5], 0, []);
    TagGroupCase(1, false, [5], [Monostate], Big, tag);
    var group := TagGroup(1, false, [5], [Monostate]);
    assert Deser(group, Big, tag) != Deser(group, Big, []);
  }

  /** The greatest counter hands on all the rest: one more byte behind the message makes it longer. */
  lemma AllOnesUnstable()
    ensures var d, ones := SizedBuffer(Int(8, false), SizelessMessage(4)), seq<byte>(8, _ => 255);
            Good(d) && Delimited(d) && Deser(d, Big, ones) == Fine(8, VBytes([]))
            && Deser(d, Big, ones + [1]) == Fine(9, VBytes([1]))
  {
    var d, ones := SizedBuffer(Int(8, false), SizelessMessage(4)), seq<byte>(8, _ => 255);
    assert Good(d) && Delimited(d);
    assert Deser(SizelessMessage(4), Big, []) == Fine(0, VBytes([]));
    assert Deser(SizelessMessage(4), Big, [1]) == Fine(1, VBytes([1]));
    hide Deser;
    AllOnesTakesRest(SizelessMessage(4), Big, []);
    AllOnesTakesRest(SizelessMessage(4), Big, [1]);
    assert ones + [] == ones;
  }

  /** No tag group and no message without a length, except in sized buffers with counters of less than
      eight bytes. */
  predicate Closed(d: Def) {
    match d
    case Array(elem, _) => Closed(elem)
    case Tuple(items) => forall i :: 0 <= i < |items| ==> Closed(items[i])
    case Variant(alts) => forall i :: 0 <= i < |alts| ==> Closed(alts[i])
    case Optional(some) => Closed(some)
    case SizelessMessage(_) => false
    case SizedBuffer(counter, payload) => IsCounter(counter) && (counter.width < 8 || Closed(payload))
    case Group(alts) => forall i :: 0 <= i < |alts| ==> Closed(alts[i])
    case TagGroup(_, _, _, _) => false
    case WithEndian(_, inner) => Closed(inner)
    case StaticVector(elem, _) => Closed(elem)
    case _ => true
  }

  /** Such definitions are settled on every input. */
  lemma {:induction false} ClosedSettled(d: Def, e: Endian, b: seq<byte>)
    requires Good(d) && Closed(d)
    ensures Settled(d, e, b)
    decreases d, 1
  {
    hide Deser, Good, ManySettled, ItemsSettled, DeserInt, DeserCounter;
    match d
    case Array(elem, n) =>
      ArrayCase(elem, n, e, b);
      ManyClosed(elem, e, n, b, 0);
    case Tuple(items) =>
      TupleCase(items, e, b);
      ItemsClosed(items, e, b, 0);
    case Variant(alts) =>
      VariantCase(alts, e, b);
      if b != [] && b[0] < |alts| { ClosedSettled(alts[b[0]], e, b[1..]); }
    case Optional(some) =>
      OptionalCase(some, e, b);
      if b != [] { ClosedSettled(some, e, b[1..]); }
    case Group(alts) =>
      GroupCase(alts, e, b);
      forall i | 0 <= i < |alts|
        ensures Settled(alts[i], e, b)
      {
        ClosedSettled(alts[i], e, b);
      }
    case SizedBuffer(counter, payload) =>
      SizedCase(counter, payload, e, b);
      CounterBound(counter, e, b);
      if TakesRest(counter, e, b) { ClosedSettled(payload, e, b[counter.width..]); }
    case WithEndian(order, inner) =>
      EndianCase(order, inner, e, b);
      ClosedSettled(inner, order, b);
    case StaticVector(elem, cap) =>
      VectorCase(elem, cap, e, b);
      if 2 <= |b| { ManyClosed(elem, e, Clamped(DeserInt(2, false, e, b).value, cap), b[2..], 0); }
    case _ =>
  }

  lemma {:induction false} ManyClosed(d: Def, e: Endian, n: nat, b: seq<byte>, offset: nat)
    requires Good(d) && Closed(d)
    ensures ManySettled(d, e, n, b, offset)
    decreases d, 2, n
  {
    hide Deser, Good, Closed, Settled;
    if n > 0 && offset <= |b| {
      ClosedSettled(d, e, b[offset..]);
      var r := Deser(d, e, b[offset..]);
      if r.Fine? { ManyClosed(d, e, n - 1, b, offset + r.used); }
    }
  }

  lemma {:induction false} ItemsClosed(ds: seq<Def>, e: Endian, b: seq<byte>, offset: nat)
    requires AllGood(ds) && forall i :: 0 <= i < |ds| ==> Closed(ds[i])
    ensures ItemsSettled(ds, e, b, offset)
    decreases ds, 0
  {
    hide Deser, Good, Closed, Settled;
    if ds != [] && offset <= |b| {
      ClosedSettled(ds[0], e, b[offset..]);
      var r := Deser(ds[0], e, b[offset..]);
      if r.Fine? { ItemsClosed(ds[1..], e, b, offset + r.used); }
    }
  }
}

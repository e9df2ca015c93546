/** Rejections: which bytes a decoder refuses, with which mark, and at which place. */
module ProtocolReject {
  import opened Bytes
  import opened ProtocolDefs
  import opened ProtocolSpec
  import opened ProtocolLeaves
  import opened ProtocolLaws
  import opened ProtocolBounds
  import opened ProtocolExtension
  import opened ProtocolWire
  import opened ProtocolAccept

  // ------------------------------------------------------------------ leaves

  /** The first w bytes spell x. */
  ghost predicate Spells(w: nat, s: bool, e: Endian, b: seq<byte>, x: int) {
    w <= |b| && InRange(w, s, x) && forall k :: 0 <= k < w ==> b[Place(w, e, k)] == x / Pow256(k) % 256
  }

  lemma SpellsRead(w: nat, s: bool, e: Endian, b: seq<byte>, x: int)
    requires GoodWidth(w) && Spells(w, s, e, b, x)
    ensures DeserInt(w, s, e, b) == Fine(w, x)
  {
    IntReads(w, s, e, b, x);
  }

  /** Any w bytes spell exactly one number. */
  lemma SpellsOne(w: nat, s: bool, e: Endian, b: seq<byte>) returns (x: int)
    requires GoodWidth(w) && w <= |b|
    ensures Spells(w, s, e, b, x) && forall y :: Spells(w, s, e, b, y) ==> y == x
  {
    hide DeserInt, InRange;
    NumberReencoded(w, s, e, b);
    x := DeserInt(w, s, e, b).value;
    IntReads(w, s, e, b, x);
    forall y | Spells(w, s, e, b, y)
      ensures y == x
    {
      SpellsRead(w, s, e, b, y);
    }
  }

  /** Too few bytes for a number. */
  lemma ShortNumber(d: Def, e: Endian, b: seq<byte>)
    requires (d.Int? || d.Offset? || d.Bounded? || d.Tag?) && Good(d) && |b| < d.width
    ensures Deser(d, e, b) == Fail(0, SizeErr)
  {
  }

  lemma IntTaken(w: nat, s: bool, e: Endian, b: seq<byte>, x: int)
    requires Good(Int(w, s)) && Spells(w, s, e, b, x)
    ensures Deser(Int(w, s), e, b) == Fine(w, VInt(x))
  {
    hide DeserInt;
    SpellsRead(w, s, e, b, x);
  }

  lemma OffsetTaken(w: nat, off: int, e: Endian, b: seq<byte>, x: int)
    requires Good(Offset(w, off)) && InRange(w, false, x) && Spells(w, false, e, b, (x + off) % Pow256(w))
    ensures Deser(Offset(w, off), e, b) == Fine(w, VInt(x))
  {
    hide DeserInt, Pow256;
    SpellsRead(w, false, e, b, (x + off) % Pow256(w));
    ModShift(x, off, Pow256(w));
    ModUnique(x, Pow256(w), 0, x);
  }

  /** A bounded number is taken exactly within its bounds. */
  lemma BoundedRejects(w: nat, s: bool, lo: int, hi: int, e: Endian, b: seq<byte>, x: int)
    requires Good(Bounded(w, s, lo, hi)) && Spells(w, s, e, b, x)
    ensures Deser(Bounded(w, s, lo, hi), e, b) == Fine(w, VInt(x)) <==> lo <= x <= hi
    ensures Deser(Bounded(w, s, lo, hi), e, b) == Fail(0, BoundsErr) <==> x < lo || hi < x
  {
    hide DeserInt;
    SpellsRead(w, s, e, b, x);
  }

  lemma TagRejects(w: nat, s: bool, id: int, e: Endian, b: seq<byte>, x: int)
    requires Good(Tag(w, s, id)) && Spells(w, s, e, b, x)
    ensures Deser(Tag(w, s, id), e, b) == Fine(w, VUnit) <==> x == id
    ensures Deser(Tag(w, s, id), e, b) == Fail(0, BadValErr) <==> x != id
  {
    hide DeserInt;
    SpellsRead(w, s, e, b, x);
  }

  /** A boolean is true for the byte 1 only. */
  lemma BoolTaken(e: Endian, b: seq<byte>)
    ensures Deser(Bool, e, b) == Fail(0, SizeErr) <==> b == []
    ensures Deser(Bool, e, b) == Fine(1, VBool(true)) <==> b != [] && b[0] == 1
    ensures Deser(Bool, e, b) == Fine(1, VBool(false)) <==> b != [] && b[0] != 1
  {
  }

  /** Length-prefixed bytes: a length behind the end of the buffer is refused before one above the capacity. */
  lemma MessageRejects(d: Def, e: Endian, b: seq<byte>, n: nat)
    requires (d.Message? || d.StringBuffer?) && Good(d) && Spells(2, false, e, b, n)
    ensures var limit := if d.Message? then d.cap else d.cap - 1;
            && (Deser(d, e, b) == Fail(2, SizeErr) <==> |b| < 2 + n)
            && (Deser(d, e, b) == Fail(2, BigSizeErr) <==> 2 + n <= |b| && limit < n)
            && (2 + n <= |b| && n <= limit ==> Deser(d, e, b) == Fine(2 + n, VBytes(b[2..2 + n])))
  {
    hide DeserInt;
    SpellsRead(2, false, e, b, n);
  }

  lemma ShortMessage(d: Def, e: Endian, b: seq<byte>)
    requires (d.Message? || d.StringBuffer? || d.StaticVector?) && Good(d) && |b| < 2
    ensures Deser(d, e, b) == Fail(0, SizeErr)
  {
  }

  lemma SizelessRejects(cap: nat, e: Endian, b: seq<byte>)
    ensures Deser(SizelessMessage(cap), e, b) == Fail(0, BigSizeErr) <==> cap < |b|
    ensures Deser(SizelessMessage(cap), e, b) == Fine(|b|, VBytes(b)) <==> |b| <= cap
  {
  }

  /** A bit set takes its bytes, bit by bit. */
  lemma BitsetTaken(n: nat, e: Endian, b: seq<byte>)
    ensures Deser(Bitset(n), e, b) == Fail(0, SizeErr) <==> |b| < BitBytes(n)
    ensures BitBytes(n) <= |b| ==>
              var r := Deser(Bitset(n), e, b);
              && r.Fine? && r.used == BitBytes(n) && r.value.VBits? && |r.value.bits| == n
              && forall i :: 0 <= i < n ==> (r.value.bits[i] <==> Bit(b[BitByte(e, BitBytes(n), i / 8)], i % 8))
  {
    hide Bit, DeserBits, BitOrdered;
    if BitBytes(n) <= |b| {
      forall i | 0 <= i < n
        ensures DeserBits(n, BitOrdered(e, b[..BitBytes(n)]))[i] <==> Bit(b[BitByte(e, BitBytes(n), i / 8)], i % 8)
      {
        BitRead(e, n, b[..BitBytes(n)], i);
      }
    }
  }

  // ------------------------------------------------------------------ heads

  /** The alternative is chosen by the first byte; an unknown one is refused. */
  lemma VariantRejects(alts: seq<Def>, e: Endian, b: seq<byte>)
    requires Good(Variant(alts)) && AllGood(alts)
    ensures b == [] ==> Deser(Variant(alts), e, b) == Fail(0, SizeErr)
    ensures b != [] ==> (Deser(Variant(alts), e, b) == Fail(0, UndefVarErr) <==> |alts| <= b[0])
    ensures b != [] && b[0] < |alts| && Deser(alts[b[0]], e, b[1..]).Fail? ==>
              var f := Deser(alts[b[0]], e, b[1..]); Deser(Variant(alts), e, b) == Fail(1 + f.used, f.err)
  {
    hide Deser, Good;
    VariantCase(alts, e, b);
  }

  lemma OptionalRejects(some: Def, e: Endian, b: seq<byte>)
    requires Good(Optional(some)) && Good(some) && b != []
    ensures Deser(Optional(some), e, b) == Fail(0, BoundsErr) <==> b[0] > 1
    ensures Deser(Optional(some), e, b) == Fine(1, VNone) <==> b[0] == 0
    ensures b[0] == 1 && Deser(some, e, b[1..]).Fail? ==>
              var f := Deser(some, e, b[1..]); Deser(Optional(some), e, b) == Fail(1 + f.used, f.err)
  {
    hide Deser, Good;
    OptionalCase(some, e, b);
  }

  /** A vector whose count is above the capacity is read up to the capacity. */
  lemma VectorTaken(elem: Def, cap: nat, e: Endian, b: seq<byte>, n: nat)
    requires Good(StaticVector(elem, cap)) && Good(elem) && Spells(2, false, e, b, n)
    ensures var r := Deser(Array(elem, if n <= cap then n else cap), e, b[2..]);
            Deser(StaticVector(elem, cap), e, b) ==
            match r
            case Fine(u, v) => Fine(2 + u, v)
            case Fail(u, err) => Fail(2 + u, err)
            case OutOfBounds => OutOfBounds
  {
    hide Deser, Good, DeserInt, DeserMany;
    SpellsRead(2, false, e, b, n);
    VectorCase(elem, cap, e, b);
    GoodArray(elem, if n <= cap then n else cap);
    ArrayCase(elem, if n <= cap then n else cap, e, b[2..]);
  }

  lemma GoodArray(elem: Def, n: nat)
    requires Good(elem)
    ensures Good(Array(elem, n))
  {
  }

  /** A tag group passes on the failure of the alternative whose id leads, behind the id. */
  lemma TagGroupRejects(w: nat, s: bool, ids: seq<int>, alts: seq<Def>, e: Endian, b: seq<byte>, i: nat)
    requires Good(TagGroup(w, s, ids, alts)) && AllGood(alts) && |ids| == |alts| && GoodWidth(w)
    requires i < |ids| && Spells(w, s, e, b, ids[i])
    ensures Deser(alts[i], e, b[w..]).Fail? ==>
              var f := Deser(alts[i], e, b[w..]); Deser(TagGroup(w, s, ids, alts), e, b) == Fail(w + f.used, f.err)
    ensures Deser(alts[i], e, b[w..]).Fine? ==>
              var f := Deser(alts[i], e, b[w..]);
              Deser(TagGroup(w, s, ids, alts), e, b) == Fine(w + f.used, VAlt(i, f.value))
  {
    hide Deser, Good, DeserInt, TagIndex, Default, InRange;
    TagGroupCase(w, s, ids, alts, e, b);
    SpellsRead(w, s, e, b, ids[i]);
    IdAt(w, s, e, ids, b, i);
  }

  lemma {:induction false} IdAt(w: nat, s: bool, e: Endian, ids: seq<int>, b: seq<byte>, i: nat)
    requires i < |ids| && Distinct(ids) && DeserInt(w, s, e, b) == Fine(w, ids[i])
    ensures TagIndex(w, s, e, ids, b) == Some(i)
  {
    hide DeserInt;
    if i > 0 {
      assert ids[0] != ids[i];
      IdAt(w, s, e, ids[1..], b, i - 1);
    }
  }

  /** A tag group that finds no id takes nothing and delivers its default. */
  lemma TagGroupUnknown(w: nat, s: bool, ids: seq<int>, alts: seq<Def>, e: Endian, b: seq<byte>)
    requires Good(TagGroup(w, s, ids, alts)) && GoodWidth(w)
    requires forall i :: 0 <= i < |ids| ==> !Spells(w, s, e, b, ids[i])
    ensures Deser(TagGroup(w, s, ids, alts), e, b) == Fine(0, Default(TagGroup(w, s, ids, alts)))
  {
    hide Deser, Good, DeserInt, TagIndex, Default, InRange;
    TagGroupCase(w, s, ids, alts, e, b);
    NoIdRead(w, s, e, ids, b);
  }

  lemma {:induction false} NoIdRead(w: nat, s: bool, e: Endian, ids: seq<int>, b: seq<byte>)
    requires GoodWidth(w) && forall i :: 0 <= i < |ids| ==> !Spells(w, s, e, b, ids[i])
    ensures TagIndex(w, s, e, ids, b) == None
  {
    hide DeserInt, InRange;
    if ids != [] {
      assert !Spells(w, s, e, b, ids[0]);
      NumberWidth(w, s, e, b);
      if w <= |b| { IntReads(w, s, e, b, ids[0]); }
      NoIdRead(w, s, e, ids[1..], b);
    }
  }

  /** A group fails as a whole exactly when no tag leads; otherwise the alternative whose tag leads decides. */
  lemma GroupRejects(alts: seq<Def>, e: Endian, b: seq<byte>)
    requires Good(Group(alts)) && AllGood(alts) && TagsDiffer(alts)
    ensures (forall i :: 0 <= i < |alts| ==> !Leads(alts[i], e, b)) ==> Deser(Group(alts), e, b) == Fail(0, GroupErr)
    ensures forall i :: 0 <= i < |alts| && Leads(alts[i], e, b) ==>
              Deser(Group(alts), e, b) == AsAlt(Deser(alts[i], e, b), i)
  {
    hide Deser, Good, Leads;
    GroupCase(alts, e, b);
    LeaderDecides(alts, e, b, 0);
  }

  /** The bytes begin with the tag of a tag-led tuple. */
  ghost predicate Leads(d: Def, e: Endian, b: seq<byte>)
    requires TagLed(d)
  {
    Spells(d.items[0].width, d.items[0].signed, e, b, d.items[0].id)
  }

  lemma {:induction false} LeaderDecides(ds: seq<Def>, e: Endian, b: seq<byte>, k: nat)
    requires AllGood(ds) && TagsDiffer(ds)
    ensures (forall i :: 0 <= i < |ds| ==> !Leads(ds[i], e, b)) ==> DeserAlts(ds, e, b, k) == Fail(0, GroupErr)
    ensures forall i :: 0 <= i < |ds| && Leads(ds[i], e, b) ==>
              DeserAlts(ds, e, b, k) == AsAlt(Deser(ds[i], e, b), k + i)
    decreases ds
  {
    hide Deser, Good, Leads;
    if ds != [] {
      LeadsExactly(ds[0], e, b);
      LeaderDecides(ds[1..], e, b, k + 1);
      forall i | 0 <= i < |ds| && Leads(ds[i], e, b)
        ensures DeserAlts(ds, e, b, k) == AsAlt(Deser(ds[i], e, b), k + i)
      {
        if i > 0 {
          OneLeader(ds[0], ds[i], e, b);
          assert ds[1..][i - 1] == ds[i];
        }
      }
      if forall i :: 0 <= i < |ds| ==> !Leads(ds[i], e, b) {
        assert forall i :: 0 <= i < |ds[1..]| ==> ds[1..][i] == ds[i + 1];
      }
    }
  }

  lemma LeadsExactly(d: Def, e: Endian, b: seq<byte>)
    requires Good(d) && TagLed(d)
    ensures Leads(d, e, b) ==> Deser(d, e, b).OutOfBounds? || Deser(d, e, b).used > 0
    ensures !Leads(d, e, b) ==> Deser(d, e, b).Fail? && Deser(d, e, b).used == 0
  {
    var t := d.items[0];
    assert Good(t);
    hide Deser, DeserInt, InRange;
    TagDecides(d, e, b);
    NumberWidth(t.width, t.signed, e, b);
    if t.width <= |b| { IntReads(t.width, t.signed, e, b, t.id); }
  }

  lemma OneLeader(c: Def, d: Def, e: Endian, b: seq<byte>)
    requires Good(c) && Good(d) && TagLed(c) && TagLed(d) && Leads(d, e, b)
    requires c.items[0].width == d.items[0].width && c.items[0].signed == d.items[0].signed
    requires c.items[0].id != d.items[0].id
    ensures !Leads(c, e, b)
  {
    var t := d.items[0];
    assert Good(t);
    hide DeserInt, InRange;
    SpellsRead(t.width, t.signed, e, b, t.id);
    if Leads(c, e, b) {
      SpellsRead(t.width, t.signed, e, b, c.items[0].id);
    }
  }

  /** A sized buffer refuses a payload longer than the rest, and hands exactly its length on otherwise. */
  lemma SizedRejects(counter: Def, payload: Def, e: Endian, b: seq<byte>, n: nat)
    requires Good(SizedBuffer(counter, payload)) && IsCounter(counter) && Good(payload)
    requires n < Pow256(counter.width) && counter.width + n < SIZE_LIMIT
    requires Spells(counter.width, false, e, b, (n + CounterShift(counter)) % Pow256(counter.width))
    ensures Deser(SizedBuffer(counter, payload), e, b) ==
            if |b| < counter.width + n then Fail(counter.width, SizeErr)
            else
              match Deser(payload, e, b[counter.width..counter.width + n])
              case Fine(u, v) => Fine(counter.width + u, v)
              case Fail(u, err) => Fail(counter.width + u, err)
              case OutOfBounds => OutOfBounds
  {
    hide Deser, Good, DeserInt, Pow256, InRange;
    var w, m := counter.width, Pow256(counter.width);
    SpellsRead(w, false, e, b, (n + CounterShift(counter)) % m);
    ModShift(n, CounterShift(counter), m);
    ModUnique(n, m, 0, n);
    assert DeserCounter(counter, e, b) == Fine(w, n);
    CountedPayload(counter, payload, e, b, n);
  }

  lemma CountedPayload(counter: Def, payload: Def, e: Endian, b: seq<byte>, n: nat)
    requires Good(SizedBuffer(counter, payload)) && IsCounter(counter) && Good(payload)
    requires counter.width + n < SIZE_LIMIT && DeserCounter(counter, e, b) == Fine(counter.width, n)
    ensures Deser(SizedBuffer(counter, payload), e, b) ==
            if |b| < counter.width + n then Fail(counter.width, SizeErr)
            else Shift(Deser(payload, e, b[counter.width..counter.width + n]), counter.width)
  {
    hide Deser, Good, DeserCounter, Shift;
    SizedCase(counter, payload, e, b);
  }

  // ------------------------------------------------------------------ lists

  /** A failure lies as far behind the start of the list as the encodings of the items in front are long. */
  lemma {:induction false} ItemFails(ds: seq<Def>, e: Endian, vs: seq<Val>, pre: seq<byte>, rest: seq<byte>)
    requires AllGood(ds) && |vs| < |ds| && TypedItems(ds[..|vs|], vs)
    requires forall j :: 0 <= j < |vs| ==> Delimited(ds[j]) && CountersFit(ds[j], e, vs[j])
    requires Deser(ds[|vs|], e, rest).Fail?
    ensures var f := Deser(ds[|vs|], e, rest); var s := SerItems(ds[..|vs|], e, vs);
            DeserItems(ds, e, pre + s + rest, |pre|) == Fail(|pre| + |s| + f.used, f.err)
  {
    hide Deser, Ser, Good, Typed, Delimited, DeserItems, CountersFit;
    var front := ds[..|vs|];
    var b := pre + SerItems(front, e, vs) + rest;
    ItemsStep(ds, e, b, |pre|);
    if vs == [] {
      assert b[|pre|..] == rest;
    } else {
      var s, tail := Ser(ds[0], e, vs[0]), SerItems(front[1..], e, vs[1..]);
      assert front[1..] == ds[1..][..|vs| - 1];
      assert b[|pre|..] == s + (tail + rest) && b == pre + s + tail + rest;
      RoundTrip(ds[0], e, vs[0], tail + rest);
      ItemFails(ds[1..], e, vs[1..], pre + s, rest);
    }
  }

  lemma TupleFails(ds: seq<Def>, e: Endian, vs: seq<Val>, rest: seq<byte>)
    requires Good(Tuple(ds)) && AllGood(ds) && |vs| < |ds| && TypedItems(ds[..|vs|], vs)
    requires forall j :: 0 <= j < |vs| ==> Delimited(ds[j]) && CountersFit(ds[j], e, vs[j])
    requires Deser(ds[|vs|], e, rest).Fail?
    ensures var f := Deser(ds[|vs|], e, rest); var s := SerItems(ds[..|vs|], e, vs);
            Deser(Tuple(ds), e, s + rest) == Fail(|s| + f.used, f.err)
  {
    hide Deser, Ser, Good, Typed, Delimited, DeserItems, CountersFit, SerItems;
    var s := SerItems(ds[..|vs|], e, vs);
    TupleCase(ds, e, s + rest);
    ItemFails(ds, e, vs, [], rest);
    assert [] + s + rest == s + rest;
  }

  lemma {:induction false} ElementFails(d: Def, n: nat, e: Endian, vs: seq<Val>, pre: seq<byte>, rest: seq<byte>)
    requires Good(d) && Delimited(d) && |vs| < n && AllTyped(d, vs)
    requires forall j :: 0 <= j < |vs| ==> CountersFit(d, e, vs[j])
    requires Deser(d, e, rest).Fail?
    ensures var f := Deser(d, e, rest); var s := SerMany(d, e, vs);
            DeserMany(d, e, n, pre + s + rest, |pre|) == Fail(|pre| + |s| + f.used, f.err)
    decreases |vs|
  {
    hide Deser, Ser, Good, Typed, Delimited, DeserMany, CountersFit;
    var b := pre + SerMany(d, e, vs) + rest;
    ManyStep(d, e, n, b, |pre|);
    if vs == [] {
      assert b[|pre|..] == rest;
    } else {
      var s, tail := Ser(d, e, vs[0]), SerMany(d, e, vs[1..]);
      assert b[|pre|..] == s + (tail + rest) && b == pre + s + tail + rest;
      RoundTrip(d, e, vs[0], tail + rest);
      ElementFails(d, n - 1, e, vs[1..], pre + s, rest);
    }
  }

  lemma ArrayFails(d: Def, n: nat, e: Endian, vs: seq<Val>, rest: seq<byte>)
    requires Good(Array(d, n)) && Good(d) && Delimited(d) && |vs| < n && AllTyped(d, vs)
    requires forall j :: 0 <= j < |vs| ==> CountersFit(d, e, vs[j])
    requires Deser(d, e, rest).Fail?
    ensures var f := Deser(d, e, rest); var s := SerMany(d, e, vs);
            Deser(Array(d, n), e, s + rest) == Fail(|s| + f.used, f.err)
  {
    hide Deser, Ser, Good, Typed, Delimited, DeserMany, CountersFit, SerMany;
    var s := SerMany(d, e, vs);
    ArrayCase(d, n, e, s + rest);
    ElementFails(d, n, e, vs, [], rest);
    assert [] + s + rest == s + rest;
  }
}

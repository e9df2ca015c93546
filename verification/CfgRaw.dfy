/** What is written for a value of any length, and what reading the cells of a page can give back. */
module CfgRaw {
  import opened Bytes
  import opened CfgPages
  import opened CfgLog
  import opened CfgScan

  /** The bytes written for a value: a long one is followed by its tail cell at once. */
  function RawBytes(key: nat, value: seq<byte>): (b: seq<byte>)
    requires SerCell(key, value).Some?
  {
    (if |value| <= 4 then [] else value) + SerCell(key, value).value.1
  }

  lemma RawOfEntry(e: Entry)
    requires WellFormed(e)
    ensures SerCell(e.key, e.data).Some? && RawBytes(e.key, e.data) == EntryBytes(e)
  {
    SerTailCell(e);
  }

  /** The value read back for the tail cell c that ends at a: empty when it would start below start or not
      fit the work buffer. */
  function ValueAt(m: seq<byte>, start: nat, a: nat, c: DeserRes, bufferSize: nat): seq<byte>
    requires CELL <= a <= |m|
  {
    if !c.isSeq then ToLittle(4, c.val)
    else if start + CELL * c.val + CELL <= a && CELL * c.val <= bufferSize then m[a - CELL - CELL * c.val..a - CELL]
    else []
  }

  /** The cell of the page that ends at a reads as this pair. */
  ghost predicate ReadsAs(m: seq<byte>, start: nat, end: nat, bufferSize: nat, a: nat, kv: KVal) {
    && start + CELL <= a <= end <= |m| && (end - a) % CELL == 0
    && var c := DeserCell(m[a - CELL..a]);
       c.Some? && c.value.key == kv.key && ValueAt(m, start, a, c.value, bufferSize) == kv.value
  }

  ghost predicate ReadSomewhere(m: seq<byte>, start: nat, end: nat, bufferSize: nat, kv: KVal) {
    exists a: nat :: ReadsAs(m, start, end, bufferSize, a, kv)
  }

  ghost predicate AllRead(m: seq<byte>, start: nat, end: nat, bufferSize: nat, out: seq<KVal>) {
    forall j :: 0 <= j < |out| ==> ReadSomewhere(m, start, end, bufferSize, out[j])
  }

  /** Some pair stands for this key and this value, followed by zeros only. */
  ghost predicate Returns(out: seq<KVal>, key: nat, value: seq<byte>) {
    exists j :: 0 <= j < |out| && out[j].key == key && IsPrefixOfWithZeros(value, out[j].value)
  }

  lemma FromLittleStep(x: seq<byte>)
    requires x != []
    ensures FromLittle(x) == x[0] + 256 * FromLittle(x[1..])
  {
  }

  lemma {:induction false} FromLittleSplit(x: seq<byte>, s: nat)
    requires s <= |x|
    ensures FromLittle(x) == FromLittle(x[..s]) + Pow256(s) * FromLittle(x[s..])
  {
    hide FromLittle;
    if s == 0 {
      assert x[0..] == x && x[..0] == [];
      assert FromLittle([]) < Pow256(0);
    } else {
      FromLittleSplit(x[1..], s - 1);
      FromLittleStep(x);
      FromLittleStep(x[..s]);
      assert x[1..][..s - 1] == x[..s][1..] && x[1..][s - 1..] == x[s..];
      TimesStep(Pow256(s - 1), FromLittle(x[s..]));
    }
  }

  lemma TimesStep(p: nat, r: nat)
    ensures (256 * p) * r == 256 * (p * r)
  {
  }

  /** The upper bytes of a number, moved down by whole bytes, are another number. */
  lemma ShiftedDiffers(x: seq<byte>, s: nat)
    requires 0 < s <= |x| && FromLittle(x) > 0
    ensures FromLittle(x[s..]) != FromLittle(x)
  {
    FromLittleSplit(x, s);
    var t, p := FromLittle(x[s..]), Pow256(s);
    assert p == 256 * Pow256(s - 1) && p >= 256;
    assert t > 0 ==> p * t >= 256 * t by { MulAtLeast(p, 256, t); }
  }

  lemma MulAtLeast(p: nat, k: nat, t: nat)
    requires p >= k
    ensures p * t >= k * t
  {
  }

  /** A cell is its two halves. */
  lemma CellHalves(c: seq<byte>)
    requires |c| == CELL && DeserCell(c).Some? && DeserCell(c).value.isSeq
    ensures FromLittle(c) == DeserCell(c).value.key * WORD_LIMIT + DeserCell(c).value.val
  {
    hide FromLittle, Pow256;
    PowerValues();
    var front := FromLittle(c) / WORD_LIMIT;
    HalfBound(FromLittle(c));
    ModUnique(front, WORD_LIMIT, 0, front);
    ModUnique(front, KEY_LIMIT, 0, front);
  }

  lemma HalfBound(t: nat)
    requires t < WORD_LIMIT * WORD_LIMIT
    ensures t / WORD_LIMIT < WORD_LIMIT && t == t / WORD_LIMIT * WORD_LIMIT + t % WORD_LIMIT
  {
  }

  lemma SerUnaligned(key: nat, value: seq<byte>)
    requires key < KEY_LIMIT && 4 < |value| < KEY_LIMIT && |value| % CELL != 0
    ensures SerCell(key, value).Some?
    ensures var c := SerCell(key, value).value.1;
            |c| == CELL && FromLittle(c) == key * WORD_LIMIT + (|value| / CELL + 1)
  {
    hide ToLittle, FromLittle;
    var n := |value|;
    assert n % WORD_LIMIT == n && (n + CELL - 1) % WORD_LIMIT == n + CELL - 1;
    assert (n + CELL - 1) / CELL == n / CELL + 1;
    assert ClosestMultipleOf(n, CELL) / CELL == n / CELL + 1;
    HalvesRoundTrip(key, n / CELL + 1);
  }

  /** An erased page after one value was written to its start. */
  ghost predicate RawPage(m: seq<byte>, start: nat, end: nat, key: nat, value: seq<byte>)
    requires SerCell(key, value).Some?
  {
    var b := RawBytes(key, value);
    && start + |b| <= end <= |m| && (end - start) % CELL == 0
    && m[start..start + |b|] == b
    && forall i :: start + |b| <= i < end ==> m[i] == 0
  }

  /** A long value that does not end at a cell boundary is not given back by any cell of its page. */
  lemma UnalignedLost(m: seq<byte>, start: nat, end: nat, bufferSize: nat, key: nat, value: seq<byte>,
                      a: nat, v: seq<byte>)
    requires key < KEY_LIMIT && 4 < |value| < KEY_LIMIT && |value| % CELL != 0
    requires SerCell(key, value).Some? && RawPage(m, start, end, key, value)
    requires ReadsAs(m, start, end, bufferSize, a, KVal(key, v))
    ensures !IsPrefixOfWithZeros(value, v)
  {
    hide ToLittle, FromLittle, SerCell, DeserCell;
    SerUnaligned(key, value);
    var n, q := |value|, |value| / CELL + 1;
    var cell, tail := m[a - CELL..a], SerCell(key, value).value.1;
    var c := DeserCell(cell).value;
    if c.isSeq && |v| >= n {
      var p := a - CELL - start;
      assert CELL * c.val >= n && p >= CELL * c.val && p % CELL == 0;
      if p >= n + CELL {
        assert IsFreeCell(cell);
        FreeCellReads(cell);
      } else {
        var s := p - n;
        assert p == CELL * q && c.val == q;
        CellOverTail(m, start, end, key, value, p);
        FromLittlePadded(tail[s..], s);
        ShiftedDiffers(tail, s);
        CellHalves(cell);
      }
    }
  }

  /** The cell that the last bytes of the tail fall into. */
  lemma CellOverTail(m: seq<byte>, start: nat, end: nat, key: nat, value: seq<byte>, p: nat)
    requires 4 < |value| < p < |value| + CELL
    requires SerCell(key, value).Some? && RawPage(m, start, end, key, value)
    requires start + p + CELL <= end
    ensures var s := p - |value|;
            m[start + p..start + p + CELL] == SerCell(key, value).value.1[s..] + Zeros(s)
  {
    hide SerCell, ToLittle;
    var s, tail, b := p - |value|, SerCell(key, value).value.1, RawBytes(key, value);
    var cell := m[start + p..start + p + CELL];
    forall i | 0 <= i < CELL
      ensures cell[i] == (tail[s..] + Zeros(s))[i]
    {
      if i < CELL - s {
        assert m[start..start + |b|][p + i] == b[p + i] == tail[s + i];
      }
    }
  }

  lemma RawWritten(before: seq<byte>, start: nat, end: nat, key: nat, value: seq<byte>, bufferSize: nat)
    requires SerCell(key, value).Some? && key < KEY_LIMIT && |value| + CELL <= bufferSize < KEY_LIMIT
    requires start + |RawBytes(key, value)| <= end <= |before| && (end - start) % CELL == 0
    requires forall i :: start <= i < end ==> before[i] == 0
    ensures var m := Splice(before, start, RawBytes(key, value));
            && RawPage(m, start, end, key, value)
            && (Storable(value) ==> PageLog(m, start, end, [Entry(key, value)])
                                    && WellFormedLog([Entry(key, value)], bufferSize))
  {
    hide SerCell, RawBytes;
    SpliceAt(before, start, RawBytes(key, value));
    if Storable(value) {
      var e := Entry(key, value);
      RawOfEntry(e);
      LogEmpty();
      assert before[start..start] == [] == LogBytes([]);
      PageAppend(before, start, end, [], e);
      assert [] + [e] == [e];
    }
  }

  lemma StorableReturned(key: nat, value: seq<byte>, out: seq<KVal>)
    requires Loaded([Entry(key, value)], [key], out)
    ensures Returns(out, key, value)
  {
    assert Newest([Entry(key, value)], key) == Some(Stored(value));
    assert key in KeysOf(out);
    var j :| 0 <= j < |out| && KeysOf(out)[j] == key;
    StoredMatches(value);
    assert out[j].key == key && IsPrefixOfWithZeros(value, out[j].value);
  }

  lemma UnalignedNotReturned(m: seq<byte>, start: nat, end: nat, bufferSize: nat, key: nat, value: seq<byte>,
                             out: seq<KVal>)
    requires key < KEY_LIMIT && value != [] && |value| < KEY_LIMIT && !Storable(value)
    requires SerCell(key, value).Some? && RawPage(m, start, end, key, value)
    requires AllRead(m, start, end, bufferSize, out)
    ensures !Returns(out, key, value)
  {
    hide SerCell, RawPage, ReadsAs, IsPrefixOfWithZeros;
    forall j | 0 <= j < |out| && out[j].key == key
      ensures !IsPrefixOfWithZeros(value, out[j].value)
    {
      assert ReadSomewhere(m, start, end, bufferSize, out[j]);
      var a: nat :| ReadsAs(m, start, end, bufferSize, a, out[j]);
      UnalignedLost(m, start, end, bufferSize, key, value, a, out[j].value);
    }
  }
}

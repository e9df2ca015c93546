/** Cells and entries of the configuration log.

    A page holds a log of entries behind its header.  A value of at most four bytes lives inside a
    single 8-byte cell together with its key; a longer one is stored in front of a tail cell that
    holds the key and the number of value cells.  The log grows upwards and is read backwards. */
module CfgLog {
  import opened Bytes
  import opened CfgPages

  const KEY_LIMIT: nat := 0x8000_0000
  const WORD_LIMIT: nat := 0x1_0000_0000

  datatype CellKind = Single | Multi

  datatype DeserRes = DeserRes(isSeq: bool, key: nat, val: nat)

  /** x rounded up to a multiple of r in uint32 arithmetic. */
  function ClosestMultipleOf(x: nat, r: nat): nat
    requires r > 0
  {
    (r * (((x + r - 1) % WORD_LIMIT) / r)) % WORD_LIMIT
  }

  /** `key | 0x80000000` for keys up to 0x80000000. */
  function WithSingleBit(key: nat): nat
    requires key <= KEY_LIMIT
  {
    if key == KEY_LIMIT then key else key + KEY_LIMIT
  }

  /** The cell of a value, or of a value's tail.  Rejects empty values and keys above the flag bit. */
  function SerCell(key: nat, value: seq<byte>): (r: Option<(CellKind, seq<byte>)>)
    ensures r.Some? ==> |r.value.1| == CELL
  {
    if value == [] || key > KEY_LIMIT then None
    else if |value| <= 4 then
      Some((Single, ToLittle(CELL, WithSingleBit(key) * WORD_LIMIT + FromLittle(value))))
    else
      Some((Multi, ToLittle(CELL, key * WORD_LIMIT + ClosestMultipleOf(|value| % WORD_LIMIT, CELL) / CELL)))
  }

  function DeserCell(c: seq<byte>): (r: Option<DeserRes>)
    requires |c| == CELL
  {
    var tmp := FromLittle(c);
    var front := tmp / WORD_LIMIT % WORD_LIMIT;
    var val := tmp % WORD_LIMIT;
    var isSeq := front < KEY_LIMIT;
    if isSeq && val == 0 then None else Some(DeserRes(isSeq, front % KEY_LIMIT, val))
  }

  predicate IsFreeCell(c: seq<byte>) {
    forall i :: 0 <= i < |c| ==> c[i] == 0
  }

  /** Values the log can hold without losing its cell alignment. */
  predicate Storable(value: seq<byte>) {
    1 <= |value| < KEY_LIMIT && (|value| <= 4 || |value| % CELL == 0)
  }

  datatype Entry = Entry(key: nat, data: seq<byte>)

  predicate WellFormed(e: Entry) {
    e.key < KEY_LIMIT && Storable(e.data)
  }

  /** What a reader gets back for a stored value. */
  function Stored(value: seq<byte>): (s: seq<byte>)
    ensures |s| >= |value|
  {
    if |value| <= 4 then value + Zeros(4 - |value|) else value
  }

  /** a, followed by zeros only, is b. */
  predicate IsPrefixOfWithZeros(a: seq<byte>, b: seq<byte>) {
    |a| <= |b| && b[..|a|] == a && forall i :: |a| <= i < |b| ==> b[i] == 0
  }

  lemma PowerValues()
    ensures Pow256(4) == WORD_LIMIT
    ensures Pow256(8) == WORD_LIMIT * WORD_LIMIT
  {
    assert Pow256(4) == WORD_LIMIT;
    assert Pow256(8) == 256 * 256 * 256 * 256 * Pow256(4);
  }

  lemma {:induction false} FromLittlePadded(s: seq<byte>, n: nat)
    ensures FromLittle(s + Zeros(n)) == FromLittle(s)
  {
    if s != [] {
      assert (s + Zeros(n))[1..] == s[1..] + Zeros(n);
      FromLittlePadded(s[1..], n);
    } else if n > 0 {
      assert s + Zeros(n) == Zeros(n);
      assert Zeros(n)[1..] == [] + Zeros(n - 1);
      FromLittlePadded([], n - 1);
    }
  }

  /** A short value survives the trip through the upper half of a cell, padded to four bytes. */
  lemma ShortValue(value: seq<byte>)
    requires 1 <= |value| <= 4
    ensures FromLittle(value) < WORD_LIMIT
    ensures ToLittle(4, FromLittle(value)) == Stored(value)
  {
    PowerValues();
    FromLittlePadded(value, 4 - |value|);
    ToFromLittle(Stored(value));
  }

  /** The two halves of a cell come back unchanged. */
  lemma HalvesRoundTrip(hi: nat, lo: nat)
    requires hi < WORD_LIMIT && lo < WORD_LIMIT
    ensures FromLittle(ToLittle(CELL, hi * WORD_LIMIT + lo)) == hi * WORD_LIMIT + lo
    ensures DeserCell(ToLittle(CELL, hi * WORD_LIMIT + lo)) ==
            if hi < KEY_LIMIT && lo == 0 then None
            else Some(DeserRes(hi < KEY_LIMIT, hi % KEY_LIMIT, lo))
  {
    var word := hi * WORD_LIMIT + lo;
    PowerValues();
    FromToLittle(CELL, word);
    ModUnique(word, WORD_LIMIT * WORD_LIMIT, 0, word);
    ModUnique(word, WORD_LIMIT, hi, lo);
  }

  lemma FreeCellIsZero(c: seq<byte>)
    requires IsFreeCell(c)
    ensures FromLittle(c) == 0
  {
    assert c == [] + Zeros(|c|);
    FromLittlePadded([], |c|);
  }

  /** A free cell holds no entry. */
  lemma FreeCellReads(c: seq<byte>)
    requires |c| == CELL && IsFreeCell(c)
    ensures DeserCell(c) == None
  {
    FreeCellIsZero(c);
  }

  /** The two halves of a value's cell. */
  function TailHalves(e: Entry): (r: (nat, nat))
    requires WellFormed(e)
    ensures r.0 < WORD_LIMIT && r.1 < WORD_LIMIT
  {
    if |e.data| <= 4 then
      ShortValue(e.data);
      (e.key + KEY_LIMIT, FromLittle(e.data))
    else
      (e.key, |e.data| / CELL)
  }

  function TailCell(e: Entry): (c: seq<byte>)
    requires WellFormed(e)
    ensures |c| == CELL
  {
    ToLittle(CELL, TailHalves(e).0 * WORD_LIMIT + TailHalves(e).1)
  }

  lemma RoundedLength(n: nat)
    requires n < KEY_LIMIT && n % CELL == 0
    ensures ClosestMultipleOf(n % WORD_LIMIT, CELL) / CELL == n / CELL
  {
    var q := n / CELL;
    assert n % WORD_LIMIT == n;
    assert (n + CELL - 1) % WORD_LIMIT == n + CELL - 1;
    assert (n + CELL - 1) / CELL == q;
  }

  /** Serialising a value gives its tail cell, which is never taken for a free cell. */
  lemma SerTailCell(e: Entry)
    requires WellFormed(e)
    ensures SerCell(e.key, e.data) == Some((if |e.data| <= 4 then Single else Multi, TailCell(e)))
  {
    if |e.data| > 4 {
      RoundedLength(|e.data|);
    }
  }

  /** Reading a cell back tells single values from tails and recovers key and content. */
  lemma CellRoundTrip(e: Entry)
    requires WellFormed(e)
    ensures !IsFreeCell(TailCell(e))
    ensures DeserCell(TailCell(e)) == Some(DeserRes(|e.data| > 4, e.key, TailHalves(e).1))
  {
    hide DeserCell, ToLittle, FromLittle;
    var (hi, lo) := TailHalves(e);
    HalvesRoundTrip(hi, lo);
    if |e.data| <= 4 {
      ModUnique(hi, KEY_LIMIT, 1, e.key);
    } else {
      ModUnique(hi, KEY_LIMIT, 0, e.key);
    }
    if IsFreeCell(TailCell(e)) {
      FreeCellIsZero(TailCell(e));
    }
  }

  /** The bytes of a cell: a short value padded with zeros, or the number of value cells, and then the key,
      lowest byte first; the highest bit of the key marks a short value. */
  lemma CellBytes(e: Entry)
    requires WellFormed(e)
    ensures var c := SerCell(e.key, e.data);
            c.Some? && c.value.1 == if |e.data| <= 4 then Stored(e.data) + ToLittle(4, e.key + KEY_LIMIT)
                                    else ToLittle(4, |e.data| / CELL) + ToLittle(4, e.key)
  {
    hide ToLittle, FromLittle, Stored;
    if |e.data| <= 4 {
      ShortValue(e.data);
      WordsApart(e.key + KEY_LIMIT, FromLittle(e.data));
    } else {
      RoundedLength(|e.data|);
      WordsApart(e.key, |e.data| / CELL);
    }
  }

  /** Two words one behind the other. */
  lemma WordsApart(hi: nat, lo: nat)
    requires hi < WORD_LIMIT && lo < WORD_LIMIT
    ensures ToLittle(CELL, hi * WORD_LIMIT + lo) == ToLittle(4, lo) + ToLittle(4, hi)
  {
    hide ToLittle, FromLittle, Pow256;
    PowerValues();
    var a, b := ToLittle(4, lo), ToLittle(4, hi);
    WordBack(lo);
    WordBack(hi);
    FromLittleJoin(a, b);
    ToFromLittle(a + b);
    assert |a + b| == CELL && FromLittle(a + b) == lo + WORD_LIMIT * hi;
  }

  lemma WordBack(x: nat)
    requires x < WORD_LIMIT
    ensures FromLittle(ToLittle(4, x)) == x
  {
    hide ToLittle, FromLittle, Pow256;
    PowerValues();
    FromToLittle(4, x);
    ModUnique(x, WORD_LIMIT, 0, x);
  }

  lemma {:induction false} FromLittleJoin(a: seq<byte>, b: seq<byte>)
    ensures FromLittle(a + b) == FromLittle(a) + Pow256(|a|) * FromLittle(b)
  {
    if a == [] {
      assert a + b == b;
    } else {
      FromLittleJoin(a[1..], b);
      assert (a + b)[1..] == a[1..] + b;
      TimesTwice(256, Pow256(|a| - 1), FromLittle(b));
    }
  }

  lemma TimesTwice(a: nat, b: nat, c: nat)
    ensures a * (b * c) == a * b * c
  {
  }

  /** Keys are accepted up to and including the flag bit, but come back only below it. */
  lemma KeyLimitIsExact(key: nat, value: seq<byte>)
    requires Storable(value) && key <= KEY_LIMIT
    ensures SerCell(key, value).Some?
    ensures var r := DeserCell(SerCell(key, value).value.1);
            r.Some? && r.value.key == if key < KEY_LIMIT then key else 0
  {
    if key < KEY_LIMIT {
      SerTailCell(Entry(key, value));
      CellRoundTrip(Entry(key, value));
    } else {
      var lo := TailHalves(Entry(0, value)).1;
      HalvesRoundTrip(KEY_LIMIT, lo);
      SerTailCell(Entry(0, value));
      if |value| > 4 {
        RoundedLength(|value|);
      }
      assert SerCell(key, value).value.1 == ToLittle(CELL, KEY_LIMIT * WORD_LIMIT + lo);
    }
  }

  /** The bytes an entry occupies. */
  function EntryBytes(e: Entry): (b: seq<byte>)
    requires WellFormed(e)
    ensures |b| == EntrySize(e.data)
  {
    (if |e.data| <= 4 then [] else e.data) + TailCell(e)
  }

  function EntrySize(data: seq<byte>): nat {
    (if |data| <= 4 then 0 else |data|) + CELL
  }

  /** Only values of the documented lengths keep the log a whole number of cells. */
  lemma AlignedExactlyWhenStorable(data: seq<byte>)
    requires 1 <= |data| < KEY_LIMIT
    ensures EntrySize(data) % CELL == 0 <==> Storable(data)
  {
  }

  ghost predicate WellFormedLog(es: seq<Entry>, bufferSize: nat) {
    forall i :: 0 <= i < |es| ==> WellFormed(es[i]) && |es[i].data| + CELL <= bufferSize
  }

  ghost predicate AllWellFormed(es: seq<Entry>) {
    forall i :: 0 <= i < |es| ==> WellFormed(es[i])
  }

  function LogBytes(es: seq<Entry>): (b: seq<byte>)
    requires AllWellFormed(es)
  {
    if es == [] then [] else LogBytes(es[..|es| - 1]) + EntryBytes(es[|es| - 1])
  }

  function LogSize(es: seq<Entry>): nat
    requires AllWellFormed(es)
  {
    |LogBytes(es)|
  }

  /** The stored value of the newest entry of a key. */
  function Newest(es: seq<Entry>, key: nat): Option<seq<byte>> {
    if es == [] then None
    else if es[|es| - 1].key == key then Some(Stored(es[|es| - 1].data))
    else Newest(es[..|es| - 1], key)
  }

  lemma LogEmpty()
    ensures LogSize([]) == 0
  {
  }

  lemma LogAppend(es: seq<Entry>, e: Entry)
    requires AllWellFormed(es) && WellFormed(e)
    ensures AllWellFormed(es + [e])
    ensures LogBytes(es + [e]) == LogBytes(es) + EntryBytes(e)
    ensures forall k :: Newest(es + [e], k) == if k == e.key then Some(Stored(e.data)) else Newest(es, k)
  {
    assert (es + [e])[..|es|] == es;
  }

  lemma {:induction false} LogAligned(es: seq<Entry>)
    requires AllWellFormed(es)
    ensures LogSize(es) % CELL == 0
  {
    if es != [] {
      hide EntryBytes, EntrySize, Storable;
      var front, last := es[..|es| - 1], es[|es| - 1];
      LogAligned(front);
      EntryAligned(last);
      assert LogSize(es) == LogSize(front) + |EntryBytes(last)|;
      BothAligned(LogSize(front), |EntryBytes(last)|);
    }
  }

  lemma BothAligned(a: nat, b: nat)
    requires a % CELL == 0 && b % CELL == 0
    ensures (a + b) % CELL == 0
  {
  }

  lemma EntryAligned(e: Entry)
    requires WellFormed(e)
    ensures |EntryBytes(e)| % CELL == 0
  {
    hide EntryBytes;
    AlignedExactlyWhenStorable(e.data);
  }

  /** The bytes of the first i entries start the bytes of the whole log. */
  lemma {:induction false} LogPrefix(es: seq<Entry>, i: nat)
    requires AllWellFormed(es) && i <= |es|
    ensures AllWellFormed(es[..i])
    ensures LogSize(es[..i]) <= LogSize(es)
    ensures LogBytes(es)[..LogSize(es[..i])] == LogBytes(es[..i])
  {
    if i == |es| {
      assert es[..i] == es;
    } else {
      var front := es[..|es| - 1];
      LogPrefix(front, i);
      assert front[..i] == es[..i];
      assert LogBytes(es) == LogBytes(front) + EntryBytes(es[|es| - 1]);
    }
  }

  /** The bytes of m from lo to hi are entry e: its value cells, then its tail cell. */
  ghost predicate EntryAt(m: seq<byte>, lo: nat, hi: nat, e: Entry) {
    && WellFormed(e)
    && hi == lo + EntrySize(e.data) <= |m|
    && m[hi - CELL..hi] == TailCell(e)
    && (|e.data| > 4 ==> m[lo..hi - CELL] == e.data)
  }

  lemma EntryAtShift(b: seq<byte>, lo: nat, hi: nat, e: Entry, m: seq<byte>, start: nat)
    requires EntryAt(b, lo, hi, e)
    requires start + |b| <= |m| && m[start..start + |b|] == b
    ensures EntryAt(m, start + lo, start + hi, e)
  {
    hide TailCell, WellFormed;
    SubSlice(m, start, b, hi - CELL, hi);
    SubSlice(m, start, b, lo, hi - CELL);
  }

  lemma SubSlice(m: seq<byte>, start: nat, b: seq<byte>, lo: nat, hi: nat)
    requires start + |b| <= |m| && m[start..start + |b|] == b && lo <= hi <= |b|
    ensures m[start + lo..start + hi] == b[lo..hi]
  {
    forall i | lo <= i < hi
      ensures m[start + i] == b[i]
    {
      assert m[start..start + |b|][i] == m[start + i];
    }
  }

  lemma EntryAtStart(e: Entry)
    requires WellFormed(e)
    ensures EntryAt(EntryBytes(e), 0, EntrySize(e.data), e)
  {
    hide TailCell, WellFormed;
  }

  /** Where entry i - 1 lies in the log. */
  lemma {:induction false} LogEntryAt(es: seq<Entry>, i: nat)
    requires AllWellFormed(es) && 0 < i <= |es|
    ensures AllWellFormed(es[..i]) && AllWellFormed(es[..i - 1])
    ensures EntryAt(LogBytes(es), LogSize(es[..i - 1]), LogSize(es[..i]), es[i - 1])
  {
    hide EntryAt, EntryBytes, WellFormed;
    var n := |es|;
    var front := es[..n - 1];
    var last := es[n - 1];
    assert LogBytes(es) == LogBytes(front) + EntryBytes(last);
    if i == n {
      assert es[..i] == es;
      EntryAtStart(last);
      EntryAtShift(EntryBytes(last), 0, EntrySize(last.data), last, LogBytes(es), LogSize(front));
    } else {
      LogEntryAt(front, i);
      assert front[..i] == es[..i] && front[..i - 1] == es[..i - 1];
      EntryAtShift(LogBytes(front), LogSize(es[..i - 1]), LogSize(es[..i]), es[i - 1], LogBytes(es), 0);
    }
  }

  /** Memory from start to end is the log followed by free cells. */
  ghost predicate PageLog(m: seq<byte>, start: nat, end: nat, es: seq<Entry>) {
    && AllWellFormed(es)
    && start + LogSize(es) <= end <= |m|
    && m[start..start + LogSize(es)] == LogBytes(es)
    && forall i :: start + LogSize(es) <= i < end ==> m[i] == 0
  }

  /** Writing an entry behind the log extends the log by exactly that entry. */
  lemma PageAppend(m: seq<byte>, start: nat, end: nat, es: seq<Entry>, e: Entry)
    requires PageLog(m, start, end, es) && WellFormed(e)
    requires start + LogSize(es) + EntrySize(e.data) <= end
    ensures PageLog(Splice(m, start + LogSize(es), EntryBytes(e)), start, end, es + [e])
  {
    LogAppend(es, e);
    var a := start + LogSize(es);
    SpliceAt(m, a, EntryBytes(e));
    var r := Splice(m, a, EntryBytes(e));
    var z := a + EntrySize(e.data);
    assert r[start..z] == m[start..a] + EntryBytes(e);
  }

  /** Where entry i - 1 lies in memory. */
  lemma PageEntryAt(m: seq<byte>, start: nat, end: nat, es: seq<Entry>, i: nat)
    requires PageLog(m, start, end, es) && 0 < i <= |es|
    ensures AllWellFormed(es[..i]) && AllWellFormed(es[..i - 1])
    ensures EntryAt(m, start + LogSize(es[..i - 1]), start + LogSize(es[..i]), es[i - 1])
    ensures LogSize(es[..i]) <= LogSize(es)
  {
    hide EntryAt, LogBytes;
    LogEntryAt(es, i);
    LogPrefix(es, i);
    EntryAtShift(LogBytes(es), LogSize(es[..i - 1]), LogSize(es[..i]), es[i - 1], m, start);
  }
}

/** The configuration store: update and load over erasable pages.

    The callbacks of the original are the application's; here they are the methods of one class,
    with the flash memory as an array of bytes and the cache of unseen keys as a list. */
module CfgHandler {
  import opened Bytes
  import opened CfgPages
  import opened CfgLog
  import opened CfgScan
  import opened CfgDump
  import opened CfgRoom
  import opened CfgRaw

  datatype CacheRes = Seen | NotSeen

  /** Steps addr down by n cells in size_t arithmetic; fails on wrap-around, leaving addr alone, and
      when the result is below start. */
  function DecrAddr(addr: nat, n: nat, start: nat): (r: (bool, nat))
    requires addr < SIZE_LIMIT && CELL * n < SIZE_LIMIT
    ensures r.0 <==> start + CELL * n <= addr
    ensures r.1 == if CELL * n <= addr then addr - CELL * n else addr
  {
    var d := (addr + SIZE_LIMIT - CELL * n) % SIZE_LIMIT;
    if d > addr then (false, addr) else (d >= start, d)
  }

  function PageAddr(p: nat, pageSize: nat): nat {
    p * pageSize
  }

  lemma PageBounds(p: nat, q: nat, pageSize: nat)
    requires p < q
    ensures PageAddr(p, pageSize) + pageSize <= PageAddr(q, pageSize)
    ensures PageAddr(p + 1, pageSize) == PageAddr(p, pageSize) + pageSize
  {
    MulSplit(p, q - p, pageSize);
    MulSplit(p, 1, pageSize);
    MulBound(pageSize, q - p);
  }

  lemma MulSplit(p: nat, d: nat, pageSize: nat)
    ensures (p + d) * pageSize == p * pageSize + d * pageSize
  {
  }

  lemma PagesDivide(n: nat, pageSize: nat)
    requires pageSize > 0
    ensures n * pageSize % pageSize == 0
    ensures n * pageSize / pageSize == n
  {
    ModUnique(n * pageSize, pageSize, n, 0);
  }

  /** The header of every page of a memory of n pages. */
  ghost function HeadersOf(m: seq<byte>, n: nat, pageSize: nat): (h: Headers)
    requires |m| == PageAddr(n, pageSize) && pageSize >= CELL
    ensures |h| == n
  {
    seq(n, p requires 0 <= p < n => HeaderAt(m, n, p, pageSize))
  }

  ghost function HeaderAt(m: seq<byte>, n: nat, p: nat, pageSize: nat): Option<HdrState>
    requires |m| == PageAddr(n, pageSize) && pageSize >= CELL && p < n
  {
    PageBounds(p, n, pageSize);
    HdrToHdrState(m[PageAddr(p, pageSize)..PageAddr(p, pageSize) + CELL])
  }

  /** Changes confined to one page behind its header leave all headers alone. */
  lemma SameHeaders(m: seq<byte>, m': seq<byte>, n: nat, pageSize: nat, page: nat)
    requires |m| == |m'| == PageAddr(n, pageSize) && pageSize >= CELL && page < n
    requires SameOutside(m, m', PageAddr(page, pageSize) + CELL, PageAddr(page, pageSize) + pageSize)
    ensures HeadersOf(m', n, pageSize) == HeadersOf(m, n, pageSize)
  {
    PageBounds(page, n, pageSize);
    var a := PageAddr(page, pageSize);
    assert m'[a..a + CELL] == m[a..a + CELL];
    HeadersFrame(m, m', n, pageSize, page, HeaderAt(m, n, page, pageSize));
  }

  lemma HeadersFrame(m: seq<byte>, m': seq<byte>, n: nat, pageSize: nat, p: nat, s: Option<HdrState>)
    requires |m| == |m'| == PageAddr(n, pageSize) && pageSize >= CELL && p < n
    requires SameOutside(m, m', PageAddr(p, pageSize), PageAddr(p, pageSize) + pageSize)
    requires HeaderAt(m', n, p, pageSize) == s
    ensures HeadersOf(m', n, pageSize) == HeadersOf(m, n, pageSize)[p := s]
  {
    forall q | 0 <= q < n && q != p
      ensures HeaderAt(m', n, q, pageSize) == HeaderAt(m, n, q, pageSize)
    {
      PageBounds(q, n, pageSize);
      if q < p {
        PageBounds(q, p, pageSize);
      } else {
        PageBounds(p, q, pageSize);
      }
      var a := PageAddr(q, pageSize);
      assert m'[a..a + CELL] == m[a..a + CELL];
    }
  }

  lemma PageStart(pageSize: nat)
    ensures PageAddr(0, pageSize) == 0
  {
  }

  lemma HeaderSeen(m: seq<byte>, n: nat, pageSize: nat, p: nat)
    requires |m| == PageAddr(n, pageSize) && pageSize >= CELL && p < n
    ensures PageAddr(p, pageSize) + CELL <= |m|
    ensures HeadersOf(m, n, pageSize)[p] == HdrToHdrState(m[PageAddr(p, pageSize)..PageAddr(p, pageSize) + CELL])
  {
    PageBounds(p, n, pageSize);
  }

  class Store {
    const mem: array<byte>
    const buffer: array<byte>
    const pageSize: nat
    var config: Config
    var unseen: seq<nat>
    var loaded: seq<KVal>
    ghost const n: nat
    ghost var round: HdrState
    ghost var count: nat
    ghost var log: seq<Entry>

    /** Sizes the machine can address and a work buffer of at least one cell. */
    ghost predicate Sized()
      reads this
    {
      && mem != buffer
      && mem.Length < SIZE_LIMIT - CELL
      && CELL <= buffer.Length < KEY_LIMIT
    }

    ghost predicate Sound()
      reads this
    {
      Sized() && GoodConfig(config, buffer.Length)
    }

    /** The caller refilled the cache with the configuration keys, in any order. */
    ghost predicate Refilled()
      reads this
    {
      NoDup(unseen) && forall q :: q in unseen <==> q in KeysOf(config)
    }

    /** A memory that carries no header yet; nothing else is asked of its contents. */
    constructor (mem: array<byte>, buffer: array<byte>, pageSize: nat, ghost n: nat, cfg: Config)
      requires mem != buffer && mem.Length < SIZE_LIMIT - CELL && CELL <= buffer.Length < KEY_LIMIT
      requires pageSize >= CELL && pageSize % CELL == 0 && n >= 1 && mem.Length == PageAddr(n, pageSize)
      requires NoHeader(HeadersOf(mem[..], n, pageSize))
      requires GoodConfig(cfg, buffer.Length)
      ensures Valid() && Refilled() && config == cfg && loaded == []
      ensures this.mem == mem && this.buffer == buffer && this.pageSize == pageSize && this.n == n
    {
      this.mem, this.buffer, this.pageSize, this.n := mem, buffer, pageSize, n;
      config, unseen, loaded := cfg, KeysOf(cfg), [];
      round, count, log := HdrState.A, 0, [];
    }

    // ---------------------------------------------------------------- callbacks

    method Read(addr: nat) returns (ok: bool, data: seq<byte>)
      ensures ok <==> addr + CELL <= mem.Length
      ensures ok ==> data == mem[addr..addr + CELL]
    {
      if addr + CELL > mem.Length {
        return false, [];
      }
      return true, mem[addr..addr + CELL];
    }

    method Write(addr: nat, data: seq<byte>) returns (ok: bool)
      modifies mem
      ensures ok <==> addr + |data| <= mem.Length
      ensures mem[..] == if ok then Splice(old(mem[..]), addr, data) else old(mem[..])
    {
      if addr + |data| > mem.Length {
        return false;
      }
      forall i | 0 <= i < |data| {
        mem[addr + i] := data[i];
      }
      return true;
    }

    method ClearPage(addr: nat) returns (ok: bool)
      modifies mem
      ensures ok <==> addr + pageSize <= mem.Length
      ensures mem[..] == if ok then Splice(old(mem[..]), addr, Zeros(pageSize)) else old(mem[..])
    {
      if addr + pageSize > mem.Length {
        return false;
      }
      forall i | addr <= i < addr + pageSize {
        mem[i] := 0;
      }
      return true;
    }

    /** Takes the key out of the unseen list by swapping it with the last one. */
    method CheckKeyCache(key: nat) returns (r: CacheRes)
      requires NoDup(unseen)
      modifies this`unseen
      ensures r == Seen <==> key !in old(unseen)
      ensures Without(old(unseen), unseen, key)
      ensures r == Seen ==> unseen == old(unseen)
    {
      var i := 0;
      while i < |unseen| && unseen[i] != key
        invariant 0 <= i <= |unseen|
        invariant key !in unseen[..i]
      {
        i := i + 1;
      }
      if i == |unseen| {
        assert unseen[..i] == unseen;
        return Seen;
      }
      ghost var before := unseen;
      var last := |unseen| - 1;
      unseen := unseen[i := unseen[last]][..last];
      forall q | q in before && q != key
        ensures q in unseen
      {
        var j :| 0 <= j < |before| && before[j] == q;
        assert unseen[if j == last then i else j] == q;
      }
      return NotSeen;
    }

    method TakeUnseenKey() returns (k: Option<nat>)
      modifies this`unseen
      ensures old(unseen) == [] ==> k == None && unseen == []
      ensures old(unseen) != [] ==>
                k == Some(old(unseen)[|old(unseen)| - 1]) && unseen == old(unseen)[..|old(unseen)| - 1]
    {
      if unseen == [] {
        return None;
      }
      k := Some(unseen[|unseen| - 1]);
      unseen := unseen[..|unseen| - 1];
    }

    method ResetKeys()
      modifies this`unseen
      ensures unseen == KeysOf(config)
    {
      unseen := KeysOf(config);
    }

    /** Copies the current value to the front of the work buffer. */
    method SerializeValue(key: nat) returns (used: Option<nat>)
      modifies buffer
      ensures used == if |ValueOf(config, key)| <= buffer.Length then Some(|ValueOf(config, key)|) else None
      ensures used.Some? ==> buffer[..used.value] == ValueOf(config, key)
    {
      var value := ValueOf(config, key);
      if buffer.Length < |value| {
        return None;
      }
      forall i | 0 <= i < |value| {
        buffer[i] := value[i];
      }
      return Some(|value|);
    }

    // ---------------------------------------------------------------- storing one value

    /** Puts the tail cell behind the value in the buffer; the result is the range to write. */
    method StoreKvalImpl(key: nat, valEnd: nat) returns (r: Option<(nat, nat)>)
      requires valEnd <= buffer.Length
      modifies buffer
      ensures r.Some? <==> valEnd + CELL <= buffer.Length && SerCell(key, old(buffer[..valEnd])).Some?
      ensures r.Some? ==>
                && r.value.0 <= r.value.1 <= buffer.Length
                && buffer[r.value.0..r.value.1] == RawBytes(key, old(buffer[..valEnd]))
    {
      hide ToLittle;
      if buffer.Length - valEnd < CELL {
        return None;
      }
      var newEnd := valEnd + CELL;
      ghost var value := buffer[..valEnd];
      var cell := SerCell(key, buffer[..valEnd]);
      if cell == None {
        return None;
      }
      forall i | 0 <= i < CELL {
        buffer[valEnd + i] := cell.value.1[i];
      }
      assert buffer[valEnd..newEnd] == cell.value.1;
      assert buffer[..newEnd] == value + cell.value.1;
      match cell.value.0
      case Multi => return Some((0, newEnd));
      case Single => return Some((valEnd, newEnd));
    }

    /** Writes the entry of a key at addr, unless it does not fit below end. */
    method StoreKey(addr: nat, end: nat, key: nat) returns (st: Status, addr': nat)
      requires Sound() && key in KeysOf(config) && addr <= end
      modifies mem, buffer
      ensures WellFormed(EntryOf(config, key))
      ensures var next := addr + EntrySize(ValueOf(config, key));
              && st == (if next > end then Full else if next > mem.Length then WriteError else Success)
              && addr' == (if st == Success then next else addr)
              && mem[..] == if st == Success then Splice(old(mem[..]), addr, EntryBytes(EntryOf(config, key)))
                            else old(mem[..])
    {
      hide EntryBytes, TailCell, WellFormed, SerCell, RawBytes;
      ghost var e := EntryOf(config, key);
      GoodValue(config, buffer.Length, key);
      RawOfEntry(e);
      var capacity := end - addr;
      var used := SerializeValue(key);
      if used == None {
        return SerializeValueError, addr;
      }
      var range := StoreKvalImpl(key, used.value);
      var data := buffer[range.value.0..range.value.1];
      assert data == EntryBytes(e);
      if capacity < |data| {
        return Full, addr;
      }
      var ok := Write(addr, data);
      if !ok {
        return WriteError, addr;
      }
      return Success, addr + |data|;
    }

    /** Writes the entries of all keys still unseen, one behind the other, until one does not fit. */
    method DumpUnseenKeys(addr0: nat, end: nat) returns (st: Status)
      requires Sound() && KnownKeys(config, unseen) && addr0 <= end && addr0 <= mem.Length
      modifies mem, buffer, this`unseen
      ensures st == DumpStatus(config, old(unseen), addr0, end, mem.Length)
      ensures var w := Dumped(config, old(unseen), addr0, end, mem.Length);
              && AllWellFormed(w) && addr0 + LogSize(w) <= mem.Length
              && mem[..] == Splice(old(mem[..]), addr0, LogBytes(w))
      ensures st == Success ==> unseen == []
    {
      hide LogBytes, EntryBytes, EntrySize, WellFormed, AllWellFormed, GoodConfig, Splice, ValueOf, DumpStatus, Dumped;
      ghost var keys, before := unseen, mem[..];
      ghost var written: seq<Entry> := [];
      DumpedFits(config, buffer.Length, keys, addr0, end, mem.Length);
      WritesStart(before, addr0);
      var addr := addr0;
      while true
        invariant KnownKeys(config, unseen) && addr0 <= addr <= end
        invariant Writes(before, mem[..], addr0, addr, written)
        invariant DumpStatus(config, keys, addr0, end, mem.Length) == DumpStatus(config, unseen, addr, end, mem.Length)
        invariant Dumped(config, keys, addr0, end, mem.Length) ==
                    written + Dumped(config, unseen, addr, end, mem.Length)
        decreases |unseen|
      {
        ghost var rest, at := unseen, addr;
        DumpStep(config, unseen, addr, end, mem.Length);
        var k := TakeUnseenKey();
        if k == None {
          assert written + [] == written;
          return Success;
        }
        ghost var m := mem[..];
        st, addr := StoreKey(addr, end, k.value);
        if st != Success {
          assert written + [] == written;
          return st;
        }
        ghost var e := EntryOf(config, k.value);
        WritesOn(before, m, addr0, at, written, e);
        ghost var later := Dumped(config, unseen, addr, end, mem.Length);
        assert written + ([e] + later) == written + [e] + later;
        written := written + [e];
      }
    }

    // ---------------------------------------------------------------- reading a page backwards

    /** Reads the value in front of a tail cell, last cell first, or unpacks a single cell.  Gives an
        empty value when a cell lies below start or the buffer is too small. */
    method ManifestValue(isSeq: bool, cellVal: nat, start: nat, addr0: nat) returns (val: seq<byte>, addr: nat)
      requires Sized() && addr0 <= mem.Length && (isSeq ==> cellVal > 0)
      modifies buffer
      ensures !isSeq ==> addr == addr0 && val == ToLittle(4, cellVal)
      ensures isSeq ==>
                if start + CELL * cellVal <= addr0 && CELL * cellVal <= buffer.Length then
                  addr == addr0 - CELL * cellVal && val == mem[addr..addr0]
                else val == []
      ensures addr <= addr0 && (addr0 - addr) % CELL == 0
    {
      hide ToLittle;
      addr := addr0;
      if isSeq {
        var i := 0;
        while i < cellVal
          invariant 0 <= i <= cellVal && addr == addr0 - CELL * i && addr < SIZE_LIMIT
          invariant i > 0 ==> cellVal * CELL <= buffer.Length && start + CELL * i <= addr0
          invariant forall j :: i > 0 && CELL * (cellVal - i) <= j < CELL * cellVal ==>
                                  buffer[j] == mem[addr0 - CELL * cellVal + j]
        {
          var (inside, next) := DecrAddr(addr, 1, start);
          addr := next;
          if !inside {
            return [], addr;
          }
          var offset := (cellVal - i - 1) * CELL;
          if offset + CELL > buffer.Length {
            return [], addr;
          }
          var ok, data := Read(addr);
          if !ok {
            return [], addr;
          }
          forall j | 0 <= j < CELL {
            buffer[offset + j] := data[j];
          }
          assert forall j :: offset <= j < offset + CELL ==> buffer[j] == data[j - offset];
          i := i + 1;
        }
        return buffer[..cellVal * CELL], addr;
      }
      var word := ToLittle(4, cellVal);
      forall j | 0 <= j < 4 {
        buffer[j] := word[j];
      }
      assert buffer[..4] == word;
      return buffer[..4], addr;
    }

    /** The address of the lowest free cell of the page, and the place to start reading back from. */
    method FindLogEnd(start: nat, end: nat, ghost es: seq<Entry>) returns (ok: bool, addr: nat, lastFree: nat)
      requires Sound() && PageLog(mem[..], start, end, es)
      requires (end - start) % CELL == 0 && LogSize(es) % CELL == 0
      ensures ok && lastFree == start + LogSize(es)
      ensures if es == [] then addr <= start else addr == lastFree
    {
      hide LogBytes, DeserCell, TailCell, WellFormed, AllWellFormed, IsFreeCell;
      addr := end;
      lastFree := end;
      LastCellNotFree(mem[..], start, end, es);
      while true
        invariant addr == lastFree <= end && start + LogSize(es) <= addr
        invariant (addr - start) % CELL == 0
        decreases addr
      {
        CellBelow(addr, start, LogSize(es));
        var (inside, next) := DecrAddr(addr, 1, start);
        addr := next;
        if !inside {
          return true, addr, lastFree;
        }
        var readOk, tmp := Read(addr);
        if !readOk {
          return false, addr, lastFree;
        }
        if start + LogSize(es) <= addr {
          CellFree(mem[..], start, end, es, addr);
        }
        if IsFreeCell(tmp) {
          lastFree := addr;
        } else {
          addr := addr + CELL;
          return true, addr, lastFree;
        }
      }
    }

    /** The state of the backward pass: old entries below addr are still to be read, and the log now
        ends at lastFree. */
    ghost predicate Pass(start: nat, end: nat, es: seq<Entry>, app: seq<Entry>, i: nat, addr: nat, lastFree: nat)
      reads this, mem
    {
      && i <= |es|
      && PageLog(mem[..], start, end, es + app) && lastFree == start + LogSize(es + app)
      && Scan(es, app, i, unseen, config)
      && AllWellFormed(es[..i])
      && (addr == start + LogSize(es[..i]) || (i == 0 && addr < start))
    }

    lemma PassEntry(start: nat, end: nat, es: seq<Entry>, app: seq<Entry>, i: nat, addr: nat, lastFree: nat)
      requires Pass(start, end, es, app, i, addr, lastFree)
      ensures i == 0 ==> addr <= start
      ensures i > 0 ==> start + CELL <= addr <= end <= mem.Length
      ensures NoDup(unseen) && OnlyStale(es, app, config)
    {
      ScanKeys(es, app, i, unseen, config, 0);
      if i > 0 {
        EntryInPage(mem[..], start, end, es, app, i);
      } else {
        assert es[..0] == [];
      }
    }

    /** One turn of the backward pass: the entry whose tail is at addr. */
    method UpdateEntry(start: nat, end: nat, addr0: nat, lastFree0: nat,
                       ghost es: seq<Entry>, ghost app0: seq<Entry>, ghost i: nat)
      returns (st: Status, addr: nat, lastFree: nat, ghost app: seq<Entry>)
      requires Sound() && i > 0 && Pass(start, end, es, app0, i, addr0 + CELL, lastFree0)
      requires WellFormedLog(es, buffer.Length)
      modifies mem, buffer, this`unseen
      ensures st == Success ==> Pass(start, end, es, app, i - 1, addr, lastFree)
      ensures st != Success ==>
                && st == Full && OnlyStale(es, app, config)
                && PageLog(mem[..], start, end, es + app) && StaleLeft(es, app, config, start, end)
      ensures SameOutside(old(mem[..]), mem[..], start, end)
    {
      hide Scan, OnlyStale, LogBytes, UpToDate, EntrySize, GoodConfig, DeserCell, ToLittle, AllWellFormed;
      hide IsPrefixOfWithZeros, TailHalves, Splice, EntryBytes, WellFormed, SameOutside, PageLog;
      SameSelf(mem[..], start, end);
      addr, lastFree, app := addr0, lastFree0, app0;
      PassEntry(start, end, es, app, i, addr + CELL, lastFree);
      EntryInPage(mem[..], start, end, es, app, i);
      ghost var e := es[i - 1];
      ghost var before := unseen;
      var readOk, tmp := Read(addr);
      if !readOk {
        return ReadError, addr, lastFree, app;
      }
      var c := DeserCell(tmp);
      if c == None {
        return DeserError, addr, lastFree, app;
      }
      var DeserRes(isSeq, key, val) := c.value;
      var cr := CheckKeyCache(key);
      if cr == Seen {
        if isSeq {
          addr := DecrAddr(addr, val, start).1;
        }
        ScanSkip(es, app, i, before, config);
        return Success, addr, lastFree, app;
      }
      var stored, below := ManifestValue(isSeq, val, start, addr);
      addr := below;
      assert stored == Stored(e.data);
      var changed := !IsPrefixOfWithZeros(ValueOf(config, key), stored);
      if !changed {
        ScanKeep(es, app, i, before, unseen, config);
        return Success, addr, lastFree, app;
      }
      ScanKeys(es, app, i, before, config, key);
      ScanRewrite(es, app, i, before, unseen, config);
      ghost var added := Entry(key, ValueOf(config, key));
      ghost var m := mem[..];
      LogInside(m, start, end, es + app);
      st, lastFree := StoreKey(lastFree, end, key);
      if st == Success {
        EntryStored(m, start, end, es, app, added);
        app := app + [added];
      }
    }

    /** Brings the log of a page up to date: reads it backwards and appends every changed value, then
        every missing one. */
    method UpdateStoredConfig(start: nat, end: nat, ghost es: seq<Entry>) returns (st: Status, ghost app: seq<Entry>)
      requires Sound() && Refilled()
      requires PageLog(mem[..], start, end, es) && WellFormedLog(es, buffer.Length)
      requires (end - start) % CELL == 0
      modifies mem, buffer, this`unseen
      ensures st == Success || st == Full
      ensures OnlyStale(es, app, config) && PageLog(mem[..], start, end, es + app)
      ensures st == Success ==> unseen == [] && AllUpToDate(es + app, config)
      ensures st == Success ==> StalePart(es, app, config)
      ensures st == Full ==> StaleLeft(es, app, config, start, end)
      ensures SameOutside(old(mem[..]), mem[..], start, end)
    {
      assert es[..0] == [] && LogSize(es[..0]) == 0;
      hide Scan, OnlyStale, LogBytes, UpToDate, EntrySize, GoodConfig, AllUpToDate, Splice, SameOutside,
        Dumped, DumpStatus;
      hide AllWellFormed, StalePart;
      ghost var before := mem[..];
      SameSelf(mem[..], start, end);
      app := [];
      ScanStart(es, unseen, config);
      LogAligned(es);
      var ok, addr: nat, lastFree: nat := FindLogEnd(start, end, es);
      ghost var i: nat := |es|;
      assert es + app == es && es[..i] == es;
      while true
        invariant Pass(start, end, es, app, i, addr, lastFree)
        invariant SameOutside(before, mem[..], start, end)
        decreases i
      {
        ghost var m1 := mem[..];
        PassEntry(start, end, es, app, i, addr, lastFree);
        var (inside, next) := DecrAddr(addr, 1, start);
        if !inside {
          break;
        }
        st, addr, lastFree, app := UpdateEntry(start, end, next, lastFree, es, app, i);
        SameBoth(before, m1, mem[..], start, end);
        if st != Success {
          return st, app;
        }
        i := i - 1;
      }
      ghost var m, written := mem[..], Dumped(config, unseen, lastFree, end, mem.Length);
      ScanKnown(es, app, unseen, config);
      DumpInPage(m, start, end, es, app, unseen, config, buffer.Length, lastFree);
      PageDumped(m, start, end, es, app, unseen, config, buffer.Length, lastFree, written);
      st := DumpUnseenKeys(lastFree, end);
      SameBoth(before, m, mem[..], start, end);
      app := app + written;
    }

    // ---------------------------------------------------------------- finding pages

    /** The memory is n pages, each with room for a header. */
    ghost predicate Divided()
      reads this
    {
      pageSize >= CELL && mem.Length == PageAddr(n, pageSize)
    }

    ghost predicate Paged()
      reads this
    {
      Divided() && pageSize % CELL == 0 && n >= 1
    }

    ghost function PageHeaders(): (h: Headers)
      requires Divided()
      reads this, mem
      ensures |h| == n
    {
      HeadersOf(mem[..], n, pageSize)
    }

    method LocateCurrentPage() returns (st: Status, addr: nat, ghost page: nat)
      requires pageSize >= CELL && mem.Length < SIZE_LIMIT
      requires mem.Length % pageSize == 0 ==> Divided()
      ensures mem.Length % pageSize != 0 ==> st == MemNotPageMultiplyError
      ensures mem.Length % pageSize == 0 ==>
                if NoHeader(PageHeaders()) then st == MissingPage
                else st == Success && IsCurrent(PageHeaders(), page) && addr == PageAddr(page, pageSize)
    {
      hide PageAddr, HeadersOf, HeaderAt, Walked, IsCurrent, NoHeader;
      addr, page := 0, 0;
      if mem.Length % pageSize != 0 {
        return MemNotPageMultiplyError, addr, page;
      }
      PagesDivideAddr(n, pageSize);
      var pages := mem.Length / pageSize;
      var hdrSt: Option<HdrState> := None;
      ghost var h := PageHeaders();
      ghost var first: nat := 0;
      WalkStart(h);
      var i := 0;
      while i < pages
        invariant 0 <= i <= n
        invariant Walked(h, i, hdrSt, first)
      {
        PageBounds(i, n, pageSize);
        var at := PageAddr(i, pageSize);
        var ok, data := Read(at);
        if !ok {
          return ReadError, addr, page;
        }
        var s := HdrToHdrState(data);
        HeaderSeen(mem[..], n, pageSize, i);
        WalkStep(h, i, hdrSt, first);
        if i > 0 {
          PageBounds(i - 1, i, pageSize);
        }
        if s == None {
          if hdrSt.Some? {
            return Success, at - pageSize, i - 1;
          }
        } else if hdrSt == None {
          hdrSt := s;
          first := i;
        } else if hdrSt != s {
          return Success, at - pageSize, i - 1;
        }
        i := i + 1;
      }
      WalkEnd(h, hdrSt, first);
      if hdrSt == None {
        return MissingPage, addr, page;
      }
      PageBounds(n - 1, n, pageSize);
      return Success, mem.Length - pageSize, n - 1;
    }

    method LocateNextPage() returns (st: Status, addr: nat, state: HdrState, ghost page: nat)
      requires pageSize >= CELL && mem.Length < SIZE_LIMIT
      requires mem.Length % pageSize == 0 ==> Divided()
      ensures mem.Length % pageSize != 0 ==> st == MemNotPageMultiplyError
      ensures mem.Length % pageSize == 0 ==>
                if n == 0 then st == LocateFailedError
                else st == Success && IsNext(PageHeaders(), page, state) && addr == PageAddr(page, pageSize)
    {
      hide PageAddr, HeadersOf, HeaderAt, SoFar, IsNext;
      addr, state, page := 0, HdrState.A, 0;
      if mem.Length % pageSize != 0 {
        return MemNotPageMultiplyError, addr, state, page;
      }
      PagesDivideAddr(n, pageSize);
      var pages := mem.Length / pageSize;
      var hdrSt: Option<HdrState> := None;
      ghost var h := PageHeaders();
      SoFarStart(h);
      var i := 0;
      while i < pages
        invariant 0 <= i <= n
        invariant SoFar(h, i, hdrSt)
      {
        PageBounds(i, n, pageSize);
        var at := PageAddr(i, pageSize);
        var ok, data := Read(at);
        if !ok {
          return ReadError, addr, state, page;
        }
        var s := HdrToHdrState(data);
        HeaderSeen(mem[..], n, pageSize, i);
        SoFarStep(h, i, hdrSt);
        if s == None {
          return Success, at, HdrState.A, i;
        }
        if hdrSt == None {
          hdrSt := s;
        } else if hdrSt != s {
          return Success, at, hdrSt.value, i;
        }
        i := i + 1;
      }
      SoFarEnd(h, hdrSt);
      if hdrSt == None {
        return LocateFailedError, addr, state, page;
      }
      PageStart(pageSize);
      return Success, 0, Next(hdrSt.value), 0;
    }

    // ---------------------------------------------------------------- update

    /** The headers form a ring and the current page holds the log. */
    ghost predicate Valid()
      reads this, mem
    {
      && Sound() && Paged()
      && count <= n && RingShape(PageHeaders(), count, round)
      && (count == 0 ==> log == [])
      && WellFormedLog(log, buffer.Length)
      && (count > 0 ==> var at := PageAddr(count - 1, pageSize); PageLog(mem[..], at + CELL, at + pageSize, log))
    }

    /** All entries of the configuration together fit behind one page header. */
    ghost predicate Fits()
      reads this
    {
      SumSize(config, KeysOf(config)) + CELL <= pageSize
    }

    /** The fit is not only sufficient: a page whose newest entries match the configuration proves it. */
    lemma UpToDateFits()
      requires Valid() && count > 0 && AllUpToDate(log, config)
      ensures Fits()
    {
      hide LogBytes, RingShape, HeadersOf, PageAddr;
      KeysNoDup(config, buffer.Length);
      UpToDateNeedsRoom(log, config, KeysOf(config));
    }

    /** There is a current page and its log has room for the entries of all stale keys. */
    ghost predicate HasRoom()
      reads this
    {
      count > 0 && AllWellFormed(log) && LogSize(log) + StaleSize(log, config) + CELL <= pageSize
    }

    /** The log of the current page was extended by exactly the stale keys; nothing else changed. */
    twostate predicate Extended()
      requires Paged()
      reads this, mem
    {
      && count == old(count) > 0 && round == old(round) && old(log) <= log
      && OnlyStale(old(log), log[|old(log)|..], config) && StalePart(old(log), log[|old(log)|..], config)
      && InLogOnly(old(mem[..]), mem[..], pageSize, count - 1)
    }

    /** The ring successor was written with all keys; what the old current page held stayed. */
    twostate predicate Rotated()
      requires Paged()
      reads this, mem
    {
      && count == NextCount(n, old(count))
      && round == (if old(count) == 0 then HdrState.A else NextState(n, old(count), old(round)))
      && OnlyStale([], log, config)
      && LeftBehind(old(mem[..]), mem[..], pageSize, old(count), count - 1, old(log))
    }

    /** A configuration that fits is stored: behind the log of the current page if the stale keys have room
        there, and else on the ring successor.  One that does not fit ends in the status of dumping it to the
        ring successor, and leaves no page that matches it. */
    method Update() returns (st: Status)
      requires Valid() && Refilled()
      modifies mem, buffer, this`unseen, this`log, this`count, this`round
      ensures Fits() ==> st == Success && Valid() && count > 0 && unseen == [] && AllUpToDate(log, config)
      ensures Fits() ==> if old(HasRoom()) then Extended() else Rotated()
      ensures old(count > 0 && AllUpToDate(log, config)) ==> st == Success && mem[..] == old(mem[..])
      ensures !Fits() ==>
                && st == FreshStatus(config, pageSize, NextIndex(n, old(count)), n)
                && !Matched(mem[..], NextIndex(n, old(count)), pageSize, config)
    {
      hide LogBytes, OnlyStale, AllUpToDate, GoodConfig, RingShape, IsCurrent, SumSize, PageAddr, HeadersOf, PageLog;
      hide NoHeader, IsNext, FirstRun, WellFormedLog, FreshStatus, Matched, StalePart, InLogOnly, LeftBehind;
      hide InPageOnly, HasRoom;
      ghost var before := mem[..];
      var found, addr, page := LocateCurrentPage();
      CurrentOfRing(PageHeaders(), count, round, page);
      PagesDivideAddr(n, pageSize);
      if found != MissingPage {
        if found != Success {
          return found;
        }
        st := UpdateCurrentPage(addr);
        if st != Full {
          UpToDateFits();
          return st;
        }
      } else {
        NoRoomWithoutPage();
        InLogSame(before, pageSize);
      }
      var located, at, state, next := LocateNextPage();
      if located != Success {
        return located;
      }
      RotationKeepsRing(PageHeaders(), count, round, next, state);
      ghost var m1, es := mem[..], log;
      st := WriteFreshPage(at, state, next);
      if Fits() {
        LeftAlone(before, m1, mem[..], pageSize, n, old(count), next, old(log), es);
      }
    }

    lemma NoRoomWithoutPage()
      requires count == 0
      ensures !HasRoom()
    {
    }

    /** First half of update: the log of the current page. */
    method UpdateCurrentPage(addr: nat) returns (st: Status)
      requires Valid() && Refilled() && count > 0 && addr == PageAddr(count - 1, pageSize)
      modifies mem, buffer, this`unseen, this`log
      ensures st == Success || st == Full
      ensures Valid() && PageHeaders() == old(PageHeaders())
      ensures old(log) <= log && OnlyStale(old(log), log[|old(log)|..], config)
      ensures st == Success <==> old(HasRoom())
      ensures st == Success ==>
                unseen == [] && AllUpToDate(log, config) && StalePart(old(log), log[|old(log)|..], config)
      ensures InLogOnly(old(mem[..]), mem[..], pageSize, count - 1)
      ensures old(AllUpToDate(log, config)) ==> st == Success && mem[..] == old(mem[..])
    {
      hide LogBytes, OnlyStale, AllUpToDate, GoodConfig, RingShape, HeadersOf, PageAddr, PageLog, WellFormedLog,
        StaleLeft, SameOutside, StalePart, StaleSize;
      PageBounds(count - 1, n, pageSize);
      ghost var before, app := mem[..], [];
      st, app := UpdateStoredConfig(addr + CELL, addr + pageSize, log);
      SameHeaders(before, mem[..], n, pageSize, count - 1);
      AppendedFit(log, app, config, buffer.Length);
      assert (log + app)[|log|..] == app;
      RoomDecides(mem[..], log, app, config, buffer.Length, addr + CELL, addr + pageSize, st == Success);
      if AllUpToDate(log, config) {
        NothingToDo(before, mem[..], log, app, config, addr + CELL, addr + pageSize);
      }
      log := log + app;
    }

    /** Second half of update: erases the successor page, labels it and dumps the configuration.  The end
        of the page is taken behind the header, so the dump may run one cell past the page. */
    method WriteFreshPage(at: nat, state: HdrState, ghost next: nat) returns (st: Status)
      requires Sound() && Paged() && next < n && at == PageAddr(next, pageSize)
      requires RingShape(PageHeaders()[next := Some(state)], next + 1, state)
      modifies mem, buffer, this`unseen, this`log, this`count, this`round
      ensures st == FreshStatus(config, pageSize, next, n)
      ensures Fits() ==>
                && st == Success && Valid() && unseen == [] && count == next + 1 && round == state
                && AllUpToDate(log, config) && OnlyStale([], log, config)
                && InPageOnly(old(mem[..]), mem[..], pageSize, next)
      ensures Matched(mem[..], next, pageSize, config) <==> Fits()
      ensures SumSize(config, KeysOf(config)) == pageSize && next + 1 < n ==> Overrun(mem[..], next, pageSize, config)
    {
      hide LogBytes, OnlyStale, AllUpToDate, GoodConfig, RingShape, HeadersOf, SumSize, Scan, PageAddr, PageLog;
      hide WellFormedLog, SameOutside, Matched, Overrun, Dumped, DumpStatus, Splice, AllWellFormed, InPageOnly;
      PageBounds(next, n, pageSize);
      KeysNoDup(config, buffer.Length);
      ghost var m1 := mem[..];
      ResetKeys();
      st := StartPage(at, state, next);
      if st != Success {
        return st;
      }
      ghost var m2 := mem[..];
      var addr := at + CELL;
      KnownSelf(config);
      st := DumpUnseenKeys(addr, addr + pageSize);
      assert FreshDump(m2, mem[..], config, next, pageSize, n);
      FreshMatched(m2, mem[..], config, buffer.Length, next, pageSize, n);
      if SumSize(config, KeysOf(config)) == pageSize && next + 1 < n {
        FreshOverrun(m2, mem[..], config, buffer.Length, next, pageSize, n);
      }
      if SumSize(config, KeysOf(config)) + CELL <= pageSize {
        FreshFits(m2, mem[..], config, buffer.Length, next, pageSize, n);
        SameHeaders(m2, mem[..], n, pageSize, next);
        PageWritten(m1, m2, mem[..], pageSize, next);
        log, count, round := FreshLog(config, pageSize, next, n), next + 1, state;
      }
    }

    method StartPage(at: nat, state: HdrState, ghost next: nat) returns (st: Status)
      requires Paged() && next < n && at == PageAddr(next, pageSize)
      modifies mem
      ensures st == Success
      ensures PageHeaders() == old(PageHeaders())[next := Some(state)]
      ensures PageLog(mem[..], at + CELL, at + pageSize, []) && LogSize([]) == 0
      ensures SameOutside(old(mem[..]), mem[..], at, at + pageSize)
    {
      PageBounds(next, n, pageSize);
      FreshPage(mem[..], n, next, pageSize, state);
      var cleared := ClearPage(at);
      if !cleared {
        return ClearError;
      }
      var hdr := GetHdr(state);
      var written := Write(at, hdr);
      if !written {
        return WriteError;
      }
      return Success;
    }

    // ---------------------------------------------------------------- load

    method OnKval(key: nat, value: seq<byte>)
      modifies this`loaded
      ensures loaded == old(loaded) + [KVal(key, value)]
    {
      loaded := loaded + [KVal(key, value)];
    }

    ghost predicate LoadPass(start: nat, end: nat, es: seq<Entry>, i: nat, addr: nat, wanted: seq<nat>, base: seq<KVal>)
      reads this, mem
    {
      base <= loaded && ReadPass(mem[..], start, end, es, i, addr, unseen, wanted, loaded[|base|..])
    }

    /** Entry i - 1 of the log has its tail right below addr. */
    ghost predicate AtEntry(start: nat, end: nat, es: seq<Entry>, i: nat, addr: nat, wanted: seq<nat>, base: seq<KVal>)
      reads this, mem
    {
      && WellFormedLog(es, buffer.Length) && LoadPass(start, end, es, i, addr, wanted, base)
      && i > 0 && addr == start + LogSize(es[..i])
    }

    /** One turn of a load: the cell at addr is taken for a tail, whatever it is.  What is handed over is
        what the cell reads as; if it is the tail of a log entry, it is that entry. */
    method LoadEntry(start: nat, end: nat, addr0: nat, c: DeserRes,
                     ghost es: seq<Entry>, ghost i: nat, ghost wanted: seq<nat>, ghost base: seq<KVal>)
      returns (addr: nat)
      requires Sized() && NoDup(unseen)
      requires start <= addr0 && addr0 + CELL <= end <= mem.Length && (end - addr0) % CELL == 0
      requires DeserCell(mem[addr0..addr0 + CELL]) == Some(c)
      modifies buffer, this`unseen, this`loaded
      ensures addr <= addr0 && (end - addr) % CELL == 0 && NoDup(unseen)
      ensures old(loaded) <= loaded && AllRead(mem[..], start, end, buffer.Length, loaded[|old(loaded)|..])
      ensures old(AtEntry(start, end, es, i, addr0 + CELL, wanted, base)) ==>
                LoadPass(start, end, es, i - 1, addr, wanted, base)
    {
      hide DeserCell, ToLittle, AllRead, WellFormedLog, ReadPass, LogSize, ReadsAs, ValueAt;
      ghost var atEntry := AtEntry(start, end, es, i, addr0 + CELL, wanted, base);
      ghost var before, out := unseen, if atEntry then loaded[|base|..] else [];
      DeserBounds(mem[addr0..addr0 + CELL]);
      addr := addr0;
      var DeserRes(isSeq, key, val) := c;
      var cr := CheckKeyCache(key);
      if atEntry {
        ReadPassEntry(mem[..], start, end, buffer.Length, es, i, addr0 + CELL, c, before, unseen, wanted, out);
      }
      if cr == Seen {
        if isSeq {
          addr := DecrAddr(addr, val, start).1;
        }
        assert loaded[|loaded|..] == [];
        NothingRead(mem[..], start, end, buffer.Length);
        return;
      }
      addr := TakeEntry(start, end, addr0, c);
      if atEntry {
        assert loaded[|base|..] == out + [KVal(key, ValueAt(mem[..], start, addr0 + CELL, c, buffer.Length))];
      }
    }

    /** Hands over what the cell at addr0 reads as; the cells of a value that lies on the page and fits the
        buffer are stepped over. */
    method TakeEntry(start: nat, end: nat, addr0: nat, c: DeserRes) returns (addr: nat)
      requires Sized() && (c.isSeq ==> c.val > 0)
      requires start <= addr0 && addr0 + CELL <= end <= mem.Length && (end - addr0) % CELL == 0
      requires DeserCell(mem[addr0..addr0 + CELL]) == Some(c)
      modifies buffer, this`loaded
      ensures addr <= addr0 && (end - addr) % CELL == 0
      ensures !c.isSeq ==> addr == addr0
      ensures c.isSeq && start + CELL * c.val <= addr0 && CELL * c.val <= buffer.Length ==>
                addr == addr0 - CELL * c.val
      ensures var kv := KVal(c.key, ValueAt(mem[..], start, addr0 + CELL, c, buffer.Length));
              && loaded == old(loaded) + [kv] && AllRead(mem[..], start, end, buffer.Length, [kv])
    {
      hide DeserCell, ToLittle, AllRead, ReadsAs, ReadSomewhere, PageLog, FromLittle;
      var stored, below := ManifestValue(c.isSeq, c.val, start, addr0);
      addr := below;
      OnKval(c.key, stored);
      CellRead(mem[..], start, end, buffer.Length, addr0 + CELL, c, stored);
    }

    /** Reads the cells of a page backwards, whatever they hold, and hands over only what some cell reads
        as.  On a page that holds a log this is the newest value of every wanted key. */
    method LoadStoredConfig(start: nat, end: nat, ghost es: seq<Entry>) returns (st: Status)
      requires Sized() && NoDup(unseen) && start <= end <= mem.Length && (end - start) % CELL == 0
      modifies buffer, this`unseen, this`loaded
      ensures st == Success && old(loaded) <= loaded
      ensures AllRead(mem[..], start, end, buffer.Length, loaded[|old(loaded)|..])
      ensures PageLog(mem[..], start, end, es) && WellFormedLog(es, buffer.Length) ==>
                && Loaded(es, old(unseen), loaded[|old(loaded)|..])
                && forall q :: q in unseen <==> q in old(unseen) && Newest(es, q) == None
    {
      hide LogBytes, DeserCell, LoadScan, Loaded, ToLittle, TailHalves, WellFormedLog, AllRead, ReadPass;
      ghost var wanted, base := unseen, loaded;
      ghost var page := PageLog(mem[..], start, end, es) && WellFormedLog(es, buffer.Length);
      var addr: nat := end;
      ghost var i: nat := |es|;
      assert es[..i] == es && loaded[|base|..] == [];
      LoadStart(es, unseen);
      NothingRead(mem[..], start, end, buffer.Length);
      if page {
        ReadPassStart(mem[..], start, end, es, wanted);
      }
      while true
        invariant addr <= end && (end - addr) % CELL == 0 && NoDup(unseen)
        invariant base <= loaded && AllRead(mem[..], start, end, buffer.Length, loaded[|base|..])
        invariant page ==> LoadPass(start, end, es, i, addr, wanted, base)
        decreases addr
      {
        if page {
          ReadPassCell(mem[..], start, end, es, i, addr, unseen, wanted, loaded[|base|..]);
        }
        var (inside, next) := DecrAddr(addr, 1, start);
        if !inside {
          break;
        }
        addr := next;
        var readOk, tmp := Read(addr);
        if !readOk {
          return ReadError;
        }
        var c := DeserCell(tmp);
        if c == None {
          continue;
        }
        ghost var sofar := loaded;
        addr := LoadEntry(start, end, addr, c.value, es, i, wanted, base);
        ReadMore(mem[..], start, end, buffer.Length, base, sofar, loaded);
        i := if page then i - 1 else i;
      }
      if page {
        ReadPassDone(mem[..], start, end, es, i, addr, unseen, wanted, loaded[|base|..]);
        LoadDone(es, unseen, wanted, loaded[|base|..]);
      }
      return Success;
    }

    /** A load gives the newest stored value of every wanted key, each once, and nothing else. */
    method Load() returns (st: Status)
      requires Valid() && NoDup(unseen)
      modifies buffer, this`unseen, this`loaded
      ensures st == Success && Valid()
      ensures old(loaded) <= loaded && Loaded(log, old(unseen), loaded[|old(loaded)|..])
    {
      hide LogBytes, GoodConfig, RingShape, IsCurrent, PageAddr, HeadersOf, PageLog, FirstRun, Loaded, LoadScan,
        WellFormedLog, AllRead;
      var found, addr, page := LocateCurrentPage();
      CurrentOfRing(PageHeaders(), count, round, page);
      PagesDivideAddr(n, pageSize);
      if found == MissingPage {
        LoadStart(log, unseen);
        LoadDone(log, unseen, unseen, []);
        assert loaded[|loaded|..] == [];
        return Success;
      }
      if found != Success {
        return found;
      }
      PageBounds(page, n, pageSize);
      st := LoadStoredConfig(addr + CELL, addr + pageSize, log);
    }

    /** One value of any length, stored at the start of an erased page and loaded again: it is given back
        if and only if it is at most four bytes long or ends at a cell boundary. */
    method StoreThenLoad(key: nat, value: seq<byte>, start: nat, end: nat)
      requires Sized() && key < KEY_LIMIT && value != [] && |value| + CELL <= buffer.Length
      requires start <= end <= mem.Length && (end - start) % CELL == 0
      requires forall i :: start <= i < end ==> mem[i] == 0
      requires SerCell(key, value).Some? && start + |RawBytes(key, value)| <= end
      modifies this`unseen, this`loaded, mem, buffer
      ensures Returns(loaded, key, value) <==> Storable(value)
    {
      hide SerCell, RawBytes, PageLog, AllRead, Returns, Loaded, Storable, WellFormedLog, Splice, RawPage;
      ghost var before, es := mem[..], [Entry(key, value)];
      forall i | 0 <= i < |value| {
        buffer[i] := value[i];
      }
      assert buffer[..|value|] == value;
      var range := StoreKvalImpl(key, |value|);
      var data := buffer[range.value.0..range.value.1];
      assert data == RawBytes(key, value);
      assert before == mem[..];
      var ok := Write(start, data);
      assert mem[..] == Splice(before, start, RawBytes(key, value));
      unseen, loaded := [key], [];
      RawWritten(before, start, end, key, value, buffer.Length);
      var st := LoadStoredConfig(start, end, es);
      assert loaded[0..] == loaded;
      if Storable(value) {
        StorableReturned(key, value, loaded);
      } else {
        UnalignedNotReturned(mem[..], start, end, buffer.Length, key, value, loaded);
      }
    }

    // ---------------------------------------------------------------- whole runs

    /** The application changes its configuration and refills the cache. */
    method Configure(cfg: Config)
      requires Valid() && GoodConfig(cfg, buffer.Length)
      modifies this`config, this`unseen
      ensures Valid() && config == cfg && unseen == KeysOf(cfg) && Refilled()
    {
      config := cfg;
      unseen := KeysOf(cfg);
    }

    /** Any run of updates with changing configurations: each succeeds, and a load after the last one
        restores that last configuration, every pair exactly once. */
    method UpdatesThenLoad(configs: seq<Config>) returns (st: Status)
      requires Valid() && configs != []
      requires forall i :: 0 <= i < |configs| ==>
                 GoodConfig(configs[i], buffer.Length)
                 && SumSize(configs[i], KeysOf(configs[i])) + CELL <= pageSize
      modifies mem, buffer, this
      ensures st == Success && Valid()
      ensures Restores(configs[|configs| - 1], loaded)
      ensures forall j :: 0 <= j < |loaded| ==> Padded(ValueOf(configs[|configs| - 1], loaded[j].key), loaded[j].value)
    {
      hide GoodConfig, SumSize, AllUpToDate, Restores, Loaded, RingShape, PageLog, WellFormedLog, Padded, ValueOf;
      var i := 0;
      while i < |configs|
        invariant 0 <= i <= |configs| && Valid()
        invariant i > 0 ==> config == configs[i - 1] && AllUpToDate(log, config)
      {
        Configure(configs[i]);
        st := Update();
        if st != Success {
          return;
        }
        i := i + 1;
      }
      Configure(config);
      loaded := [];
      st := Load();
      assert loaded[0..] == loaded;
      UpToDateRestores(log, config, KeysOf(config), loaded);
      RestoresPadded(config, loaded);
    }
  }

  // ------------------------------------------------------------------ what a load reads

  /** The value itself, followed by nothing but zeros. */
  ghost predicate Padded(value: seq<byte>, got: seq<byte>) {
    exists n: nat :: got == value + Zeros(n)
  }

  lemma RestoresPadded(cfg: Config, out: seq<KVal>)
    requires Restores(cfg, out)
    ensures forall j :: 0 <= j < |out| ==> Padded(ValueOf(cfg, out[j].key), out[j].value)
  {
    hide ValueOf;
    forall j | 0 <= j < |out|
      ensures Padded(ValueOf(cfg, out[j].key), out[j].value)
    {
      var value := ValueOf(cfg, out[j].key);
      assert IsPrefixOfWithZeros(value, out[j].value);
      assert out[j].value == value + Zeros(|out[j].value| - |value|);
    }
  }

  /** The state of a load: free cells above the log are skipped first, then the log is read back. */
  ghost predicate ReadPass(m: seq<byte>, start: nat, end: nat, es: seq<Entry>, i: nat, addr: nat,
                           unseen: seq<nat>, wanted: seq<nat>, out: seq<KVal>)
  {
    && i <= |es| && PageLog(m, start, end, es) && LoadScan(es, i, unseen, wanted, out)
    && (addr - start) % CELL == 0
    && if i == |es| && start + LogSize(es) < addr then addr <= end else addr == start + LogSize(es[..i])
  }

  lemma ReadPassStart(m: seq<byte>, start: nat, end: nat, es: seq<Entry>, wanted: seq<nat>)
    requires PageLog(m, start, end, es) && NoDup(wanted) && (end - start) % CELL == 0
    ensures ReadPass(m, start, end, es, |es|, end, wanted, wanted, [])
  {
    hide LogBytes, LoadScan, AllWellFormed;
    assert es[..|es|] == es;
    LoadStart(es, wanted);
  }

  lemma PrefixWellFormed(es: seq<Entry>, i: nat)
    requires AllWellFormed(es) && i <= |es|
    ensures AllWellFormed(es[..i])
  {
    hide WellFormed;
  }

  /** The cell below addr: free, or the tail of entry i - 1. */
  lemma ReadPassCell(m: seq<byte>, start: nat, end: nat, es: seq<Entry>, i: nat, addr: nat,
                     unseen: seq<nat>, wanted: seq<nat>, out: seq<KVal>)
    requires ReadPass(m, start, end, es, i, addr, unseen, wanted, out)
    ensures start <= addr <= end <= |m| && NoDup(unseen)
    ensures addr == start <==> addr < start + CELL
    ensures addr == start ==> i == 0
    ensures start + CELL <= addr && DeserCell(m[addr - CELL..addr]) == None ==>
              ReadPass(m, start, end, es, i, addr - CELL, unseen, wanted, out)
    ensures start + CELL <= addr && DeserCell(m[addr - CELL..addr]).Some? ==>
              i > 0 && addr == start + LogSize(es[..i])
  {
    hide LogBytes, LoadScan, ToLittle, TailHalves, AllWellFormed, DeserCell;
    assert NoDup(unseen) by { LoadScanNoDup(es, i, unseen, wanted, out); }
    assert es[..|es|] == es;
    LogAligned(es);
    assert AllWellFormed(es[..i]) by { PrefixWellFormed(es, i); }
    LogAligned(es[..i]);
    LogPrefix(es, i);
    if i > 0 {
      EntryInPage(m, start, end, es, [], i) by {
        assert es + [] == es;
      }
    } else {
      assert LogSize(es[..0]) == 0 by { LogEmpty(); }
    }
    if start + LogSize(es) < addr {
      FreeCellReads(m[addr - CELL..addr]);
    }
  }

  /** The cell at an entry's tail and the cells below it give the entry back. */
  lemma EntryFacts(m: seq<byte>, start: nat, end: nat, bufferSize: nat, es: seq<Entry>, i: nat, a: nat, c: DeserRes)
    requires PageLog(m, start, end, es) && WellFormedLog(es, bufferSize) && 0 < i <= |es|
    requires CELL <= a == start + LogSize(es[..i]) <= |m| && DeserCell(m[a - CELL..a]) == Some(c)
    ensures c.key == es[i - 1].key && ValueAt(m, start, a, c, bufferSize) == Stored(es[i - 1].data)
    ensures var low := start + LogSize(es[..i - 1]);
            && (low - start) % CELL == 0 && low == a - CELL - (if c.isSeq then CELL * c.val else 0)
            && (c.isSeq ==> CELL * c.val <= bufferSize)
  {
    hide LogBytes, DeserCell, ToLittle, TailHalves, AllWellFormed;
    EntryInPage(m, start, end, es, [], i) by {
      assert es + [] == es;
    }
    LogAligned(es[..i - 1]);
  }

  /** Reading an entry takes the pass below it: with the entry handed over, or left out as seen. */
  lemma ReadPassEntry(m: seq<byte>, start: nat, end: nat, bufferSize: nat, es: seq<Entry>, i: nat, a: nat, c: DeserRes,
                      unseen: seq<nat>, rest: seq<nat>, wanted: seq<nat>, out: seq<KVal>)
    requires ReadPass(m, start, end, es, i, a, unseen, wanted, out) && WellFormedLog(es, bufferSize)
    requires i > 0 && CELL <= a == start + LogSize(es[..i]) <= |m| && DeserCell(m[a - CELL..a]) == Some(c)
    requires Without(unseen, rest, c.key)
    ensures start + CELL + (if c.isSeq then CELL * c.val else 0) <= a && (c.isSeq ==> CELL * c.val <= bufferSize)
    ensures var low := a - CELL - if c.isSeq then CELL * c.val else 0;
            var kv := KVal(c.key, ValueAt(m, start, a, c, bufferSize));
            if c.key in unseen then ReadPass(m, start, end, es, i - 1, low, rest, wanted, out + [kv])
            else ReadPass(m, start, end, es, i - 1, low, unseen, wanted, out)
  {
    hide LoadScan, DeserCell, PageLog, WellFormedLog, ValueAt, Without;
    EntryFacts(m, start, end, bufferSize, es, i, a, c);
    if c.key in unseen {
      LoadTake(es, i, unseen, rest, wanted, out);
    } else {
      LoadSkip(es, i, unseen, wanted, out);
    }
  }

  lemma ReadPassDone(m: seq<byte>, start: nat, end: nat, es: seq<Entry>, i: nat, addr: nat,
                     unseen: seq<nat>, wanted: seq<nat>, out: seq<KVal>)
    requires ReadPass(m, start, end, es, i, addr, unseen, wanted, out) && addr < start + CELL
    ensures LoadScan(es, 0, unseen, wanted, out)
  {
    hide LoadScan, PageLog;
    ReadPassCell(m, start, end, es, i, addr, unseen, wanted, out);
  }

  lemma DeserBounds(c: seq<byte>)
    requires |c| == CELL && DeserCell(c).Some?
    ensures DeserCell(c).value.val < WORD_LIMIT
    ensures DeserCell(c).value.isSeq ==> DeserCell(c).value.val > 0
  {
    hide FromLittle;
  }

  lemma CellRead(m: seq<byte>, start: nat, end: nat, bufferSize: nat, a: nat, c: DeserRes, value: seq<byte>)
    requires start + CELL <= a <= end <= |m| && (end - a) % CELL == 0
    requires DeserCell(m[a - CELL..a]) == Some(c) && value == ValueAt(m, start, a, c, bufferSize)
    ensures AllRead(m, start, end, bufferSize, [KVal(c.key, value)])
  {
    hide DeserCell, ValueAt;
    assert ReadsAs(m, start, end, bufferSize, a, KVal(c.key, value));
  }

  lemma NothingRead(m: seq<byte>, start: nat, end: nat, bufferSize: nat)
    ensures AllRead(m, start, end, bufferSize, [])
  {
  }

  lemma ReadMore(m: seq<byte>, start: nat, end: nat, bufferSize: nat, a: seq<KVal>, b: seq<KVal>, c: seq<KVal>)
    requires a <= b <= c
    requires AllRead(m, start, end, bufferSize, b[|a|..]) && AllRead(m, start, end, bufferSize, c[|b|..])
    ensures AllRead(m, start, end, bufferSize, c[|a|..])
  {
    hide ReadSomewhere;
    assert c[|a|..] == b[|a|..] + c[|b|..];
  }

  /** An aligned address at or above the end of a log: right there, or at least a cell above. */
  lemma CellBelow(addr: nat, start: nat, size: nat)
    requires start + size <= addr && (addr - start) % CELL == 0 && size % CELL == 0
    ensures addr == start + size || start + size + CELL <= addr
    ensures (addr - CELL - start) % CELL == 0
    ensures addr == start || start + CELL <= addr
  {
  }

  // ------------------------------------------------------------------ what an update leaves alone

  /** Only the part of a page behind its header has changed. */
  ghost predicate InLogOnly(m: seq<byte>, m': seq<byte>, pageSize: nat, page: nat) {
    var a := PageAddr(page, pageSize);
    SameOutside(m, m', a + CELL, a + pageSize)
  }

  /** Only that page has changed. */
  ghost predicate InPageOnly(m: seq<byte>, m': seq<byte>, pageSize: nat, page: nat) {
    var a := PageAddr(page, pageSize);
    SameOutside(m, m', a, a + pageSize)
  }

  /** Rewriting a page has changed nothing but that page and the end of the log of the one before, which
      still holds the old log. */
  ghost predicate LeftBehind(m: seq<byte>, m': seq<byte>, pageSize: nat, count: nat, page: nat, es: seq<Entry>) {
    && |m'| == |m|
    && (count == 0 ==> InPageOnly(m, m', pageSize, page))
    && (count > 0 ==>
          && (exists m1 :: InLogOnly(m, m1, pageSize, count - 1) && InPageOnly(m1, m', pageSize, page))
          && (page != count - 1 ==>
                exists more :: var a := PageAddr(count - 1, pageSize);
                               PageLog(m', a + CELL, a + pageSize, es + more)))
  }

  lemma InLogSame(m: seq<byte>, pageSize: nat)
    ensures forall page: nat :: InLogOnly(m, m, pageSize, page)
  {
    hide PageAddr;
  }

  lemma LeftAlone(m: seq<byte>, m1: seq<byte>, m': seq<byte>, pageSize: nat, n: nat, count: nat, page: nat,
                  es: seq<Entry>, es1: seq<Entry>)
    requires |m| == |m1| == |m'| == PageAddr(n, pageSize) && page < n && count <= n && pageSize >= CELL
    requires if count == 0 then m == m1 else InLogOnly(m, m1, pageSize, count - 1)
    requires InPageOnly(m1, m', pageSize, page) && es <= es1
    requires count > 0 ==>
               var a := PageAddr(count - 1, pageSize); PageLog(m1, a + CELL, a + pageSize, es1)
    ensures LeftBehind(m, m', pageSize, count, page, es)
  {
    hide LogBytes, PageAddr, AllWellFormed;
    if count > 0 && page != count - 1 {
      var a := PageAddr(count - 1, pageSize);
      PagesApart(count - 1, page, n, pageSize);
      assert m'[a + CELL..a + CELL + LogSize(es1)] == m1[a + CELL..a + CELL + LogSize(es1)];
      assert PageLog(m', a + CELL, a + pageSize, es1);
      assert es + es1[|es|..] == es1;
    }
  }

  lemma PagesApart(p: nat, q: nat, n: nat, pageSize: nat)
    requires p < n && q < n && p != q
    ensures PageAddr(p, pageSize) + pageSize <= PageAddr(n, pageSize)
    ensures PageAddr(p, pageSize) + pageSize <= PageAddr(q, pageSize)
            || PageAddr(q, pageSize) + pageSize <= PageAddr(p, pageSize)
  {
    hide PageAddr;
    PageBounds(p, n, pageSize);
    if p < q {
      PageBounds(p, q, pageSize);
    } else {
      PageBounds(q, p, pageSize);
    }
  }

  lemma PageWritten(m1: seq<byte>, m2: seq<byte>, m: seq<byte>, pageSize: nat, page: nat)
    requires var a := PageAddr(page, pageSize);
             SameOutside(m1, m2, a, a + pageSize) && SameOutside(m2, m, a + CELL, a + pageSize)
    ensures InPageOnly(m1, m, pageSize, page)
  {
    hide PageAddr;
  }

  /** A pass over the current page succeeds exactly when the stale keys have room behind the log. */
  lemma RoomDecides(m: seq<byte>, es: seq<Entry>, app: seq<Entry>, cfg: Config, bufferSize: nat,
                    start: nat, end: nat, done: bool)
    requires GoodConfig(cfg, bufferSize) && OnlyStale(es, app, cfg) && PageLog(m, start, end, es + app)
    requires if done then StalePart(es, app, cfg) else StaleLeft(es, app, cfg, start, end)
    ensures AllWellFormed(es) && (done <==> start + LogSize(es) + StaleSize(es, cfg) <= end)
  {
    hide LogBytes, OnlyStale, StalePart, StaleLeft, StaleSize, WellFormed;
    KeysNoDup(cfg, bufferSize);
    if done {
      StaleAll(es, app, cfg);
    } else {
      StaleTooMuch(es, app, cfg, start, end);
    }
  }

  lemma NothingAppended(es: seq<Entry>, app: seq<Entry>, cfg: Config)
    requires AllUpToDate(es, cfg) && OnlyStale(es, app, cfg)
    ensures app == []
  {
    hide UpToDate;
    KeysKnown(es, app, cfg);
    assert forall q :: q !in EntryKeys(app);
    NoMembers(EntryKeys(app));
  }

  lemma NoMembers(ks: seq<nat>)
    requires forall q :: q !in ks
    ensures ks == []
  {
    if ks != [] {
      HasMember(ks);
    }
  }

  lemma HasMember(ks: seq<nat>)
    requires ks != []
    ensures exists q :: q in ks
  {
    assert ks[0] in ks;
  }

  lemma NothingToDo(m: seq<byte>, m': seq<byte>, es: seq<Entry>, app: seq<Entry>, cfg: Config, start: nat, end: nat)
    requires AllUpToDate(es, cfg) && OnlyStale(es, app, cfg) && SameOutside(m, m', start, end)
    requires PageLog(m, start, end, es) && PageLog(m', start, end, es + app)
    ensures app == [] && m' == m && start + LogSize(es) + StaleSize(es, cfg) <= end
  {
    hide LogBytes, UpToDate, AllWellFormed, StaleSize, SameOutside;
    NothingStale(es, cfg);
    NothingAppended(es, app, cfg);
    assert es + app == es;
    PageLogFixes(m, m', start, end, es);
  }

  // ------------------------------------------------------------------ a freshly written page

  /** How dumping a configuration to an erased page ends: the end is one cell behind the page's. */
  function FreshStatus(cfg: Config, pageSize: nat, page: nat, n: nat): Status {
    var at := PageAddr(page, pageSize) + CELL;
    DumpStatus(cfg, KeysOf(cfg), at, at + pageSize, PageAddr(n, pageSize))
  }

  function FreshLog(cfg: Config, pageSize: nat, page: nat, n: nat): seq<Entry> {
    var at := PageAddr(page, pageSize) + CELL;
    Dumped(cfg, KeysOf(cfg), at, at + pageSize, PageAddr(n, pageSize))
  }

  /** The page holds a log whose newest entries match the configuration. */
  ghost predicate Matched(m: seq<byte>, page: nat, pageSize: nat, cfg: Config) {
    var at := PageAddr(page, pageSize);
    exists es :: PageLog(m, at + CELL, at + pageSize, es) && AllUpToDate(es, cfg)
  }

  /** The header cell of the next page holds the tail cell of the entry written last. */
  ghost predicate Overrun(m: seq<byte>, page: nat, pageSize: nat, cfg: Config) {
    var a := PageAddr(page + 1, pageSize);
    && cfg != [] && WellFormed(EntryOf(cfg, cfg[0].key))
    && a + CELL <= |m| && m[a..a + CELL] == TailCell(EntryOf(cfg, cfg[0].key))
  }

  /** The exact outcome.  In front of another page, everything up to a whole page size is reported as
      success; on the last page a write fails when some entries end one cell behind the memory. */
  lemma FreshOutcome(cfg: Config, bufferSize: nat, pageSize: nat, page: nat, n: nat)
    requires GoodConfig(cfg, bufferSize) && pageSize >= CELL && pageSize % CELL == 0 && page < n
    ensures page + 1 < n ==>
              FreshStatus(cfg, pageSize, page, n) == if SumSize(cfg, KeysOf(cfg)) <= pageSize then Success else Full
    ensures page + 1 == n ==>
              && FreshStatus(cfg, pageSize, page, n) in {Success, Full, WriteError}
              && (FreshStatus(cfg, pageSize, page, n) == Success <==> SumSize(cfg, KeysOf(cfg)) + CELL <= pageSize)
              && (FreshStatus(cfg, pageSize, page, n) == WriteError <==>
                    exists k :: 0 <= k < |cfg| && SumSize(cfg, KeysOf(cfg)[k..]) == pageSize)
  {
    hide GoodConfig, SumSize, PageAddr, DumpStatus, EntrySize;
    var a, keys := PageAddr(page, pageSize) + CELL, KeysOf(cfg);
    PageBounds(page, n, pageSize);
    KnownSelf(cfg);
    DumpSucceeds(cfg, keys, a, a + pageSize, PageAddr(n, pageSize));
    if page + 1 < n {
      PageBounds(page + 1, n, pageSize);
    } else {
      DumpFailsToWrite(cfg, bufferSize, keys, a, a + pageSize);
    }
  }

  /** Two short values fill a page of two cells to one cell behind its end: in front of another page
      this is reported as success, on the last one as a failed write. */
  lemma OneCellTooMuch()
    ensures var cfg := [KVal(1, [5]), KVal(2, [6])];
            && GoodConfig(cfg, 16) && SumSize(cfg, KeysOf(cfg)) == 16
            && FreshStatus(cfg, 16, 0, 2) == Success && FreshStatus(cfg, 16, 1, 2) == WriteError
  {
    var cfg := [KVal(1, [5]), KVal(2, [6])];
    assert KeysOf(cfg) == [1, 2] && KeysOf(cfg)[..1] == [1] && [1][..0] == [];
    assert cfg[1..] == [KVal(2, [6])];
    assert SumSize(cfg, [1]) == SumSize(cfg, []) + 8 == 8;
    assert SumSize(cfg, [1, 2]) == 16;
    FreshOutcome(cfg, 16, 16, 0, 2);
    FreshOutcome(cfg, 16, 16, 1, 2);
    assert KeysOf(cfg)[0..] == KeysOf(cfg);
  }

  lemma KnownSelf(cfg: Config)
    ensures KnownKeys(cfg, KeysOf(cfg))
  {
  }

  /** What the memory of a page must look like after a dump. */
  ghost predicate FreshDump(m2: seq<byte>, m: seq<byte>, cfg: Config, page: nat, pageSize: nat, n: nat) {
    var at := PageAddr(page, pageSize) + CELL;
    var w := FreshLog(cfg, pageSize, page, n);
    && AllWellFormed(w) && at + LogSize(w) <= |m2| && m == Splice(m2, at, LogBytes(w))
  }

  lemma FreshFits(m2: seq<byte>, m: seq<byte>, cfg: Config, bufferSize: nat, page: nat, pageSize: nat, n: nat)
    requires GoodConfig(cfg, bufferSize) && pageSize >= CELL && page < n && |m2| == PageAddr(n, pageSize)
    requires PageLog(m2, PageAddr(page, pageSize) + CELL, PageAddr(page, pageSize) + pageSize, [])
    requires FreshDump(m2, m, cfg, page, pageSize, n) && SumSize(cfg, KeysOf(cfg)) + CELL <= pageSize
    ensures FreshStatus(cfg, pageSize, page, n) == Success
    ensures var at := PageAddr(page, pageSize);
            var w := FreshLog(cfg, pageSize, page, n);
            && PageLog(m, at + CELL, at + pageSize, w) && SameOutside(m2, m, at + CELL, at + pageSize)
            && AllUpToDate(w, cfg) && OnlyStale([], w, cfg) && WellFormedLog(w, bufferSize)
  {
    hide LogBytes, Scan, OnlyStale, AllUpToDate, PageAddr, SumSize, Dumped, DumpStatus, Splice, SameOutside,
      EntrySize, WellFormedLog, GoodConfig, UpToDate, LogSize;
    var at, w := PageAddr(page, pageSize) + CELL, FreshLog(cfg, pageSize, page, n);
    var limit := PageAddr(n, pageSize);
    PageBounds(page, n, pageSize);
    assert LogSize([]) == 0 by { LogEmpty(); }
    DumpedMatch(cfg, bufferSize, at, at + pageSize, limit);
    PageAppendAll(m2, at, at - CELL + pageSize, [], w);
    assert [] + w == w;
  }

  /** A dump that has room for everything writes the whole configuration. */
  lemma DumpedMatch(cfg: Config, bufferSize: nat, at: nat, end: nat, limit: nat)
    requires GoodConfig(cfg, bufferSize) && at + SumSize(cfg, KeysOf(cfg)) <= if end < limit then end else limit
    ensures DumpStatus(cfg, KeysOf(cfg), at, end, limit) == Success
    ensures var w := Dumped(cfg, KeysOf(cfg), at, end, limit);
            && AllWellFormed(w) && LogSize(w) == SumSize(cfg, KeysOf(cfg))
            && AllUpToDate(w, cfg) && OnlyStale([], w, cfg) && WellFormedLog(w, bufferSize)
  {
    hide LogBytes, Scan, OnlyStale, AllUpToDate, SumSize, Dumped, DumpStatus, EntrySize, WellFormedLog,
      GoodConfig, UpToDate, LogSize, AllWellFormed;
    var keys := KeysOf(cfg);
    var w := Dumped(cfg, keys, at, end, limit);
    KnownSelf(cfg);
    KeysNoDup(cfg, bufferSize);
    DumpSucceeds(cfg, keys, at, end, limit);
    DumpedFits(cfg, bufferSize, keys, at, end, limit);
    ScanStart([], keys, cfg);
    DumpScan([], [], keys, cfg, bufferSize, at, end, limit);
    assert [] + w == w;
    ScanDone([], w, cfg, 0);
    AppendedFit([], w, cfg, bufferSize) by { EmptyLogFits(bufferSize); }
  }

  lemma EmptyLogFits(bufferSize: nat)
    ensures WellFormedLog([], bufferSize)
  {
  }

  /** The page comes out right if and only if the configuration fits behind its header. */
  lemma FreshMatched(m2: seq<byte>, m: seq<byte>, cfg: Config, bufferSize: nat, page: nat, pageSize: nat, n: nat)
    requires GoodConfig(cfg, bufferSize) && pageSize >= CELL && page < n && |m2| == PageAddr(n, pageSize)
    requires PageLog(m2, PageAddr(page, pageSize) + CELL, PageAddr(page, pageSize) + pageSize, [])
    requires FreshDump(m2, m, cfg, page, pageSize, n)
    ensures Matched(m, page, pageSize, cfg) <==> SumSize(cfg, KeysOf(cfg)) + CELL <= pageSize
  {
    hide LogBytes, AllUpToDate, PageAddr, SumSize, FreshDump, FreshLog, FreshStatus;
    if SumSize(cfg, KeysOf(cfg)) + CELL <= pageSize {
      FreshFits(m2, m, cfg, bufferSize, page, pageSize, n);
    }
    if Matched(m, page, pageSize, cfg) {
      MatchedFits(m, page, pageSize, cfg, bufferSize);
    }
  }

  lemma MatchedFits(m: seq<byte>, page: nat, pageSize: nat, cfg: Config, bufferSize: nat)
    requires GoodConfig(cfg, bufferSize) && Matched(m, page, pageSize, cfg)
    ensures SumSize(cfg, KeysOf(cfg)) + CELL <= pageSize
  {
    hide LogBytes, PageAddr, SumSize;
    var at := PageAddr(page, pageSize);
    var es :| PageLog(m, at + CELL, at + pageSize, es) && AllUpToDate(es, cfg);
    KeysNoDup(cfg, bufferSize);
    UpToDateNeedsRoom(es, cfg, KeysOf(cfg));
  }

  /** One cell too much, in front of another page: the last tail cell lands on that page's header. */
  lemma FreshOverrun(m2: seq<byte>, m: seq<byte>, cfg: Config, bufferSize: nat, page: nat, pageSize: nat, n: nat)
    requires GoodConfig(cfg, bufferSize) && pageSize >= CELL && page + 1 < n && |m2| == PageAddr(n, pageSize)
    requires FreshDump(m2, m, cfg, page, pageSize, n) && SumSize(cfg, KeysOf(cfg)) == pageSize
    ensures FreshStatus(cfg, pageSize, page, n) == Success && Overrun(m, page, pageSize, cfg)
  {
    hide LogBytes, PageAddr, SumSize, Dumped, DumpStatus, EntrySize, TailCell, WellFormed, AllWellFormed;
    var at, keys, w := PageAddr(page, pageSize) + CELL, KeysOf(cfg), FreshLog(cfg, pageSize, page, n);
    var limit := PageAddr(n, pageSize);
    PageBounds(page, n, pageSize);
    PageBounds(page + 1, n, pageSize);
    KnownSelf(cfg);
    DumpSucceeds(cfg, keys, at, at + pageSize, limit);
    DumpedFits(cfg, bufferSize, keys, at, at + pageSize, limit);
    NothingToSum(cfg, keys);
    DumpedLast(cfg, keys, at, at + pageSize, limit);
    LogEntryAt(w, |w|);
    assert w[..|w|] == w;
    SpliceAt(m2, at, LogBytes(w));
    SubSlice(m, at, LogBytes(w), pageSize - CELL, pageSize);
  }

  lemma NothingToSum(cfg: Config, keys: seq<nat>)
    ensures keys == [] ==> SumSize(cfg, keys) == 0
  {
  }

  lemma LogInside(m: seq<byte>, start: nat, end: nat, es: seq<Entry>)
    requires PageLog(m, start, end, es)
    ensures AllWellFormed(es) && start + LogSize(es) <= end <= |m|
  {
  }

  lemma SameSelf(m: seq<byte>, lo: nat, hi: nat)
    ensures SameOutside(m, m, lo, hi)
  {
  }

  lemma SameBoth(a: seq<byte>, b: seq<byte>, c: seq<byte>, lo: nat, hi: nat)
    requires SameOutside(a, b, lo, hi) && SameOutside(b, c, lo, hi)
    ensures SameOutside(a, c, lo, hi)
  {
  }

  /** An entry stored behind a log and what was appended to it. */
  lemma EntryStored(m: seq<byte>, start: nat, end: nat, es: seq<Entry>, app: seq<Entry>, e: Entry)
    requires PageLog(m, start, end, es + app) && WellFormed(e)
    requires start + LogSize(es + app) + EntrySize(e.data) <= end
    ensures var m' := Splice(m, start + LogSize(es + app), EntryBytes(e));
            && PageLog(m', start, end, es + (app + [e])) && SameOutside(m, m', start, end)
            && start + LogSize(es + (app + [e])) == start + LogSize(es + app) + EntrySize(e.data)
  {
    hide LogBytes, EntryBytes, WellFormed, EntrySize, Splice, SameOutside;
    LogOne(e);
    PageAppendAll(m, start, end, es + app, [e]);
    LogConcat(es + app, [e]);
    assert es + app + [e] == es + (app + [e]);
  }

  /** A dump behind the log of a page stays in the page and never fails to write. */
  lemma DumpInPage(m: seq<byte>, start: nat, end: nat, es: seq<Entry>, app: seq<Entry>, unseen: seq<nat>, cfg: Config,
                   bufferSize: nat, addr: nat)
    requires PageLog(m, start, end, es + app) && KnownKeys(cfg, unseen) && GoodConfig(cfg, bufferSize)
    requires addr == start + LogSize(es + app)
    ensures DumpStatus(cfg, unseen, addr, end, |m|) in {Success, Full}
    ensures AllWellFormed(Dumped(cfg, unseen, addr, end, |m|))
    ensures addr + LogSize(Dumped(cfg, unseen, addr, end, |m|)) <= end
  {
    hide LogBytes, EntrySize, GoodConfig, AllWellFormed;
    DumpSucceeds(cfg, unseen, addr, end, |m|);
    DumpedFits(cfg, bufferSize, unseen, addr, end, |m|);
    LogEmpty();
  }

  /** What such a dump does to the page. */
  lemma PageDumped(m: seq<byte>, start: nat, end: nat, es: seq<Entry>, app: seq<Entry>, unseen: seq<nat>, cfg: Config,
                   bufferSize: nat, addr: nat, w: seq<Entry>)
    requires PageLog(m, start, end, es + app) && Scan(es, app, 0, unseen, cfg) && GoodConfig(cfg, bufferSize)
    requires addr == start + LogSize(es + app) && w == Dumped(cfg, unseen, addr, end, |m|)
    requires AllWellFormed(w) && addr + LogSize(w) <= end
    ensures OnlyStale(es, app + w, cfg)
    ensures PageLog(Splice(m, addr, LogBytes(w)), start, end, es + (app + w))
    ensures SameOutside(m, Splice(m, addr, LogBytes(w)), start, end)
    ensures DumpStatus(cfg, unseen, addr, end, |m|) == Success ==>
              AllUpToDate(es + (app + w), cfg) && StalePart(es, app + w, cfg)
    ensures DumpStatus(cfg, unseen, addr, end, |m|) == Full ==> StaleLeft(es, app + w, cfg, start, end)
  {
    hide Scan, OnlyStale, LogBytes, UpToDate, EntrySize, GoodConfig, AllUpToDate, Splice, SameOutside,
        Dumped, DumpStatus;
    hide AllWellFormed;
    DumpScan(es, app, unseen, cfg, bufferSize, addr, end, |m|);
    PageAppendAll(m, start, end, es + app, w);
    LogConcat(es + app, w);
    assert es + app + w == es + (app + w);
    if DumpStatus(cfg, unseen, addr, end, |m|) == Full {
      var q :| && q in KeysOf(cfg) && !UpToDate(es, cfg, q) && q !in EntryKeys(app + w)
               && addr + LogSize(w) + EntrySize(ValueOf(cfg, q)) > end;
      assert start + LogSize(es + (app + w)) + EntrySize(ValueOf(cfg, q)) > end;
    }
    if DumpStatus(cfg, unseen, addr, end, |m|) == Success {
      ScanDone(es, app + w, cfg, 0);
      forall q
        ensures q in KeysOf(cfg) ==> (q in EntryKeys(app + w) <==> !UpToDate(es, cfg, q))
      {
        ScanDone(es, app + w, cfg, q);
      }
    }
  }

  /** From before to m, the entries were written one behind the other at addr0, up to addr. */
  ghost predicate Writes(before: seq<byte>, m: seq<byte>, addr0: nat, addr: nat, written: seq<Entry>) {
    && AllWellFormed(written) && addr == addr0 + LogSize(written) <= |before|
    && m == Splice(before, addr0, LogBytes(written))
  }

  lemma WritesStart(m: seq<byte>, addr: nat)
    requires addr <= |m|
    ensures Writes(m, m, addr, addr, [])
  {
    LogEmpty();
    assert m == m[..addr] + [] + m[addr..];
  }

  lemma WritesOn(before: seq<byte>, m: seq<byte>, addr0: nat, addr: nat, written: seq<Entry>, e: Entry)
    requires Writes(before, m, addr0, addr, written) && WellFormed(e) && addr + EntrySize(e.data) <= |m|
    ensures Writes(before, Splice(m, addr, EntryBytes(e)), addr0, addr + EntrySize(e.data), written + [e])
  {
    hide LogBytes, EntryBytes, WellFormed, AllWellFormed, EntrySize, Splice;
    LogOne(e);
    LogConcat(written, [e]);
    SpliceTwice(before, addr0, LogBytes(written), EntryBytes(e));
  }

  lemma SpliceTwice(m: seq<byte>, a: nat, x: seq<byte>, y: seq<byte>)
    requires a + |x| + |y| <= |m|
    ensures Splice(Splice(m, a, x), a + |x|, y) == Splice(m, a, x + y)
  {
  }

  lemma PagesDivideAddr(n: nat, pageSize: nat)
    requires pageSize > 0
    ensures PageAddr(n, pageSize) % pageSize == 0
    ensures PageAddr(n, pageSize) / pageSize == n
  {
    PagesDivide(n, pageSize);
  }

  lemma KeysNoDup(cfg: Config, bufferSize: nat)
    requires GoodConfig(cfg, bufferSize)
    ensures NoDup(KeysOf(cfg))
  {
  }

  /** An erased page with a header on it: an empty log, and the other headers as before. */
  lemma FreshPage(m: seq<byte>, n: nat, p: nat, pageSize: nat, s: HdrState)
    requires |m| == PageAddr(n, pageSize) && pageSize >= CELL && p < n
    ensures PageAddr(p, pageSize) + pageSize <= |m|
    ensures var a := PageAddr(p, pageSize);
            var r := Splice(Splice(m, a, Zeros(pageSize)), a, GetHdr(s));
            && HeadersOf(r, n, pageSize) == HeadersOf(m, n, pageSize)[p := Some(s)]
            && PageLog(r, a + CELL, a + pageSize, [])
  {
    PageBounds(p, n, pageSize);
    var a := PageAddr(p, pageSize);
    var z := Splice(m, a, Zeros(pageSize));
    var r := Splice(z, a, GetHdr(s));
    SpliceAt(m, a, Zeros(pageSize));
    SpliceAt(z, a, GetHdr(s));
    assert r[a..a + 2] == GetHdr(s);
    assert r[a..a + CELL] == GetHdr(s) + r[a + 2..a + CELL];
    HeaderRoundTrip(s, r[a + 2..a + CELL]);
    HeadersFrame(m, r, n, pageSize, p, Some(s));
    forall i | a + CELL <= i < a + pageSize
      ensures r[i] == 0
    {
      assert z[a..a + pageSize][i - a] == 0;
    }
    assert LogBytes([]) == [];
    assert r[a + CELL..a + CELL] == [];
  }

  lemma CellFree(m: seq<byte>, start: nat, end: nat, es: seq<Entry>, a: nat)
    requires PageLog(m, start, end, es)
    requires start + LogSize(es) <= a && a + CELL <= end
    ensures IsFreeCell(m[a..a + CELL])
  {
  }

  lemma LastCellNotFree(m: seq<byte>, start: nat, end: nat, es: seq<Entry>)
    requires PageLog(m, start, end, es)
    ensures es == [] <==> LogSize(es) == 0
    ensures es != [] ==>
              var hi := start + LogSize(es);
              start + CELL <= hi <= |m| && !IsFreeCell(m[hi - CELL..hi])
  {
    if es == [] {
      LogEmpty();
    } else {
      hide LogBytes, IsFreeCell, TailCell, WellFormed, AllWellFormed;
      PageEntryAt(m, start, end, es, |es|);
      assert es[..|es|] == es;
      CellRoundTrip(es[|es| - 1]);
    }
  }

  /** What reading the cell below entry i and then its value yields. */
  lemma EntryInPage(m: seq<byte>, start: nat, end: nat, es: seq<Entry>, app: seq<Entry>, i: nat)
    requires PageLog(m, start, end, es + app) && 0 < i <= |es|
    ensures AllWellFormed(es) && AllWellFormed(es[..i]) && AllWellFormed(es[..i - 1])
    ensures var e := es[i - 1];
            var hi := start + LogSize(es[..i]);
            var low := start + LogSize(es[..i - 1]);
            && low + CELL <= hi <= end
            && DeserCell(m[hi - CELL..hi]) == Some(DeserRes(|e.data| > 4, e.key, TailHalves(e).1))
            && (|e.data| > 4 ==> CELL * TailHalves(e).1 == |e.data| && low + |e.data| == hi - CELL
                                 && m[low..hi - CELL] == Stored(e.data))
            && (|e.data| <= 4 ==> low == hi - CELL && ToLittle(4, TailHalves(e).1) == Stored(e.data))
  {
    hide LogBytes, DeserCell, ToLittle;
    var w := es + app;
    PageEntryAt(m, start, end, w, i);
    assert w[..i] == es[..i] && w[..i - 1] == es[..i - 1] && w[i - 1] == es[i - 1];
    var e := es[i - 1];
    CellRoundTrip(e);
    assert AllWellFormed(es) by {
      forall j | 0 <= j < |es|
        ensures WellFormed(es[j])
      {
        assert w[j] == es[j];
      }
    }
    if |e.data| <= 4 {
      ShortValue(e.data);
    }
  }
}

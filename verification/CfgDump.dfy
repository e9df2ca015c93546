/** Writing keys one behind the other: which of them get written and how the writing ends. */
module CfgDump {
  import opened Bytes
  import opened CfgPages
  import opened CfgLog
  import opened CfgScan

  datatype Status =
    | Success | Full | MissingPage | SerializeValueError | WriteError | ReadError | DeserError
    | ResetKeysError | ClearError | LocateFailedError | OnKvalError | MemNotPageMultiplyError

  function EntryOf(cfg: Config, key: nat): Entry {
    Entry(key, ValueOf(cfg, key))
  }

  /** Keys are taken from the back.  An entry must end at most at end, or the page counts as full, and
      at most at limit, where the memory ends, or the write fails. */
  function DumpStatus(cfg: Config, keys: seq<nat>, addr: nat, end: nat, limit: nat): Status {
    if keys == [] then Success
    else
      var next := addr + EntrySize(ValueOf(cfg, keys[|keys| - 1]));
      if next > end then Full
      else if next > limit then WriteError
      else DumpStatus(cfg, keys[..|keys| - 1], next, end, limit)
  }

  /** The entries written. */
  function Dumped(cfg: Config, keys: seq<nat>, addr: nat, end: nat, limit: nat): seq<Entry> {
    if keys == [] then []
    else
      var e := EntryOf(cfg, keys[|keys| - 1]);
      var next := addr + EntrySize(e.data);
      if next > end || next > limit then []
      else [e] + Dumped(cfg, keys[..|keys| - 1], next, end, limit)
  }

  /** The first key to be written, which is the last of the list. */
  lemma DumpStep(cfg: Config, keys: seq<nat>, addr: nat, end: nat, limit: nat)
    ensures keys == [] ==>
              DumpStatus(cfg, keys, addr, end, limit) == Success && Dumped(cfg, keys, addr, end, limit) == []
    ensures keys != [] ==>
              var e, front := EntryOf(cfg, keys[|keys| - 1]), keys[..|keys| - 1];
              var next := addr + EntrySize(e.data);
              && (next > end ==> DumpStatus(cfg, keys, addr, end, limit) == Full)
              && (limit < next <= end ==> DumpStatus(cfg, keys, addr, end, limit) == WriteError)
              && (next > end || next > limit ==> Dumped(cfg, keys, addr, end, limit) == [])
              && (next <= end && next <= limit ==>
                    && DumpStatus(cfg, keys, addr, end, limit) == DumpStatus(cfg, front, next, end, limit)
                    && Dumped(cfg, keys, addr, end, limit) == [e] + Dumped(cfg, front, next, end, limit))
  {
    hide EntrySize, ValueOf;
  }

  lemma {:induction false} LogConcat(a: seq<Entry>, b: seq<Entry>)
    requires AllWellFormed(a) && AllWellFormed(b)
    ensures AllWellFormed(a + b) && LogBytes(a + b) == LogBytes(a) + LogBytes(b)
    ensures LogSize(a + b) == LogSize(a) + LogSize(b)
  {
    hide EntryBytes, WellFormed;
    if b == [] {
      assert a + b == a;
    } else {
      var front := b[..|b| - 1];
      LogConcat(a, front);
      assert (a + b)[..|a + b| - 1] == a + front;
    }
  }

  lemma LogOne(e: Entry)
    requires WellFormed(e)
    ensures AllWellFormed([e]) && LogBytes([e]) == EntryBytes(e) && LogSize([e]) == EntrySize(e.data)
  {
    hide EntryBytes;
    assert [e][..0] == [] && LogBytes([]) == [];
    assert [] + EntryBytes(e) == EntryBytes(e);
  }

  /** Writing several entries behind the log extends the log by exactly those. */
  lemma PageAppendAll(m: seq<byte>, start: nat, end: nat, es: seq<Entry>, more: seq<Entry>)
    requires PageLog(m, start, end, es) && AllWellFormed(more)
    requires start + LogSize(es) + LogSize(more) <= end
    ensures PageLog(Splice(m, start + LogSize(es), LogBytes(more)), start, end, es + more)
    ensures SameOutside(m, Splice(m, start + LogSize(es), LogBytes(more)), start, end)
  {
    hide LogBytes, AllWellFormed, Splice;
    LogConcat(es, more);
    SpliceBehind(m, start, start + LogSize(es), LogBytes(more));
  }

  lemma SpliceBehind(m: seq<byte>, start: nat, a: nat, data: seq<byte>)
    requires start <= a && a + |data| <= |m|
    ensures Splice(m, a, data)[start..a + |data|] == m[start..a] + data
    ensures forall i :: a + |data| <= i < |m| ==> Splice(m, a, data)[i] == m[i]
    ensures SameOutside(m, Splice(m, a, data), a, a + |data|)
  {
  }

  ghost predicate KnownKeys(cfg: Config, keys: seq<nat>) {
    forall q :: q in keys ==> q in KeysOf(cfg)
  }

  /** The entries written are well formed and end where they may. */
  lemma {:induction false} DumpedFits(cfg: Config, bufferSize: nat, keys: seq<nat>, addr: nat, end: nat, limit: nat)
    requires GoodConfig(cfg, bufferSize) && KnownKeys(cfg, keys)
    ensures AllWellFormed(Dumped(cfg, keys, addr, end, limit))
    ensures var w := Dumped(cfg, keys, addr, end, limit);
            w != [] ==> addr + LogSize(w) <= end && addr + LogSize(w) <= limit
    ensures DumpStatus(cfg, keys, addr, end, limit) == Success ==>
              LogSize(Dumped(cfg, keys, addr, end, limit)) == SumSize(cfg, keys)
    decreases |keys|
  {
    hide LogBytes, EntrySize, WellFormed, GoodConfig, ValueOf;
    if keys != [] {
      var key, front := keys[|keys| - 1], keys[..|keys| - 1];
      var e := EntryOf(cfg, key);
      GoodValue(cfg, bufferSize, key);
      var next := addr + EntrySize(e.data);
      DumpedFits(cfg, bufferSize, front, next, end, limit);
      LogOne(e);
      var w := Dumped(cfg, front, next, end, limit);
      LogConcat([e], w);
      if w == [] {
        assert [e] + w == [e];
      }
    } else {
      LogEmpty();
    }
  }

  /** Dumping the unseen keys of a pass keeps what the pass has established; a dump that ends full has a
      stale key left that does not fit. */
  lemma {:induction false} DumpScan(es: seq<Entry>, app: seq<Entry>, unseen: seq<nat>, cfg: Config, bufferSize: nat,
                                    addr: nat, end: nat, limit: nat)
    requires GoodConfig(cfg, bufferSize) && Scan(es, app, 0, unseen, cfg)
    ensures KnownKeys(cfg, unseen)
    ensures var w := Dumped(cfg, unseen, addr, end, limit);
            && OnlyStale(es, app + w, cfg) && AllWellFormed(w)
            && (DumpStatus(cfg, unseen, addr, end, limit) == Success ==> Scan(es, app + w, 0, [], cfg))
            && (DumpStatus(cfg, unseen, addr, end, limit) == Full ==>
                  exists q :: && q in KeysOf(cfg) && !UpToDate(es, cfg, q) && q !in EntryKeys(app + w)
                              && addr + LogSize(w) + EntrySize(ValueOf(cfg, q)) > end)
    decreases |unseen|
  {
    hide Scan, OnlyStale, LogBytes, UpToDate, EntrySize, WellFormed, GoodConfig, ValueOf;
    ScanKnown(es, app, unseen, cfg);
    DumpedFits(cfg, bufferSize, unseen, addr, end, limit);
    var w := Dumped(cfg, unseen, addr, end, limit);
    if unseen == [] {
      assert app + w == app;
    } else {
      var key, front := unseen[|unseen| - 1], unseen[..|unseen| - 1];
      var e := EntryOf(cfg, key);
      var next := addr + EntrySize(e.data);
      ScanDump(es, app, unseen, cfg);
      ScanKeys(es, app, 0, unseen, cfg, key);
      if next > end || next > limit {
        LogEmpty();
        assert app + w == app;
      } else {
        DumpScan(es, app + [e], front, cfg, bufferSize, next, end, limit);
        var v := Dumped(cfg, front, next, end, limit);
        assert app + w == app + [e] + v;
        GoodValue(cfg, bufferSize, key);
        LogOne(e);
        LogConcat([e], v);
      }
    }
  }

  lemma ScanKnown(es: seq<Entry>, app: seq<Entry>, unseen: seq<nat>, cfg: Config)
    requires Scan(es, app, 0, unseen, cfg)
    ensures KnownKeys(cfg, unseen) && OnlyStale(es, app, cfg)
  {
  }

  lemma {:induction false} DumpedLast(cfg: Config, keys: seq<nat>, addr: nat, end: nat, limit: nat)
    requires keys != [] && DumpStatus(cfg, keys, addr, end, limit) == Success
    ensures var w := Dumped(cfg, keys, addr, end, limit); w != [] && w[|w| - 1] == EntryOf(cfg, keys[0])
    decreases |keys|
  {
    hide EntrySize, ValueOf;
    var front := keys[..|keys| - 1];
    if front != [] {
      DumpedLast(cfg, front, addr + EntrySize(ValueOf(cfg, keys[|keys| - 1])), end, limit);
    }
  }

  // ------------------------------------------------------------------ how a dump ends

  /** A dump succeeds exactly when all entries end in front of both bounds. */
  lemma {:induction false} DumpSucceeds(cfg: Config, keys: seq<nat>, addr: nat, end: nat, limit: nat)
    requires addr <= end && addr <= limit
    ensures DumpStatus(cfg, keys, addr, end, limit) == Success <==>
            addr + SumSize(cfg, keys) <= end && addr + SumSize(cfg, keys) <= limit
    ensures DumpStatus(cfg, keys, addr, end, limit) in {Success, Full, WriteError}
    ensures end <= limit ==> DumpStatus(cfg, keys, addr, end, limit) != WriteError
    decreases |keys|
  {
    hide EntrySize, ValueOf;
    if keys != [] {
      var next := addr + EntrySize(ValueOf(cfg, keys[|keys| - 1]));
      if next <= end && next <= limit {
        DumpSucceeds(cfg, keys[..|keys| - 1], next, end, limit);
      }
    }
  }

  /** With the memory ending one cell in front of end, a write fails exactly when the entries of the
      keys taken up to some point end right at end. */
  lemma {:induction false} DumpFailsToWrite(cfg: Config, bufferSize: nat, keys: seq<nat>, addr: nat, end: nat)
    requires GoodConfig(cfg, bufferSize) && KnownKeys(cfg, keys)
    requires addr + CELL <= end && (end - addr) % CELL == 0
    ensures DumpStatus(cfg, keys, addr, end, end - CELL) == WriteError <==>
            exists k :: 0 <= k < |keys| && addr + SumSize(cfg, keys[k..]) == end
    decreases |keys|
  {
    hide EntrySize, ValueOf, GoodConfig, WellFormed;
    if keys != [] {
      var n, key, front := |keys|, keys[|keys| - 1], keys[..|keys| - 1];
      var next := addr + EntrySize(ValueOf(cfg, key));
      GoodValue(cfg, bufferSize, key);
      AlignedSize(ValueOf(cfg, key));
      forall k | 0 <= k < n
        ensures SumSize(cfg, keys[k..]) == SumSize(cfg, front[k..]) + EntrySize(ValueOf(cfg, key))
      {
        assert keys[k..][..|keys[k..]| - 1] == front[k..];
      }
      assert front[n - 1..] == [] && SumSize(cfg, front[n - 1..]) == 0;
      if next + CELL <= end {
        DumpFailsToWrite(cfg, bufferSize, front, next, end);
        assert forall k :: 0 <= k < n ==> k < n - 1 || keys[k..] == keys[n - 1..];
      } else {
        assert addr + SumSize(cfg, keys[n - 1..]) == next;
      }
    }
  }

  lemma AlignedSize(data: seq<byte>)
    requires Storable(data)
    ensures EntrySize(data) % CELL == 0 && EntrySize(data) >= CELL
  {
  }
}

/** What one backward pass over a page log has established so far.

    es are the entries the page held when the pass began, app the entries appended by the pass,
    i the number of old entries not read yet, unseen the configuration keys not met yet. */
module CfgScan {
  import opened Bytes
  import opened CfgPages
  import opened CfgLog

  datatype KVal = KVal(key: nat, value: seq<byte>)

  type Config = seq<KVal>

  function KeysOf(cfg: Config): (ks: seq<nat>)
    ensures |ks| == |cfg| && forall i :: 0 <= i < |ks| ==> ks[i] == cfg[i].key
  {
    seq(|cfg|, i requires 0 <= i < |cfg| => cfg[i].key)
  }

  /** The value of the first pair with that key, or nothing. */
  function ValueOf(cfg: Config, key: nat): seq<byte> {
    if cfg == [] then [] else if cfg[0].key == key then cfg[0].value else ValueOf(cfg[1..], key)
  }

  ghost predicate NoDup(ks: seq<nat>) {
    forall i, j :: 0 <= i < j < |ks| ==> ks[i] != ks[j]
  }

  /** Distinct keys below the flag bit; values of storable length that fit the work buffer together
      with their tail cell. */
  ghost predicate GoodConfig(cfg: Config, bufferSize: nat) {
    && NoDup(KeysOf(cfg))
    && forall i :: 0 <= i < |cfg| ==>
         WellFormed(Entry(cfg[i].key, cfg[i].value)) && |cfg[i].value| + CELL <= bufferSize
  }

  lemma {:induction false} ValueOfAt(cfg: Config, i: nat)
    requires i < |cfg| && NoDup(KeysOf(cfg))
    ensures ValueOf(cfg, cfg[i].key) == cfg[i].value
  {
    if i > 0 {
      assert KeysOf(cfg)[0] != KeysOf(cfg)[i];
      assert KeysOf(cfg[1..]) == KeysOf(cfg)[1..];
      ValueOfAt(cfg[1..], i - 1);
    }
  }

  lemma GoodValue(cfg: Config, bufferSize: nat, key: nat)
    requires GoodConfig(cfg, bufferSize) && key in KeysOf(cfg)
    ensures WellFormed(Entry(key, ValueOf(cfg, key))) && |ValueOf(cfg, key)| + CELL <= bufferSize
  {
    var i :| 0 <= i < |cfg| && KeysOf(cfg)[i] == key;
    ValueOfAt(cfg, i);
  }

  /** The log space the entries of these keys need. */
  function SumSize(cfg: Config, keys: seq<nat>): nat {
    if keys == [] then 0 else SumSize(cfg, keys[..|keys| - 1]) + EntrySize(ValueOf(cfg, keys[|keys| - 1]))
  }

  ghost predicate UpToDate(es: seq<Entry>, cfg: Config, key: nat) {
    && Newest(es, key).Some?
    && IsPrefixOfWithZeros(ValueOf(cfg, key), Newest(es, key).value)
  }

  /** app holds the current value of some keys that were missing or changed in es, each once. */
  ghost predicate OnlyStale(es: seq<Entry>, app: seq<Entry>, cfg: Config) {
    && NoDup(EntryKeys(app))
    && forall i :: 0 <= i < |app| ==>
         && app[i].key in KeysOf(cfg)
         && app[i].data == ValueOf(cfg, app[i].key)
         && !UpToDate(es, cfg, app[i].key)
  }

  function EntryKeys(es: seq<Entry>): (ks: seq<nat>)
    ensures |ks| == |es| && forall i :: 0 <= i < |ks| ==> ks[i] == es[i].key
  {
    seq(|es|, i requires 0 <= i < |es| => es[i].key)
  }

  ghost predicate Scan(es: seq<Entry>, app: seq<Entry>, i: nat, unseen: seq<nat>, cfg: Config) {
    && i <= |es|
    && NoDup(unseen)
    && (forall q :: q in unseen ==> q in KeysOf(cfg) && q !in EntryKeys(app))
    && (forall q :: q in KeysOf(cfg) ==>
          if q in unseen then
            Newest(es + app, q) == Newest(es, q) == Newest(es[..i], q)
          else
            UpToDate(es + app, cfg, q))
    && OnlyStale(es, app, cfg)
  }

  ghost predicate Without(ks: seq<nat>, rest: seq<nat>, key: nat) {
    NoDup(rest) && forall q :: q in rest <==> q in ks && q != key
  }

  lemma StoredMatches(value: seq<byte>)
    ensures IsPrefixOfWithZeros(value, Stored(value))
  {
  }

  lemma NewestStep(es: seq<Entry>, i: nat, q: nat)
    requires 0 < i <= |es|
    ensures Newest(es[..i], q) ==
            if es[i - 1].key == q then Some(Stored(es[i - 1].data)) else Newest(es[..i - 1], q)
  {
    assert es[..i][..i - 1] == es[..i - 1];
  }

  lemma ScanStart(es: seq<Entry>, unseen: seq<nat>, cfg: Config)
    requires NoDup(unseen) && forall q :: q in unseen <==> q in KeysOf(cfg)
    ensures Scan(es, [], |es|, unseen, cfg)
  {
    assert es + [] == es && es[..|es|] == es;
  }

  lemma ScanKeys(es: seq<Entry>, app: seq<Entry>, i: nat, unseen: seq<nat>, cfg: Config, q: nat)
    requires Scan(es, app, i, unseen, cfg)
    ensures OnlyStale(es, app, cfg)
    ensures q in unseen ==> q in KeysOf(cfg) && q !in EntryKeys(app)
  {
  }

  /** An entry whose key was met already, or is not in the configuration any more, is skipped. */
  lemma ScanSkip(es: seq<Entry>, app: seq<Entry>, i: nat, unseen: seq<nat>, cfg: Config)
    requires Scan(es, app, i, unseen, cfg) && i > 0 && es[i - 1].key !in unseen
    ensures Scan(es, app, i - 1, unseen, cfg)
  {
    forall q | q in unseen
      ensures Newest(es[..i - 1], q) == Newest(es[..i], q)
    {
      NewestStep(es, i, q);
    }
  }

  /** The newest entry of a key holds the current value: nothing to write. */
  lemma ScanKeep(es: seq<Entry>, app: seq<Entry>, i: nat, unseen: seq<nat>, rest: seq<nat>, cfg: Config)
    requires Scan(es, app, i, unseen, cfg) && i > 0
    requires es[i - 1].key in unseen && Without(unseen, rest, es[i - 1].key)
    requires IsPrefixOfWithZeros(ValueOf(cfg, es[i - 1].key), Stored(es[i - 1].data))
    ensures Scan(es, app, i - 1, rest, cfg)
  {
    NewestStep(es, i, es[i - 1].key);
    forall q | q in rest
      ensures Newest(es[..i - 1], q) == Newest(es[..i], q)
    {
      NewestStep(es, i, q);
    }
  }

  lemma NewestAppended(es: seq<Entry>, app: seq<Entry>, e: Entry, q: nat)
    ensures Newest(es + (app + [e]), q) == if e.key == q then Some(Stored(e.data)) else Newest(es + app, q)
  {
    var w := es + (app + [e]);
    assert w[..|w| - 1] == es + app;
  }

  /** Appending the current value of a stale key that is still unseen. */
  lemma ScanAppend(es: seq<Entry>, app: seq<Entry>, i: nat, j: nat, unseen: seq<nat>, rest: seq<nat>,
                   key: nat, cfg: Config)
    requires Scan(es, app, i, unseen, cfg) && j <= |es|
    requires key in unseen && Without(unseen, rest, key) && !UpToDate(es, cfg, key)
    requires forall q :: q in rest ==> Newest(es[..j], q) == Newest(es[..i], q)
    ensures Scan(es, app + [Entry(key, ValueOf(cfg, key))], j, rest, cfg)
  {
    hide Newest, IsPrefixOfWithZeros, OnlyStale;
    var more := app + [Entry(key, ValueOf(cfg, key))];
    assert OnlyStale(es, app, cfg) && key in KeysOf(cfg) && key !in EntryKeys(app);
    StaleAppend(es, app, key, cfg);
    StoredMatches(ValueOf(cfg, key));
    forall q | q in KeysOf(cfg)
      ensures if q in rest then Newest(es + more, q) == Newest(es, q) == Newest(es[..j], q)
              else UpToDate(es + more, cfg, q)
    {
      NewestAppended(es, app, Entry(key, ValueOf(cfg, key)), q);
    }
  }

  lemma StaleAppend(es: seq<Entry>, app: seq<Entry>, key: nat, cfg: Config)
    requires OnlyStale(es, app, cfg)
    requires key in KeysOf(cfg) && key !in EntryKeys(app) && !UpToDate(es, cfg, key)
    ensures OnlyStale(es, app + [Entry(key, ValueOf(cfg, key))], cfg)
    ensures EntryKeys(app + [Entry(key, ValueOf(cfg, key))]) == EntryKeys(app) + [key]
  {
    hide UpToDate;
    assert EntryKeys(app + [Entry(key, ValueOf(cfg, key))]) == EntryKeys(app) + [key];
  }

  /** The newest entry of a key is outdated: the current value has been appended. */
  lemma ScanRewrite(es: seq<Entry>, app: seq<Entry>, i: nat, unseen: seq<nat>, rest: seq<nat>, cfg: Config)
    requires Scan(es, app, i, unseen, cfg) && i > 0
    requires es[i - 1].key in unseen && Without(unseen, rest, es[i - 1].key)
    requires !IsPrefixOfWithZeros(ValueOf(cfg, es[i - 1].key), Stored(es[i - 1].data))
    ensures Scan(es, app + [Entry(es[i - 1].key, ValueOf(cfg, es[i - 1].key))], i - 1, rest, cfg)
    ensures !UpToDate(es, cfg, es[i - 1].key)
  {
    hide Newest, IsPrefixOfWithZeros, OnlyStale;
    var key := es[i - 1].key;
    NewestStep(es, i, key);
    forall q | q in rest
      ensures Newest(es[..i - 1], q) == Newest(es[..i], q)
    {
      NewestStep(es, i, q);
    }
    ScanAppend(es, app, i, i - 1, unseen, rest, key, cfg);
  }

  /** All old entries read: a key still unseen is not stored at all and has been appended. */
  lemma ScanDump(es: seq<Entry>, app: seq<Entry>, unseen: seq<nat>, cfg: Config)
    requires Scan(es, app, 0, unseen, cfg) && unseen != []
    ensures var key := unseen[|unseen| - 1];
            Scan(es, app + [Entry(key, ValueOf(cfg, key))], 0, unseen[..|unseen| - 1], cfg)
            && !UpToDate(es, cfg, key)
  {
    hide IsPrefixOfWithZeros, OnlyStale, ValueOf;
    var key, rest := unseen[|unseen| - 1], unseen[..|unseen| - 1];
    assert unseen == rest + [key];
    assert es[..0] == [];
    ScanAppend(es, app, 0, 0, unseen, rest, key, cfg);
  }

  /** Every configuration key has its current value as newest entry. */
  ghost predicate AllUpToDate(es: seq<Entry>, cfg: Config) {
    forall q :: q in KeysOf(cfg) ==> UpToDate(es, cfg, q)
  }

  /** The pass appended exactly the stale keys. */
  lemma ScanDone(es: seq<Entry>, app: seq<Entry>, cfg: Config, q: nat)
    requires Scan(es, app, 0, [], cfg)
    ensures AllUpToDate(es + app, cfg)
    ensures q in KeysOf(cfg) ==> (q in EntryKeys(app) <==> !UpToDate(es, cfg, q))
  {
    if q in KeysOf(cfg) && q !in EntryKeys(app) {
      NewestUntouched(es, app, q);
    }
  }

  lemma {:induction false} NewestUntouched(es: seq<Entry>, app: seq<Entry>, q: nat)
    requires q !in EntryKeys(app)
    ensures Newest(es + app, q) == Newest(es, q)
  {
    if app == [] {
      assert es + app == es;
    } else {
      var front := app[..|app| - 1];
      assert app == front + [app[|app| - 1]];
      assert EntryKeys(app) == EntryKeys(front) + [app[|app| - 1].key];
      NewestAppended(es, front, app[|app| - 1], q);
      NewestUntouched(es, front, q);
    }
  }

  /** Appended entries are as well formed as the configuration they come from. */
  lemma AppendedFit(es: seq<Entry>, app: seq<Entry>, cfg: Config, bufferSize: nat)
    requires OnlyStale(es, app, cfg) && GoodConfig(cfg, bufferSize) && WellFormedLog(es, bufferSize)
    ensures WellFormedLog(es + app, bufferSize)
  {
    forall i | 0 <= i < |app|
      ensures WellFormed(app[i]) && |app[i].data| + CELL <= bufferSize
    {
      GoodValue(cfg, bufferSize, app[i].key);
    }
  }

  lemma {:induction false} SumSizeRemove(cfg: Config, ks: seq<nat>, i: nat)
    requires i < |ks|
    ensures SumSize(cfg, ks) == SumSize(cfg, ks[..i] + ks[i + 1..]) + EntrySize(ValueOf(cfg, ks[i]))
  {
    var n := |ks|;
    if i < n - 1 {
      var rest := ks[..i] + ks[i + 1..];
      SumSizeRemove(cfg, ks[..n - 1], i);
      assert ks[..n - 1][..i] + ks[..n - 1][i + 1..] == rest[..n - 2];
    } else {
      assert ks[..i] + ks[i + 1..] == ks[..n - 1];
    }
  }

  /** A log whose newest entries match the configuration is at least as long as the configuration. */
  lemma {:induction false} UpToDateNeedsRoom(es: seq<Entry>, cfg: Config, ks: seq<nat>)
    requires AllWellFormed(es) && NoDup(ks)
    requires forall q :: q in ks ==> UpToDate(es, cfg, q)
    ensures SumSize(cfg, ks) <= LogSize(es)
  {
    hide EntryBytes, WellFormed, IsPrefixOfWithZeros;
    assert ks != [] ==> ks[0] in ks;
    if es != [] {
      var front, last := es[..|es| - 1], es[|es| - 1];
      assert LogSize(es) == LogSize(front) + EntrySize(last.data);
      if last.key in ks {
        var i :| 0 <= i < |ks| && ks[i] == last.key;
        var rest := ks[..i] + ks[i + 1..];
        forall q | q in rest
          ensures UpToDate(front, cfg, q)
        {
          assert q in ks && q != last.key;
        }
        SumSizeRemove(cfg, ks, i);
        UpToDateNeedsRoom(front, cfg, rest);
        MatchNeedsRoom(ValueOf(cfg, last.key), last.data);
      } else {
        UpToDateNeedsRoom(front, cfg, ks);
      }
    }
  }

  lemma MatchNeedsRoom(value: seq<byte>, data: seq<byte>)
    requires IsPrefixOfWithZeros(value, Stored(data))
    ensures EntrySize(value) <= EntrySize(data)
  {
  }

  // ------------------------------------------------------------------ loading

  /** out lists, once each, the wanted keys already met, with their newest values. */
  ghost predicate LoadScan(es: seq<Entry>, i: nat, unseen: seq<nat>, wanted: seq<nat>, out: seq<KVal>) {
    && i <= |es|
    && NoDup(unseen) && NoDup(KeysOf(out))
    && (forall q :: q in unseen ==> q in wanted && q !in KeysOf(out) && Newest(es, q) == Newest(es[..i], q))
    && (forall q :: q in wanted && q !in unseen ==> q in KeysOf(out))
    && (forall j :: 0 <= j < |out| ==> out[j].key in wanted && Newest(es, out[j].key) == Some(out[j].value))
  }

  lemma LoadStart(es: seq<Entry>, wanted: seq<nat>)
    requires NoDup(wanted)
    ensures LoadScan(es, |es|, wanted, wanted, [])
    ensures es == [] ==> LoadScan(es, 0, wanted, wanted, [])
  {
    assert es[..|es|] == es;
  }

  lemma LoadScanNoDup(es: seq<Entry>, i: nat, unseen: seq<nat>, wanted: seq<nat>, out: seq<KVal>)
    requires LoadScan(es, i, unseen, wanted, out)
    ensures NoDup(unseen)
  {
  }

  lemma LoadSkip(es: seq<Entry>, i: nat, unseen: seq<nat>, wanted: seq<nat>, out: seq<KVal>)
    requires LoadScan(es, i, unseen, wanted, out) && i > 0 && es[i - 1].key !in unseen
    ensures LoadScan(es, i - 1, unseen, wanted, out)
  {
    forall q | q in unseen
      ensures Newest(es[..i - 1], q) == Newest(es[..i], q)
    {
      NewestStep(es, i, q);
    }
  }

  lemma LoadTake(es: seq<Entry>, i: nat, unseen: seq<nat>, rest: seq<nat>, wanted: seq<nat>, out: seq<KVal>)
    requires LoadScan(es, i, unseen, wanted, out) && i > 0
    requires es[i - 1].key in unseen && Without(unseen, rest, es[i - 1].key)
    ensures LoadScan(es, i - 1, rest, wanted, out + [KVal(es[i - 1].key, Stored(es[i - 1].data))])
  {
    var kv := KVal(es[i - 1].key, Stored(es[i - 1].data));
    assert KeysOf(out + [kv]) == KeysOf(out) + [kv.key];
    NewestStep(es, i, kv.key);
    forall q | q in rest
      ensures Newest(es[..i - 1], q) == Newest(es[..i], q)
    {
      NewestStep(es, i, q);
    }
  }

  /** The loaded pairs are exactly the newest values of the wanted keys the log knows. */
  ghost predicate Loaded(es: seq<Entry>, wanted: seq<nat>, out: seq<KVal>) {
    && NoDup(KeysOf(out))
    && (forall q :: q in KeysOf(out) <==> q in wanted && Newest(es, q).Some?)
    && (forall j :: 0 <= j < |out| ==> Newest(es, out[j].key) == Some(out[j].value))
  }

  lemma LoadDone(es: seq<Entry>, unseen: seq<nat>, wanted: seq<nat>, out: seq<KVal>)
    requires LoadScan(es, 0, unseen, wanted, out)
    ensures Loaded(es, wanted, out)
    ensures forall q :: q in unseen <==> q in wanted && Newest(es, q) == None
  {
    assert es[..0] == [];
    forall q | q in KeysOf(out)
      ensures q in wanted && Newest(es, q).Some?
    {
      var j :| 0 <= j < |out| && KeysOf(out)[j] == q;
      assert out[j].key == q;
    }
  }

  /** Every pair of the configuration, and nothing else, was handed over exactly once: its value
      followed by zeros only. */
  ghost predicate Restores(cfg: Config, out: seq<KVal>) {
    && NoDup(KeysOf(out))
    && (forall q :: q in KeysOf(out) <==> q in KeysOf(cfg))
    && (forall j :: 0 <= j < |out| ==> IsPrefixOfWithZeros(ValueOf(cfg, out[j].key), out[j].value))
  }

  lemma UpToDateRestores(es: seq<Entry>, cfg: Config, wanted: seq<nat>, out: seq<KVal>)
    requires AllUpToDate(es, cfg) && Loaded(es, wanted, out)
    requires forall q :: q in wanted <==> q in KeysOf(cfg)
    ensures Restores(cfg, out)
  {
    forall j | 0 <= j < |out|
      ensures IsPrefixOfWithZeros(ValueOf(cfg, out[j].key), out[j].value)
    {
      assert KeysOf(out)[j] == out[j].key;
      assert UpToDate(es, cfg, out[j].key);
    }
  }
}

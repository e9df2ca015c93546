/** How much log space the stale keys of a configuration need, and what decides whether a page has it. */
module CfgRoom {
  import opened Bytes
  import opened CfgPages
  import opened CfgLog
  import opened CfgScan
  import opened CfgDump

  /** The keys of a list whose newest entry does not match the configuration. */
  ghost function StaleKeys(es: seq<Entry>, cfg: Config, ks: seq<nat>): (s: seq<nat>)
    ensures forall q :: q in s <==> q in ks && !UpToDate(es, cfg, q)
  {
    if ks == [] then []
    else
      var front := StaleKeys(es, cfg, ks[..|ks| - 1]);
      if UpToDate(es, cfg, ks[|ks| - 1]) then front else front + [ks[|ks| - 1]]
  }

  /** The space of their entries. */
  ghost function StaleSize(es: seq<Entry>, cfg: Config): nat {
    SumSize(cfg, StaleKeys(es, cfg, KeysOf(cfg)))
  }

  lemma {:induction false} StaleOnce(es: seq<Entry>, cfg: Config, ks: seq<nat>)
    requires NoDup(ks)
    ensures NoDup(StaleKeys(es, cfg, ks))
  {
    hide UpToDate;
    if ks != [] {
      StaleOnce(es, cfg, ks[..|ks| - 1]);
    }
  }

  /** Fewer keys need less space. */
  lemma {:induction false} SubSum(cfg: Config, a: seq<nat>, b: seq<nat>)
    requires NoDup(a) && NoDup(b) && forall q :: q in a ==> q in b
    ensures SumSize(cfg, a) <= SumSize(cfg, b)
  {
    hide EntrySize, ValueOf;
    if a != [] {
      var front, last := a[..|a| - 1], a[|a| - 1];
      assert last in a;
      var i :| 0 <= i < |b| && b[i] == last;
      var rest := b[..i] + b[i + 1..];
      forall q | q in front
        ensures q in rest
      {
        assert q in a && q != last;
      }
      SumSizeRemove(cfg, b, i);
      SubSum(cfg, front, rest);
    }
  }

  /** Appended entries are as long as their keys' values in the configuration are. */
  lemma {:induction false} AppendedSize(es: seq<Entry>, app: seq<Entry>, cfg: Config)
    requires OnlyStale(es, app, cfg) && AllWellFormed(app)
    ensures LogSize(app) == SumSize(cfg, EntryKeys(app))
  {
    hide EntryBytes, WellFormed, UpToDate, EntrySize;
    if app == [] {
      LogEmpty();
    } else {
      var front, last := app[..|app| - 1], app[|app| - 1];
      assert EntryKeys(app) == EntryKeys(front) + [last.key];
      AppendedSize(es, front, cfg);
      LogOne(last);
      LogConcat(front, [last]);
      assert app == front + [last];
    }
  }

  /** The keys appended are stale, and all stale ones are appended. */
  ghost predicate StalePart(es: seq<Entry>, app: seq<Entry>, cfg: Config) {
    forall q :: q in KeysOf(cfg) ==> (q in EntryKeys(app) <==> !UpToDate(es, cfg, q))
  }

  /** Some stale key's entry does not fit behind the log. */
  ghost predicate StaleLeft(es: seq<Entry>, app: seq<Entry>, cfg: Config, start: nat, end: nat)
  {
    AllWellFormed(es + app)
    && exists q :: && q in KeysOf(cfg) && !UpToDate(es, cfg, q) && q !in EntryKeys(app)
                   && start + LogSize(es + app) + EntrySize(ValueOf(cfg, q)) > end
  }

  lemma BothSize(es: seq<Entry>, app: seq<Entry>, cfg: Config)
    requires OnlyStale(es, app, cfg) && AllWellFormed(es + app)
    ensures AllWellFormed(es) && LogSize(es + app) == LogSize(es) + SumSize(cfg, EntryKeys(app))
  {
    hide EntryBytes, WellFormed, UpToDate, SumSize;
    assert forall i :: 0 <= i < |app| ==> app[i] == (es + app)[|es| + i];
    assert forall i :: 0 <= i < |es| ==> es[i] == (es + app)[i];
    AppendedSize(es, app, cfg);
    LogConcat(es, app);
  }

  /** All stale keys appended take exactly the stale size. */
  lemma StaleAll(es: seq<Entry>, app: seq<Entry>, cfg: Config)
    requires NoDup(KeysOf(cfg)) && OnlyStale(es, app, cfg) && AllWellFormed(es + app) && StalePart(es, app, cfg)
    ensures AllWellFormed(es) && LogSize(es + app) == LogSize(es) + StaleSize(es, cfg)
  {
    hide UpToDate, SumSize, LogBytes, WellFormed;
    var all, ks := StaleKeys(es, cfg, KeysOf(cfg)), EntryKeys(app);
    StaleOnce(es, cfg, KeysOf(cfg));
    BothSize(es, app, cfg);
    KeysKnown(es, app, cfg);
    SubSum(cfg, ks, all);
    SubSum(cfg, all, ks);
  }

  lemma KeysKnown(es: seq<Entry>, app: seq<Entry>, cfg: Config)
    requires OnlyStale(es, app, cfg)
    ensures forall q :: q in EntryKeys(app) ==> q in KeysOf(cfg) && !UpToDate(es, cfg, q)
  {
    hide UpToDate;
    forall q | q in EntryKeys(app)
      ensures q in KeysOf(cfg) && !UpToDate(es, cfg, q)
    {
      var i :| 0 <= i < |app| && EntryKeys(app)[i] == q;
      assert app[i].key == q;
    }
  }

  /** A stale key without room means that all stale keys together have none. */
  lemma StaleTooMuch(es: seq<Entry>, app: seq<Entry>, cfg: Config, start: nat, end: nat)
    requires NoDup(KeysOf(cfg)) && OnlyStale(es, app, cfg) && StaleLeft(es, app, cfg, start, end)
    ensures AllWellFormed(es) && start + LogSize(es) + StaleSize(es, cfg) > end
  {
    hide UpToDate, SumSize, LogBytes, WellFormed, EntrySize, ValueOf;
    var q :| && q in KeysOf(cfg) && !UpToDate(es, cfg, q) && q !in EntryKeys(app)
             && start + LogSize(es + app) + EntrySize(ValueOf(cfg, q)) > end;
    var all, ks := StaleKeys(es, cfg, KeysOf(cfg)), EntryKeys(app);
    StaleOnce(es, cfg, KeysOf(cfg));
    BothSize(es, app, cfg);
    KeysKnown(es, app, cfg);
    SubSum(cfg, ks + [q], all);
    SumSnoc(cfg, ks, q);
  }

  lemma SumSnoc(cfg: Config, ks: seq<nat>, q: nat)
    ensures SumSize(cfg, ks + [q]) == SumSize(cfg, ks) + EntrySize(ValueOf(cfg, q))
  {
    assert (ks + [q])[..|ks|] == ks;
  }

  /** With nothing stale nothing is needed. */
  lemma NothingStale(es: seq<Entry>, cfg: Config)
    requires AllUpToDate(es, cfg)
    ensures StaleSize(es, cfg) == 0
  {
    NoneStale(es, cfg, KeysOf(cfg));
  }

  lemma {:induction false} NoneStale(es: seq<Entry>, cfg: Config, ks: seq<nat>)
    requires forall q :: q in ks ==> UpToDate(es, cfg, q)
    ensures StaleKeys(es, cfg, ks) == []
  {
    hide UpToDate;
    if ks != [] {
      assert ks[|ks| - 1] in ks;
      NoneStale(es, cfg, ks[..|ks| - 1]);
    }
  }

  /** The log and what lies outside of it are all of a memory. */
  lemma PageLogFixes(m: seq<byte>, m': seq<byte>, start: nat, end: nat, es: seq<Entry>)
    requires PageLog(m, start, end, es) && PageLog(m', start, end, es) && SameOutside(m, m', start, end)
    ensures m == m'
  {
    hide LogBytes, AllWellFormed;
    var k := start + LogSize(es);
    forall i | 0 <= i < |m|
      ensures m[i] == m'[i]
    {
      if start <= i < k {
        assert m[i] == m[start..k][i - start] && m'[i] == m'[start..k][i - start];
      }
    }
  }
}

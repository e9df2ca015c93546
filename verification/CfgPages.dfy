/** Page headers of the configuration store and the ring they form.

    Pages are written in ring order.  Each carries a header A, B or C: during one round all pages
    get the same letter, the next round uses the following letter. */
module CfgPages {
  import opened Bytes

  const CELL: nat := 8

  datatype HdrState = A | B | C

  function Next(s: HdrState): HdrState {
    match s
    case A => B
    case B => C
    case C => A
  }

  function Code(s: HdrState): byte {
    match s
    case A => 0x40
    case B => 0x80
    case C => 0xC0
  }

  function ByteToHdr(b: byte): Option<HdrState> {
    if b == Code(A) then Some(A)
    else if b == Code(B) then Some(B)
    else if b == Code(C) then Some(C)
    else None
  }

  /** A header is the code byte followed by its complement; anything else is a blank page. */
  function HdrToHdrState(b: seq<byte>): Option<HdrState>
    requires |b| >= 2
  {
    if b[0] != 255 - b[1] then None else ByteToHdr(b[0])
  }

  function GetHdr(s: HdrState): (b: seq<byte>)
    ensures |b| == 2
  {
    [Code(s), 255 - Code(s)]
  }

  lemma HeaderRoundTrip(s: HdrState, rest: seq<byte>)
    ensures HdrToHdrState(GetHdr(s) + rest) == Some(s)
  {
    assert (GetHdr(s) + rest)[0] == Code(s) && (GetHdr(s) + rest)[1] == 255 - Code(s);
  }

  /** The bytes of the three headers. */
  lemma HeaderBytes()
    ensures GetHdr(A) == [0x40, 0xBF] && GetHdr(B) == [0x80, 0x7F] && GetHdr(C) == [0xC0, 0x3F]
  {
  }

  /** The letters take turns. */
  lemma LetterOrder(s: HdrState)
    ensures Next(Next(Next(s))) == s && Next(s) != s
    ensures Code(Next(s)) == if s == C then 0x40 else Code(s) + 0x40
  {
  }

  /** Nothing else is taken for a header. */
  lemma HeaderExactly(b: seq<byte>, s: HdrState)
    requires |b| >= 2
    ensures HdrToHdrState(b) == Some(s) <==> b[..2] == GetHdr(s)
  {
    assert b[..2] == [b[0], b[1]];
  }

  type Headers = seq<Option<HdrState>>

  /** k pages carry x; the others all carry one other letter, or are still blank in the very first
      round.  k == 0 is the memory nothing was stored in yet. */
  ghost predicate RingShape(h: Headers, k: nat, x: HdrState) {
    && |h| >= 1
    && k <= |h|
    && (forall i :: 0 <= i < k ==> h[i] == Some(x))
    && ((forall i :: k <= i < |h| ==> h[i].Some? && h[i] == h[|h| - 1] && h[i] != Some(x))
        || (x == A && forall i :: k <= i < |h| ==> h[i] == None))
    && (k == 0 ==> forall i :: 0 <= i < |h| ==> h[i] == None)
  }

  /** Page c ends the first run of equal headers, blank pages before that run being skipped. */
  ghost predicate IsCurrent(h: Headers, c: nat) {
    && c < |h|
    && h[c].Some?
    && (c + 1 < |h| ==> h[c + 1] != h[c])
    && exists a: nat :: FirstRun(h, a, c)
  }

  ghost predicate FirstRun(h: Headers, a: nat, c: nat) {
    && a <= c < |h|
    && (forall i :: 0 <= i < a ==> h[i] == None)
    && (forall i :: a <= i <= c ==> h[i] == h[c])
  }

  ghost predicate NoHeader(h: Headers) {
    forall i :: 0 <= i < |h| ==> h[i] == None
  }

  /** The page to write next and its header: the first page that is blank or differs from page 0,
      or page 0 itself with the following letter when the round is complete. */
  ghost predicate IsNext(h: Headers, j: nat, s: HdrState) {
    && j < |h|
    && (forall i :: 0 <= i < j ==> h[i].Some? && h[i] == h[0])
    && (
         || (h[j] == None && s == A)
         || (j > 0 && h[j].Some? && h[j] != h[0] && h[0] == Some(s))
         || (j == 0 && (forall i :: 0 <= i < |h| ==> h[i].Some? && h[i] == h[0]) && s == Next(h[0].value))
       )
  }

  /** What a walk over the first i headers knows: nothing but blanks, or where the first run began. */
  ghost predicate Walked(h: Headers, i: nat, st: Option<HdrState>, first: nat) {
    && i <= |h|
    && (st == None ==> forall j :: 0 <= j < i ==> h[j] == None)
    && (st.Some? ==> i > 0 && FirstRun(h, first, i - 1) && h[i - 1] == st)
  }

  lemma WalkStart(h: Headers)
    ensures Walked(h, 0, None, 0)
  {
  }

  /** One header more: the run starts, goes on, or has ended on the page before. */
  lemma WalkStep(h: Headers, i: nat, st: Option<HdrState>, first: nat)
    requires Walked(h, i, st, first) && i < |h|
    ensures st.Some? && h[i] != st ==> i > 0 && IsCurrent(h, i - 1) && !NoHeader(h)
    ensures st.Some? && h[i] == st ==> Walked(h, i + 1, st, first)
    ensures st == None && h[i] == None ==> Walked(h, i + 1, None, first)
    ensures st == None && h[i].Some? ==> Walked(h, i + 1, h[i], i)
  {
  }

  lemma WalkEnd(h: Headers, st: Option<HdrState>, first: nat)
    requires Walked(h, |h|, st, first)
    ensures st == None ==> NoHeader(h)
    ensures st.Some? ==> |h| > 0 && IsCurrent(h, |h| - 1) && !NoHeader(h)
  {
  }

  /** A walk that has met only one letter so far. */
  ghost predicate SoFar(h: Headers, i: nat, st: Option<HdrState>) {
    && i <= |h|
    && (i == 0 <==> st == None)
    && forall j :: 0 <= j < i ==> h[j] == st
  }

  lemma SoFarStart(h: Headers)
    ensures SoFar(h, 0, None)
  {
  }

  /** A blank page or another letter ends the walk at the page to write next. */
  lemma SoFarStep(h: Headers, i: nat, st: Option<HdrState>)
    requires SoFar(h, i, st) && i < |h|
    ensures h[i] == None ==> IsNext(h, i, A)
    ensures h[i].Some? && st.Some? && h[i] != st ==> IsNext(h, i, st.value)
    ensures h[i].Some? && (st == None || h[i] == st) ==> SoFar(h, i + 1, h[i])
  {
  }

  lemma SoFarEnd(h: Headers, st: Option<HdrState>)
    requires SoFar(h, |h|, st)
    ensures st == None <==> |h| == 0
    ensures st.Some? ==> IsNext(h, 0, Next(st.value))
  {
  }

  lemma CurrentUnique(h: Headers, c: nat, d: nat)
    requires IsCurrent(h, c) && IsCurrent(h, d)
    ensures c == d
  {
    var a: nat :| FirstRun(h, a, c);
    var b: nat :| FirstRun(h, b, d);
    assert h[a] == h[c] && h[b] == h[d];
    assert a == b;
  }

  /** On a well-shaped ring the current page is the last one of the running round. */
  lemma CurrentOfRing(h: Headers, k: nat, x: HdrState, c: nat)
    requires RingShape(h, k, x)
    ensures NoHeader(h) <==> k == 0
    ensures IsCurrent(h, c) <==> k > 0 && c == k - 1
  {
    if k == 0 {
      assert !IsCurrent(h, c);
    } else {
      assert FirstRun(h, 0, k - 1);
      assert k < |h| ==> h[k] != h[k - 1];
      assert IsCurrent(h, k - 1);
      if IsCurrent(h, c) {
        CurrentUnique(h, c, k - 1);
      }
      assert h[0].Some?;
    }
  }

  function NextIndex(n: nat, k: nat): nat {
    if k == n then 0 else k
  }

  function NextState(n: nat, k: nat, x: HdrState): HdrState {
    if k == n then Next(x) else x
  }

  function NextCount(n: nat, k: nat): nat {
    if k == n then 1 else k + 1
  }

  /** One rotation: the ring successor is found with its right letter, and writing that letter
      there gives a well-shaped ring again whose current page is the one just written. */
  lemma RotationKeepsRing(h: Headers, k: nat, x: HdrState, j: nat, s: HdrState)
    requires RingShape(h, k, x)
    ensures IsNext(h, j, s) <==> j == NextIndex(|h|, k) && s == if k == 0 then A else NextState(|h|, k, x)
    ensures IsNext(h, j, s) ==>
              && RingShape(h[j := Some(s)], NextCount(|h|, k), s)
              && IsCurrent(h[j := Some(s)], j)
  {
    var n := |h|;
    assert n >= 1;
    if IsNext(h, j, s) {
      var g := h[j := Some(s)];
      if k < n {
        assert h[k] == None || (k > 0 && h[k] != h[0]);
        assert j == k;
        assert forall i :: 0 <= i < k ==> g[i] == h[i];
        assert forall i :: k < i < n ==> g[i] == h[i];
      } else {
        assert forall i :: 0 < i < n ==> g[i] == h[i];
      }
      assert RingShape(g, NextCount(n, k), s);
      CurrentOfRing(g, NextCount(n, k), s, j);
    }
  }

  /** Erasing the successor page, before its header is written, does not move the current page. */
  lemma BlankingKeepsCurrent(h: Headers, k: nat, x: HdrState)
    requires RingShape(h, k, x) && k > 0 && |h| >= 2
    ensures IsCurrent(h[NextIndex(|h|, k) := None], k - 1)
  {
    var g := h[NextIndex(|h|, k) := None];
    assert forall i :: 0 <= i < |h| && i != NextIndex(|h|, k) ==> g[i] == h[i];
    if k < |h| {
      assert FirstRun(g, 0, k - 1);
    } else {
      assert FirstRun(g, 1, k - 1);
    }
  }

  /** An update that stops right after erasing the successor leaves a blank page there.  The next
      rotation reuses that page, but always labels it A: the page just written becomes the current
      one exactly when A differs from the letters that would hide it, that is, when an unfinished
      round runs on A or a finished one does not. */
  lemma InterruptedRotation(h: Headers, k: nat, x: HdrState, j: nat, s: HdrState)
    requires RingShape(h, k, x) && k > 0 && |h| >= 2
    requires IsNext(h[NextIndex(|h|, k) := None], j, s)
    ensures j == NextIndex(|h|, k) && s == A
    ensures IsCurrent(h[j := Some(s)], j) <==> (k < |h| <==> x == A)
  {
    var n := |h|;
    var g := h[NextIndex(n, k) := None];
    assert forall i :: 0 <= i < n && i != NextIndex(n, k) ==> g[i] == h[i];
    assert g[NextIndex(n, k)] == None;
    if k < n {
      assert g[0] == Some(x);
      assert j <= k;
      assert j == k;
    } else {
      assert j == 0;
    }
    var w := h[j := Some(s)];
    assert forall i :: 0 <= i < n && i != j ==> w[i] == h[i];
    if k < n <==> x == A {
      assert RingShape(w, if k < n then k + 1 else 1, A);
      CurrentOfRing(w, if k < n then k + 1 else 1, A, j);
    } else if k < n {
      assert w[0] != w[j];
    } else {
      assert w[0] == w[1];
    }
  }
}

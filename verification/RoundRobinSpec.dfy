/** Runs of the round-robin executor, visit by visit, and what holds in every run: routing, fairness
    and the number of requests.

    A child coroutine is a script: from the replies it has received so far, its next request, or
    nothing once it has returned. */
module RoundRobinSpec {
  import opened Bytes

  type Script<!Q, !R> = seq<R> -> Option<Q>

  /** One iteration of the executor's loop: a child that has returned is skipped, any other child
      makes its request and gets the reply. */
  datatype Visit<Q, R> = Skip(child: nat) | Turn(child: nat, request: Q, reply: R)

  function RepliesTo<Q, R>(trace: seq<Visit<Q, R>>, k: nat): seq<R> {
    if trace == [] then [] else
      var last := trace[|trace| - 1];
      RepliesTo(trace[..|trace| - 1], k) + (if last.Turn? && last.child == k then [last.reply] else [])
  }

  /** All requests in the order they were passed on, and all replies in the order they came. */
  function Asked<Q, R>(trace: seq<Visit<Q, R>>): seq<Q> {
    if trace == [] then [] else
      var last := trace[|trace| - 1];
      Asked(trace[..|trace| - 1]) + (if last.Turn? then [last.request] else [])
  }

  function Answers<Q, R>(trace: seq<Visit<Q, R>>): seq<R> {
    if trace == [] then [] else
      var last := trace[|trace| - 1];
      Answers(trace[..|trace| - 1]) + (if last.Turn? then [last.reply] else [])
  }

  /** The child whose turn the t-th visit is. */
  function ChildAt(t: nat, n: nat): (k: nat)
    requires n >= 1
    ensures k < n
  {
    t % n
  }

  /** What a child asks after a trace. */
  function Wants<Q, R>(scripts: seq<Script<Q, R>>, trace: seq<Visit<Q, R>>, k: nat): Option<Q>
    requires k < |scripts|
  {
    scripts[k](RepliesTo(trace, k))
  }

  ghost predicate VisitOk<Q, R>(scripts: seq<Script<Q, R>>, before: seq<Visit<Q, R>>, v: Visit<Q, R>)
    requires |scripts| >= 1
  {
    && v.child == ChildAt(|before|, |scripts|)
    && match v {
         case Skip(k) => Wants(scripts, before, k) == None
         case Turn(k, request, _) => Wants(scripts, before, k) == Some(request)
       }
  }

  ghost predicate IsRun<Q, R>(scripts: seq<Script<Q, R>>, trace: seq<Visit<Q, R>>)
    requires |scripts| >= 1
  {
    trace == [] || (IsRun(scripts, trace[..|trace| - 1])
                    && VisitOk(scripts, trace[..|trace| - 1], trace[|trace| - 1]))
  }

  ghost predicate AllDone<Q, R>(scripts: seq<Script<Q, R>>, trace: seq<Visit<Q, R>>) {
    forall k: nat :: k < |scripts| ==> Wants(scripts, trace, k) == None
  }

  predicate TurnOf<Q, R>(trace: seq<Visit<Q, R>>, t: nat, k: nat) {
    t < |trace| && trace[t].Turn? && trace[t].child == k
  }

  // ------------------------------------------------------------------ growing traces

  lemma Grow<Q, R>(scripts: seq<Script<Q, R>>, trace: seq<Visit<Q, R>>, v: Visit<Q, R>)
    requires |scripts| >= 1
    ensures IsRun(scripts, trace + [v]) <==> IsRun(scripts, trace) && VisitOk(scripts, trace, v)
    ensures forall k: nat :: RepliesTo(trace + [v], k)
                             == RepliesTo(trace, k) + (if v.Turn? && v.child == k then [v.reply] else [])
    ensures Asked(trace + [v]) == Asked(trace) + (if v.Turn? then [v.request] else [])
    ensures Answers(trace + [v]) == Answers(trace) + (if v.Turn? then [v.reply] else [])
  {
    assert (trace + [v])[..|trace|] == trace;
  }

  lemma {:induction false} RunAt<Q, R>(scripts: seq<Script<Q, R>>, trace: seq<Visit<Q, R>>, t: nat)
    requires |scripts| >= 1 && IsRun(scripts, trace) && t < |trace|
    ensures IsRun(scripts, trace[..t]) && VisitOk(scripts, trace[..t], trace[t])
    decreases |trace|
  {
    hide VisitOk;
    if t < |trace| - 1 {
      var init := trace[..|trace| - 1];
      RunAt(scripts, init, t);
      assert init[..t] == trace[..t];
    }
  }

  /** Without a turn, a child has received nothing more. */
  lemma {:induction false} Quiet<Q, R>(trace: seq<Visit<Q, R>>, t1: nat, t2: nat, k: nat)
    requires t1 <= t2 <= |trace|
    requires forall t: nat :: t1 <= t < t2 ==> !TurnOf(trace, t, k)
    ensures RepliesTo(trace[..t2], k) == RepliesTo(trace[..t1], k)
    decreases t2
  {
    if t1 < t2 {
      Quiet(trace, t1, t2 - 1, k);
      assert trace[..t2][..t2 - 1] == trace[..t2 - 1];
      assert !TurnOf(trace, t2 - 1, k);
    }
  }

  /** A turn adds its reply. */
  lemma Served<Q, R>(trace: seq<Visit<Q, R>>, t: nat, k: nat)
    requires TurnOf(trace, t, k)
    ensures RepliesTo(trace[..t + 1], k) == RepliesTo(trace[..t], k) + [trace[t].reply]
  {
    assert trace[..t + 1][..t] == trace[..t];
  }

  // ------------------------------------------------------------------ order

  /** The first visit is child 0's, and after each child comes the next one, around the container. */
  lemma Around(t: nat, n: nat)
    requires n >= 1
    ensures ChildAt(0, n) == 0
    ensures (ChildAt(t, n) + 1) % n == ChildAt(t + 1, n)
    ensures ChildAt(t + 1, n) == if ChildAt(t, n) + 1 == n then 0 else ChildAt(t, n) + 1
  {
    var q, r := t / n, ChildAt(t, n);
    assert t == n * q + r;
    ModUnique(0, n, 0, 0);
    if r + 1 == n {
      ModUnique(t + 1, n, q + 1, 0);
      ModUnique(n, n, 1, 0);
    } else {
      ModUnique(t + 1, n, q, r + 1);
      ModUnique(r + 1, n, 0, r + 1);
    }
  }

  lemma {:induction false} AnswersPrefix<Q, R>(trace: seq<Visit<Q, R>>, t: nat)
    requires t <= |trace|
    ensures Answers(trace[..t]) <= Answers(trace)
    decreases |trace|
  {
    if t < |trace| {
      var front := trace[..|trace| - 1];
      AnswersPrefix(front, t);
      assert front[..t] == trace[..t];
    } else {
      assert trace[..t] == trace;
    }
  }

  ghost predicate Agree<R>(a: seq<R>, b: seq<R>) {
    a <= b || b <= a
  }

  /** The replies alone determine the run: of two runs with the same replies, one begins with the other. */
  lemma {:induction false} RunUnique<Q, R>(scripts: seq<Script<Q, R>>, a: seq<Visit<Q, R>>, b: seq<Visit<Q, R>>)
    requires |scripts| >= 1 && IsRun(scripts, a) && IsRun(scripts, b)
    requires Agree(Answers(a), Answers(b)) && |a| <= |b|
    ensures a <= b
    decreases |a|
  {
    hide RepliesTo, ChildAt, Asked;
    if a != [] {
      var n := |a| - 1;
      var front := a[..n];
      AnswersPrefix(a, n);
      RunUnique(scripts, front, b);
      assert b[..n] == front && b[..n + 1][..n] == front;
      RunAt(scripts, b, n);
      AnswersPrefix(b, n + 1);
      assert Answers(a) == Answers(front) + (if a[n].Turn? then [a[n].reply] else []);
      assert Answers(b[..n + 1]) == Answers(front) + (if b[n].Turn? then [b[n].reply] else []);
      if a[n].Turn? {
        SameNext(Answers(front), a[n].reply, b[n].reply, Answers(b));
      }
      assert a == front + [a[n]] && b[..n + 1] == front + [b[n]];
    }
  }

  lemma SameNext<R>(front: seq<R>, x: R, y: R, all: seq<R>)
    requires Agree(front + [x], all) && front + [y] <= all
    ensures x == y
  {
    assert (front + [y])[|front|] == all[|front|];
    assert (front + [x])[|front|] == x;
  }

  /** The last request passed on is child k's and has no reply yet. */
  ghost predicate Pending<Q, R>(scripts: seq<Script<Q, R>>, trace: seq<Visit<Q, R>>, k: nat, requests: seq<Q>) {
    && k < |scripts| && Wants(scripts, trace, k).Some?
    && requests == Asked(trace) + [Wants(scripts, trace, k).value]
  }

  /** One more reply goes to exactly the child whose turn it is, as the answer to the request pending. */
  lemma OneMoreReply<Q, R>(scripts: seq<Script<Q, R>>, trace: seq<Visit<Q, R>>, requests: seq<Q>, r: R)
    requires |scripts| >= 1 && IsRun(scripts, trace)
    requires Pending(scripts, trace, ChildAt(|trace|, |scripts|), requests)
    ensures var k := ChildAt(|trace|, |scripts|); var after := trace + [Turn(k, requests[|requests| - 1], r)];
            && IsRun(scripts, after) && Asked(after) == requests && Answers(after) == Answers(trace) + [r]
            && forall j: nat :: RepliesTo(after, j) == RepliesTo(trace, j) + (if j == k then [r] else [])
  {
    hide RepliesTo, ChildAt, Asked, Answers;
    Grow(scripts, trace, Turn(ChildAt(|trace|, |scripts|), requests[|requests| - 1], r));
  }

  // ------------------------------------------------------------------ routing

  /** Every turn carries what its own child asks after exactly the replies to its earlier turns. */
  lemma Routed<Q, R>(scripts: seq<Script<Q, R>>, trace: seq<Visit<Q, R>>, t: nat, k: nat)
    requires |scripts| >= 1 && IsRun(scripts, trace) && TurnOf(trace, t, k)
    ensures k < |scripts| && scripts[k](RepliesTo(trace[..t], k)) == Some(trace[t].request)
  {
    hide RepliesTo;
    RunAt(scripts, trace, t);
  }

  // ------------------------------------------------------------------ fairness

  lemma SameChild(t1: nat, t2: nat, n: nat)
    requires n >= 1 && t1 < t2 && ChildAt(t1, n) == ChildAt(t2, n)
    ensures t2 >= t1 + n && ChildAt(t1 + n, n) == ChildAt(t1, n)
    ensures t2 == t1 + n || t2 > t1 + n
  {
    var q1, q2 := t1 / n, t2 / n;
    assert t1 == n * q1 + t1 % n && t2 == n * q2 + t2 % n;
    assert t2 - t1 == n * (q2 - q1);
    MulBound(n, q2 - q1);
    ModUnique(t1 + n, n, q1 + 1, t1 % n);
  }

  /** Between two visits of a child that are n apart, every other child is visited. */
  lemma VisitBetween(t1: nat, x: nat, n: nat) returns (t: nat)
    requires n >= 1 && x < n && ChildAt(t1, n) != x
    ensures t1 < t < t1 + n && ChildAt(t, n) == x
  {
    var q, k := t1 / n, ChildAt(t1, n);
    assert t1 == n * q + k;
    if k < x {
      t := t1 + (x - k);
      ModUnique(t, n, q, x);
    } else {
      t := t1 + n - (k - x);
      ModUnique(t, n, q + 1, x);
    }
  }

  /** Consecutive turns of a child are one round apart. */
  lemma OneRound<Q, R>(scripts: seq<Script<Q, R>>, trace: seq<Visit<Q, R>>, t1: nat, t2: nat, k: nat)
    requires |scripts| >= 1 && IsRun(scripts, trace) && t1 < t2
    requires TurnOf(trace, t1, k) && TurnOf(trace, t2, k)
    requires forall t: nat :: t1 < t < t2 ==> !TurnOf(trace, t, k)
    ensures t2 == t1 + |scripts| && ChildAt(t1, |scripts|) == k
  {
    hide RepliesTo, ChildAt, IsRun;
    var n := |scripts|;
    RunAt(scripts, trace, t1);
    RunAt(scripts, trace, t2);
    SameChild(t1, t2, n);
    if t2 > t1 + n {
      assert !TurnOf(trace, t1 + n, k);
      Quiet(trace, t1 + n, t2, k);
      RunAt(scripts, trace, t1 + n);
    }
  }

  /** Fairness: between two consecutive turns of a child, every other child that was live at the
      first of them is served exactly once, and no other child is served. */
  lemma Fair<Q, R>(scripts: seq<Script<Q, R>>, trace: seq<Visit<Q, R>>, t1: nat, t2: nat, k: nat, x: nat)
    requires |scripts| >= 1 && IsRun(scripts, trace) && t1 < t2
    requires TurnOf(trace, t1, k) && TurnOf(trace, t2, k)
    requires forall t: nat :: t1 < t < t2 ==> !TurnOf(trace, t, k)
    requires x < |scripts| && x != k
    ensures |RepliesTo(trace[..t2], x)|
            == |RepliesTo(trace[..t1], x)| + (if Wants(scripts, trace[..t1], x).Some? then 1 else 0)
  {
    hide RepliesTo, ChildAt, IsRun;
    var n := |scripts|;
    OneRound(scripts, trace, t1, t2, k);
    var v := VisitBetween(t1, x, n);
    forall t: nat | t1 <= t < t2 && t != v
      ensures !TurnOf(trace, t, x)
    {
      RunAt(scripts, trace, t);
      if ChildAt(t, n) == x {
        if t < v { SameChild(t, v, n); } else { SameChild(v, t, n); }
      }
    }
    RunAt(scripts, trace, v);
    Quiet(trace, t1, v, x);
    Quiet(trace, v + 1, t2, x);
    if trace[v].Turn? {
      Served(trace, v, x);
    } else {
      Quiet(trace, v, v + 1, x);
    }
  }

  // ------------------------------------------------------------------ how much is asked

  function SumTo(n: nat, f: nat -> nat): nat {
    if n == 0 then 0 else SumTo(n - 1, f) + f(n - 1)
  }

  lemma {:induction false} SumBump(n: nat, f: nat -> nat, g: nat -> nat, k: nat, d: nat)
    requires forall i: nat :: i < n ==> g(i) == f(i) + (if i == k then d else 0)
    ensures SumTo(n, g) == SumTo(n, f) + (if k < n then d else 0)
  {
    if n > 0 {
      SumBump(n - 1, f, g, k, d);
    }
  }

  lemma {:induction false} SumBelow(n: nat, f: nat -> nat, g: nat -> nat)
    requires forall i: nat :: i < n ==> f(i) <= g(i)
    ensures SumTo(n, f) <= SumTo(n, g)
    ensures (exists i: nat :: i < n && f(i) < g(i)) ==> SumTo(n, f) < SumTo(n, g)
  {
    if n > 0 {
      SumBelow(n - 1, f, g);
    }
  }

  function Count<Q, R>(trace: seq<Visit<Q, R>>): nat -> nat {
    k => |RepliesTo(trace, k)|
  }

  /** No reply is lost or delivered twice: the children together have received all of them. */
  lemma {:induction false} Conserved<Q, R>(scripts: seq<Script<Q, R>>, trace: seq<Visit<Q, R>>)
    requires |scripts| >= 1 && IsRun(scripts, trace)
    ensures |Answers(trace)| == |Asked(trace)| == SumTo(|scripts|, Count(trace))
  {
    var n := |scripts|;
    if trace == [] {
      SumBump(n, (k: nat) => 0, Count(trace), 0, 0);
      ZeroSum(n);
    } else {
      var init, v := trace[..|trace| - 1], trace[|trace| - 1];
      Conserved(scripts, init);
      SumBump(n, Count(init), Count(trace), v.child, if v.Turn? then 1 else 0);
    }
  }

  lemma {:induction false} ZeroSum(n: nat)
    ensures SumTo(n, (k: nat) => 0) == 0
  {
    if n > 0 {
      ZeroSum(n - 1);
    }
  }

  /** A child made a request before each of its replies. */
  lemma {:induction false} AskedEach<Q, R>(scripts: seq<Script<Q, R>>, trace: seq<Visit<Q, R>>, k: nat, j: nat)
    requires |scripts| >= 1 && IsRun(scripts, trace) && k < |scripts| && j < |RepliesTo(trace, k)|
    ensures scripts[k](RepliesTo(trace, k)[..j]).Some?
  {
    hide ChildAt;
    var init := trace[..|trace| - 1];
    if j < |RepliesTo(init, k)| {
      AskedEach(scripts, init, k, j);
      assert RepliesTo(trace, k)[..j] == RepliesTo(init, k)[..j];
    } else {
      assert RepliesTo(trace, k)[..j] == RepliesTo(init, k);
    }
  }

  /** A child that returns after at most b replies, whatever they are. */
  ghost predicate Bounded<Q, R(!new)>(script: Script<Q, R>, b: nat) {
    forall h: seq<R> :: |h| >= b ==> script(h) == None
  }

  /** While a child still has a request, the replies so far are fewer than the children can ask for. */
  lemma NotYetEnough<Q, R(!new)>(scripts: seq<Script<Q, R>>, trace: seq<Visit<Q, R>>, bounds: nat -> nat, k: nat)
    requires |scripts| >= 1 && IsRun(scripts, trace)
    requires forall i: nat :: i < |scripts| ==> Bounded(scripts[i], bounds(i))
    requires k < |scripts| && Wants(scripts, trace, k).Some?
    ensures |Answers(trace)| < SumTo(|scripts|, bounds)
  {
    hide RepliesTo, IsRun;
    Conserved(scripts, trace);
    forall i: nat | i < |scripts|
      ensures Count(trace)(i) <= bounds(i)
    {
      if |RepliesTo(trace, i)| > bounds(i) {
        AskedEach(scripts, trace, i, bounds(i));
      }
    }
    assert Count(trace)(k) < bounds(k);
    SumBelow(|scripts|, Count(trace), bounds);
  }
}

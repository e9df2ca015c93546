/** The request/reply coroutine as an object that is suspended and resumed, and the executor that runs
    a container of them in turns. */
module RoundRobin {
  import opened Bytes
  import opened RoundRobinSpec

  /** A coroutine is suspended at a request or has returned.  The place in its body is what it has
      received so far. */
  class RequestReply<!Q, !R> {
    const script: Script<Q, R>
    var received: seq<R>
    var request: Option<Q>
    var reply: Option<R>

    /** Suspended at the request that its body makes now, with no reply pending. */
    ghost predicate Valid()
      reads this
    {
      request == script(received) && reply == None
    }

    /** The body starts at once and runs up to its first request. */
    constructor (script: Script<Q, R>)
      ensures Valid() && this.script == script && received == []
    {
      this.script := script;
      received, reply := [], None;
      request := script([]);
    }

    predicate Done()
      reads this
    {
      script(received) == None
    }

    method GetRequest() returns (out: Option<Q>)
      ensures out == request
    {
      out := request;
    }

    method StoreReply(input: R)
      modifies this`reply
      ensures reply == Some(input)
    {
      reply := Some(input);
    }

    method YieldValue(out: Q)
      modifies this`request
      ensures request == Some(out)
    {
      request := Some(out);
    }

    /** The body reads its reply and runs on to the next request or to its end. */
    method Resume()
      requires reply.Some? && request == None
      modifies this`received, this`request
      ensures received == old(received) + [reply.value] && request == script(received)
    {
      received := received + [reply.value];
      match script(received)
      case Some(q) => YieldValue(q);
      case None =>
    }

    /** Resumes the body exactly when it waits for a reply and has one. */
    method Tick() returns (ok: bool)
      requires request == script(received)
      modifies this
      ensures ok <==> old(reply).Some? && old(request).Some?
      ensures ok ==> Valid() && received == old(received) + [old(reply).value]
      ensures !ok ==> received == old(received) && request == old(request) && reply == old(reply)
    {
      if reply == None {
        return false;
      }
      if Done() {
        return false;
      }
      request := None;
      Resume();
      reply := None;
      return true;
    }
  }

  ghost predicate AllValid<Q, R>(coros: seq<RequestReply<Q, R>>)
    reads coros
  {
    && (forall k: nat :: k < |coros| ==> coros[k].Valid())
    && forall j: nat, k: nat :: j < k < |coros| ==> coros[j] != coros[k]
  }

  ghost function Scripts<Q, R>(coros: seq<RequestReply<Q, R>>): seq<Script<Q, R>> {
    seq(|coros|, k requires 0 <= k < |coros| => coros[k].script)
  }

  /** The children have received what the trace says. */
  ghost predicate InStep<Q, R>(coros: seq<RequestReply<Q, R>>, trace: seq<Visit<Q, R>>)
    reads coros
  {
    forall k: nat :: k < |coros| ==> coros[k].received == RepliesTo(trace, k)
  }

  /** The `all_of` over the container: every child has returned. */
  method AllOf<Q, R>(coros: seq<RequestReply<Q, R>>) returns (all: bool)
    ensures all <==> forall k: nat :: k < |coros| ==> coros[k].Done()
  {
    var k := 0;
    while k < |coros|
      invariant k <= |coros| && forall j: nat :: j < k ==> coros[j].Done()
    {
      if !coros[k].Done() {
        return false;
      }
      k := k + 1;
    }
    return true;
  }

  /** Iterations until the executor reaches a live child, or sees at the end of a round that there is
      none: visits of this round, and another round if it is needed. */
  ghost function Patience<Q, R>(scripts: seq<Script<Q, R>>, trace: seq<Visit<Q, R>>, i: nat): nat
    requires i <= |scripts|
  {
    |scripts| - i + (if exists k: nat :: i <= k < |scripts| && Wants(scripts, trace, k).Some? then 0 else |scripts|)
  }

  /** Runs the children against a list of outer replies: until all have returned, or until a request
      waits for a reply that does not come. */
  method RoundRobinRun<Q, R>(coros: seq<RequestReply<Q, R>>, replies: seq<R>)
      returns (finished: bool, requests: seq<Q>, ghost trace: seq<Visit<Q, R>>)
    requires coros != [] && AllValid(coros) && InStep(coros, [])
    modifies coros
    ensures AllValid(coros)
    ensures IsRun(Scripts(coros), trace) && InStep(coros, trace)
    ensures finished ==> AllDone(Scripts(coros), trace) && requests == Asked(trace) && Answers(trace) <= replies
    ensures !finished ==> Answers(trace) == replies
    ensures !finished ==> Pending(Scripts(coros), trace, ChildAt(|trace|, |coros|), requests)
  {
    hide RepliesTo, Asked, Answers, IsRun, Wants, Patience, ChildAt, VisitOk, InStep;
    ghost var scripts := Scripts(coros);
    trace := [];
    TraceStart(scripts);
    requests := [];
    var used := 0;
    var i: nat := 0;
    while true
      invariant i == ChildAt(|trace|, |coros|) && used <= |replies|
      invariant AllValid(coros) && InStep(coros, trace) && IsRun(scripts, trace)
      invariant requests == Asked(trace) && Answers(trace) == replies[..used]
      decreases |replies| - used, Patience(scripts, trace, i)
    {
      var cor := coros[i];
      ghost var c := i;
      assert cor.script == scripts[c];
      Around(|trace|, |coros|);
      i := (i + 1) % |coros|;
      if cor.Done() {
        SkipStep(coros, trace, c, i);
        trace := trace + [Skip(c)];
        if i == 0 {
          var all := AllOf(coros);
          if all {
            EveryScript(coros, trace);
            return true, requests, trace;
          }
          LiveSomewhere(coros, trace);
        }
        continue;
      }
      WantsNow(coros, trace, c);
      var out := cor.GetRequest();
      if out == None {
        assert false;
      }
      requests := requests + [out.value];
      if used == |replies| {
        assert Pending(scripts, trace, c, requests);
        return false, requests, trace;
      }
      InStepAll(coros, trace);
      var resp := replies[used];
      used := used + 1;
      cor.StoreReply(resp);
      var more := cor.Tick();
      if !more {
        assert false;
      }
      TurnStep(coros, trace, c, out.value, resp);
      trace := trace + [Turn(c, out.value, resp)];
    }
  }

  /** A child that is done is skipped: nothing it or anybody wants has changed, and the executor is
      closer to a live child or to the end of the round. */
  lemma SkipStep<Q, R>(coros: seq<RequestReply<Q, R>>, trace: seq<Visit<Q, R>>, c: nat, i: nat)
    requires c < |coros| && c == ChildAt(|trace|, |coros|) && coros[c].Done()
    requires InStep(coros, trace) && IsRun(Scripts(coros), trace)
    requires i == if c + 1 == |coros| then 0 else c + 1
    ensures IsRun(Scripts(coros), trace + [Skip(c)]) && InStep(coros, trace + [Skip(c)])
    ensures Asked(trace + [Skip(c)]) == Asked(trace) && Answers(trace + [Skip(c)]) == Answers(trace)
    ensures i != 0 || (exists k: nat :: k < |coros| && Wants(Scripts(coros), trace + [Skip(c)], k).Some?) ==>
              Patience(Scripts(coros), trace + [Skip(c)], i) < Patience(Scripts(coros), trace, c)
  {
    hide RepliesTo, Asked, Answers, IsRun, ChildAt, Patience;
    var scripts, after := Scripts(coros), trace + [Skip(c)];
    Grow(scripts, trace, Skip(c));
    assert Wants(scripts, trace, c) == None;
    forall k: nat | k < |scripts|
      ensures RepliesTo(after, k) == RepliesTo(trace, k)
      ensures Wants(scripts, after, k) == Wants(scripts, trace, k)
    {
    }
    PatienceFalls(scripts, trace, after, c, i);
  }

  lemma PatienceFalls<Q, R>(scripts: seq<Script<Q, R>>, trace: seq<Visit<Q, R>>, after: seq<Visit<Q, R>>,
                            c: nat, i: nat)
    requires c < |scripts| && Wants(scripts, trace, c) == None
    requires i == if c + 1 == |scripts| then 0 else c + 1
    requires forall k: nat :: k < |scripts| ==> Wants(scripts, after, k) == Wants(scripts, trace, k)
    ensures i != 0 || (exists k: nat :: k < |scripts| && Wants(scripts, after, k).Some?) ==>
              Patience(scripts, after, i) < Patience(scripts, trace, c)
  {
    hide Wants;
  }

  /** A turn: the request is the child's, and the child alone has received the reply. */
  lemma TurnStep<Q, R>(coros: seq<RequestReply<Q, R>>, trace: seq<Visit<Q, R>>, c: nat, q: Q, r: R)
    requires c < |coros| && c == ChildAt(|trace|, |coros|) && IsRun(Scripts(coros), trace)
    requires Wants(Scripts(coros), trace, c) == Some(q)
    requires forall k: nat :: k < |coros| ==>
               coros[k].received == RepliesTo(trace, k) + (if k == c then [r] else [])
    ensures IsRun(Scripts(coros), trace + [Turn(c, q, r)]) && InStep(coros, trace + [Turn(c, q, r)])
    ensures Asked(trace + [Turn(c, q, r)]) == Asked(trace) + [q]
    ensures Answers(trace + [Turn(c, q, r)]) == Answers(trace) + [r]
  {
    hide RepliesTo, Asked, Answers, IsRun, ChildAt, Wants;
    Grow(Scripts(coros), trace, Turn(c, q, r));
  }

  lemma WantsNow<Q, R>(coros: seq<RequestReply<Q, R>>, trace: seq<Visit<Q, R>>, c: nat)
    requires InStep(coros, trace) && c < |coros|
    ensures Wants(Scripts(coros), trace, c) == coros[c].script(coros[c].received)
  {
    hide RepliesTo;
  }

  lemma InStepAll<Q, R>(coros: seq<RequestReply<Q, R>>, trace: seq<Visit<Q, R>>)
    requires InStep(coros, trace)
    ensures forall k: nat :: k < |coros| ==> coros[k].received == RepliesTo(trace, k)
  {
  }

  lemma TraceStart<Q, R>(scripts: seq<Script<Q, R>>)
    requires |scripts| >= 1
    ensures IsRun(scripts, [])
    ensures Asked<Q, R>([]) == [] && Answers<Q, R>([]) == []
    ensures ChildAt(0, |scripts|) == 0
  {
  }

  lemma EveryScript<Q, R>(coros: seq<RequestReply<Q, R>>, trace: seq<Visit<Q, R>>)
    requires InStep(coros, trace)
    requires forall k: nat :: k < |coros| ==> coros[k].Done()
    ensures AllDone(Scripts(coros), trace)
  {
    forall k: nat | k < |coros|
      ensures Wants(Scripts(coros), trace, k) == None
    {
      assert coros[k].Done();
    }
  }

  lemma LiveSomewhere<Q, R>(coros: seq<RequestReply<Q, R>>, trace: seq<Visit<Q, R>>)
    requires InStep(coros, trace)
    requires !forall k: nat :: k < |coros| ==> coros[k].Done()
    ensures exists k: nat :: 0 <= k < |Scripts(coros)| && Wants(Scripts(coros), trace, k).Some?
  {
    var k: nat :| k < |coros| && !coros[k].Done();
    assert Wants(Scripts(coros), trace, k).Some?;
  }

  /** With finite children and enough replies the executor finishes, after exactly as many requests
      as the children make together. */
  method RunToEnd<Q, R(!new)>(coros: seq<RequestReply<Q, R>>, replies: seq<R>, ghost bounds: nat -> nat)
      returns (requests: seq<Q>, ghost trace: seq<Visit<Q, R>>)
    requires coros != [] && AllValid(coros) && InStep(coros, [])
    requires forall k: nat :: k < |coros| ==> Bounded(coros[k].script, bounds(k))
    requires |replies| >= SumTo(|coros|, bounds)
    modifies coros
    ensures IsRun(Scripts(coros), trace) && InStep(coros, trace) && AllDone(Scripts(coros), trace)
    ensures requests == Asked(trace) && Answers(trace) <= replies
    ensures |requests| == SumTo(|coros|, Count(trace))
  {
    hide RepliesTo, Asked, Answers, IsRun, Bounded;
    var finished;
    finished, requests, trace := RoundRobinRun(coros, replies);
    Conserved(Scripts(coros), trace);
    if !finished {
      ghost var k := ChildAt(|trace|, |coros|);
      NotYetEnough(Scripts(coros), trace, bounds, k);
      assert false;
    }
  }
}

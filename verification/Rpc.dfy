/** Remote procedure calls: requests and replies are tag groups over the call ids. */
module Rpc {
  import opened Bytes
  import opened ProtocolDefs
  import opened ProtocolSpec
  import opened ProtocolLeaves
  import opened ProtocolLaws
  import opened ProtocolConverter
  import opened ProtocolAccept
  import opened Packet

  /** The interface: call ids with their request and reply definitions, and the definition of the
      error a reactor sends back, whose inner layout does not matter here. */
  datatype Calls = Calls(width: nat, signed: bool, ids: seq<int>, requests: seq<Def>, replies: seq<Def>, error: Def)

  datatype CallError = ReactorError(v: Val) | BadReply(record: ErrorRecord) | ReplyError(expected: nat, index: nat)

  datatype CallResult = Reply(v: Val) | Failed(e: CallError) | Unspecified

  function RequestGroup(c: Calls): Def {
    TagGroup(c.width, c.signed, c.ids, c.requests)
  }

  function ReplyGroup(c: Calls): Def {
    TagGroup(c.width, c.signed, c.ids, c.replies)
  }

  function OuterReply(c: Calls): Def {
    Variant([ReplyGroup(c), c.error])
  }

  predicate GoodCalls(c: Calls) {
    Good(RequestGroup(c)) && Good(ReplyGroup(c)) && Good(c.error)
  }

  lemma OuterGood(c: Calls)
    requires GoodCalls(c)
    ensures Good(OuterReply(c))
  {
    var alts := [ReplyGroup(c), c.error];
    assert forall i :: 0 <= i < |alts| ==> Good(alts[i]);
  }

  /** A handler answers call i with a value its reply definition can encode. */
  ghost predicate GoodHandler(c: Calls, h: (nat, Val) -> Val, onError: ErrorRecord -> Val)
    requires GoodCalls(c)
  {
    && (forall i: nat, q :: i < |c.replies| ==>
          Typed(ReplyGroup(c), VAlt(i, h(i, q))) && Encodable(ReplyGroup(c), VAlt(i, h(i, q))))
    && forall record :: Typed(c.error, onError(record))
  }

  /** The value comes back when nothing follows its encoding. */
  ghost predicate Encodable(d: Def, v: Val)
    requires Good(d)
  {
    Typed(d, v) && Trailing(d) && CountersFit(d, Big, v)
  }

  lemma EncodableBack(d: Def, v: Val)
    requires Good(d) && Encodable(d, v)
    ensures Deser(d, Big, Ser(d, Big, v)) == Fine(|Ser(d, Big, v)|, v)
  {
    hide Ser, Deser, Good, Typed, Trailing, CountersFit, Delimited;
    RoundTrip(d, Big, v, []);
    assert Ser(d, Big, v) + [] == Ser(d, Big, v);
  }

  lemma OuterEncodable(c: Calls, v: Val)
    requires GoodCalls(c) && Good(OuterReply(c)) && Encodable(ReplyGroup(c), v) && Trailing(c.error)
    ensures Encodable(OuterReply(c), VAlt(0, v))
  {
    var d := OuterReply(c);
    assert d.alts[0] == ReplyGroup(c) && d.alts[1] == c.error && |d.alts| == 2;
    assert forall i :: 0 <= i < 2 ==> Trailing(d.alts[i]);
    assert Typed(d, VAlt(0, v));
  }

  // ------------------------------------------------------------------ reactor

  /** What a reactor answers. */
  ghost function Answer(c: Calls, msg: seq<byte>, h: (nat, Val) -> Val, onError: ErrorRecord -> Val): Option<Val>
    requires GoodCalls(c)
  {
    match Deser(RequestGroup(c), Big, msg)
    case Fine(_, req) => if req.VAlt? then Some(VAlt(0, VAlt(req.index, h(req.index, req.alt)))) else None
    case Fail(used, err) => Some(VAlt(1, onError(ErrorRecord(err, used))))
    case OutOfBounds => None
  }

  /** Decodes the request, runs the handler of its index, encodes the reply; or reports the error. */
  method OnMessage(c: Calls, msg: seq<byte>, h: (nat, Val) -> Val, onError: ErrorRecord -> Val)
    returns (r: Option<array<byte>>)
    requires GoodCalls(c) && GoodHandler(c, h, onError)
    ensures Good(OuterReply(c))
    ensures r.Some? <==> Answer(c, msg, h, onError).Some?
    ensures r.Some? ==>
              && Typed(OuterReply(c), Answer(c, msg, h, onError).value)
              && r.value[..] == Ser(OuterReply(c), Big, Answer(c, msg, h, onError).value)
  {
    OuterGood(c);
    RequestShape(c, msg);
    hide Deser, Ser, Good;
    var req := HandlerExtract(RequestGroup(c), Big, msg);
    match req
    case Undefined => return None;
    case Value(v) =>
      var reply := VAlt(v.index, h(v.index, v.alt));
      assert Typed(ReplyGroup(c), reply);
      AnswerTyped(c, VAlt(0, reply));
      var m := HandlerSerialize(OuterReply(c), Big, VAlt(0, reply));
      return Some(m);
    case Error(record) =>
      AnswerTyped(c, VAlt(1, onError(record)));
      var m := HandlerSerialize(OuterReply(c), Big, VAlt(1, onError(record)));
      return Some(m);
  }

  lemma AnswerTyped(c: Calls, v: Val)
    requires v.VAlt? && ((v.index == 0 && Typed(ReplyGroup(c), v.alt)) || (v.index == 1 && Typed(c.error, v.alt)))
    ensures Typed(OuterReply(c), v)
  {
    var alts := [ReplyGroup(c), c.error];
    assert OuterReply(c).alts == alts && Typed(alts[v.index], v.alt);
  }

  /** A decoded request names one of the calls. */
  lemma RequestShape(c: Calls, msg: seq<byte>)
    requires GoodCalls(c)
    ensures Deser(RequestGroup(c), Big, msg).Fine? ==>
              var v := Deser(RequestGroup(c), Big, msg).value;
              v.VAlt? && v.index < |c.requests| == |c.replies|
  {
    GroupShape(c.width, c.signed, c.ids, c.requests, msg);
    assert |c.ids| == |c.replies|;
  }

  lemma GroupShape(w: nat, s: bool, ids: seq<int>, alts: seq<Def>, msg: seq<byte>)
    requires Good(TagGroup(w, s, ids, alts))
    ensures |ids| == |alts|
    ensures Deser(TagGroup(w, s, ids, alts), Big, msg).Fine? ==>
              var v := Deser(TagGroup(w, s, ids, alts), Big, msg).value;
              v.VAlt? && v.index < |alts|
  {
    assert |alts| >= 1 && |ids| == |alts|;
    assert Default(TagGroup(w, s, ids, alts)).VAlt?;
    hide Deser, Good, Default;
    TagGroupCase(w, s, ids, alts, Big, msg);
  }

  // ------------------------------------------------------------------ messages

  /** A request is the id of its call and the arguments. */
  lemma RequestBytes(c: Calls, i: nat, req: Val)
    requires GoodCalls(c) && i < |c.requests| == |c.ids| && Good(c.requests[i]) && Typed(c.requests[i], req)
    ensures Typed(RequestGroup(c), VAlt(i, req))
    ensures Ser(RequestGroup(c), Big, VAlt(i, req)) == SerInt(c.width, Big, c.ids[i]) + Ser(c.requests[i], Big, req)
  {
    AltTyped(c.width, c.signed, c.ids, c.requests, i, req);
    hide Ser, Good, Typed;
    ChoiceParts(RequestGroup(c), Big, VAlt(i, req));
  }

  /** A reply is a zero, the id and the result; an error is a one and the record. */
  lemma ReplyBytes(c: Calls, i: nat, v: Val)
    requires GoodCalls(c) && i < |c.replies| == |c.ids| && Good(c.replies[i]) && Typed(c.replies[i], v)
    ensures Good(OuterReply(c)) && Typed(OuterReply(c), VAlt(0, VAlt(i, v)))
    ensures Ser(OuterReply(c), Big, VAlt(0, VAlt(i, v))) ==
            [0] + (SerInt(c.width, Big, c.ids[i]) + Ser(c.replies[i], Big, v))
  {
    OuterGood(c);
    AltTyped(c.width, c.signed, c.ids, c.replies, i, v);
    AnswerTyped(c, VAlt(0, VAlt(i, v)));
    hide Ser, Good, Typed;
    ChoiceParts(OuterReply(c), Big, VAlt(0, VAlt(i, v)));
    ChoiceParts(ReplyGroup(c), Big, VAlt(i, v));
  }

  lemma ErrorBytes(c: Calls, v: Val)
    requires GoodCalls(c) && Good(c.error) && Typed(c.error, v)
    ensures Good(OuterReply(c)) && Typed(OuterReply(c), VAlt(1, v))
    ensures Ser(OuterReply(c), Big, VAlt(1, v)) == [1] + Ser(c.error, Big, v)
  {
    OuterGood(c);
    AnswerTyped(c, VAlt(1, v));
    hide Ser, Good, Typed;
    ChoiceParts(OuterReply(c), Big, VAlt(1, v));
  }

  // ------------------------------------------------------------------ controller

  /** Position of a call id. */
  function IndexOf(ids: seq<int>, id: int): (i: nat)
    requires id in ids
    ensures i < |ids| && ids[i] == id && id !in ids[..i]
  {
    if ids[0] == id then 0
    else
      assert id in ids[1..];
      var i := IndexOf(ids[1..], id);
      assert ids[..i + 1] == [ids[0]] + ids[1..][..i];
      i + 1
  }

  lemma FirstIndex(ids: seq<int>, id: int, i: nat)
    requires i < |ids| && ids[i] == id && id !in ids[..i]
    ensures IndexOf(ids, id) == i
  {
    hide IndexOf;
    var j := IndexOf(ids, id);
    assert forall k :: 0 <= k < |ids[..i]| ==> ids[..i][k] == ids[k] && ids[k] != id;
    assert forall k :: 0 <= k < |ids[..j]| ==> ids[..j][k] == ids[k] && ids[k] != id;
  }

  method CallIndex(c: Calls, id: int) returns (i: nat)
    requires id in c.ids
    ensures i == IndexOf(c.ids, id)
  {
    i := 0;
    while c.ids[i] != id
      invariant i < |c.ids| && id !in c.ids[..i]
      decreases |c.ids| - i
    {
      assert c.ids[..i + 1] == c.ids[..i] + [c.ids[i]];
      assert id in c.ids[i..];
      i := i + 1;
    }
    FirstIndex(c.ids, id, i);
  }

  method MakeCallMsg(c: Calls, id: int, req: Val) returns (msg: array<byte>)
    requires GoodCalls(c) && id in c.ids
    requires Typed(RequestGroup(c), VAlt(IndexOf(c.ids, id), req))
    ensures fresh(msg) && msg[..] == Ser(RequestGroup(c), Big, VAlt(IndexOf(c.ids, id), req))
  {
    hide Ser, Good, Typed;
    var k := CallIndex(c, id);
    msg := HandlerSerialize(RequestGroup(c), Big, VAlt(k, req));
  }

  method OnReplyMsg(c: Calls, id: int, msg: seq<byte>) returns (r: CallResult)
    requires GoodCalls(c) && id in c.ids && Good(OuterReply(c))
    ensures forall k, v, n :: Deser(OuterReply(c), Big, msg) == Fine(n, VAlt(0, VAlt(k, v))) ==>
              r == if k == IndexOf(c.ids, id) then Reply(v) else Failed(ReplyError(IndexOf(c.ids, id), k))
    ensures forall v, n :: Deser(OuterReply(c), Big, msg) == Fine(n, VAlt(1, v)) ==> r == Failed(ReactorError(v))
    ensures Deser(OuterReply(c), Big, msg).Fail? ==>
              var d := Deser(OuterReply(c), Big, msg); r == Failed(BadReply(ErrorRecord(d.err, d.used)))
  {
    hide Deser, Good;
    var index := CallIndex(c, id);
    var tmp := HandlerExtract(OuterReply(c), Big, msg);
    match tmp
    case Error(record) => r := Failed(BadReply(record));
    case Undefined => r := Unspecified;
    case Value(v) =>
      if !v.VAlt? {
        r := Unspecified;
      } else if v.index == 1 {
        r := Failed(ReactorError(v.alt));
      } else if !v.alt.VAlt? {
        r := Unspecified;
      } else if v.alt.index == index {
        r := Reply(v.alt.alt);
      } else {
        r := Failed(ReplyError(index, v.alt.index));
      }
  }

  /** A call sent to a reactor and back returns what the handler of that id computed. */
  method Call(c: Calls, id: int, req: Val, h: (nat, Val) -> Val, onError: ErrorRecord -> Val)
    returns (r: CallResult)
    requires GoodCalls(c) && id in c.ids && GoodHandler(c, h, onError)
    requires Encodable(RequestGroup(c), VAlt(IndexOf(c.ids, id), req)) && Trailing(c.error)
    ensures r == Reply(h(IndexOf(c.ids, id), req))
  {
    hide Ser, Deser, Typed, Trailing, CountersFit, IndexOf;
    var msg := MakeCallMsg(c, id, req);
    ghost var k := IndexOf(c.ids, id);
    EncodableBack(RequestGroup(c), VAlt(k, req));
    var answer := OnMessage(c, msg[..], h, onError);
    ghost var reply := VAlt(k, h(k, req));
    assert k < |c.replies| by { CallsSameLength(c); }
    assert Encodable(ReplyGroup(c), reply);
    OuterEncodable(c, reply);
    EncodableBack(OuterReply(c), VAlt(0, reply));
    r := OnReplyMsg(c, id, answer.value[..]);
  }

  lemma CallsSameLength(c: Calls)
    requires GoodCalls(c)
    ensures |c.ids| == |c.requests| == |c.replies|
  {
  }

  /** Bytes that start with no known id are not rejected: they are taken for a call of the first
      procedure with default arguments. */
  lemma UnknownCallRunsFirst(c: Calls, msg: seq<byte>, h: (nat, Val) -> Val, onError: ErrorRecord -> Val)
    requires GoodCalls(c) && TagIndex(c.width, c.signed, Big, c.ids, msg) == None
    ensures |c.requests| > 0
    ensures Answer(c, msg, h, onError) == Some(VAlt(0, VAlt(0, h(0, Default(c.requests[0])))))
  {
    hide TagIndex;
  }

  /** A request is rejected exactly when its id is known and its arguments do not decode. */
  lemma RejectedExactly(c: Calls, msg: seq<byte>, h: (nat, Val) -> Val, onError: ErrorRecord -> Val)
    requires GoodCalls(c)
    ensures var i := TagIndex(c.width, c.signed, Big, c.ids, msg);
            && (i.Some? ==> i.value < |c.requests| && Good(c.requests[i.value]))
            && ((exists v :: Answer(c, msg, h, onError) == Some(VAlt(1, v))) <==>
                i.Some? && Deser(c.requests[i.value], Big, msg[c.width..]).Fail?)
  {
    DefaultShape(c);
    hide TagIndex, Deser, Good, Default;
    TagGroupCase(c.width, c.signed, c.ids, c.requests, Big, msg);
    var r := Deser(RequestGroup(c), Big, msg);
    if r.Fail? {
      assert Answer(c, msg, h, onError) == Some(VAlt(1, onError(ErrorRecord(r.err, r.used))));
    }
  }

  /** The error handed on has the mark of the failed argument and its place in the message, behind the id. */
  lemma RejectedPlace(c: Calls, msg: seq<byte>, i: nat, h: (nat, Val) -> Val, onError: ErrorRecord -> Val)
    requires GoodCalls(c) && TagIndex(c.width, c.signed, Big, c.ids, msg) == Some(i)
    requires i < |c.requests| && Good(c.requests[i]) && Deser(c.requests[i], Big, msg[c.width..]).Fail?
    ensures var f := Deser(c.requests[i], Big, msg[c.width..]);
            Answer(c, msg, h, onError) == Some(VAlt(1, onError(ErrorRecord(f.err, c.width + f.used))))
  {
    hide TagIndex, Deser, Good, Default;
    TagGroupCase(c.width, c.signed, c.ids, c.requests, Big, msg);
  }

  lemma DefaultShape(c: Calls)
    requires GoodCalls(c)
    ensures Good(RequestGroup(c)) && Default(RequestGroup(c)).VAlt?
  {
  }
}

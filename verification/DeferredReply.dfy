/** A handler's reply goes out exactly once; an asynchronous one's wherever its `rr->rsp` calls fall. */
module DeferredReply {
  import opened Bytes
  import opened MsgWrapper
  import opened Protocol
  import opened Runs
  import Coder

  /** The act calls `rr->rsp` on the `k`-th `request_response` of this side. */
  predicate CallsRsp(a: Act, onLeft: bool, k: nat) {
    a.onLeft == onLeft && a.step.RspLater? && a.step.k == k
  }

  /** The values those calls pass, in order. */
  function Later(acts: seq<Act>, onLeft: bool, k: nat): seq<bytes>
    decreases |acts|
  {
    if acts == [] then []
    else Later(Init(acts), onLeft, k) + (if CallsRsp(Last(acts), onLeft, k) then [Last(acts).step.data] else [])
  }

  /** The messages those calls send. */
  function RepliesLater(p: Pair, acts: seq<Act>, onLeft: bool, k: nat): seq<Msg>
    requires p.Owned() && Legal(p, acts)
    decreases |acts|
  {
    if acts == [] then []
    else
      var q := Exec(p, Init(acts));
      RepliesLater(p, Init(acts), onLeft, k)
      + (if CallsRsp(Last(acts), onLeft, k) then NewlySent(q.Of(onLeft), Do(q, Last(acts)).Of(onLeft)) else [])
  }

  /** What an endpoint has sent beyond what it had sent before. */
  function NewlySent(was: Endpoint, ep: Endpoint): seq<Msg> {
    if |was.sent| <= |ep.sent| then ep.sent[|was.sent|..] else []
  }

  // ---- One step ----

  lemma CommandKeepsDeferred(ep: Endpoint, m: Msg, run: HandlerRun)
    ensures ep.deferred <= OnCommand(ep, m, run).deferred
  {
    hide Count, LastRetrySet, RetriesSince, Coder.Wire, Has, Respond, Refuse;
    var needRsp := Has(m.mtype, NEED_RSP);
    RefuseKeepsDeferred(ep, m);
    match run
    case Replies(data) => RespondKeepsDeferred(ep, m, data, HandlerResult, needRsp);
    case Defers(before) =>
      if before != [] {
        var d := Deferred(m.seqNo, m.cmd, m.data, true, false);
        RespondKeepsDeferred(ep.(deferred := ep.deferred + [d]), m, before[0], DeferredResult, needRsp);
      }
    case Undecodable =>
  }

  lemma RefuseKeepsDeferred(ep: Endpoint, m: Msg)
    ensures Refuse(ep, m).deferred == ep.deferred
  {
  }

  lemma RespondKeepsDeferred(ep: Endpoint, m: Msg, data: bytes, origin: Origin, send: bool)
    ensures Respond(ep, m.seqNo, m.cmd, m.data, data, origin, send).deferred == ep.deferred
  {
  }

  lemma ResponseKeepsDeferred(ep: Endpoint, m: Msg, decodes: bool)
    requires HandlersOwned(ep)
    ensures OnResponse(ep, m, decodes).deferred == ep.deferred
  {
    hide Count, LastRetrySet, RetriesSince, Has, RspCalls, RspOutcome, OnFinish;
    if m.seqNo in ep.handlers {
      var h := ep.handlers[m.seqNo];
      var called := RunCallback(Note(ep, Answered(h.id, m.seqNo, m)), h, m, decodes);
      FinishKeepsDeferred(called, h.id,
        RspOutcome(ep.requests[h.id].canceled, Has(m.mtype, NO_SUCH_CMD), h.kind, decodes));
    }
  }

  lemma FinishKeepsDeferred(ep: Endpoint, id: nat, outcome: Outcome)
    requires id < |ep.requests|
    ensures OnFinish(ep, id, outcome).deferred == ep.deferred
  {
  }

  lemma CallKeepsDeferred(ep: Endpoint, id: nat, bind: bool)
    requires id < |ep.requests|
    ensures Call(ep, id, bind).deferred == ep.deferred
  {
    hide Count, LastRetrySet, RetriesSince, Coder.Wire, CommandOf, HandlersOwned;
  }

  lemma FireKeepsDeferred(ep: Endpoint, s: seqno)
    requires HandlersOwned(ep)
    ensures FireTimer(ep, s).deferred == ep.deferred
  {
    hide Count, LastRetrySet, RetriesSince, Call;
    if s in ep.handlers {
      CallKeepsDeferred(SpendRetry(Expire(ep, s), ep.handlers[s].id), ep.handlers[s].id, false);
    }
  }

  lemma ApplyKeepsDeferred(ep: Endpoint, id: nat, op: Op)
    requires id < |ep.requests|
    ensures Apply(ep, id, op).deferred == ep.deferred
  {
    hide Count, LastRetrySet, RetriesSince, Call;
    if op.DoCall? {
      CallKeepsDeferred(ep, id, op.bind);
    }
  }

  /** Only a call of its own `rsp` changes a `request_response`: from then on it counts as ready. */
  lemma NextKeepsDeferred(ep: Endpoint, peer: seq<Msg>, step: Step, k: nat)
    requires HandlersOwned(ep) && Enabled(ep, peer, step) && k < |ep.deferred|
    ensures var r := Next(ep, peer, step);
            && k < |r.deferred|
            && r.deferred[k] == if step.RspLater? && step.k == k then ep.deferred[k].(ready := true) else ep.deferred[k]
  {
    hide Apply, FireTimer, OnCommand, OnResponse, IsCommand, IsResponse, Count, LastRetrySet, RetriesSince, Coder.Wire;
    match step
    case User(id, op) => ApplyKeepsDeferred(ep, id, op);
    case Fire(s) => FireKeepsDeferred(ep, s);
    case Receive(i, run, decodes) =>
      CommandKeepsDeferred(ep, peer[i], run);
      ResponseKeepsDeferred(ep, peer[i], decodes);
    case _ =>
  }

  lemma LaterSends(ep: Endpoint, k: nat, data: bytes)
    requires k < |ep.deferred|
    ensures var d := ep.deferred[k];
            NewlySent(ep, OnDeferred(ep, k, data)) == if !d.ready && d.senderSet then [Reply(d.seqNo, data)] else []
  {
    hide Count, LastRetrySet, RetriesSince;
  }

  // ---- Runs ----

  /**
   Whatever else happens meanwhile: the first call on a `request_response` that is not ready replies, the others do
   not.
   */
  lemma {:induction false} OnlyTheFirstReplies(p: Pair, acts: seq<Act>, onLeft: bool, k: nat)
    requires p.Owned() && Legal(p, acts) && k < |p.Of(onLeft).deferred|
    ensures var d, later := p.Of(onLeft).deferred[k], Later(acts, onLeft, k);
            var now := Exec(p, acts).Of(onLeft).deferred;
            && k < |now| && now[k] == d.(ready := d.ready || later != [])
            && RepliesLater(p, acts, onLeft, k) == if d.ready || !d.senderSet || later == [] then []
              else [Reply(d.seqNo, later[0])]
    decreases |acts|
  {
    hide Next, NewlySent;
    if acts != [] {
      var q, a := Exec(p, Init(acts)), Last(acts);
      OnlyTheFirstReplies(p, Init(acts), onLeft, k);
      if a.onLeft == onLeft {
        NextKeepsDeferred(q.Of(onLeft), q.Peer(onLeft), a.step, k);
        if a.step.RspLater? && a.step.k == k {
          NextIsDeferred(q.Of(onLeft), q.Peer(onLeft), k, a.step.data);
          LaterSends(q.Of(onLeft), k, a.step.data);
        }
      }
    }
  }

  lemma NextIsDeferred(ep: Endpoint, peer: seq<Msg>, k: nat, data: bytes)
    requires HandlersOwned(ep) && Enabled(ep, peer, RspLater(k, data))
    ensures Next(ep, peer, RspLater(k, data)) == OnDeferred(ep, k, data)
  {
  }

  /**
   The replies that come about before the handler of a received command returns; none if it cannot read its parameter.
   */
  function AtOnce(run: HandlerRun): seq<bytes> {
    match run
    case Replies(data) => [data]
    case Defers(before) => before
    case Undecodable => []
  }

  /** The first of the replies goes out if the command needs one. */
  function FirstReply(m: Msg, values: seq<bytes>): seq<Msg> {
    if Has(m.mtype, NEED_RSP) && values != [] then [Reply(m.seqNo, values[0])] else []
  }

  /** What receiving a command for a subscribed handler does until the handler returns. */
  lemma ReceivedCommand(ep: Endpoint, m: Msg, run: HandlerRun)
    requires !Has(m.mtype, PING) && m.cmd in ep.cmds
    ensures var ready, r := AtOnce(run) != [], OnCommand(ep, m, run);
            && NewlySent(ep, r) == FirstReply(m, AtOnce(run))
            && var armed := Has(m.mtype, NEED_RSP) && !ready;
               (if run.Defers? then r.deferred == ep.deferred + [Deferred(m.seqNo, m.cmd, m.data, ready, armed)]
                else r.deferred == ep.deferred)
  {
    hide Count, LastRetrySet, RetriesSince, Has;
  }

  /**
   Exactly one reply. A command reaches a handler. A synchronous one replies when it returns; an asynchronous one calls
   `rsp` with some values until it returns, and any run follows, with `later` passed to `rsp` in its course. Counting
   both, exactly one response is sent, carrying the first value, if the command needs a response and there was a value
   at all; otherwise, and always when the parameter cannot be read, none is, and nothing is left to reply with later.
   */
  lemma {:induction false} ExactlyOneReply(p: Pair, i: nat, run: HandlerRun, decodes: bool, acts: seq<Act>,
      onLeft: bool)
    requires p.Owned() && Runs.CanHappen(p, Act(onLeft, Receive(i, run, decodes)))
    requires var ep, m := p.Of(onLeft), p.Peer(onLeft)[i];
             IsCommand(m) && !Has(m.mtype, PING) && m.cmd in ep.cmds
    requires Legal(Do(p, Act(onLeft, Receive(i, run, decodes))), acts)
    ensures var ep, m, received := p.Of(onLeft), p.Peer(onLeft)[i], Do(p, Act(onLeft, Receive(i, run, decodes)));
            var k := |ep.deferred|;
            if run.Defers? then
              NewlySent(ep, received.Of(onLeft)) + RepliesLater(received, acts, onLeft, k)
              == FirstReply(m, AtOnce(run) + Later(acts, onLeft, k))
            else
              && NewlySent(ep, received.Of(onLeft)) == FirstReply(m, AtOnce(run))
              && received.Of(onLeft).deferred == ep.deferred
  {
    hide Has, OnCommand, NewlySent, Legal, Exec, Later, RepliesLater;
    var ep, m := p.Of(onLeft), p.Peer(onLeft)[i];
    var received := Do(p, Act(onLeft, Receive(i, run, decodes)));
    assert received.Of(onLeft) == OnCommand(ep, m, run);
    ReceivedCommand(ep, m, run);
    if run.Defers? {
      OnlyTheFirstReplies(received, acts, onLeft, |ep.deferred|);
    }
  }
}

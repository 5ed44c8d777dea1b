/** The whole effect of `call` in one place, and what follows for a request that waits. */
module Calls {
  import opened Bytes
  import opened MsgWrapper
  import opened Protocol
  import Coder

  /** The request after `call`: it waits exactly when it was sent and needs a response. */
  function CalledRequest(ep: Endpoint, id: nat, bind: bool): Request
    requires id < |ep.requests|
  {
    var r := ep.requests[id];
    var sent := Proceeds(ep, id, bind);
    r.(waiting := sent && r.needRsp, keeper := sent && r.needRsp,
       bound := r.bound || (bind && !r.canceled), seqNo := if sent then ep.drawn % WORD32 else r.seqNo)
  }

  /** The number drawn by `call` gets a handler and a timer. */
  predicate Subscribes(ep: Endpoint, id: nat, bind: bool)
    requires id < |ep.requests|
  {
    Proceeds(ep, id, bind) && ep.requests[id].needRsp && ep.requests[id].rspKind.Some? && ep.timerSet
  }

  /** Why a call that sends nothing ends. */
  function Refusal(ep: Endpoint, id: nat, bind: bool): Outcome
    requires id < |ep.requests|
  {
    if ep.requests[id].canceled then Canceled else if !bind && !ep.requests[id].bound then RpcExpired else RpcNotReady
  }

  function CallEvents(ep: Endpoint, id: nat, bind: bool): seq<Event>
    requires id < |ep.requests|
  {
    var r := CalledRequest(ep, id, bind);
    [Called(id, !ep.requests[id].waiting)]
    + (if !Proceeds(ep, id, bind) then [Finished(id, Refusal(ep, id, bind))]
       else (if Subscribes(ep, id, bind) then [Registered(id, r.seqNo)] else [])
            + [Sent(id, Coder.Wire(CommandOf(r)))]
            + (if r.needRsp then [] else [Finished(id, NoNeedRsp)]))
  }

  function Table(ep: Endpoint, id: nat, bind: bool): map<seqno, Handler>
    requires id < |ep.requests|
  {
    if Subscribes(ep, id, bind) then ep.handlers[ep.drawn % WORD32 := Handler(id, ep.requests[id].rspKind.value)]
    else ep.handlers
  }

  function Timers(ep: Endpoint, id: nat, bind: bool): set<seqno>
    requires id < |ep.requests|
  {
    if Subscribes(ep, id, bind) then ep.armed + {ep.drawn % WORD32} else ep.armed
  }

  /** `r` is `ep` after `call`, field by field. */
  ghost predicate CallEffect(ep: Endpoint, id: nat, bind: bool, r: Endpoint)
    requires id < |ep.requests|
  {
    && r.requests == ep.requests[id := CalledRequest(ep, id, bind)]
    && r.handlers == Table(ep, id, bind) && r.armed == Timers(ep, id, bind)
    && r.drawn == ep.drawn + (if Proceeds(ep, id, bind) then 1 else 0)
    && r.log == ep.log + CallEvents(ep, id, bind)
    && r.sent == ep.sent + (if Proceeds(ep, id, bind) then [Coder.Wire(CommandOf(CalledRequest(ep, id, bind)))] else [])
    && r.ready == ep.ready && r.timerSet == ep.timerSet && r.cmds == ep.cmds && r.deferred == ep.deferred
  }

  lemma CallShape(ep: Endpoint, id: nat, bind: bool)
    requires id < |ep.requests|
    ensures CallEffect(ep, id, bind, Call(ep, id, bind))
  {
    if Proceeds(ep, id, bind) {
      SentShape(ep, id, bind);
    } else {
      RefusedShape(ep, id, bind);
    }
  }

  lemma RefusedShape(ep: Endpoint, id: nat, bind: bool)
    requires id < |ep.requests| && !Proceeds(ep, id, bind)
    ensures CallEffect(ep, id, bind, Call(ep, id, bind))
  {
    hide Call, HandlersOwned, CommandOf, Coder.Wire, CalledRequest, Refusal;
    RefusedCall(ep, id, bind);
    assert ep.log + [Called(id, !ep.requests[id].waiting)] + [Finished(id, Refusal(ep, id, bind))]
        == ep.log + CallEvents(ep, id, bind);
  }

  /** A refused call changes only the request and the log. */
  lemma RefusedCall(ep: Endpoint, id: nat, bind: bool)
    requires id < |ep.requests| && !Proceeds(ep, id, bind)
    ensures var r := ep.requests[id];
            Call(ep, id, bind) == ep.(requests := ep.requests[id := CalledRequest(ep, id, bind)],
                                      log := ep.log + [Called(id, !r.waiting)] + [Finished(id, Refusal(ep, id, bind))])
  {
    hide HandlersOwned, Launch, Enter, OnFinish, Note;
    EnterShape(ep, id);
    var entered, kept := Enter(ep, id), Keep(Enter(ep, id), id, bind);
    if ep.requests[id].canceled {
      FinishShape(entered, id, Canceled);
      Twice(ep.requests, id, entered.requests[id], CalledRequest(ep, id, bind));
    } else {
      FinishShape(kept, id, Refusal(ep, id, bind));
      Twice(ep.requests, id, entered.requests[id], kept.requests[id]);
      Twice(ep.requests, id, kept.requests[id], CalledRequest(ep, id, bind));
    }
  }

  lemma Twice<T>(s: seq<T>, i: nat, a: T, b: T)
    requires i < |s|
    ensures s[i := a][i := b] == s[i := b]
  {
  }

  lemma EnterShape(ep: Endpoint, id: nat)
    requires id < |ep.requests|
    ensures var r := ep.requests[id];
            Enter(ep, id) == ep.(requests := ep.requests[id := r.(waiting := true)],
                                 log := ep.log + [Called(id, !r.waiting)])
  {
    hide Count, LastRetrySet, RetriesSince;
  }

  lemma FinishShape(ep: Endpoint, id: nat, outcome: Outcome)
    requires id < |ep.requests| && ep.requests[id].waiting
    ensures var r := ep.requests[id];
            OnFinish(ep, id, outcome)
            == ep.(requests := ep.requests[id := r.(waiting := false, keeper := false)],
                   log := ep.log + [Finished(id, outcome)])
  {
    hide Count, LastRetrySet, RetriesSince;
  }

  lemma SentShape(ep: Endpoint, id: nat, bind: bool)
    requires id < |ep.requests| && Proceeds(ep, id, bind)
    ensures CallEffect(ep, id, bind, Call(ep, id, bind))
  {
    hide Count, LastRetrySet, RetriesSince, HandlersOwned, Launch, CommandOf, Coder.Wire, Enter, OnFinish, Note;
    EnterShape(ep, id);
    var kept := Keep(Enter(ep, id), id, bind);
    assert Call(ep, id, bind) == Launch(kept, id);
    LaunchShape(kept, id);
    SameCommand(kept.requests[id].(seqNo := ep.drawn % WORD32), CalledRequest(ep, id, bind));
  }

  lemma SameCommand(r: Request, r': Request)
    requires r'.(waiting := r.waiting, keeper := r.keeper) == r
    ensures CommandOf(r) == CommandOf(r')
  {
  }

  lemma LaunchShape(ep: Endpoint, id: nat)
    requires id < |ep.requests| && ep.requests[id].waiting
    ensures var r, s := ep.requests[id].(seqNo := ep.drawn % WORD32), ep.drawn % WORD32;
            var subscribes := r.needRsp && r.rspKind.Some? && ep.timerSet;
            && Launch(ep, id).requests
              == ep.requests[id := if r.needRsp then r else r.(waiting := false, keeper := false)]
            && Launch(ep, id).handlers
              == (if subscribes then ep.handlers[s := Handler(id, r.rspKind.value)] else ep.handlers)
            && Launch(ep, id).armed == (if subscribes then ep.armed + {s} else ep.armed)
            && Launch(ep, id).log == ep.log + (if subscribes then [Registered(id, s)] else [])
                                     + [Sent(id, Coder.Wire(CommandOf(r)))]
                                       + (if r.needRsp then [] else [Finished(id, NoNeedRsp)])
            && Launch(ep, id).sent == ep.sent + [Coder.Wire(CommandOf(r))]
            && Launch(ep, id).drawn == ep.drawn + 1
            && Launch(ep, id).ready == ep.ready && Launch(ep, id).timerSet == ep.timerSet
            && Launch(ep, id).cmds == ep.cmds && Launch(ep, id).deferred == ep.deferred
  {
    hide Count, LastRetrySet, RetriesSince, Coder.Wire, CommandOf, HandlersOwned;
  }
}

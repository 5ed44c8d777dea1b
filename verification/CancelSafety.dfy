/** A canceled request is silent until its cancellation is reset. */
module CancelSafety {
  import opened Bytes
  import opened MsgWrapper
  import opened Protocol
  import opened Runs
  import opened Calls
  import Coder

  /** No command of the request, no response callback, and no ending but a canceled one. */
  predicate Silent(id: nat, e: Event) {
    match e
    case Sent(j, _) => j != id
    case RspCallback(j, _, _, _) => j != id
    case Finished(j, outcome) => j == id ==> outcome == Canceled
    case _ => true
  }

  /** Everything logged since `log` is silent about the request. */
  ghost predicate SilentSince(log: seq<Event>, log': seq<Event>, id: nat) {
    log <= log' && forall k :: |log| <= k < |log'| ==> Silent(id, log'[k])
  }

  lemma SilentTransitive(a: seq<Event>, b: seq<Event>, c: seq<Event>, id: nat)
    requires SilentSince(a, b, id) && SilentSince(b, c, id)
    ensures SilentSince(a, c, id)
  {
  }

  /** What `cancel` leaves behind, and what lasts until `reset_cancel`. */
  predicate Quieted(ep: Endpoint, id: nat) {
    id < |ep.requests| && ep.requests[id].canceled && !ep.requests[id].waiting
  }

  ghost predicate StaysQuiet(ep: Endpoint, r: Endpoint, id: nat) {
    Quieted(ep, id) ==> Quieted(r, id) && SilentSince(ep.log, r.log, id)
  }

  lemma CallSilent(ep: Endpoint, target: nat, bind: bool, id: nat)
    requires target < |ep.requests|
    ensures StaysQuiet(ep, Call(ep, target, bind), id)
  {
    hide Call, Count, Table, Timers, CommandOf;
    CallShape(ep, target, bind);
  }

  lemma FireSilent(ep: Endpoint, s: seqno, id: nat)
    requires HandlersOwned(ep)
    ensures StaysQuiet(ep, FireTimer(ep, s), id)
  {
    hide Call, Count, LastRetrySet, RetriesSince;
    if s in ep.handlers {
      var target := ep.handlers[s].id;
      CallSilent(SpendRetry(Expire(ep, s), target), target, false, id);
    }
  }

  lemma ResponseSilent(ep: Endpoint, m: Msg, decodes: bool, id: nat)
    requires HandlersOwned(ep)
    ensures StaysQuiet(ep, OnResponse(ep, m, decodes), id)
  {
    hide Count, LastRetrySet, RetriesSince, Has, OnFinish;
    if m.seqNo in ep.handlers {
      var h := ep.handlers[m.seqNo];
      var called := RunCallback(Note(ep, Answered(h.id, m.seqNo, m)), h, m, decodes);
      FinishSilent(called, h.id, RspOutcome(ep.requests[h.id].canceled, Has(m.mtype, NO_SUCH_CMD), h.kind, decodes),
        id);
    }
  }

  lemma FinishSilent(ep: Endpoint, target: nat, outcome: Outcome, id: nat)
    requires target < |ep.requests|
    ensures StaysQuiet(ep, OnFinish(ep, target, outcome), id)
  {
    hide Count, LastRetrySet, RetriesSince;
  }

  lemma ApplySilent(ep: Endpoint, target: nat, op: Op, id: nat)
    requires target < |ep.requests| && !(target == id && op == SetCanceled(false))
    ensures StaysQuiet(ep, Apply(ep, target, op), id)
  {
    hide Call, Count, LastRetrySet, RetriesSince;
    if op.DoCall? {
      CallSilent(ep, target, op.bind, id);
    }
  }

  lemma CommandSilent(ep: Endpoint, m: Msg, run: HandlerRun, id: nat)
    ensures StaysQuiet(ep, OnCommand(ep, m, run), id)
  {
    hide Count, LastRetrySet, RetriesSince, Coder.Wire, Has, Respond;
    var needRsp := Has(m.mtype, NEED_RSP);
    match run
    case Replies(data) => RespondSilent(ep, m.seqNo, m.cmd, m.data, data, HandlerResult, needRsp, id);
    case Defers(before) =>
      if before != [] {
        var d := Deferred(m.seqNo, m.cmd, m.data, true, false);
        RespondSilent(ep.(deferred := ep.deferred + [d]), m.seqNo, m.cmd, m.data, before[0], DeferredResult, needRsp,
          id);
      }
    case Undecodable =>
  }

  lemma RespondSilent(ep: Endpoint, s: seqno, cmd: bytes, payload: bytes, data: bytes, origin: Origin, send: bool,
      id: nat)
    ensures StaysQuiet(ep, Respond(ep, s, cmd, payload, data, origin, send), id)
  {
    hide Count, LastRetrySet, RetriesSince, Coder.Wire;
  }

  lemma NextSilent(ep: Endpoint, peer: seq<Msg>, step: Step, id: nat)
    requires HandlersOwned(ep) && Enabled(ep, peer, step) && step != User(id, SetCanceled(false))
    ensures StaysQuiet(ep, Next(ep, peer, step), id)
  {
    hide Apply, FireTimer, OnCommand, OnResponse, IsCommand, IsResponse, Count, LastRetrySet, RetriesSince, Coder.Wire;
    match step
    case User(target, op) => ApplySilent(ep, target, op, id);
    case Fire(s) => FireSilent(ep, s, id);
    case Receive(i, run, decodes) =>
      CommandSilent(ep, peer[i], run, id);
      ResponseSilent(ep, peer[i], decodes, id);
    case _ =>
  }

  /** `cancel` itself quiets the request, silently but for the canceled ending. */
  lemma CancelQuiets(ep: Endpoint, id: nat)
    requires id < |ep.requests|
    ensures var r := Apply(ep, id, Cancel); Quieted(r, id) && SilentSince(ep.log, r.log, id)
  {
    hide Count, LastRetrySet, RetriesSince;
  }

  /**
   Cancel safety: from a `cancel` on, and as long as the cancellation is not reset, no act of either side, call, retry,
   late or duplicate reply, sends a command of the request or runs its callback, and it ends only as canceled.
   */
  lemma {:induction false} SilentUntilReset(p: Pair, acts: seq<Act>, onLeft: bool, id: nat)
    requires p.Owned() && Quieted(p.Of(onLeft), id) && Legal(p, acts)
    requires forall i :: 0 <= i < |acts| ==> acts[i] != Act(onLeft, User(id, SetCanceled(false)))
    ensures Quieted(Exec(p, acts).Of(onLeft), id)
    ensures SilentSince(p.Of(onLeft).log, Exec(p, acts).Of(onLeft).log, id)
    decreases |acts|
  {
    hide Quieted, Next, Silent;
    if acts != [] {
      SilentUntilReset(p, Init(acts), onLeft, id);
      var q, a := Exec(p, Init(acts)), Last(acts);
      if a.onLeft == onLeft {
        NextSilent(q.Of(onLeft), q.Peer(onLeft), a.step, id);
        SilentTransitive(p.Of(onLeft).log, q.Of(onLeft).log, Do(q, a).Of(onLeft).log, id);
      }
    }
  }
}

/** Exactly when a request ends, and how; exactly when its callback runs, and with what. */
module Outcomes {
  import opened Bytes
  import opened MsgWrapper
  import opened Protocol
  import opened Runs
  import Accounting
  import Coder
  import Correlation

  // ---- What befalls a request in a step, read off the state before it ----

  /** The step calls the request, for the user or as a retry; the value says whether an rpc object is passed. */
  function CalledBy(ep: Endpoint, step: Step, id: nat): Option<bool>
    requires HandlersOwned(ep)
  {
    match step
    case User(j, op) => if j == id && op.DoCall? then Some(op.bind) else None
    case Fire(s) => if Expires(ep, s, id) && RetriesLeft(ep.requests[id]) then Some(false) else None
    case _ => None
  }

  /** A timer goes off whose number stands for the request. */
  predicate Expires(ep: Endpoint, s: seqno, id: nat) {
    s in ep.handlers && ep.handlers[s].id == id
  }

  /** A response arrives whose number stands for the request: the form of its callback, and the response. */
  function AnsweredBy(ep: Endpoint, peer: seq<Msg>, step: Step, id: nat): Option<(RspKind, Msg)>
    requires Enabled(ep, peer, step)
  {
    if step.Receive? && IsResponse(peer[step.i]) && Expires(ep, peer[step.i].seqNo, id)
    then Some((ep.handlers[peer[step.i].seqNo].kind, peer[step.i]))
    else None
  }

  /** A call of the request now must end with this outcome at once. */
  predicate CallDue(ep: Endpoint, id: nat, bind: bool, outcome: Outcome)
    requires id < |ep.requests|
  {
    var r := ep.requests[id];
    match outcome
    case Canceled => r.canceled
    case RpcExpired => !r.canceled && !bind && !r.bound
    case RpcNotReady => !r.canceled && (bind || r.bound) && !ep.ready
    case NoNeedRsp => !r.canceled && (bind || r.bound) && ep.ready && !r.needRsp
    case _ => false
  }

  /** The answer `m` must end the request, if it waits, with this outcome. */
  predicate AnswerDue(r: Request, kind: RspKind, m: Msg, decodes: bool, outcome: Outcome) {
    match outcome
    case Canceled => r.canceled
    case NoSuchCmd => !r.canceled && Has(m.mtype, NO_SUCH_CMD)
    case Normal => !r.canceled && !Has(m.mtype, NO_SUCH_CMD) && (kind.NoArgs? || decodes)
    case RspSerializeError => !r.canceled && !Has(m.mtype, NO_SUCH_CMD) && !kind.NoArgs? && !decodes
    case _ => false
  }

  /** The callback must run for the answer `m`, with data or, if the callback can be told, without. */
  predicate CallbackDue(r: Request, kind: RspKind, m: Msg, decodes: bool, decoded: bool) {
    && !r.canceled && !Has(m.mtype, NO_SUCH_CMD)
    && match kind
       case NoArgs => decoded
       case DataOnly => decodes && decoded
       case DataAndOutcome => decoded == decodes
  }

  /** The step must end the request with this outcome. */
  predicate Due(ep: Endpoint, peer: seq<Msg>, step: Step, id: nat, outcome: Outcome)
    requires HandlersOwned(ep) && Enabled(ep, peer, step)
  {
    && id < |ep.requests|
    && var r := ep.requests[id];
    || (CalledBy(ep, step, id).Some? && CallDue(ep, id, CalledBy(ep, step, id).value, outcome))
    || (r.waiting && step == User(id, Cancel) && outcome == Canceled)
    || (r.waiting && step.Fire? && Expires(ep, step.seqNo, id) && !RetriesLeft(r) && outcome == Timeout)
    || (r.waiting && AnsweredBy(ep, peer, step, id).Some?
        && var (kind, m) := AnsweredBy(ep, peer, step, id).value;
           AnswerDue(r, kind, m, step.decodes, outcome))
  }

  predicate RunsCallback(ep: Endpoint, peer: seq<Msg>, step: Step, id: nat, decoded: bool)
    requires HandlersOwned(ep) && Enabled(ep, peer, step)
  {
    AnsweredBy(ep, peer, step, id).Some?
    && var (kind, m) := AnsweredBy(ep, peer, step, id).value;
       CallbackDue(ep.requests[id], kind, m, step.decodes, decoded)
  }

  // ---- One step ----

  /** What a part of a step adds: endings of one outcome, callbacks of one form. */
  ghost predicate Adds(ep: Endpoint, r: Endpoint, id: nat, outcome: Outcome, decoded: bool, ends: bool, calls: bool) {
    && Count(EndsOf(id, outcome), r.log) == Count(EndsOf(id, outcome), ep.log) + Accounting.Bit(ends)
    && Count(CallbacksOf(id, decoded), r.log) == Count(CallbacksOf(id, decoded), ep.log) + Accounting.Bit(calls)
  }

  lemma FinishAdds(ep: Endpoint, target: nat, end: Outcome, id: nat, outcome: Outcome, decoded: bool)
    requires target < |ep.requests|
    ensures Adds(ep, OnFinish(ep, target, end), id, outcome, decoded,
                 target == id && ep.requests[id].waiting && end == outcome, false)
  {
    hide Count, LastRetrySet, RetriesSince;
  }

  lemma LaunchAdds(ep: Endpoint, target: nat, id: nat, outcome: Outcome, decoded: bool)
    requires target < |ep.requests| && ep.requests[target].waiting
    ensures Adds(ep, Launch(ep, target), id, outcome, decoded,
                 target == id && !ep.requests[id].needRsp && outcome == NoNeedRsp, false)
  {
    hide Count, LastRetrySet, RetriesSince, Coder.Wire, CommandOf, HandlersOwned;
  }

  lemma EnterAdds(ep: Endpoint, target: nat, bind: bool, id: nat, outcome: Outcome, decoded: bool)
    requires target < |ep.requests|
    ensures var entered, kept := Enter(ep, target), Keep(Enter(ep, target), target, bind);
            && Adds(ep, entered, id, outcome, decoded, false, false) && kept.log == entered.log
            && entered.requests[target] == ep.requests[target].(waiting := true)
            && kept.requests[target]
               == entered.requests[target].(keeper := true, bound := ep.requests[target].bound || bind)
            && kept.ready == ep.ready && |kept.requests| == |entered.requests| == |ep.requests|
  {
    hide Count, LastRetrySet, RetriesSince;
  }

  lemma CallAdds(ep: Endpoint, target: nat, bind: bool, id: nat, outcome: Outcome, decoded: bool)
    requires target < |ep.requests|
    ensures Adds(ep, Call(ep, target, bind), id, outcome, decoded,
                 target == id && CallDue(ep, id, bind, outcome), false)
  {
    hide Count, LastRetrySet, RetriesSince, HandlersOwned, Launch, OnFinish, Enter, Keep;
    EnterAdds(ep, target, bind, id, outcome, decoded);
    var entered, kept := Enter(ep, target), Keep(Enter(ep, target), target, bind);
    FinishAdds(entered, target, Canceled, id, outcome, decoded);
    FinishAdds(kept, target, RpcExpired, id, outcome, decoded);
    FinishAdds(kept, target, RpcNotReady, id, outcome, decoded);
    LaunchAdds(kept, target, id, outcome, decoded);
  }

  lemma ExpireAdds(ep: Endpoint, s: seqno, id: nat, outcome: Outcome, decoded: bool)
    requires s in ep.handlers
    ensures var expired := Expire(ep, s);
            Adds(ep, expired, id, outcome, decoded, false, false) && expired.requests == ep.requests
              && expired.ready == ep.ready
  {
    hide Count, LastRetrySet, RetriesSince;
  }

  lemma SpendAdds(ep: Endpoint, target: nat, id: nat, outcome: Outcome, decoded: bool)
    requires target < |ep.requests|
    ensures var spent := SpendRetry(ep, target);
            && Adds(ep, spent, id, outcome, decoded, false, false) && spent.ready == ep.ready
            && spent.requests == ep.requests[target := ep.requests[target].(retry := spent.requests[target].retry)]
  {
    hide Count, LastRetrySet, RetriesSince;
  }

  lemma FireAdds(ep: Endpoint, peer: seq<Msg>, s: seqno, id: nat, outcome: Outcome, decoded: bool)
    requires HandlersOwned(ep) && Enabled(ep, peer, Fire(s))
    ensures Adds(ep, FireTimer(ep, s), id, outcome, decoded, Due(ep, peer, Fire(s), id, outcome), false)
  {
    hide Count, LastRetrySet, RetriesSince, Call, OnFinish, Expire, SpendRetry;
    if s in ep.handlers {
      var target := ep.handlers[s].id;
      ExpireAdds(ep, s, id, outcome, decoded);
      SpendAdds(Expire(ep, s), target, id, outcome, decoded);
      CallAdds(SpendRetry(Expire(ep, s), target), target, false, id, outcome, decoded);
      FinishAdds(Expire(ep, s), target, Timeout, id, outcome, decoded);
    }
  }

  lemma CallbackAdds(ep: Endpoint, h: Handler, m: Msg, decodes: bool, id: nat, outcome: Outcome, decoded: bool)
    requires h.id < |ep.requests|
    ensures var r := RunCallback(ep, h, m, decodes);
            && r.requests == ep.requests
            && Adds(ep, r, id, outcome, decoded, false,
                    h.id == id && CallbackDue(ep.requests[id], h.kind, m, decodes, decoded))
  {
    hide Count, LastRetrySet, RetriesSince, Has;
  }

  lemma AnswerAdds(ep: Endpoint, m: Msg, decodes: bool, id: nat, outcome: Outcome, decoded: bool)
    requires HandlersOwned(ep) && m.seqNo in ep.handlers
    ensures var h := ep.handlers[m.seqNo];
            var r := ep.requests[h.id];
            Adds(ep, OnResponse(ep, m, decodes), id, outcome, decoded,
                 h.id == id && r.waiting && AnswerDue(r, h.kind, m, decodes, outcome),
                 h.id == id && CallbackDue(r, h.kind, m, decodes, decoded))
  {
    hide Count, LastRetrySet, RetriesSince, Has, OnFinish, RunCallback, CallbackDue;
    var h := ep.handlers[m.seqNo];
    var answered := Note(ep, Answered(h.id, m.seqNo, m));
    CallbackAdds(answered, h, m, decodes, id, outcome, decoded);
    var end := RspOutcome(ep.requests[h.id].canceled, Has(m.mtype, NO_SUCH_CMD), h.kind, decodes);
    FinishAdds(RunCallback(answered, h, m, decodes), h.id, end, id, outcome, decoded);
  }

  lemma ApplyAdds(ep: Endpoint, peer: seq<Msg>, target: nat, op: Op, id: nat, outcome: Outcome, decoded: bool)
    requires HandlersOwned(ep) && Enabled(ep, peer, User(target, op))
    ensures Adds(ep, Apply(ep, target, op), id, outcome, decoded, Due(ep, peer, User(target, op), id, outcome), false)
  {
    hide Count, LastRetrySet, RetriesSince, Call, OnFinish, CallDue;
    match op
    case DoCall(bind) => CallAdds(ep, target, bind, id, outcome, decoded);
    case Cancel =>
      FinishAdds(WithRequest(ep, target, ep.requests[target].(canceled := true)), target, Canceled, id, outcome,
        decoded);
    case _ =>
  }

  /** A step ends a request with an outcome exactly when it is due, and runs its callback exactly when that is. */
  lemma NextEndsExactly(ep: Endpoint, peer: seq<Msg>, step: Step, id: nat, outcome: Outcome, decoded: bool)
    requires HandlersOwned(ep) && Enabled(ep, peer, step)
    ensures Adds(ep, Next(ep, peer, step), id, outcome, decoded,
                 Due(ep, peer, step, id, outcome), RunsCallback(ep, peer, step, id, decoded))
  {
    hide Apply, FireTimer, OnDeferred, OnCommand, OnResponse, Count, LastRetrySet, RetriesSince, CallDue, AnswerDue,
      CallbackDue;
    match step
    case User(target, op) => ApplyAdds(ep, peer, target, op, id, outcome, decoded);
    case Fire(s) => FireAdds(ep, peer, s, id, outcome, decoded);
    case RspLater(k, data) => Accounting.DeferredSameBooks(ep, k, data);
    case Receive(i, run, decodes) =>
      if IsCommand(peer[i]) {
        Accounting.CommandSameBooks(ep, peer[i], run);
      } else if IsResponse(peer[i]) {
        if peer[i].seqNo in ep.handlers {
          AnswerAdds(ep, peer[i], decodes, id, outcome, decoded);
        } else {
          Unanswered(ep, peer[i], decodes);
        }
      }
    case _ =>
  }

  lemma Unanswered(ep: Endpoint, m: Msg, decodes: bool)
    requires HandlersOwned(ep) && m.seqNo !in ep.handlers
    ensures OnResponse(ep, m, decodes) == ep
  {
  }

  // ---- Runs ----

  /** How many acts of the run were due to end the request this way, and to run its callback with or without data. */
  function DueIn(p: Pair, acts: seq<Act>, onLeft: bool, id: nat, outcome: Outcome): nat
    requires p.Owned() && Legal(p, acts)
    decreases |acts|
  {
    if acts == [] then 0
    else
      var q, a := Exec(p, Init(acts)), Last(acts);
      DueIn(p, Init(acts), onLeft, id, outcome)
      + Accounting.Bit(a.onLeft == onLeft && Due(q.Of(onLeft), q.Peer(onLeft), a.step, id, outcome))
  }

  function CallbacksIn(p: Pair, acts: seq<Act>, onLeft: bool, id: nat, decoded: bool): nat
    requires p.Owned() && Legal(p, acts)
    decreases |acts|
  {
    if acts == [] then 0
    else
      var q, a := Exec(p, Init(acts)), Last(acts);
      CallbacksIn(p, Init(acts), onLeft, id, decoded)
      + Accounting.Bit(a.onLeft == onLeft && RunsCallback(q.Of(onLeft), q.Peer(onLeft), a.step, id, decoded))
  }

  /**
   Over every run, and for every outcome: a request has ended this way exactly as often as an act was due to end it this
   way, judged by the state before the act; and its callback has run exactly as often as it had to.
   */
  lemma {:induction false} EndingsExactly(p: Pair, acts: seq<Act>, onLeft: bool, id: nat, outcome: Outcome,
      decoded: bool)
    requires p.Owned() && Legal(p, acts)
    ensures var was, ep := p.Of(onLeft), Exec(p, acts).Of(onLeft);
            && Count(EndsOf(id, outcome), ep.log) == Count(EndsOf(id, outcome), was.log)
              + DueIn(p, acts, onLeft, id, outcome)
            && Count(CallbacksOf(id, decoded), ep.log) == Count(CallbacksOf(id, decoded), was.log)
              + CallbacksIn(p, acts, onLeft, id, decoded)
    decreases |acts|
  {
    hide Count, Next, Due, RunsCallback;
    if acts != [] {
      EndingsExactly(p, Init(acts), onLeft, id, outcome, decoded);
      var q, a := Exec(p, Init(acts)), Last(acts);
      if a.onLeft == onLeft {
        NextEndsExactly(q.Of(onLeft), q.Peer(onLeft), a.step, id, outcome, decoded);
      }
    }
  }

  /** The act that logged position `k` was due to end the request this way. */
  predicate WasDue(p: Pair, acts: seq<Act>, onLeft: bool, k: nat, id: nat, outcome: Outcome)
    requires p.Owned() && Legal(p, acts)
    decreases |acts|
  {
    && acts != []
    && var q, a := Exec(p, Init(acts)), Last(acts);
       if k < |q.Of(onLeft).log| then WasDue(p, Init(acts), onLeft, k, id, outcome)
       else a.onLeft == onLeft && Due(q.Of(onLeft), q.Peer(onLeft), a.step, id, outcome)
  }

  /** Every ending in the log of a run was due when it was logged: no outcome is reported that did not apply. */
  lemma {:induction false} EveryEndingWasDue(acts: seq<Act>, onLeft: bool, k: nat)
    requires Legal(START, acts) && k < |Exec(START, acts).Of(onLeft).log|
    requires Exec(START, acts).Of(onLeft).log[k].Finished?
    ensures var e := Exec(START, acts).Of(onLeft).log[k]; WasDue(START, acts, onLeft, k, e.id, e.outcome)
    decreases |acts|
  {
    hide Count, Next, Due, RunsCallback, Weight;
    if acts != [] {
      var p, a := Exec(START, Init(acts)), Last(acts);
      var ep, e := p.Of(onLeft), Exec(START, acts).Of(onLeft).log[k];
      if a.onLeft == onLeft {
        Correlation.LogGrows(ep, p.Peer(onLeft), a.step);
      }
      if k < |ep.log| {
        EveryEndingWasDue(Init(acts), onLeft, k);
      } else {
        NextEndsExactly(ep, p.Peer(onLeft), a.step, e.id, e.outcome, true);
        EndCounts(e);
        Accounting.CountGrows(EndsOf(e.id, e.outcome), ep.log, Next(ep, p.Peer(onLeft), a.step).log, k);
      }
    }
  }

  lemma EndCounts(e: Event)
    requires e.Finished?
    ensures Weight(EndsOf(e.id, e.outcome), e) == 1
  {
  }
}

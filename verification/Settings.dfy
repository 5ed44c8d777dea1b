/**
 What the user has set stays set: the parameters of a request and the services of an endpoint are those of the last
 steps that set them, and a call sends exactly them.
 */
module Settings {
  import opened Bytes
  import opened MsgWrapper
  import opened Protocol
  import opened Runs
  import opened Calls
  import Accounting
  import Coder

  // ---- The services of an endpoint: subscriptions, readiness, timer ----

  datatype Services = Services(cmds: map<bytes, bool>, ready: bool, timerSet: bool)

  function ServicesOf(ep: Endpoint): Services {
    Services(ep.cmds, ep.ready, ep.timerSet)
  }

  /** Four steps change the services, no other does. */
  function ServicesBy(s: Services, step: Step): Services {
    match step
    case Subscribe(cmd, async) => s.(cmds := s.cmds[cmd := async])
    case Unsubscribe(cmd) => s.(cmds := s.cmds - {cmd})
    case SetReady(ready) => s.(ready := ready)
    case SetTimer(present) => s.(timerSet := present)
    case _ => s
  }

  // ---- The parameters of a request ----

  datatype Params = Params(
    cmd: bytes, payload: bytes, needRsp: bool, rspKind: Option<RspKind>, canceled: bool, isPing: bool, bound: bool)

  function ParamsOf(r: Request): Params {
    Params(r.cmd, r.payload, r.needRsp, r.rspKind, r.canceled, r.isPing, r.bound)
  }

  /** What an operation of the user changes. A call binds the request to the rpc object it is given, unless canceled. */
  function ParamsBy(s: Params, op: Op): Params {
    match op
    case SetCmd(cmd) => s.(cmd := cmd)
    case SetMsg(payload) => s.(payload := payload)
    case SetPing => s.(isPing := true)
    case SetRsp(kind) => s.(needRsp := true, rspKind := Some(kind))
    case EnableRsp => s.(needRsp := true)
    case DisableRsp => s.(needRsp := false)
    case SetRetry(_) => s
    case SetCanceled(canceled) => s.(canceled := canceled)
    case Cancel => s.(canceled := true)
    case DoCall(bind) => if bind && !s.canceled then s.(bound := true) else s
  }

  /** Neither the services nor the request's parameters have changed. */
  ghost predicate LeavesAlone(ep: Endpoint, r: Endpoint, id: nat) {
    && ServicesOf(r) == ServicesOf(ep) && |r.requests| == |ep.requests|
    && (id < |ep.requests| ==> ParamsOf(r.requests[id]) == ParamsOf(ep.requests[id]))
  }

  // ---- One step ----

  /** The services are the same, and of the requests only the target's parameters have changed, by the operation. */
  ghost predicate Sets(ep: Endpoint, r: Endpoint, target: nat, op: Op, id: nat) {
    && ServicesOf(r) == ServicesOf(ep) && |r.requests| == |ep.requests|
    && (id < |ep.requests| ==>
          var was := ParamsOf(ep.requests[id]);
          ParamsOf(r.requests[id]) == if id == target then ParamsBy(was, op) else was)
  }

  lemma CallParams(ep: Endpoint, target: nat, bind: bool, id: nat)
    requires target < |ep.requests|
    ensures Sets(ep, Call(ep, target, bind), target, DoCall(bind), id)
  {
    hide Call, CallEvents, Table, Timers, Proceeds;
    CallShape(ep, target, bind);
  }

  lemma FinishKeeps(ep: Endpoint, target: nat, outcome: Outcome, id: nat)
    requires target < |ep.requests|
    ensures LeavesAlone(ep, OnFinish(ep, target, outcome), id)
  {
    hide Count, LastRetrySet, RetriesSince, HandlersOwned;
  }

  lemma FireKeeps(ep: Endpoint, s: seqno, id: nat)
    requires HandlersOwned(ep)
    ensures LeavesAlone(ep, FireTimer(ep, s), id)
  {
    hide Count, LastRetrySet, RetriesSince, Call, OnFinish, HandlersOwned, ParamsOf;
    if s in ep.handlers {
      var target := ep.handlers[s].id;
      HandlerIsOwned(ep, s);
      ExpireKeeps(ep, s, id);
      if RetriesLeft(ep.requests[target]) {
        SpendKeeps(Expire(ep, s), target, id);
        CallParams(SpendRetry(Expire(ep, s), target), target, false, id);
      } else {
        FinishKeeps(Expire(ep, s), target, Timeout, id);
      }
    }
  }

  lemma HandlerIsOwned(ep: Endpoint, s: seqno)
    requires HandlersOwned(ep) && s in ep.handlers
    ensures ep.handlers[s].id < |ep.requests|
  {
  }

  lemma ExpireKeeps(ep: Endpoint, s: seqno, id: nat)
    requires s in ep.handlers
    ensures LeavesAlone(ep, Expire(ep, s), id) && Expire(ep, s).requests == ep.requests
  {
    hide Count, LastRetrySet, RetriesSince;
  }

  lemma SpendKeeps(ep: Endpoint, target: nat, id: nat)
    requires target < |ep.requests|
    ensures LeavesAlone(ep, SpendRetry(ep, target), id)
  {
    hide Count, LastRetrySet, RetriesSince, HandlersOwned;
  }

  lemma ResponseKeeps(ep: Endpoint, m: Msg, decodes: bool, id: nat)
    requires HandlersOwned(ep)
    ensures LeavesAlone(ep, OnResponse(ep, m, decodes), id)
  {
    hide Count, LastRetrySet, RetriesSince, Has, RspCalls, RspOutcome, OnFinish;
    if m.seqNo in ep.handlers {
      var h := ep.handlers[m.seqNo];
      var called := RunCallback(Note(ep, Answered(h.id, m.seqNo, m)), h, m, decodes);
      FinishKeeps(called, h.id, RspOutcome(ep.requests[h.id].canceled, Has(m.mtype, NO_SUCH_CMD), h.kind, decodes), id);
    }
  }

  lemma RespondKeeps(ep: Endpoint, m: Msg, data: bytes, origin: Origin, send: bool)
    ensures var r := Respond(ep, m.seqNo, m.cmd, m.data, data, origin, send);
            ServicesOf(r) == ServicesOf(ep) && r.requests == ep.requests
  {
  }

  lemma RefuseKeeps(ep: Endpoint, m: Msg)
    ensures var r := Refuse(ep, m); ServicesOf(r) == ServicesOf(ep) && r.requests == ep.requests
  {
  }

  lemma CommandKeeps(ep: Endpoint, m: Msg, run: HandlerRun)
    ensures var r := OnCommand(ep, m, run); ServicesOf(r) == ServicesOf(ep) && r.requests == ep.requests
  {
    hide Count, LastRetrySet, RetriesSince, Coder.Wire, Has, Respond, Refuse;
    var needRsp := Has(m.mtype, NEED_RSP);
    RefuseKeeps(ep, m);
    match run
    case Replies(data) => RespondKeeps(ep, m, data, HandlerResult, needRsp);
    case Defers(before) =>
      if before != [] {
        var d := Deferred(m.seqNo, m.cmd, m.data, true, false);
        RespondKeeps(ep.(deferred := ep.deferred + [d]), m, before[0], DeferredResult, needRsp);
      }
    case Undecodable =>
  }

  lemma DeferredKeeps(ep: Endpoint, k: nat, data: bytes)
    requires k < |ep.deferred|
    ensures var r := OnDeferred(ep, k, data); ServicesOf(r) == ServicesOf(ep) && r.requests == ep.requests
  {
    hide Count, LastRetrySet, RetriesSince, Coder.Wire;
  }

  lemma WithRequestParams(ep: Endpoint, target: nat, r: Request, op: Op, id: nat)
    requires target < |ep.requests| && ParamsOf(r) == ParamsBy(ParamsOf(ep.requests[target]), op)
    ensures Sets(ep, WithRequest(ep, target, r), target, op, id)
  {
    hide ParamsBy;
  }

  lemma ContentParams(ep: Endpoint, target: nat, op: Op, id: nat)
    requires target < |ep.requests| && (op.SetCmd? || op.SetMsg? || op.SetPing? || op.SetCanceled?)
    ensures Sets(ep, Apply(ep, target, op), target, op, id)
  {
    hide Count, LastRetrySet, RetriesSince, HandlersOwned, Call, OnFinish, Sets;
    var r := ep.requests[target];
    if op.SetCmd? {
      WithRequestParams(ep, target, r.(cmd := op.cmd), op, id);
    } else if op.SetMsg? {
      WithRequestParams(ep, target, r.(payload := op.payload), op, id);
    } else if op.SetPing? {
      WithRequestParams(ep, target, r.(isPing := true), op, id);
    } else {
      WithRequestParams(ep, target, r.(canceled := op.canceled), op, id);
    }
  }

  lemma ResponseParams(ep: Endpoint, target: nat, op: Op, id: nat)
    requires target < |ep.requests| && (op.SetRsp? || op.EnableRsp? || op.DisableRsp?)
    ensures Sets(ep, Apply(ep, target, op), target, op, id)
  {
    hide Count, LastRetrySet, RetriesSince, HandlersOwned, Call, OnFinish, Sets;
    var r := ep.requests[target];
    if op.SetRsp? {
      WithRequestParams(ep, target, r.(needRsp := true, rspKind := Some(op.kind)), op, id);
    } else if op.EnableRsp? {
      WithRequestParams(ep, target, r.(needRsp := true), op, id);
    } else {
      WithRequestParams(ep, target, r.(needRsp := false), op, id);
    }
  }

  lemma CallIsApplied(ep: Endpoint, target: nat, bind: bool)
    requires target < |ep.requests|
    ensures Apply(ep, target, DoCall(bind)) == Call(ep, target, bind)
  {
    hide Call;
  }

  lemma ApplyParams(ep: Endpoint, target: nat, op: Op, id: nat)
    requires target < |ep.requests|
    ensures Sets(ep, Apply(ep, target, op), target, op, id)
  {
    hide Apply, Call, Sets;
    match op
    case SetRetry(count) => RetryParams(ep, target, count, id);
    case Cancel => CancelParams(ep, target, id);
    case DoCall(bind) =>
      CallIsApplied(ep, target, bind);
      CallParams(ep, target, bind, id);
    case SetRsp(_) => ResponseParams(ep, target, op, id);
    case EnableRsp => ResponseParams(ep, target, op, id);
    case DisableRsp => ResponseParams(ep, target, op, id);
    case _ => ContentParams(ep, target, op, id);
  }

  lemma RetryParams(ep: Endpoint, target: nat, count: int, id: nat)
    requires target < |ep.requests|
    ensures Sets(ep, Apply(ep, target, SetRetry(count)), target, SetRetry(count), id)
  {
    hide Count, LastRetrySet, RetriesSince, HandlersOwned;
  }

  lemma CancelParams(ep: Endpoint, target: nat, id: nat)
    requires target < |ep.requests|
    ensures Sets(ep, Apply(ep, target, Cancel), target, Cancel, id)
  {
    hide Count, LastRetrySet, RetriesSince, HandlersOwned, OnFinish;
    FinishKeeps(WithRequest(ep, target, ep.requests[target].(canceled := true)), target, Canceled, id);
  }

  /** The effect of a step on one request's parameters: creation, or an operation of the user on this very request. */
  function ParamsAfter(ep: Endpoint, step: Step, id: nat): Option<Params> {
    match step
    case Create(bound) =>
      if id == |ep.requests| then Some(Params([], [], false, None, false, false, bound)) else ParamsNow(ep, id)
    case User(target, op) =>
      if id == target && id < |ep.requests| then Some(ParamsBy(ParamsOf(ep.requests[id]), op)) else ParamsNow(ep, id)
    case _ => ParamsNow(ep, id)
  }

  function ParamsNow(ep: Endpoint, id: nat): Option<Params> {
    if id < |ep.requests| then Some(ParamsOf(ep.requests[id])) else None
  }

  lemma NextSettings(ep: Endpoint, peer: seq<Msg>, step: Step, id: nat)
    requires HandlersOwned(ep) && Enabled(ep, peer, step)
    ensures var r := Next(ep, peer, step);
            && ServicesOf(r) == ServicesBy(ServicesOf(ep), step)
            && |r.requests| == |ep.requests| + (if step.Create? then 1 else 0)
            && ParamsNow(r, id) == ParamsAfter(ep, step, id)
  {
    hide Apply, FireTimer, OnDeferred, OnCommand, OnResponse, IsCommand, IsResponse, ParamsBy;
    match step
    case User(target, op) => ApplyParams(ep, target, op, id);
    case Fire(s) => FireKeeps(ep, s, id);
    case RspLater(k, data) => DeferredKeeps(ep, k, data);
    case Receive(i, run, decodes) =>
      CommandKeeps(ep, peer[i], run);
      ResponseKeeps(ep, peer[i], decodes, id);
    case _ =>
  }

  // ---- Runs from the start ----

  /** The services that the acts of this side have set up. */
  function ServicesSet(acts: seq<Act>, onLeft: bool): Services
    decreases |acts|
  {
    if acts == [] then Services(map[], false, false)
    else
      var before := ServicesSet(Init(acts), onLeft);
      if Last(acts).onLeft == onLeft then ServicesBy(before, Last(acts).step) else before
  }

  function Created(acts: seq<Act>, onLeft: bool): nat
    decreases |acts|
  {
    if acts == [] then 0
    else Created(Init(acts), onLeft) + (if Last(acts).onLeft == onLeft && Last(acts).step.Create? then 1 else 0)
  }

  /** The parameters that the user has given to the request created as number `id`. */
  function ParamsSet(acts: seq<Act>, onLeft: bool, id: nat): Option<Params>
    decreases |acts|
  {
    if acts == [] then None
    else
      var before, a := ParamsSet(Init(acts), onLeft, id), Last(acts);
      if a.onLeft != onLeft then before
      else
        match a.step
        case Create(bound) =>
          if Created(Init(acts), onLeft) == id then Some(Params([], [], false, None, false, false, bound)) else before
        case User(target, op) => if target == id && before.Some? then Some(ParamsBy(before.value, op)) else before
        case _ => before
  }

  /** In every reachable state, subscriptions, readiness, timer and all parameters are those last set. */
  lemma {:induction false} AllAsSet(acts: seq<Act>, onLeft: bool, id: nat)
    requires Legal(START, acts)
    ensures var ep := Exec(START, acts).Of(onLeft);
            && ServicesOf(ep) == ServicesSet(acts, onLeft)
            && |ep.requests| == Created(acts, onLeft)
            && ParamsNow(ep, id) == ParamsSet(acts, onLeft, id)
    decreases |acts|
  {
    hide Next, ServicesBy, ParamsBy;
    if acts != [] {
      AllAsSet(Init(acts), onLeft, id);
      var p, a := Exec(START, Init(acts)), Last(acts);
      if a.onLeft == onLeft {
        NextSettings(p.Of(onLeft), p.Peer(onLeft), a.step, id);
      }
    }
  }

  // ---- What a call sends ----

  /** The command that carries these parameters under this number, in numbers. */
  ghost predicate SentAs(m: Msg, s: Params, number: nat) {
    && m.seqNo == number % 0x1_0000_0000
    && m.cmd == s.cmd[..|s.cmd| % 65536] && m.data == s.payload && m.requestPayload == None
    && m.mtype == 1 + (if s.isPing then 8 else 0) + (if s.needRsp then 4 else 0)
  }

  /** A call that is not canceled, has an rpc object and finds it ready sends one command; any other sends nothing. */
  lemma CallSends(ep: Endpoint, id: nat, bind: bool)
    requires id < |ep.requests|
    ensures var r, q := Call(ep, id, bind), ep.requests[id];
            if !q.canceled && (bind || q.bound) && ep.ready then
              && |r.sent| == |ep.sent| + 1 && ep.sent <= r.sent && r.drawn == ep.drawn + 1
              && SentAs(Last(r.sent), ParamsOf(q), ep.drawn)
            else
              r.sent == ep.sent && r.drawn == ep.drawn
  {
    hide Call, CallEvents;
    CallShape(ep, id, bind);
    CommandSentAs(CalledRequest(ep, id, bind));
  }

  lemma CommandSentAs(r: Request)
    ensures SentAs(Coder.Wire(CommandOf(r)), ParamsOf(r), r.seqNo)
  {
  }

  /** A retry by the timer sends the same again, under the next number. */
  lemma RetrySends(ep: Endpoint, s: seqno)
    requires HandlersOwned(ep) && s in ep.handlers
    ensures var r, q := FireTimer(ep, s), ep.requests[ep.handlers[s].id];
            if (q.retry == -1 || q.retry > 0) && !q.canceled && q.bound && ep.ready then
              && |r.sent| == |ep.sent| + 1 && ep.sent <= r.sent && r.drawn == ep.drawn + 1
              && SentAs(Last(r.sent), ParamsOf(q), ep.drawn)
            else
              r.sent == ep.sent && r.drawn == ep.drawn
  {
    hide Call, Count, LastRetrySet, RetriesSince, SentAs, OnFinish;
    var id, expired := ep.handlers[s].id, Expire(ep, s);
    ExpireKeeps(ep, s, id);
    FinishSendsNothing(expired, id);
    CallSends(SpendRetry(expired, id), id, false);
  }

  lemma FinishSendsNothing(ep: Endpoint, id: nat)
    requires id < |ep.requests|
    ensures OnFinish(ep, id, Timeout).sent == ep.sent && OnFinish(ep, id, Timeout).drawn == ep.drawn
  {
  }

  /** Over runs: what a call sends are the command, the payload and the flags that the user last gave to the request. */
  lemma {:induction false} CallSendsWhatWasSet(acts: seq<Act>, onLeft: bool, id: nat, bind: bool)
    requires Legal(START, acts) && id < Created(acts, onLeft)
    ensures var ep := Exec(START, acts).Of(onLeft);
            && id < |ep.requests| && ParamsSet(acts, onLeft, id).Some?
            && var given, r := ParamsSet(acts, onLeft, id).value, Call(ep, id, bind);
               if !given.canceled && (bind || given.bound) && ServicesSet(acts, onLeft).ready then
                 |r.sent| == |ep.sent| + 1 && ep.sent <= r.sent && SentAs(Last(r.sent), given, ep.drawn)
               else
                 r.sent == ep.sent
  {
    hide Exec, Legal, Call, SentAs, ParamsSet, ServicesSet, Created;
    AllAsSet(acts, onLeft, id);
    CallSends(Exec(START, acts).Of(onLeft), id, bind);
  }

  /** After `reset_cancel` a request can be called again. */
  lemma ResetAllowsCalls(ep: Endpoint, id: nat, bind: bool)
    requires id < |ep.requests| && ep.ready && (bind || ep.requests[id].bound)
    ensures var reset := Apply(ep, id, SetCanceled(false));
            && reset.sent == ep.sent
            && |Call(reset, id, bind).sent| == |ep.sent| + 1
            && SentAs(Last(Call(reset, id, bind).sent), ParamsOf(ep.requests[id]), ep.drawn)
  {
    hide Call;
    CallSends(Apply(ep, id, SetCanceled(false)), id, bind);
  }

  // ---- The retry count last set ----

  /** What the log calls the count last set is the argument of the user's last `retry`. */
  function RetryGiven(acts: seq<Act>, onLeft: bool, id: nat): int
    decreases |acts|
  {
    if acts == [] then 0
    else
      var before, a := RetryGiven(Init(acts), onLeft, id), Last(acts);
      if a.onLeft == onLeft && a.step.User? && a.step.id == id && a.step.op.SetRetry? then a.step.op.count else before
  }

  lemma LaunchLogsNoCount(ep: Endpoint, target: nat, id: nat)
    requires target < |ep.requests|
    ensures LastRetrySet(id, Launch(ep, target).log) == LastRetrySet(id, ep.log)
  {
    hide Count, LastRetrySet, RetriesSince, Coder.Wire, CommandOf, HandlersOwned;
  }

  lemma CallLogsNoCount(ep: Endpoint, target: nat, bind: bool, id: nat)
    requires target < |ep.requests|
    ensures LastRetrySet(id, Call(ep, target, bind).log) == LastRetrySet(id, ep.log)
  {
    hide Count, LastRetrySet, RetriesSince, HandlersOwned, Launch;
    LaunchLogsNoCount(Keep(Enter(ep, target), target, bind), target, id);
  }

  lemma FireLogsNoCount(ep: Endpoint, s: seqno, id: nat)
    requires HandlersOwned(ep)
    ensures LastRetrySet(id, FireTimer(ep, s).log) == LastRetrySet(id, ep.log)
  {
    hide Count, LastRetrySet, RetriesSince, Call;
    if s in ep.handlers && RetriesLeft(ep.requests[ep.handlers[s].id]) {
      CallLogsNoCount(SpendRetry(Expire(ep, s), ep.handlers[s].id), ep.handlers[s].id, false, id);
    }
  }

  lemma ResponseLogsNoCount(ep: Endpoint, m: Msg, decodes: bool, id: nat)
    requires HandlersOwned(ep)
    ensures LastRetrySet(id, OnResponse(ep, m, decodes).log) == LastRetrySet(id, ep.log)
  {
    hide Count, LastRetrySet, RetriesSince, Has, RspCalls, RspOutcome;
  }

  lemma ApplyLogsCount(ep: Endpoint, target: nat, op: Op, id: nat)
    requires target < |ep.requests|
    ensures LastRetrySet(id, Apply(ep, target, op).log)
         == if op.SetRetry? && target == id then op.count else LastRetrySet(id, ep.log)
  {
    hide Count, LastRetrySet, RetriesSince, HandlersOwned, Call;
    if op.DoCall? {
      CallLogsNoCount(ep, target, op.bind, id);
    }
  }

  lemma NextLogsCount(ep: Endpoint, peer: seq<Msg>, step: Step, id: nat)
    requires HandlersOwned(ep) && Enabled(ep, peer, step)
    ensures LastRetrySet(id, Next(ep, peer, step).log)
         == if step.User? && step.id == id && step.op.SetRetry? then step.op.count else LastRetrySet(id, ep.log)
  {
    hide LastRetrySet, Apply, FireTimer, OnDeferred, OnCommand, OnResponse, IsCommand, IsResponse;
    match step
    case User(target, op) => ApplyLogsCount(ep, target, op, id);
    case Fire(s) => FireLogsNoCount(ep, s, id);
    case RspLater(k, data) => Accounting.DeferredSameBooks(ep, k, data);
    case Receive(i, run, decodes) =>
      Accounting.CommandSameBooks(ep, peer[i], run);
      ResponseLogsNoCount(ep, peer[i], decodes, id);
    case _ =>
  }

  lemma {:induction false} LoggedCountWasGiven(acts: seq<Act>, onLeft: bool, id: nat)
    requires Legal(START, acts)
    ensures LastRetrySet(id, Exec(START, acts).Of(onLeft).log) == RetryGiven(acts, onLeft, id)
    decreases |acts|
  {
    hide LastRetrySet, Next;
    if acts == [] {
      NoCountLogged(id);
    } else {
      LoggedCountWasGiven(Init(acts), onLeft, id);
      var p, a := Exec(START, Init(acts)), Last(acts);
      if a.onLeft == onLeft {
        NextLogsCount(p.Of(onLeft), p.Peer(onLeft), a.step, id);
      }
    }
  }

  lemma NoCountLogged(id: nat)
    ensures LastRetrySet(id, []) == 0
  {
  }

  /**
   Over runs: the retry count is the one last given, less the calls that timeouts have made since if it is not negative,
   and exactly the one last given if it is.
   */
  lemma {:induction false} RetryAsGiven(acts: seq<Act>, onLeft: bool, id: nat)
    requires Legal(START, acts) && id < |Exec(START, acts).Of(onLeft).requests|
    ensures var ep, given := Exec(START, acts).Of(onLeft), RetryGiven(acts, onLeft, id);
            ep.requests[id].retry == if given >= 0 then given - RetriesSince(id, ep.log) else given
  {
    hide Exec, Legal, LastRetrySet, RetriesSince, RetryGiven;
    LoggedCountWasGiven(acts, onLeft, id);
    Accounting.RetriesAddUp(acts, onLeft, id);
  }
}

/**
 The request/response protocol as a state machine: two full-duplex endpoints, each with its requests, its table of
 response handlers, its armed timers and its deferred replies. An endpoint's `sent` is everything it ever handed to its
 connection; the network may deliver any of it to the peer, at any time, in any order, any number of times, or never.
 `log` records what can be observed from outside: calls, messages, callbacks.
 */
module Protocol {
  import opened Bytes
  import opened MsgWrapper
  import Coder

  datatype Outcome =
    | Normal | NoNeedRsp | Timeout | Canceled | RpcExpired | RpcNotReady | RspSerializeError | NoSuchCmd

  /** The three forms of the `rsp` callback: without parameters, with the data, with the data and the outcome. */
  datatype RspKind = NoArgs | DataOnly | DataAndOutcome

  datatype Request = Request(
    cmd: bytes, payload: bytes, needRsp: bool, rspKind: Option<RspKind>, canceled: bool, retry: int,
    waiting: bool, keeper: bool, isPing: bool, bound: bool, seqNo: seqno)

  function NewRequest(bound: bool): Request {
    Request([], [], false, None, false, 0, false, false, false, bound, 0)
  }

  datatype Handler = Handler(id: nat, kind: RspKind)

  /** A `request_response` handed to an asynchronous handler, with the reply message it will fill in. */
  datatype Deferred = Deferred(seqNo: seqno, cmd: bytes, payload: bytes, ready: bool, senderSet: bool)

  /** How a reply came about. */
  datatype Origin = Echo | HandlerResult | DeferredResult

  datatype Event =
    | Called(id: nat, idle: bool)
    | Sent(id: nat, msg: Msg)
    | Registered(id: nat, seqNo: seqno)
    | Answered(id: nat, seqNo: seqno, msg: Msg)
    | RspCallback(id: nat, seqNo: seqno, msg: Msg, decoded: bool)
    | TimedOut(id: nat, seqNo: seqno)
    | Retried(id: nat)
    | RetrySet(id: nat, count: int)
    | Finished(id: nat, outcome: Outcome)
    | Produced(seqNo: seqno, cmd: bytes, payload: bytes, data: bytes, origin: Origin)
    | Refused(seqNo: seqno, cmd: bytes, payload: bytes, subscribed: bool)

  datatype Endpoint = Endpoint(
    drawn: nat, ready: bool, timerSet: bool, requests: seq<Request>, handlers: map<seqno, Handler>, armed: set<seqno>,
    cmds: map<bytes, bool>, deferred: seq<Deferred>, sent: seq<Msg>, log: seq<Event>)

  const EMPTY := Endpoint(0, false, false, [], map[], {}, map[], [], [], [])

  // ---- Message types ----

  predicate IsCommand(m: Msg) {
    m.mtype % 4 == COMMAND
  }

  predicate IsResponse(m: Msg) {
    m.mtype % 4 == RESPONSE
  }

  function CommandType(isPing: bool, needRsp: bool): (t: byte)
    ensures t % 4 == COMMAND && Has(t, PING) == isPing && Has(t, NEED_RSP) == needRsp
  {
    COMMAND + (if isPing then PING else 0) + (if needRsp then NEED_RSP else 0)
  }

  // ---- Counting in the log ----

  datatype Query =
    | FinallyOf(id: nat) | EndsOf(id: nat, outcome: Outcome) | IdleCallsOf(id: nat) | SendsOf(id: nat)
    | TimeoutsOf(id: nat)
    | CallbacksOf(id: nat, decoded: bool)
    | Resolutions(seqNo: seqno) | Registrations(seqNo: seqno) | SendsUnder(seqNo: seqno)

  function Weight(q: Query, e: Event): nat {
    match q
    case FinallyOf(id) => if e.Finished? && e.id == id then 1 else 0
    case EndsOf(id, outcome) => if e.Finished? && e.id == id && e.outcome == outcome then 1 else 0
    case IdleCallsOf(id) => if e.Called? && e.id == id && e.idle then 1 else 0
    case SendsOf(id) => if e.Sent? && e.id == id then 1 else 0
    case TimeoutsOf(id) => if e.TimedOut? && e.id == id then 1 else 0
    case CallbacksOf(id, decoded) => if e.RspCallback? && e.id == id && e.decoded == decoded then 1 else 0
    case Resolutions(s) => if (e.Answered? || e.TimedOut?) && e.seqNo == s then 1 else 0
    case Registrations(s) => if e.Registered? && e.seqNo == s then 1 else 0
    case SendsUnder(s) => if e.Sent? && e.msg.seqNo == s then 1 else 0
  }

  function Count(q: Query, log: seq<Event>): nat {
    if log == [] then 0 else Count(q, Init(log)) + Weight(q, Last(log))
  }

  /** The retry count last set for a request, initially 0, and the calls its timeouts have made since. */
  function LastRetrySet(id: nat, log: seq<Event>): int {
    if log == [] then 0
    else if Last(log).RetrySet? && Last(log).id == id then Last(log).count
    else LastRetrySet(id, Init(log))
  }

  function RetriesSince(id: nat, log: seq<Event>): nat {
    if log == [] || (Last(log).RetrySet? && Last(log).id == id) then 0
    else RetriesSince(id, Init(log)) + (if Last(log).Retried? && Last(log).id == id then 1 else 0)
  }

  // ---- Requests ----

  function Note(ep: Endpoint, e: Event): (r: Endpoint)
    ensures forall q :: Count(q, r.log) == Count(q, ep.log) + Weight(q, e)
    ensures forall id :: LastRetrySet(id, r.log) == if e.RetrySet? && e.id == id then e.count
      else LastRetrySet(id, ep.log)
    ensures forall id :: RetriesSince(id, r.log)
              == if e.RetrySet? && e.id == id then 0
                 else RetriesSince(id, ep.log) + (if e.Retried? && e.id == id then 1 else 0)
  {
    assert Init(ep.log + [e]) == ep.log && Last(ep.log + [e]) == e;
    ep.(log := ep.log + [e])
  }

  /** Every handler belongs to a request of this endpoint. */
  predicate HandlersOwned(ep: Endpoint) {
    forall s :: s in ep.handlers ==> ep.handlers[s].id < |ep.requests|
  }

  /** Requests and the ownership of handlers outlive a step. */
  ghost predicate Keeps(ep: Endpoint, ep': Endpoint) {
    |ep.requests| <= |ep'.requests| && (HandlersOwned(ep) ==> HandlersOwned(ep'))
  }

  function WithRequest(ep: Endpoint, id: nat, r: Request): (r': Endpoint)
    requires id < |ep.requests|
    ensures |r'.requests| == |ep.requests| && Keeps(ep, r')
  {
    ep.(requests := ep.requests[id := r])
  }

  /** `on_finish`. */
  function OnFinish(ep: Endpoint, id: nat, outcome: Outcome): (r': Endpoint)
    requires id < |ep.requests|
    ensures |r'.requests| == |ep.requests| && Keeps(ep, r')
  {
    var r := ep.requests[id];
    if !r.waiting then ep
    else Note(WithRequest(ep, id, r.(waiting := false, keeper := false)), Finished(id, outcome))
  }

  /** Handing a message to the connection: the peer can only ever see what the coder makes of it. */
  function Transmit(ep: Endpoint, m: Msg): Endpoint {
    ep.(sent := ep.sent + [Coder.Wire(m)])
  }

  /** `subscribe_rsp`. */
  function SubscribeRsp(ep: Endpoint, id: nat, seqNo: seqno, kind: Option<RspKind>): Endpoint {
    if kind == None || !ep.timerSet then ep
    else Note(ep.(handlers := ep.handlers[seqNo := Handler(id, kind.value)], armed := ep.armed + {seqNo}),
      Registered(id, seqNo))
  }

  function CommandOf(r: Request): Msg {
    Msg(r.seqNo, r.cmd, CommandType(r.isPing, r.needRsp), [], Some(r.payload))
  }

  /** `send_request`: register first, then send. */
  function SendRequest(ep: Endpoint, id: nat): Endpoint
    requires id < |ep.requests|
  {
    var r := ep.requests[id];
    var registered := if r.needRsp then SubscribeRsp(ep, id, r.seqNo, r.rspKind) else ep;
    Transmit(Note(registered, Sent(id, Coder.Wire(CommandOf(r)))), CommandOf(r))
  }

  /** `call` gets as far as drawing a number and sending. */
  predicate Proceeds(ep: Endpoint, id: nat, bind: bool)
    requires id < |ep.requests|
  {
    !ep.requests[id].canceled && (bind || ep.requests[id].bound) && ep.ready
  }

  /** `waiting_rsp_ = true` on entry. */
  function Enter(ep: Endpoint, id: nat): Endpoint
    requires id < |ep.requests|
  {
    var r := ep.requests[id];
    Note(WithRequest(ep, id, r.(waiting := true)), Called(id, !r.waiting))
  }

  /** The part of `call` behind all checks. */
  function Launch(ep: Endpoint, id: nat): Endpoint
    requires id < |ep.requests|
  {
    var r := ep.requests[id].(seqNo := ep.drawn % WORD32);
    var launched := SendRequest(WithRequest(ep.(drawn := ep.drawn + 1), id, r), id);
    if r.needRsp then launched else OnFinish(launched, id, NoNeedRsp)
  }

  /** The request holds itself until it ends, and remembers the rpc object it is given. */
  function Keep(ep: Endpoint, id: nat, bind: bool): Endpoint
    requires id < |ep.requests|
  {
    WithRequest(ep, id, ep.requests[id].(keeper := true, bound := ep.requests[id].bound || bind))
  }

  /** `call`; `bind` says whether an rpc object is passed. */
  function Call(ep: Endpoint, id: nat, bind: bool): (r: Endpoint)
    requires id < |ep.requests|
    ensures |r.requests| == |ep.requests| && Keeps(ep, r)
  {
    var entered := Enter(ep, id);
    if entered.requests[id].canceled then OnFinish(entered, id, Canceled)
    else
      var kept := Keep(entered, id, bind);
      if !kept.requests[id].bound then OnFinish(kept, id, RpcExpired)
      else if !kept.ready then OnFinish(kept, id, RpcNotReady)
      else Launch(kept, id)
  }

  /** A retry is counted down unless retries are unlimited. */
  function SpendRetry(ep: Endpoint, id: nat): Endpoint
    requires id < |ep.requests|
  {
    var r := ep.requests[id];
    Note(WithRequest(ep, id, r.(retry := if r.retry == -1 then -1 else r.retry - 1)), Retried(id))
  }

  predicate RetriesLeft(r: Request) {
    r.retry == -1 || r.retry > 0
  }

  /** What the timeout callback does besides calling the user's: retry or finish. */
  function OnTimeout(ep: Endpoint, id: nat): (r: Endpoint)
    requires id < |ep.requests|
    ensures |r.requests| == |ep.requests| && Keeps(ep, r)
  {
    if RetriesLeft(ep.requests[id]) then Call(SpendRetry(ep, id), id, false)
    else OnFinish(ep, id, Timeout)
  }

  /** Whether the response handler runs the user's callback, and if so whether with decoded data. */
  function RspCalls(canceled: bool, noSuchCmd: bool, kind: RspKind, decodes: bool): Option<bool> {
    if canceled || noSuchCmd then None
    else
      match kind
      case NoArgs => Some(true)
      case DataOnly => if decodes then Some(true) else None
      case DataAndOutcome => Some(decodes)
  }

  function RspOutcome(canceled: bool, noSuchCmd: bool, kind: RspKind, decodes: bool): Outcome {
    if canceled then Canceled
    else if noSuchCmd then NoSuchCmd
    else if kind.NoArgs? || decodes then Normal
    else RspSerializeError
  }

  function RunCallback(ep: Endpoint, h: Handler, m: Msg, decodes: bool): Endpoint
    requires h.id < |ep.requests|
  {
    match RspCalls(ep.requests[h.id].canceled, Has(m.mtype, NO_SUCH_CMD), h.kind, decodes)
    case None => ep
    case Some(decoded) => Note(ep, RspCallback(h.id, m.seqNo, m, decoded))
  }

  /** The handler that `rsp` installs; `decodes` says whether the data can be read as the callback's type. */
  function HandleRsp(ep: Endpoint, h: Handler, m: Msg, decodes: bool): (r: Endpoint)
    requires h.id < |ep.requests|
    ensures |r.requests| == |ep.requests| && Keeps(ep, r)
  {
    var outcome := RspOutcome(ep.requests[h.id].canceled, Has(m.mtype, NO_SUCH_CMD), h.kind, decodes);
    OnFinish(RunCallback(ep, h, m, decodes), h.id, outcome)
  }

  function Erase(ep: Endpoint, seqNo: seqno): Endpoint {
    ep.(handlers := ep.handlers - {seqNo})
  }

  // ---- The dispatcher ----

  /** A response, pong or not: the handler registered for its number runs and is erased. */
  function OnResponse(ep: Endpoint, m: Msg, decodes: bool): (r: Endpoint)
    requires HandlersOwned(ep)
    ensures Keeps(ep, r)
  {
    if m.seqNo !in ep.handlers then ep
    else
      var h := ep.handlers[m.seqNo];
      Erase(HandleRsp(Note(ep, Answered(h.id, m.seqNo, m)), h, m, decodes), m.seqNo)
  }

  /** The timer has gone off and found the number in the table. */
  function Expire(ep: Endpoint, seqNo: seqno): Endpoint
    requires seqNo in ep.handlers
  {
    Note(ep.(armed := ep.armed - {seqNo}), TimedOut(ep.handlers[seqNo].id, seqNo))
  }

  /** The closure given to the timer, run once. */
  function FireTimer(ep: Endpoint, seqNo: seqno): (r: Endpoint)
    requires HandlersOwned(ep)
    ensures Keeps(ep, r)
  {
    if seqNo !in ep.handlers then ep.(armed := ep.armed - {seqNo})
    else Erase(OnTimeout(Expire(ep, seqNo), ep.handlers[seqNo].id), seqNo)
  }

  /**
   What a subscribed handler does with a command: reply with a result, fail to decode its parameter, or (an asynchronous
   one) call `rr->rsp` some number of times before it returns.
   */
  datatype HandlerRun = Replies(data: bytes) | Undecodable | Defers(before: seq<bytes>)

  /** Synchronous and asynchronous handlers can do different things. */
  predicate Possible(async: bool, run: HandlerRun) {
    run.Undecodable? || (if async then run.Defers? else run.Replies?)
  }

  function Reply(seqNo: seqno, data: bytes): Msg {
    Msg(seqNo, [], RESPONSE, data, None)
  }

  /** A reply has come about; it is sent if the command asked for one. */
  function Respond(ep: Endpoint, seqNo: seqno, cmd: bytes, payload: bytes, data: bytes, origin: Origin,
      send: bool): Endpoint
  {
    var noted := Note(ep, Produced(seqNo, cmd, payload, data, origin));
    if send then Transmit(noted, Reply(seqNo, data)) else noted
  }

  /** A no-such-command notice goes out; the log says whether the command really has no handler. */
  function Refuse(ep: Endpoint, m: Msg): Endpoint {
    Transmit(Note(ep, Refused(m.seqNo, m.cmd, m.data, m.cmd in ep.cmds)),
      Msg(m.seqNo, [], RESPONSE + NO_SUCH_CMD, [], None))
  }

  function OnCommand(ep: Endpoint, m: Msg, run: HandlerRun): (r: Endpoint)
    ensures Keeps(ep, r)
  {
    var needRsp := Has(m.mtype, NEED_RSP);
    if Has(m.mtype, PING) then
      Transmit(Note(ep, Produced(m.seqNo, m.cmd, m.data, m.data, Echo)), m.(mtype := RESPONSE + PONG))
    else if m.cmd !in ep.cmds then
      if needRsp then Refuse(ep, m) else ep
    else
      match run
      case Undecodable => ep
      case Replies(data) => Respond(ep, m.seqNo, m.cmd, m.data, data, HandlerResult, needRsp)
      case Defers(before) =>
        var ready := before != [];
        var run := ep.(deferred := ep.deferred + [Deferred(m.seqNo, m.cmd, m.data, ready, needRsp && !ready)]);
        if ready then Respond(run, m.seqNo, m.cmd, m.data, before[0], DeferredResult, needRsp) else run
  }

  /** `rr->rsp(data)` after the handler has returned. */
  function OnDeferred(ep: Endpoint, k: nat, data: bytes): (r: Endpoint)
    requires k < |ep.deferred|
    ensures Keeps(ep, r)
  {
    var d := ep.deferred[k];
    if d.ready then ep
    else
      var marked := ep.(deferred := ep.deferred[k := d.(ready := true)]);
      Respond(marked, d.seqNo, d.cmd, d.payload, data, DeferredResult, d.senderSet)
  }

  /** `dispatch`. */
  function Dispatch(ep: Endpoint, m: Msg, run: HandlerRun, decodes: bool): (r: Endpoint)
    requires HandlersOwned(ep)
    ensures Keeps(ep, r)
  {
    if IsCommand(m) then OnCommand(ep, m, run)
    else if IsResponse(m) then OnResponse(ep, m, decodes)
    else ep
  }

  // ---- Steps ----

  datatype Op =
    | SetCmd(cmd: bytes) | SetMsg(payload: bytes) | SetPing | SetRsp(kind: RspKind) | EnableRsp | DisableRsp
    | SetRetry(count: int) | SetCanceled(canceled: bool) | Cancel | DoCall(bind: bool)

  function Apply(ep: Endpoint, id: nat, op: Op): (r: Endpoint)
    requires id < |ep.requests|
    ensures |r.requests| == |ep.requests| && Keeps(ep, r)
  {
    var r := ep.requests[id];
    match op
    case SetCmd(cmd) => WithRequest(ep, id, r.(cmd := cmd))
    case SetMsg(payload) => WithRequest(ep, id, r.(payload := payload))
    case SetPing => WithRequest(ep, id, r.(isPing := true))
    case SetRsp(kind) => WithRequest(ep, id, r.(needRsp := true, rspKind := Some(kind)))
    case EnableRsp => WithRequest(ep, id, r.(needRsp := true))
    case DisableRsp => WithRequest(ep, id, r.(needRsp := false))
    case SetRetry(count) => Note(WithRequest(ep, id, r.(retry := count)), RetrySet(id, count))
    case SetCanceled(canceled) => WithRequest(ep, id, r.(canceled := canceled))
    case Cancel => OnFinish(WithRequest(ep, id, r.(canceled := true)), id, Canceled)
    case DoCall(bind) => Call(ep, id, bind)
  }

  datatype Step =
    | Create(bound: bool)
    | User(id: nat, op: Op)
    | SetReady(ready: bool)
    | SetTimer(present: bool)
    | Subscribe(cmd: bytes, async: bool)
    | Unsubscribe(cmd: bytes)
    | Fire(seqNo: seqno)
    | RspLater(k: nat, data: bytes)
    | Receive(i: nat, run: HandlerRun, decodes: bool)

  /** `peer` is everything the other endpoint has sent. */
  predicate Enabled(ep: Endpoint, peer: seq<Msg>, step: Step) {
    match step
    case User(id, _) => id < |ep.requests|
    case Fire(seqNo) => seqNo in ep.armed
    case RspLater(k, _) => k < |ep.deferred|
    case Receive(i, run, _) => i < |peer| && (peer[i].cmd in ep.cmds ==> Possible(ep.cmds[peer[i].cmd], run))
    case _ => true
  }

  function Next(ep: Endpoint, peer: seq<Msg>, step: Step): (r: Endpoint)
    requires HandlersOwned(ep) && Enabled(ep, peer, step)
    ensures Keeps(ep, r)
  {
    match step
    case Create(bound) => ep.(requests := ep.requests + [NewRequest(bound)])
    case User(id, op) => Apply(ep, id, op)
    case SetReady(ready) => ep.(ready := ready)
    case SetTimer(present) => ep.(timerSet := present)
    case Subscribe(cmd, async) => ep.(cmds := ep.cmds[cmd := async])
    case Unsubscribe(cmd) => ep.(cmds := ep.cmds - {cmd})
    case Fire(seqNo) => FireTimer(ep, seqNo)
    case RspLater(k, data) => OnDeferred(ep, k, data)
    case Receive(i, run, decodes) => Dispatch(ep, peer[i], run, decodes)
  }
}

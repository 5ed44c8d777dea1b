/** What every step of one endpoint keeps: the books on calls and endings, on registered numbers, on retries. */
module Accounting {
  import opened Bytes
  import opened MsgWrapper
  import opened Protocol
  import opened Runs
  import Coder

  function Bit(b: bool): nat {
    if b then 1 else 0
  }

  // ---- Counting in a growing log ----

  lemma {:induction false} CountGrows(q: Query, log: seq<Event>, log': seq<Event>, k: nat)
    requires log <= log' && |log| <= k < |log'| && Weight(q, log'[k]) > 0
    ensures Count(q, log) < Count(q, log')
    decreases |log'|
  {
    hide Weight;
    if k < |log'| - 1 {
      CountGrows(q, log, Init(log'), k);
    } else {
      CountMonotone(q, log, Init(log'));
    }
  }

  lemma {:induction false} CountMonotone(q: Query, log: seq<Event>, log': seq<Event>)
    requires log <= log'
    ensures Count(q, log) <= Count(q, log')
    decreases |log'|
  {
    hide Weight;
    if |log| < |log'| {
      CountMonotone(q, log, Init(log'));
    } else {
      assert log == log';
    }
  }

  lemma CountTwice(q: Query, log: seq<Event>, log': seq<Event>, i: nat, j: nat)
    requires log <= log' && |log| <= i < j < |log'| && Weight(q, log'[i]) > 0 && Weight(q, log'[j]) > 0
    ensures Count(q, log) + 2 <= Count(q, log')
  {
    hide Weight, Count;
    assert log <= log'[..j] && log'[..j][i] == log'[i];
    CountGrows(q, log, log'[..j], i);
    CountGrows(q, log'[..j], log', j);
  }

  // ---- Answering the peer leaves an endpoint's own requests alone ----

  ghost predicate SameBooks(ep: Endpoint, ep': Endpoint) {
    && ep'.requests == ep.requests && ep'.handlers == ep.handlers && ep'.armed == ep.armed && ep'.drawn == ep.drawn
    && ep'.timerSet == ep.timerSet
    && (forall q :: Count(q, ep'.log) == Count(q, ep.log))
    && (forall id :: LastRetrySet(id, ep'.log) == LastRetrySet(id, ep.log))
    && (forall id :: RetriesSince(id, ep'.log) == RetriesSince(id, ep.log))
  }

  lemma RespondSameBooks(ep: Endpoint, seqNo: seqno, cmd: bytes, payload: bytes, data: bytes, origin: Origin,
      send: bool)
    ensures SameBooks(ep, Respond(ep, seqNo, cmd, payload, data, origin, send))
  {
    hide Count, LastRetrySet, RetriesSince, Coder.Wire;
  }

  lemma CommandSameBooks(ep: Endpoint, m: Msg, run: HandlerRun)
    ensures SameBooks(ep, OnCommand(ep, m, run))
  {
    hide Count, LastRetrySet, RetriesSince, Coder.Wire, Has, Respond, Refuse;
    var needRsp := Has(m.mtype, NEED_RSP);
    RefuseSameBooks(ep, m);
    match run
    case Replies(data) => RespondSameBooks(ep, m.seqNo, m.cmd, m.data, data, HandlerResult, needRsp);
    case Defers(before) => DeferSameBooks(ep, m, before, needRsp);
    case Undecodable =>
  }

  lemma RefuseSameBooks(ep: Endpoint, m: Msg)
    ensures SameBooks(ep, Refuse(ep, m))
  {
    hide Count, LastRetrySet, RetriesSince, Coder.Wire;
  }

  /** A `request_response` more, and the reply it may already hold. */
  lemma DeferSameBooks(ep: Endpoint, m: Msg, before: seq<bytes>, needRsp: bool)
    ensures var d := Deferred(m.seqNo, m.cmd, m.data, before != [], needRsp && before == []);
            var run := ep.(deferred := ep.deferred + [d]);
            && SameBooks(ep, run)
            && (before != [] ==>
                  SameBooks(ep, Respond(run, m.seqNo, m.cmd, m.data, before[0], DeferredResult, needRsp)))
  {
    hide Count, LastRetrySet, RetriesSince, Coder.Wire, Respond;
    if before != [] {
      var d := Deferred(m.seqNo, m.cmd, m.data, true, false);
      RespondSameBooks(ep.(deferred := ep.deferred + [d]), m.seqNo, m.cmd, m.data, before[0], DeferredResult, needRsp);
    }
  }

  lemma DeferredSameBooks(ep: Endpoint, k: nat, data: bytes)
    requires k < |ep.deferred|
    ensures SameBooks(ep, OnDeferred(ep, k, data))
  {
    hide Count, LastRetrySet, RetriesSince, Coder.Wire;
  }

  // ---- One call, one finally ----

  /**
   Endings plus the one still to come equal the calls entered while not waiting; the keeper is held exactly while
   waiting.
   */
  predicate Accounts(ep: Endpoint, id: nat) {
    if id < |ep.requests| then
      && Count(FinallyOf(id), ep.log) + Bit(ep.requests[id].waiting) == Count(IdleCallsOf(id), ep.log)
      && ep.requests[id].keeper == ep.requests[id].waiting
    else Count(FinallyOf(id), ep.log) == 0 == Count(IdleCallsOf(id), ep.log)
  }

  lemma LaunchAccounts(ep: Endpoint, target: nat, id: nat)
    requires target < |ep.requests| && Accounts(ep, id) && ep.requests[target].waiting
    ensures Accounts(Launch(ep, target), id)
  {
    hide Count, LastRetrySet, RetriesSince, Coder.Wire, CommandOf, CommandType, HandlersOwned;
  }

  lemma KeptAccounts(ep: Endpoint, target: nat, bind: bool, id: nat)
    requires target < |ep.requests| && Accounts(ep, id)
    ensures Accounts(Keep(Enter(ep, target), target, bind), id)
  {
    hide Count, LastRetrySet, RetriesSince;
  }

  lemma CanceledAccounts(ep: Endpoint, target: nat, id: nat)
    requires target < |ep.requests| && Accounts(ep, id)
    ensures Accounts(OnFinish(Enter(ep, target), target, Canceled), id)
  {
    hide Count, LastRetrySet, RetriesSince;
  }

  lemma CallAccounts(ep: Endpoint, target: nat, bind: bool, id: nat)
    requires target < |ep.requests| && Accounts(ep, id)
    ensures Accounts(Call(ep, target, bind), id)
  {
    hide Accounts, HandlersOwned, Launch, OnFinish, Count, LastRetrySet, RetriesSince;
    var kept := Keep(Enter(ep, target), target, bind);
    CanceledAccounts(ep, target, id);
    KeptAccounts(ep, target, bind, id);
    FinishAccounts(kept, target, RpcExpired, id);
    FinishAccounts(kept, target, RpcNotReady, id);
    EnteredWaits(ep, target, bind);
    LaunchAccounts(kept, target, id);
  }

  lemma EnteredWaits(ep: Endpoint, target: nat, bind: bool)
    requires target < |ep.requests|
    ensures Keep(Enter(ep, target), target, bind).requests[target].waiting
  {
  }

  lemma FinishAccounts(ep: Endpoint, target: nat, outcome: Outcome, id: nat)
    requires target < |ep.requests| && Accounts(ep, id)
    ensures Accounts(OnFinish(ep, target, outcome), id)
  {
    hide Count, LastRetrySet, RetriesSince;
  }

  lemma FireAccounts(ep: Endpoint, s: seqno, id: nat)
    requires HandlersOwned(ep) && Accounts(ep, id)
    ensures Accounts(FireTimer(ep, s), id)
  {
    hide Count, LastRetrySet, RetriesSince, Call, OnFinish;
    if s in ep.handlers {
      var target := ep.handlers[s].id;
      CallAccounts(SpendRetry(Expire(ep, s), target), target, false, id);
      FinishAccounts(Expire(ep, s), target, Timeout, id);
    }
  }

  lemma ResponseAccounts(ep: Endpoint, m: Msg, decodes: bool, id: nat)
    requires HandlersOwned(ep) && Accounts(ep, id)
    ensures Accounts(OnResponse(ep, m, decodes), id)
  {
    hide Count, LastRetrySet, RetriesSince, Has, RspCalls, RspOutcome, OnFinish;
    if m.seqNo in ep.handlers {
      var h := ep.handlers[m.seqNo];
      var answered := Note(ep, Answered(h.id, m.seqNo, m));
      var outcome := RspOutcome(ep.requests[h.id].canceled, Has(m.mtype, NO_SUCH_CMD), h.kind, decodes);
      FinishAccounts(RunCallback(answered, h, m, decodes), h.id, outcome, id);
    }
  }

  lemma ApplyAccounts(ep: Endpoint, target: nat, op: Op, id: nat)
    requires target < |ep.requests| && Accounts(ep, id)
    ensures Accounts(Apply(ep, target, op), id)
  {
    hide Count, LastRetrySet, RetriesSince, HandlersOwned, Call;
    if op.DoCall? {
      CallAccounts(ep, target, op.bind, id);
    }
  }

  lemma NextAccounts(ep: Endpoint, peer: seq<Msg>, step: Step, id: nat)
    requires HandlersOwned(ep) && Enabled(ep, peer, step) && Accounts(ep, id)
    ensures Accounts(Next(ep, peer, step), id)
  {
    hide Count, Apply, FireTimer, OnDeferred, OnCommand, OnResponse, IsCommand, IsResponse;
    match step
    case User(target, op) => ApplyAccounts(ep, target, op, id);
    case Fire(s) => FireAccounts(ep, s, id);
    case RspLater(k, data) => DeferredSameBooks(ep, k, data);
    case Receive(i, run, decodes) =>
      CommandSameBooks(ep, peer[i], run);
      ResponseAccounts(ep, peer[i], decodes, id);
    case _ =>
  }

  /** One call, one finally, in every reachable state. */
  lemma {:induction false} OneCallOneFinally(acts: seq<Act>, onLeft: bool, id: nat)
    requires Legal(START, acts)
    ensures Accounts(Exec(START, acts).Of(onLeft), id)
    decreases |acts|
  {
    hide Accounts, Next;
    if acts == [] {
      StartAccounts(id);
    } else {
      OneCallOneFinally(Init(acts), onLeft, id);
      var p, a := Exec(START, Init(acts)), Last(acts);
      if a.onLeft == onLeft {
        NextAccounts(p.Of(onLeft), p.Peer(onLeft), a.step, id);
      }
    }
  }

  lemma StartAccounts(id: nat)
    ensures Accounts(EMPTY, id)
  {
  }

  // ---- A number is resolved at most once ----

  /** Registrations of a number that are neither resolved nor still in the table. */
  function Balance(ep: Endpoint, s: seqno): int {
    Count(Registrations(s), ep.log) - Count(Resolutions(s), ep.log) - Bit(s in ep.handlers)
  }

  predicate Resolves(ep: Endpoint, s: seqno) {
    && Balance(ep, s) == 0
    && Count(Registrations(s), ep.log) <= Count(SendsUnder(s), ep.log) == Bit(s < ep.drawn)
  }

  /**
   Between two states the books of `s` keep their balance; `s` is sent exactly when its turn comes, and registered at
   most then.
   */
  ghost predicate Carries(ep: Endpoint, ep': Endpoint, s: seqno) {
    && ep.drawn <= ep'.drawn
    && Balance(ep', s) == Balance(ep, s)
    && (s in ep.handlers ==> s in ep'.handlers)
    && Count(Registrations(s), ep'.log) <= Count(Registrations(s), ep.log) + Bit(ep.drawn <= s < ep'.drawn)
    && Count(SendsUnder(s), ep'.log) == Count(SendsUnder(s), ep.log) + Bit(ep.drawn <= s < ep'.drawn)
  }

  lemma LaunchDraws(ep: Endpoint, target: nat)
    requires target < |ep.requests|
    ensures Launch(ep, target).drawn == ep.drawn + 1
  {
  }

  lemma LaunchCarries(ep: Endpoint, target: nat, s: seqno)
    requires target < |ep.requests| && ep.drawn < WORD32
    requires s >= ep.drawn ==> s !in ep.handlers
    ensures Carries(ep, Launch(ep, target), s)
  {
    hide Count, LastRetrySet, RetriesSince, Coder.Wire, CommandOf, CommandType, HandlersOwned;
    CommandNumber(ep.requests[target].(seqNo := ep.drawn % WORD32));
  }

  lemma CommandNumber(r: Request)
    ensures Coder.Wire(CommandOf(r)).seqNo == r.seqNo
  {
  }

  lemma EnterCarries(ep: Endpoint, target: nat, bind: bool, s: seqno)
    requires target < |ep.requests|
    ensures var entered, kept := Enter(ep, target), Keep(Enter(ep, target), target, bind);
            && |entered.requests| == |kept.requests| == |ep.requests|
            && Carries(ep, entered, s) && entered.drawn == ep.drawn && entered.handlers == ep.handlers
            && Carries(ep, kept, s) && kept.drawn == ep.drawn && kept.handlers == ep.handlers
  {
    hide Count, LastRetrySet, RetriesSince;
  }

  lemma FinishCarries(ep: Endpoint, target: nat, outcome: Outcome, s: seqno)
    requires target < |ep.requests|
    ensures Carries(ep, OnFinish(ep, target, outcome), s) && OnFinish(ep, target, outcome).drawn == ep.drawn
  {
    hide Count, LastRetrySet, RetriesSince;
  }

  lemma CallCarries(ep: Endpoint, target: nat, bind: bool, s: seqno)
    requires target < |ep.requests| && Call(ep, target, bind).drawn <= WORD32
    requires s >= ep.drawn ==> s !in ep.handlers
    ensures Carries(ep, Call(ep, target, bind), s)
  {
    hide Count, LastRetrySet, RetriesSince, HandlersOwned, Launch, Enter, Keep, OnFinish;
    EnterCarries(ep, target, bind, s);
    var entered, kept := Enter(ep, target), Keep(Enter(ep, target), target, bind);
    FinishCarries(entered, target, Canceled, s);
    FinishCarries(kept, target, RpcExpired, s);
    FinishCarries(kept, target, RpcNotReady, s);
    LaunchDraws(kept, target);
    if ep.drawn < WORD32 {
      LaunchCarries(kept, target, s);
    }
  }

  lemma TimeoutCarries(ep: Endpoint, target: nat, s: seqno)
    requires target < |ep.requests| && OnTimeout(ep, target).drawn <= WORD32
    requires s >= ep.drawn ==> s !in ep.handlers
    ensures Carries(ep, OnTimeout(ep, target), s)
  {
    hide Count, LastRetrySet, RetriesSince, HandlersOwned, Call;
    if RetriesLeft(ep.requests[target]) {
      CallCarries(SpendRetry(ep, target), target, false, s);
    }
  }

  lemma FireResolves(ep: Endpoint, t: seqno, s: seqno)
    requires HandlersOwned(ep) && Resolves(ep, s) && FireTimer(ep, t).drawn <= WORD32
    ensures Resolves(FireTimer(ep, t), s)
  {
    hide Count, LastRetrySet, RetriesSince, OnTimeout;
    if t in ep.handlers {
      var target := ep.handlers[t].id;
      TimeoutCarries(Expire(ep, t), target, s);
    }
  }

  lemma HandleRspCarries(ep: Endpoint, h: Handler, m: Msg, decodes: bool, s: seqno)
    requires h.id < |ep.requests|
    ensures Carries(ep, HandleRsp(ep, h, m, decodes), s) && HandleRsp(ep, h, m, decodes).drawn == ep.drawn
  {
    hide Count, LastRetrySet, RetriesSince, Has, HandlersOwned, RspCalls, RspOutcome;
  }

  lemma ResponseResolves(ep: Endpoint, m: Msg, decodes: bool, s: seqno)
    requires HandlersOwned(ep) && Resolves(ep, s)
    ensures Resolves(OnResponse(ep, m, decodes), s)
  {
    hide Count, LastRetrySet, RetriesSince, HandleRsp;
    if m.seqNo in ep.handlers {
      var h := ep.handlers[m.seqNo];
      HandleRspCarries(Note(ep, Answered(h.id, m.seqNo, m)), h, m, decodes, s);
    }
  }

  lemma ApplyResolves(ep: Endpoint, target: nat, op: Op, s: seqno)
    requires target < |ep.requests| && Resolves(ep, s) && Apply(ep, target, op).drawn <= WORD32
    ensures Resolves(Apply(ep, target, op), s)
  {
    hide Count, LastRetrySet, RetriesSince, HandlersOwned, Call;
    if op.DoCall? {
      CallCarries(ep, target, op.bind, s);
    }
  }

  lemma NextResolves(ep: Endpoint, peer: seq<Msg>, step: Step, s: seqno)
    requires HandlersOwned(ep) && Enabled(ep, peer, step) && Resolves(ep, s)
    requires Next(ep, peer, step).drawn <= WORD32
    ensures Resolves(Next(ep, peer, step), s)
  {
    hide Count, Apply, FireTimer, OnDeferred, OnCommand, OnResponse, IsCommand, IsResponse;
    match step
    case User(target, op) => ApplyResolves(ep, target, op, s);
    case Fire(t) => FireResolves(ep, t, s);
    case RspLater(k, data) => DeferredSameBooks(ep, k, data);
    case Receive(i, run, decodes) =>
      CommandSameBooks(ep, peer[i], run);
      ResponseResolves(ep, peer[i], decodes, s);
    case _ =>
  }

  lemma {:induction false} EveryNumberResolves(acts: seq<Act>, onLeft: bool, s: seqno)
    requires Legal(START, acts) && NoWrap(Exec(START, acts))
    ensures Resolves(Exec(START, acts).Of(onLeft), s)
    decreases |acts|
  {
    hide Resolves, Next;
    if acts == [] {
      StartResolves(s);
    } else {
      var p, a := Exec(START, Init(acts)), Last(acts);
      NoWrapBefore(p, a);
      EveryNumberResolves(Init(acts), onLeft, s);
      if a.onLeft == onLeft {
        NextResolves(p.Of(onLeft), p.Peer(onLeft), a.step, s);
      }
    }
  }

  lemma StartResolves(s: seqno)
    ensures Resolves(EMPTY, s)
  {
  }

  /** Every number drawn goes out in exactly one command, so the commands of a run carry distinct numbers. */
  lemma {:induction false} OneCommandPerNumber(acts: seq<Act>, onLeft: bool, s: seqno)
    requires Legal(START, acts) && NoWrap(Exec(START, acts))
    ensures var ep := Exec(START, acts).Of(onLeft); Count(SendsUnder(s), ep.log) == Bit(s < ep.drawn)
  {
    hide Count, Exec, Legal;
    EveryNumberResolves(acts, onLeft, s);
  }

  /** Whatever is duplicated or late, a number's response handler and timeout callback run at most once between them. */
  lemma {:induction false} ResolvedAtMostOnce(acts: seq<Act>, onLeft: bool, s: seqno)
    requires Legal(START, acts) && NoWrap(Exec(START, acts))
    ensures var ep := Exec(START, acts).Of(onLeft);
            && Count(Resolutions(s), ep.log) <= 1
            && (Count(Resolutions(s), ep.log) == 1 ==> s !in ep.handlers)
  {
    hide Count, Exec, Legal;
    EveryNumberResolves(acts, onLeft, s);
  }

  // ---- Retries ----

  /** The retries made since the count was set and those still allowed add up to it; a negative count is never spent. */
  predicate RetriesBalance(ep: Endpoint, id: nat) {
    && (id < |ep.requests| && LastRetrySet(id, ep.log) >= 0 ==>
          0 <= ep.requests[id].retry == LastRetrySet(id, ep.log) - RetriesSince(id, ep.log))
    && (id < |ep.requests| && LastRetrySet(id, ep.log) < 0 ==> ep.requests[id].retry == LastRetrySet(id, ep.log))
    && (id >= |ep.requests| ==> LastRetrySet(id, ep.log) == 0 == RetriesSince(id, ep.log))
  }

  lemma LaunchKeepsRetries(ep: Endpoint, target: nat, id: nat)
    requires target < |ep.requests| && RetriesBalance(ep, id)
    ensures RetriesBalance(Launch(ep, target), id)
  {
    hide Count, LastRetrySet, RetriesSince, Coder.Wire, CommandOf, CommandType, HandlersOwned;
  }

  lemma CallKeepsRetries(ep: Endpoint, target: nat, bind: bool, id: nat)
    requires target < |ep.requests| && RetriesBalance(ep, id)
    ensures RetriesBalance(Call(ep, target, bind), id)
  {
    hide Count, LastRetrySet, RetriesSince, HandlersOwned, Launch;
    LaunchKeepsRetries(Keep(Enter(ep, target), target, bind), target, id);
  }

  lemma FireKeepsRetries(ep: Endpoint, s: seqno, id: nat)
    requires HandlersOwned(ep) && RetriesBalance(ep, id)
    ensures RetriesBalance(FireTimer(ep, s), id)
  {
    hide Count, LastRetrySet, RetriesSince, Call;
    if s in ep.handlers {
      var target := ep.handlers[s].id;
      if RetriesLeft(ep.requests[target]) {
        CallKeepsRetries(SpendRetry(Expire(ep, s), target), target, false, id);
      }
    }
  }

  lemma ResponseKeepsRetries(ep: Endpoint, m: Msg, decodes: bool, id: nat)
    requires HandlersOwned(ep) && RetriesBalance(ep, id)
    ensures RetriesBalance(OnResponse(ep, m, decodes), id)
  {
    hide Count, LastRetrySet, RetriesSince, Has, RspCalls, RspOutcome, OnFinish;
    if m.seqNo in ep.handlers {
      var h := ep.handlers[m.seqNo];
      var called := RunCallback(Note(ep, Answered(h.id, m.seqNo, m)), h, m, decodes);
      FinishKeepsRetries(called, h.id,
        RspOutcome(ep.requests[h.id].canceled, Has(m.mtype, NO_SUCH_CMD), h.kind, decodes), id);
    }
  }

  lemma FinishKeepsRetries(ep: Endpoint, target: nat, outcome: Outcome, id: nat)
    requires target < |ep.requests| && RetriesBalance(ep, id)
    ensures RetriesBalance(OnFinish(ep, target, outcome), id)
  {
    hide Count, LastRetrySet, RetriesSince;
  }

  lemma ApplyKeepsRetries(ep: Endpoint, target: nat, op: Op, id: nat)
    requires target < |ep.requests| && RetriesBalance(ep, id)
    ensures RetriesBalance(Apply(ep, target, op), id)
  {
    hide Count, LastRetrySet, RetriesSince, HandlersOwned, Call;
    if op.DoCall? {
      CallKeepsRetries(ep, target, op.bind, id);
    }
  }

  lemma NextKeepsRetries(ep: Endpoint, peer: seq<Msg>, step: Step, id: nat)
    requires HandlersOwned(ep) && Enabled(ep, peer, step) && RetriesBalance(ep, id)
    ensures RetriesBalance(Next(ep, peer, step), id)
  {
    hide Count, LastRetrySet, RetriesSince, Apply, FireTimer, OnDeferred, OnCommand, OnResponse, IsCommand, IsResponse;
    match step
    case User(target, op) => ApplyKeepsRetries(ep, target, op, id);
    case Fire(s) => FireKeepsRetries(ep, s, id);
    case RspLater(k, data) => DeferredSameBooks(ep, k, data);
    case Receive(i, run, decodes) =>
      CommandSameBooks(ep, peer[i], run);
      ResponseKeepsRetries(ep, peer[i], decodes, id);
    case _ =>
  }

  /**
   Over any run: timeout-driven calls plus the remaining count equal the count last set, when that is not negative; a
   negative count stays as it was set.
   */
  lemma {:induction false} RetriesAddUp(acts: seq<Act>, onLeft: bool, id: nat)
    requires Legal(START, acts)
    ensures RetriesBalance(Exec(START, acts).Of(onLeft), id)
    decreases |acts|
  {
    hide RetriesBalance, Next;
    if acts == [] {
      StartRetries(id);
    } else {
      RetriesAddUp(Init(acts), onLeft, id);
      var p, a := Exec(START, Init(acts)), Last(acts);
      if a.onLeft == onLeft {
        NextKeepsRetries(p.Of(onLeft), p.Peer(onLeft), a.step, id);
      }
    }
  }

  lemma StartRetries(id: nat)
    ensures RetriesBalance(EMPTY, id)
  {
  }
}

/** No request is lost, and outstanding requests drain. */
module Drain {
  import opened Bytes
  import opened MsgWrapper
  import opened Protocol
  import opened Runs
  import opened Calls
  import Accounting

  // ---- A waiting request is in the table ----

  /** Every entry of the table has been drawn and, those in `spent` aside, has its timer running. */
  predicate TableArmed(ep: Endpoint, spent: set<seqno>) {
    AllDrawn(ep) && forall s :: s in ep.handlers ==> s in ep.armed || s in spent
  }

  predicate AllDrawn(ep: Endpoint) {
    forall s :: s in ep.handlers ==> s < ep.drawn
  }

  /** If the request waits, its latest number is in the table as its own. */
  predicate Awaited(ep: Endpoint, id: nat) {
    id < |ep.requests| && ep.requests[id].waiting ==>
      ep.requests[id].seqNo in ep.handlers && ep.handlers[ep.requests[id].seqNo].id == id
  }

  ghost predicate NoneLostBut(ep: Endpoint, spent: set<seqno>) {
    HandlersOwned(ep) && TableArmed(ep, spent) && forall id: nat :: Awaited(ep, id)
  }

  /** Whoever waits has its number in the table with its timer running. */
  ghost predicate NoneLost(ep: Endpoint) {
    NoneLostBut(ep, {})
  }

  /** The call sends a command that needs a response, but there is no callback or no timer to subscribe with. */
  predicate Loses(ep: Endpoint, id: nat, bind: bool)
    requires id < |ep.requests|
  {
    Proceeds(ep, id, bind) && ep.requests[id].needRsp && (ep.requests[id].rspKind.None? || !ep.timerSet)
  }

  /** The step is such a call, by the user or by a timer that retries. */
  predicate Losing(ep: Endpoint, peer: seq<Msg>, step: Step)
    requires HandlersOwned(ep) && Enabled(ep, peer, step)
  {
    match step
    case User(id, op) => op.DoCall? && Loses(ep, id, op.bind)
    case Fire(s) => s in ep.handlers && RetriesLeft(ep.requests[ep.handlers[s].id])
      && Loses(ep, ep.handlers[s].id, false)
    case _ => false
  }

  /** Whoever makes it, a call leaves its request waiting for nothing exactly when it loses it. */
  lemma CallLosesExactly(ep: Endpoint, id: nat, bind: bool)
    requires id < |ep.requests| && AllDrawn(ep) && ep.drawn < WORD32
    ensures !Awaited(Call(ep, id, bind), id) <==> Loses(ep, id, bind)
  {
    hide Call, CallEvents, Refusal;
    CallShape(ep, id, bind);
  }

  /**
   A state that differs from `ep` in one request, which has stopped waiting or awaits the same number, loses nobody.
   */
  lemma SameAwaits(ep: Endpoint, r: Endpoint, spent: set<seqno>)
    requires NoneLostBut(ep, spent)
    requires r.handlers == ep.handlers && r.armed == ep.armed && r.drawn == ep.drawn && |r.requests| >= |ep.requests|
    requires forall j :: 0 <= j < |r.requests| && r.requests[j].waiting ==>
               j < |ep.requests| && ep.requests[j].waiting && r.requests[j].seqNo == ep.requests[j].seqNo
    ensures NoneLostBut(r, spent)
  {
    forall j: nat
      ensures Awaited(r, j)
    {
      assert Awaited(ep, j);
    }
  }

  lemma CallKeepsNoneLost(ep: Endpoint, id: nat, bind: bool, spent: set<seqno>)
    requires id < |ep.requests| && !Loses(ep, id, bind) && NoneLostBut(ep, spent) && Call(ep, id, bind).drawn <= WORD32
    ensures NoneLostBut(Call(ep, id, bind), spent)
    ensures var r := Call(ep, id, bind); r.requests[id].waiting ==> r.requests[id].seqNo == ep.drawn
    ensures forall s :: s in ep.handlers ==>
        s in Call(ep, id, bind).handlers && Call(ep, id, bind).handlers[s] == ep.handlers[s]
  {
    hide Call, CallEvents, Count, Refusal;
    CallShape(ep, id, bind);
    var r := Call(ep, id, bind);
    forall j: nat | j != id
      ensures Awaited(r, j)
    {
      assert Awaited(ep, j);
    }
  }

  lemma FinishKeepsNoneLost(ep: Endpoint, id: nat, outcome: Outcome, spent: set<seqno>)
    requires id < |ep.requests| && NoneLostBut(ep, spent)
    ensures NoneLostBut(OnFinish(ep, id, outcome), spent) && !OnFinish(ep, id, outcome).requests[id].waiting
    ensures OnFinish(ep, id, outcome).handlers == ep.handlers
  {
    hide Count, LastRetrySet, RetriesSince;
    SameAwaits(ep, OnFinish(ep, id, outcome), spent);
  }

  /** Erasing an entry whose request has moved on loses nobody, and its spent timer no longer matters. */
  lemma EraseKeepsNoneLost(ep: Endpoint, s: seqno, spent: set<seqno>)
    requires NoneLostBut(ep, spent) && s in ep.handlers && spent <= {s}
    requires var r := ep.requests[ep.handlers[s].id]; r.waiting ==> r.seqNo != s
    ensures NoneLost(Erase(ep, s))
  {
    var gone := Erase(ep, s);
    forall j: nat
      ensures Awaited(gone, j)
    {
      assert Awaited(ep, j);
    }
  }

  lemma ExpireKeepsNoneLost(ep: Endpoint, s: seqno)
    requires NoneLost(ep) && s in ep.handlers
    ensures NoneLostBut(Expire(ep, s), {s})
  {
    hide Count, LastRetrySet, RetriesSince;
    var r := Expire(ep, s);
    forall j: nat
      ensures Awaited(r, j)
    {
      assert Awaited(ep, j);
    }
  }

  lemma FireKeepsNoneLost(ep: Endpoint, s: seqno)
    requires NoneLost(ep) && FireTimer(ep, s).drawn <= WORD32
    requires s in ep.handlers && RetriesLeft(ep.requests[ep.handlers[s].id]) ==> !Loses(ep, ep.handlers[s].id, false)
    ensures NoneLost(FireTimer(ep, s))
  {
    hide Call, Count, LastRetrySet, RetriesSince, OnFinish, Expire;
    if s in ep.handlers {
      var id, expired := ep.handlers[s].id, Expire(ep, s);
      ExpireKeepsNoneLost(ep, s);
      ExpireFields(ep, s);
      if RetriesLeft(ep.requests[id]) {
        var again := SpendRetry(expired, id);
        SameAwaits(expired, again, {s});
        CallKeepsNoneLost(again, id, false, {s});
        EraseKeepsNoneLost(Call(again, id, false), s, {s});
      } else {
        FinishKeepsNoneLost(expired, id, Timeout, {s});
        EraseKeepsNoneLost(OnFinish(expired, id, Timeout), s, {s});
      }
    } else {
      var r := FireTimer(ep, s);
      forall j: nat
        ensures Awaited(r, j)
      {
        assert Awaited(ep, j);
      }
    }
  }

  lemma ExpireFields(ep: Endpoint, s: seqno)
    requires s in ep.handlers
    ensures var r := Expire(ep, s);
            r.requests == ep.requests && r.handlers == ep.handlers && r.drawn == ep.drawn && r.timerSet == ep.timerSet
              && r.ready == ep.ready
  {
  }

  lemma ResponseKeepsNoneLost(ep: Endpoint, m: Msg, decodes: bool)
    requires NoneLost(ep)
    ensures NoneLost(OnResponse(ep, m, decodes))
  {
    hide Count, LastRetrySet, RetriesSince, Has, RspCalls, RspOutcome, OnFinish;
    if m.seqNo in ep.handlers {
      var h := ep.handlers[m.seqNo];
      var called := RunCallback(Note(ep, Answered(h.id, m.seqNo, m)), h, m, decodes);
      SameAwaits(ep, called, {});
      var outcome := RspOutcome(ep.requests[h.id].canceled, Has(m.mtype, NO_SUCH_CMD), h.kind, decodes);
      FinishKeepsNoneLost(called, h.id, outcome, {});
      EraseKeepsNoneLost(OnFinish(called, h.id, outcome), m.seqNo, {});
    }
  }

  lemma ApplyKeepsNoneLost(ep: Endpoint, id: nat, op: Op)
    requires id < |ep.requests| && NoneLost(ep) && Apply(ep, id, op).drawn <= WORD32
    requires op.DoCall? ==> !Loses(ep, id, op.bind)
    ensures NoneLost(Apply(ep, id, op))
  {
    hide Count, LastRetrySet, RetriesSince, Call, OnFinish;
    match op
    case DoCall(bind) => CallKeepsNoneLost(ep, id, bind, {});
    case Cancel =>
      var canceled := WithRequest(ep, id, ep.requests[id].(canceled := true));
      SameAwaits(ep, canceled, {});
      FinishKeepsNoneLost(canceled, id, Canceled, {});
    case _ => SameAwaits(ep, Apply(ep, id, op), {});
  }

  lemma NextKeepsNoneLost(ep: Endpoint, peer: seq<Msg>, step: Step)
    requires NoneLost(ep) && Enabled(ep, peer, step) && Next(ep, peer, step).drawn <= WORD32 && !Losing(ep, peer, step)
    ensures NoneLost(Next(ep, peer, step))
  {
    hide Apply, FireTimer, OnDeferred, OnCommand, OnResponse, IsCommand, IsResponse, Count, LastRetrySet, RetriesSince;
    var r := Next(ep, peer, step);
    match step
    case User(id, op) => ApplyKeepsNoneLost(ep, id, op);
    case Fire(s) => FireKeepsNoneLost(ep, s);
    case RspLater(k, data) =>
      Accounting.DeferredSameBooks(ep, k, data);
      SameAwaits(ep, r, {});
    case Receive(i, run, decodes) =>
      Accounting.CommandSameBooks(ep, peer[i], run);
      SameAwaits(ep, OnCommand(ep, peer[i], run), {});
      ResponseKeepsNoneLost(ep, peer[i], decodes);
    case _ => SameAwaits(ep, r, {});
  }

  /** A losing call by a timer: the new number is in no table, and erasing the old one does not help. */
  lemma FireLoses(ep: Endpoint, s: seqno)
    requires NoneLost(ep) && s in ep.handlers && FireTimer(ep, s).drawn <= WORD32
    requires RetriesLeft(ep.requests[ep.handlers[s].id]) && Loses(ep, ep.handlers[s].id, false)
    ensures !Awaited(FireTimer(ep, s), ep.handlers[s].id)
  {
    hide Call, Count, LastRetrySet, RetriesSince, Expire;
    var id, expired := ep.handlers[s].id, Expire(ep, s);
    ExpireFields(ep, s);
    var again := SpendRetry(expired, id);
    CallShape(again, id, false);
    CallLosesExactly(again, id, false);
  }

  /** From a state that has lost nobody, a step loses somebody exactly when it is a losing call. */
  lemma NextLosesExactly(ep: Endpoint, peer: seq<Msg>, step: Step)
    requires NoneLost(ep) && Enabled(ep, peer, step) && Next(ep, peer, step).drawn <= WORD32
    ensures NoneLost(Next(ep, peer, step)) <==> !Losing(ep, peer, step)
  {
    hide Call, FireTimer, OnDeferred, OnCommand, OnResponse, IsCommand, IsResponse, Count, LastRetrySet, RetriesSince,
      Loses;
    if !Losing(ep, peer, step) {
      NextKeepsNoneLost(ep, peer, step);
    } else if step.User? {
      LosingDraws(ep, step.id, step.op.bind);
      CallLosesExactly(ep, step.id, step.op.bind);
      assert !Awaited(Next(ep, peer, step), step.id);
    } else {
      FireLoses(ep, step.seqNo);
      assert !Awaited(Next(ep, peer, step), ep.handlers[step.seqNo].id);
    }
  }

  lemma LosingDraws(ep: Endpoint, id: nat, bind: bool)
    requires id < |ep.requests| && Loses(ep, id, bind)
    ensures Call(ep, id, bind).drawn == ep.drawn + 1
  {
    hide Call;
    CallShape(ep, id, bind);
  }

  /** No act of this side in the run is a losing call. */
  ghost predicate NeverLosing(p: Pair, acts: seq<Act>, onLeft: bool)
    requires p.Owned() && Legal(p, acts)
    decreases |acts|
  {
    acts != [] ==>
      var q, a := Exec(p, Init(acts)), Last(acts);
      NeverLosing(p, Init(acts), onLeft) && (a.onLeft == onLeft ==> !Losing(q.Of(onLeft), q.Peer(onLeft), a.step))
  }

  /** In no state of the run has this side lost a request. */
  ghost predicate AlwaysNoneLost(p: Pair, acts: seq<Act>, onLeft: bool)
    requires p.Owned() && Legal(p, acts)
    decreases |acts|
  {
    NoneLost(Exec(p, acts).Of(onLeft)) && (acts != [] ==> AlwaysNoneLost(p, Init(acts), onLeft))
  }

  /** Over runs: whoever waits is awaited, in every state, if and only if no losing call is made. */
  lemma {:induction false} NoneLostExactly(p: Pair, acts: seq<Act>, onLeft: bool)
    requires p.Owned() && NoneLost(p.Of(onLeft)) && Legal(p, acts) && NoWrap(Exec(p, acts))
    ensures AlwaysNoneLost(p, acts, onLeft) <==> NeverLosing(p, acts, onLeft)
    decreases |acts|
  {
    hide NoneLost, Next, Losing;
    if acts != [] {
      var q, a := Exec(p, Init(acts)), Last(acts);
      NoWrapBefore(q, a);
      NoneLostExactly(p, Init(acts), onLeft);
      if a.onLeft == onLeft && AlwaysNoneLost(p, Init(acts), onLeft) {
        NextLosesExactly(q.Of(onLeft), q.Peer(onLeft), a.step);
      }
    }
  }

  /** From the start: the exact condition under which no reachable state has lost a request. */
  lemma {:induction false} NoneLostFromStart(acts: seq<Act>, onLeft: bool)
    requires Legal(START, acts) && NoWrap(Exec(START, acts))
    ensures AlwaysNoneLost(START, acts, onLeft) <==> NeverLosing(START, acts, onLeft)
  {
    hide NoneLost, Exec, Legal, AlwaysNoneLost, NeverLosing;
    StartNoneLost();
    NoneLostExactly(START, acts, onLeft);
  }

  /** No lost request: without a losing call, whoever waits will be resolved by an answer or a timer. */
  lemma {:induction false} NoRequestIsLost(p: Pair, acts: seq<Act>, onLeft: bool)
    requires p.Owned() && NoneLost(p.Of(onLeft))
    requires Legal(p, acts) && NoWrap(Exec(p, acts)) && NeverLosing(p, acts, onLeft)
    ensures NoneLost(Exec(p, acts).Of(onLeft))
  {
    hide NoneLost, Exec, Legal, NeverLosing;
    NoneLostExactly(p, acts, onLeft);
  }

  lemma StartNoneLost()
    ensures NoneLost(EMPTY)
  {
  }

  // ---- The drain bound ----

  function Remaining(r: Request): nat {
    if r.retry > 0 then r.retry else 0
  }

  function TotalRetries(rs: seq<Request>): nat {
    if rs == [] then 0 else TotalRetries(Init(rs)) + Remaining(Last(rs))
  }

  /** Entries in the table plus retries that are left. */
  function Measure(ep: Endpoint): nat {
    |ep.handlers| + TotalRetries(ep.requests)
  }

  /** No request retries forever. */
  predicate Bounded(ep: Endpoint) {
    forall id :: 0 <= id < |ep.requests| ==> ep.requests[id].retry != -1
  }

  lemma {:induction false} TotalUpdate(rs: seq<Request>, id: nat, r: Request)
    requires id < |rs|
    ensures TotalRetries(rs[id := r]) == TotalRetries(rs) - Remaining(rs[id]) + Remaining(r)
  {
    var rs' := rs[id := r];
    if id == |rs| - 1 {
      assert Init(rs') == Init(rs);
    } else {
      assert Init(rs') == Init(rs)[id := r];
      TotalUpdate(Init(rs), id, r);
    }
  }

  /** Neither a call nor a new retry count from the user. */
  predicate Quiet(step: Step) {
    !(step.User? && (step.op.DoCall? || step.op.SetRetry?))
  }

  /** A response or a timer that finds its number in the table. */
  predicate Effective(ep: Endpoint, peer: seq<Msg>, step: Step)
    requires Enabled(ep, peer, step)
  {
    match step
    case Fire(s) => s in ep.handlers
    case Receive(i, _, _) => IsResponse(peer[i]) && peer[i].seqNo in ep.handlers
    case _ => false
  }

  lemma CallMeasure(ep: Endpoint, id: nat)
    requires id < |ep.requests| && Bounded(ep)
    ensures var r := Call(ep, id, false);
            && Bounded(r) && TotalRetries(r.requests) == TotalRetries(ep.requests)
            && |r.handlers| <= |ep.handlers| + 1 && (forall s :: s in ep.handlers ==> s in r.handlers)
  {
    hide Call, CallEvents, TotalRetries;
    CallShape(ep, id, false);
    TotalUpdate(ep.requests, id, CalledRequest(ep, id, false));
  }

  lemma FireMeasure(ep: Endpoint, s: seqno)
    requires HandlersOwned(ep) && Bounded(ep)
    ensures Bounded(FireTimer(ep, s))
    ensures Measure(FireTimer(ep, s)) + (if s in ep.handlers then 1 else 0) <= Measure(ep)
  {
    hide Call, Count, LastRetrySet, RetriesSince, TotalRetries;
    if s in ep.handlers {
      var id := ep.handlers[s].id;
      var r := ep.requests[id];
      if r.retry > 0 {
        var spent := SpendRetry(Expire(ep, s), id);
        TotalUpdate(ep.requests, id, r.(retry := r.retry - 1));
        CallMeasure(spent, id);
        EraseSize(Call(spent, id, false), s);
      } else {
        TotalUpdate(ep.requests, id, r.(waiting := false, keeper := false));
        EraseSize(ep, s);
      }
    }
  }

  lemma EraseSize(ep: Endpoint, s: seqno)
    requires s in ep.handlers
    ensures |Erase(ep, s).handlers| == |ep.handlers| - 1
  {
    var m := ep.handlers - {s};
    assert m.Keys == ep.handlers.Keys - {s};
    assert |m| == |m.Keys| && |ep.handlers| == |ep.handlers.Keys|;
  }

  lemma ResponseMeasure(ep: Endpoint, m: Msg, decodes: bool)
    requires HandlersOwned(ep) && Bounded(ep)
    ensures Bounded(OnResponse(ep, m, decodes))
    ensures Measure(OnResponse(ep, m, decodes)) + (if m.seqNo in ep.handlers then 1 else 0) <= Measure(ep)
  {
    hide Count, LastRetrySet, RetriesSince, TotalRetries, Has, RspCalls, RspOutcome, OnFinish;
    if m.seqNo in ep.handlers {
      var h := ep.handlers[m.seqNo];
      var called := RunCallback(Note(ep, Answered(h.id, m.seqNo, m)), h, m, decodes);
      var outcome := RspOutcome(ep.requests[h.id].canceled, Has(m.mtype, NO_SUCH_CMD), h.kind, decodes);
      FinishMeasure(called, h.id, outcome);
      FinishKeepsTable(called, h.id, outcome);
      EraseSize(OnFinish(called, h.id, outcome), m.seqNo);
    }
  }

  lemma FinishKeepsTable(ep: Endpoint, id: nat, outcome: Outcome)
    requires id < |ep.requests|
    ensures OnFinish(ep, id, outcome).handlers == ep.handlers
  {
  }

  lemma ApplyMeasure(ep: Endpoint, id: nat, op: Op)
    requires id < |ep.requests| && Bounded(ep) && !op.DoCall? && !op.SetRetry?
    ensures Bounded(Apply(ep, id, op)) && Measure(Apply(ep, id, op)) == Measure(ep)
  {
    hide Count, LastRetrySet, RetriesSince, TotalRetries, OnFinish;
    if op.Cancel? {
      var r := ep.requests[id].(canceled := true);
      TotalUpdate(ep.requests, id, r);
      FinishMeasure(WithRequest(ep, id, r), id, Canceled);
    } else {
      TotalUpdate(ep.requests, id, Apply(ep, id, op).requests[id]);
    }
  }

  lemma FinishMeasure(ep: Endpoint, id: nat, outcome: Outcome)
    requires id < |ep.requests| && Bounded(ep)
    ensures Bounded(OnFinish(ep, id, outcome)) && Measure(OnFinish(ep, id, outcome)) == Measure(ep)
  {
    hide Count, LastRetrySet, RetriesSince, TotalRetries;
    TotalUpdate(ep.requests, id, OnFinish(ep, id, outcome).requests[id]);
    assert ep.requests[id := ep.requests[id]] == ep.requests;
  }

  /** A quiet step never adds to the measure, and an effective one takes at least one off. */
  lemma NextMeasure(ep: Endpoint, peer: seq<Msg>, step: Step)
    requires HandlersOwned(ep) && Bounded(ep) && Enabled(ep, peer, step) && Quiet(step)
    ensures var r := Next(ep, peer, step);
            Bounded(r) && Measure(r) + (if Effective(ep, peer, step) then 1 else 0) <= Measure(ep)
  {
    hide Apply, FireTimer, OnDeferred, OnCommand, OnResponse, Count, LastRetrySet, RetriesSince, TotalRetries;
    match step
    case Create(bound) =>
      var rs := ep.requests + [NewRequest(bound)];
      assert Init(rs) == ep.requests && Last(rs) == NewRequest(bound);
      TotalAppend(ep.requests, NewRequest(bound));
    case User(id, op) => ApplyMeasure(ep, id, op);
    case Fire(s) => FireMeasure(ep, s);
    case RspLater(k, data) => Accounting.DeferredSameBooks(ep, k, data);
    case Receive(i, run, decodes) =>
      Accounting.CommandSameBooks(ep, peer[i], run);
      ResponseMeasure(ep, peer[i], decodes);
    case _ =>
  }

  lemma TotalAppend(rs: seq<Request>, r: Request)
    ensures TotalRetries(rs + [r]) == TotalRetries(rs) + Remaining(r)
  {
    assert Init(rs + [r]) == rs;
  }

  ghost predicate QuietRun(acts: seq<Act>, onLeft: bool) {
    forall i :: 0 <= i < |acts| && acts[i].onLeft == onLeft ==> Quiet(acts[i].step)
  }

  /** How many of a side's acts resolve a number. */
  function Resolved(p: Pair, acts: seq<Act>, onLeft: bool): nat
    requires p.Owned() && Legal(p, acts)
    decreases |acts|
  {
    if acts == [] then 0
    else
      var q, a := Exec(p, Init(acts)), Last(acts);
      Resolved(p, Init(acts), onLeft)
      + (if a.onLeft == onLeft && Effective(q.Of(onLeft), q.Peer(onLeft), a.step) then 1 else 0)
  }

  /** Along a quiet run the resolutions never exceed what the measure has lost. */
  lemma {:induction false} DrainBound(p: Pair, acts: seq<Act>, onLeft: bool)
    requires p.Owned() && Bounded(p.Of(onLeft)) && Legal(p, acts) && QuietRun(acts, onLeft)
    ensures Bounded(Exec(p, acts).Of(onLeft))
    ensures Resolved(p, acts, onLeft) + Measure(Exec(p, acts).Of(onLeft)) <= Measure(p.Of(onLeft))
    decreases |acts|
  {
    hide Measure, Bounded, Next, Quiet, Effective;
    if acts != [] {
      var q, a := Exec(p, Init(acts)), Last(acts);
      DrainBound(p, Init(acts), onLeft);
      if a.onLeft == onLeft {
        NextMeasure(q.Of(onLeft), q.Peer(onLeft), a.step);
      }
    }
  }

  /** While the table is not empty some timer can go off, and it will resolve a number. */
  lemma SomethingCanResolve(ep: Endpoint, peer: seq<Msg>)
    requires NoneLost(ep) && ep.handlers != map[]
    ensures exists s: seqno :: Enabled(ep, peer, Fire(s)) && Effective(ep, peer, Fire(s))
  {
    var s :| s in ep.handlers;
    assert Enabled(ep, peer, Fire(s)) && Effective(ep, peer, Fire(s));
  }

  /** After as many resolutions as the measure allows, with no new calls, the table is empty and nobody waits. */
  lemma {:induction false} Drained(p: Pair, acts: seq<Act>, onLeft: bool)
    requires p.Owned() && NoneLost(p.Of(onLeft)) && Bounded(p.Of(onLeft))
    requires Legal(p, acts) && NoWrap(Exec(p, acts)) && NeverLosing(p, acts, onLeft) && QuietRun(acts, onLeft)
    requires Resolved(p, acts, onLeft) >= Measure(p.Of(onLeft))
    ensures var ep := Exec(p, acts).Of(onLeft);
            ep.handlers == map[] && forall id :: 0 <= id < |ep.requests| ==> !ep.requests[id].waiting
  {
    DrainBound(p, acts, onLeft);
    NoRequestIsLost(p, acts, onLeft);
    NobodyWaits(Exec(p, acts).Of(onLeft));
  }

  // ---- A draining run exists ----

  /** A timer is set and whoever needs a response has a callback for it, so that no retry can be a losing call. */
  predicate Configured(ep: Endpoint) {
    ep.timerSet && forall id :: 0 <= id < |ep.requests| && ep.requests[id].needRsp ==> ep.requests[id].rspKind.Some?
  }

  lemma FireKeepsConfigured(ep: Endpoint, s: seqno)
    requires HandlersOwned(ep) && Configured(ep)
    ensures Configured(FireTimer(ep, s)) && FireTimer(ep, s).drawn <= ep.drawn + 1
  {
    hide Call, Count, LastRetrySet, RetriesSince, CallEvents;
    if s in ep.handlers && RetriesLeft(ep.requests[ep.handlers[s].id]) {
      CallShape(SpendRetry(Expire(ep, s), ep.handlers[s].id), ep.handlers[s].id, false);
    }
  }

  /** The next timer of a draining run. */
  lemma FireDrains(p: Pair, onLeft: bool, s: seqno)
    requires p.Owned() && NoneLost(p.Of(onLeft)) && Bounded(p.Of(onLeft)) && Configured(p.Of(onLeft))
    requires s in p.Of(onLeft).handlers && p.Of(onLeft).drawn < WORD32
    ensures var a := Act(onLeft, Fire(s));
            && CanHappen(p, a)
            && var ep, r := p.Of(onLeft), Do(p, a).Of(onLeft);
               && NoneLost(r) && Bounded(r) && Configured(r)
               && Measure(r) < Measure(ep) && r.drawn <= ep.drawn + 1
               && Do(p, a).Of(!onLeft) == p.Of(!onLeft)
  {
    hide FireTimer, Loses, Measure;
    var ep := p.Of(onLeft);
    FireKeepsConfigured(ep, s);
    FireMeasure(ep, s);
    ConfiguredLosesNothing(ep, ep.handlers[s].id);
    FireKeepsNoneLost(ep, s);
  }

  lemma ConfiguredLosesNothing(ep: Endpoint, id: nat)
    requires id < |ep.requests| && Configured(ep)
    ensures !Loses(ep, id, false)
  {
  }

  /**
   From every state that has lost nobody, is configured and where nobody retries forever, timers alone can drain the
   table: some run of at most as many timers as the measure leaves it empty, with nobody waiting.
   */
  lemma {:induction false} DrainingRunExists(p: Pair, onLeft: bool) returns (acts: seq<Act>)
    requires p.Owned() && NoneLost(p.Of(onLeft)) && Bounded(p.Of(onLeft)) && Configured(p.Of(onLeft))
    requires p.Of(onLeft).drawn + Measure(p.Of(onLeft)) <= WORD32
    ensures Legal(p, acts) && |acts| <= Measure(p.Of(onLeft))
    ensures forall i :: 0 <= i < |acts| ==> acts[i].onLeft == onLeft && acts[i].step.Fire?
    ensures var ep := Exec(p, acts).Of(onLeft);
            ep.handlers == map[] && forall id :: 0 <= id < |ep.requests| ==> !ep.requests[id].waiting
    decreases Measure(p.Of(onLeft))
  {
    var ep := p.Of(onLeft);
    if ep.handlers == map[] {
      acts := [];
      NobodyWaits(ep);
    } else {
      var s :| s in ep.handlers;
      hide NoneLost, Bounded, Configured, Measure, Do, CanHappen, Legal, Exec;
      SomeMeasure(ep);
      FireDrains(p, onLeft, s);
      var a := Act(onLeft, Fire(s));
      var rest := DrainingRunExists(Do(p, a), onLeft);
      RunFrom(p, a, rest);
      acts := [a] + rest;
    }
  }

  lemma RunFrom(p: Pair, a: Act, rest: seq<Act>)
    requires p.Owned() && CanHappen(p, a) && Legal(Do(p, a), rest)
    ensures Legal(p, [a] + rest) && Exec(p, [a] + rest) == Exec(Do(p, a), rest)
  {
    hide Do, CanHappen;
    ExecOne(p, a);
    ExecConcat(p, [a], rest);
  }

  lemma SomeMeasure(ep: Endpoint)
    requires ep.handlers != map[]
    ensures Measure(ep) > 0
  {
  }

  lemma NobodyWaits(ep: Endpoint)
    requires NoneLost(ep) && ep.handlers == map[]
    ensures forall id :: 0 <= id < |ep.requests| ==> !ep.requests[id].waiting
  {
    forall id | 0 <= id < |ep.requests|
      ensures !ep.requests[id].waiting
    {
      assert Awaited(ep, id);
    }
  }
}

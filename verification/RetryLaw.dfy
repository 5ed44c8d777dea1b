/** The exact course of one call with `n` retries that nobody answers, cancels or calls again. */
module RetryLaw {
  import opened Bytes
  import opened MsgWrapper
  import opened Protocol
  import opened Runs
  import opened Calls
  import Accounting
  import Numbers
  import Coder

  /** What a call adds to the books of request `j`. */
  ghost predicate CallCounts(ep: Endpoint, id: nat, bind: bool, j: nat)
    requires id < |ep.requests|
  {
    var r, sent := Call(ep, id, bind), Proceeds(ep, id, bind);
    && Count(SendsOf(j), r.log) == Count(SendsOf(j), ep.log) + Accounting.Bit(j == id && sent)
    && Count(TimeoutsOf(j), r.log) == Count(TimeoutsOf(j), ep.log)
    && Count(FinallyOf(j), r.log) == Count(FinallyOf(j), ep.log)
      + Accounting.Bit(j == id && !(sent && ep.requests[id].needRsp))
    && Count(EndsOf(j, Timeout), r.log) == Count(EndsOf(j, Timeout), ep.log)
  }

  /** What `call` has done before it sends or gives up: nothing that is counted here. */
  lemma CountsOfEnter(ep: Endpoint, id: nat, bind: bool, j: nat)
    requires id < |ep.requests|
    ensures var entered, kept := Enter(ep, id), Keep(Enter(ep, id), id, bind);
            && entered.requests == ep.requests[id := ep.requests[id].(waiting := true)] && kept.log == entered.log
            && |kept.requests| == |ep.requests| && kept.ready == ep.ready
            && kept.requests[id] == entered.requests[id].(keeper := true, bound := ep.requests[id].bound || bind)
            && Count(SendsOf(j), entered.log) == Count(SendsOf(j), ep.log)
            && Count(TimeoutsOf(j), entered.log) == Count(TimeoutsOf(j), ep.log)
            && Count(FinallyOf(j), entered.log) == Count(FinallyOf(j), ep.log)
            && Count(EndsOf(j, Timeout), entered.log) == Count(EndsOf(j, Timeout), ep.log)
  {
    hide Count, LastRetrySet, RetriesSince;
  }

  lemma CountsOfCall(ep: Endpoint, id: nat, bind: bool, j: nat)
    requires id < |ep.requests|
    ensures CallCounts(ep, id, bind, j)
  {
    hide Count, LastRetrySet, RetriesSince, HandlersOwned, Launch, Enter, Keep;
    CountsOfEnter(ep, id, bind, j);
    CountsOfLaunch(Keep(Enter(ep, id), id, bind), id, j);
  }

  lemma CountsOfLaunch(ep: Endpoint, id: nat, j: nat)
    requires id < |ep.requests|
    ensures var r := Launch(ep, id);
            && Count(SendsOf(j), r.log) == Count(SendsOf(j), ep.log) + Accounting.Bit(j == id)
            && Count(TimeoutsOf(j), r.log) == Count(TimeoutsOf(j), ep.log)
            && Count(FinallyOf(j), r.log) == Count(FinallyOf(j), ep.log)
              + Accounting.Bit(j == id && ep.requests[id].waiting && !ep.requests[id].needRsp)
            && Count(EndsOf(j, Timeout), r.log) == Count(EndsOf(j, Timeout), ep.log)
  {
    hide Count, LastRetrySet, RetriesSince, Coder.Wire, CommandOf, HandlersOwned;
  }

  /** Ready to go: bound, with a callback, not canceled, not waiting, and with no number outstanding. */
  predicate Fresh(ep: Endpoint, id: nat) {
    && id < |ep.requests| && HandlersOwned(ep) && Serviced(ep, id) && !ep.requests[id].waiting
    && forall s :: s in ep.handlers ==> ep.handlers[s].id != id && s < ep.drawn
  }

  predicate Serviced(ep: Endpoint, id: nat) {
    && id < |ep.requests| && ep.ready && ep.timerSet
    && ep.requests[id].bound && ep.requests[id].needRsp && ep.requests[id].rspKind.Some? && !ep.requests[id].canceled
  }

  /** Nobody touches the request, takes the connection or the timer away, or answers it. */
  predicate Undisturbed(ep: Endpoint, peer: seq<Msg>, step: Step, id: nat)
    requires Enabled(ep, peer, step)
  {
    match step
    case User(j, _) => j != id
    case SetReady(ready) => ready
    case SetTimer(present) => present
    case Receive(i, _, _) => IsResponse(peer[i]) && peer[i].seqNo in ep.handlers ==> ep.handlers[peer[i].seqNo].id != id
    case _ => true
  }

  /**
   The law. `was` is the state before the call. After `k` retries of `n`, `k + 1` commands have been sent; the timeout
   callback has run `k` times while the request waits and `n + 1` times when it has ended, once, by timeout.
   */
  predicate Law(was: Endpoint, ep: Endpoint, id: nat, n: nat) {
    && HandlersOwned(ep) && Serviced(ep, id) && 0 <= ep.requests[id].retry <= n
    && (forall s :: s in ep.handlers ==> s < ep.drawn)
    && var k, waiting := n - ep.requests[id].retry, ep.requests[id].waiting;
    && Count(SendsOf(id), ep.log) == Count(SendsOf(id), was.log) + k + 1
    && Count(TimeoutsOf(id), ep.log) == Count(TimeoutsOf(id), was.log) + k + Accounting.Bit(!waiting)
    && Count(FinallyOf(id), ep.log) == Count(FinallyOf(id), was.log) + Accounting.Bit(!waiting)
    && Count(EndsOf(id, Timeout), ep.log) == Count(EndsOf(id, Timeout), was.log) + Accounting.Bit(!waiting)
    && (!waiting ==> k == n)
    && (forall s :: s in ep.handlers ==> ep.handlers[s].id == id ==> waiting && s == ep.requests[id].seqNo)
    && (waiting ==> ep.requests[id].seqNo in ep.handlers && ep.handlers[ep.requests[id].seqNo].id == id)
  }

  lemma CallStartsLaw(ep: Endpoint, id: nat, bind: bool, n: nat)
    requires Fresh(ep, id) && ep.requests[id].retry == n && ep.drawn < WORD32
    ensures Law(ep, Call(ep, id, bind), id, n)
  {
    hide Call, Count, CallEvents;
    CallShape(ep, id, bind);
    CountsOfCall(ep, id, bind, id);
  }

  lemma OtherCallKeepsLaw(was: Endpoint, ep: Endpoint, target: nat, bind: bool, id: nat, n: nat)
    requires Law(was, ep, id, n) && target < |ep.requests| && target != id && Call(ep, target, bind).drawn <= WORD32
    ensures Law(was, Call(ep, target, bind), id, n)
    ensures forall s :: s in ep.handlers ==>
        s in Call(ep, target, bind).handlers && Call(ep, target, bind).handlers[s] == ep.handlers[s]
  {
    hide Call, Count, CallEvents;
    CallShape(ep, target, bind);
    CountsOfCall(ep, target, bind, id);
  }

  /** The request's own timer: another command goes out, or the request ends. */
  lemma OwnTimeoutKeepsLaw(was: Endpoint, ep: Endpoint, s: seqno, id: nat, n: nat)
    requires Law(was, ep, id, n) && FireTimer(ep, s).drawn <= WORD32
    requires s in ep.handlers && ep.handlers[s].id == id
    ensures Law(was, FireTimer(ep, s), id, n)
  {
    if ep.requests[id].retry > 0 {
      OwnRetryKeepsLaw(was, ep, s, id, n);
    } else {
      OwnEndKeepsLaw(was, ep, s, id, n);
    }
  }

  lemma OwnRetryKeepsLaw(was: Endpoint, ep: Endpoint, s: seqno, id: nat, n: nat)
    requires Law(was, ep, id, n) && FireTimer(ep, s).drawn <= WORD32
    requires s in ep.handlers && ep.handlers[s].id == id && ep.requests[id].retry > 0
    ensures Law(was, FireTimer(ep, s), id, n)
  {
    hide Call, Count, LastRetrySet, RetriesSince, CallEvents;
    var again := SpendRetry(Expire(ep, s), id);
    CallShape(again, id, false);
    CountsOfCall(again, id, false, id);
  }

  lemma OwnEndKeepsLaw(was: Endpoint, ep: Endpoint, s: seqno, id: nat, n: nat)
    requires Law(was, ep, id, n) && s in ep.handlers && ep.handlers[s].id == id && ep.requests[id].retry <= 0
    ensures Law(was, FireTimer(ep, s), id, n)
  {
    hide Call, Count, LastRetrySet, RetriesSince;
  }

  lemma OtherTimeoutKeepsLaw(was: Endpoint, ep: Endpoint, s: seqno, id: nat, n: nat)
    requires Law(was, ep, id, n) && FireTimer(ep, s).drawn <= WORD32
    requires s in ep.handlers && ep.handlers[s].id != id
    ensures Law(was, FireTimer(ep, s), id, n)
  {
    hide Call, Count, LastRetrySet, RetriesSince, OnFinish;
    var target := ep.handlers[s].id;
    if RetriesLeft(ep.requests[target]) {
      OtherCallKeepsLaw(was, SpendRetry(Expire(ep, s), target), target, false, id, n);
    } else {
      OtherFinishKeepsLaw(was, Expire(ep, s), target, Timeout, id, n);
    }
  }

  lemma FireKeepsLaw(was: Endpoint, ep: Endpoint, s: seqno, id: nat, n: nat)
    requires Law(was, ep, id, n) && FireTimer(ep, s).drawn <= WORD32
    ensures Law(was, FireTimer(ep, s), id, n)
  {
    if s in ep.handlers {
      hide FireTimer, Law;
      if ep.handlers[s].id == id {
        OwnTimeoutKeepsLaw(was, ep, s, id, n);
      } else {
        OtherTimeoutKeepsLaw(was, ep, s, id, n);
      }
    }
  }

  lemma ResponseKeepsLaw(was: Endpoint, ep: Endpoint, m: Msg, decodes: bool, id: nat, n: nat)
    requires Law(was, ep, id, n) && (m.seqNo in ep.handlers ==> ep.handlers[m.seqNo].id != id)
    ensures Law(was, OnResponse(ep, m, decodes), id, n)
  {
    hide Count, LastRetrySet, RetriesSince, Has, RspCalls, RspOutcome, OnFinish;
    if m.seqNo in ep.handlers {
      var h := ep.handlers[m.seqNo];
      var answered := Note(ep, Answered(h.id, m.seqNo, m));
      var called := RunCallback(answered, h, m, decodes);
      var outcome := RspOutcome(ep.requests[h.id].canceled, Has(m.mtype, NO_SUCH_CMD), h.kind, decodes);
      OtherFinishKeepsLaw(was, called, h.id, outcome, id, n);
    }
  }

  lemma OtherFinishKeepsLaw(was: Endpoint, ep: Endpoint, target: nat, outcome: Outcome, id: nat, n: nat)
    requires Law(was, ep, id, n) && target < |ep.requests| && target != id
    ensures Law(was, OnFinish(ep, target, outcome), id, n) && OnFinish(ep, target, outcome).handlers == ep.handlers
  {
    hide Count, LastRetrySet, RetriesSince;
  }

  lemma ApplyKeepsLaw(was: Endpoint, ep: Endpoint, target: nat, op: Op, id: nat, n: nat)
    requires Law(was, ep, id, n) && target < |ep.requests| && target != id && Apply(ep, target, op).drawn <= WORD32
    ensures Law(was, Apply(ep, target, op), id, n)
  {
    hide Call, Count, LastRetrySet, RetriesSince;
    if op.DoCall? {
      OtherCallKeepsLaw(was, ep, target, op.bind, id, n);
    }
  }

  lemma SameBooksKeepLaw(was: Endpoint, ep: Endpoint, r: Endpoint, id: nat, n: nat)
    requires Law(was, ep, id, n) && Accounting.SameBooks(ep, r) && r.ready == ep.ready
    ensures Law(was, r, id, n)
  {
  }

  lemma NextKeepsLaw(was: Endpoint, ep: Endpoint, peer: seq<Msg>, step: Step, id: nat, n: nat)
    requires Law(was, ep, id, n) && Enabled(ep, peer, step) && Undisturbed(ep, peer, step, id)
    requires Next(ep, peer, step).drawn <= WORD32
    ensures Law(was, Next(ep, peer, step), id, n)
  {
    hide Apply, FireTimer, OnDeferred, OnCommand, OnResponse, IsCommand, IsResponse, Count, LastRetrySet, RetriesSince;
    match step
    case User(target, op) => ApplyKeepsLaw(was, ep, target, op, id, n);
    case Fire(s) => FireKeepsLaw(was, ep, s, id, n);
    case RspLater(k, data) =>
      Accounting.DeferredSameBooks(ep, k, data);
      ReadyKept(ep, k, data);
      SameBooksKeepLaw(was, ep, OnDeferred(ep, k, data), id, n);
    case Receive(i, run, decodes) =>
      if IsCommand(peer[i]) {
        Accounting.CommandSameBooks(ep, peer[i], run);
        ReadyKeptByCommand(ep, peer[i], run);
        SameBooksKeepLaw(was, ep, OnCommand(ep, peer[i], run), id, n);
      } else if IsResponse(peer[i]) {
        ResponseKeepsLaw(was, ep, peer[i], decodes, id, n);
      }
    case _ =>
  }

  lemma ReadyKept(ep: Endpoint, k: nat, data: bytes)
    requires k < |ep.deferred|
    ensures OnDeferred(ep, k, data).ready == ep.ready
  {
  }

  lemma ReadyKeptByCommand(ep: Endpoint, m: Msg, run: HandlerRun)
    ensures OnCommand(ep, m, run).ready == ep.ready
  {
    hide Count, LastRetrySet, RetriesSince, Coder.Wire, Has;
  }

  ghost predicate UndisturbedRun(p: Pair, acts: seq<Act>, onLeft: bool, id: nat)
    requires p.Owned() && Legal(p, acts)
    decreases |acts|
  {
    acts != [] ==>
      var q, a := Exec(p, Init(acts)), Last(acts);
      && (a.onLeft == onLeft ==> Undisturbed(q.Of(onLeft), q.Peer(onLeft), a.step, id))
      && UndisturbedRun(p, Init(acts), onLeft, id)
  }

  /** The law holds through every undisturbed run, whatever the other requests and the peer do. */
  lemma {:induction false} LawHolds(was: Endpoint, p: Pair, acts: seq<Act>, onLeft: bool, id: nat, n: nat)
    requires p.Owned() && Law(was, p.Of(onLeft), id, n)
    requires Legal(p, acts) && NoWrap(Exec(p, acts)) && UndisturbedRun(p, acts, onLeft, id)
    ensures Law(was, Exec(p, acts).Of(onLeft), id, n)
    decreases |acts|
  {
    hide Law, Next, Undisturbed;
    if acts != [] {
      var q, a := Exec(p, Init(acts)), Last(acts);
      NoWrapBefore(q, a);
      LawHolds(was, p, Init(acts), onLeft, id, n);
      if a.onLeft == onLeft {
        LawNeedsOwned(was, q.Of(onLeft), id, n);
        NextKeepsLaw(was, q.Of(onLeft), q.Peer(onLeft), a.step, id, n);
      }
    }
  }

  lemma LawNeedsOwned(was: Endpoint, ep: Endpoint, id: nat, n: nat)
    requires Law(was, ep, id, n)
    ensures HandlersOwned(ep)
  {
  }

  /** None of the request's numbers is in the table any more. */
  predicate NothingOutstanding(ep: Endpoint, id: nat) {
    forall s :: s in ep.handlers ==> ep.handlers[s].id != id
  }

  /**
   The exact retry law: a call with retry count `n`, then an undisturbed run. It never takes more than `n + 1`
   timeouts, and once its numbers have all timed out, exactly `n + 1` commands have been sent, the timeout callback has
   run `n + 1` times, and there was exactly one ending, by timeout. The commands carry different numbers.
   */
  lemma {:induction false} ExactRetries(was: Endpoint, p: Pair, acts: seq<Act>, onLeft: bool, id: nat, bind: bool,
      n: nat)
    requires Fresh(was, id) && was.requests[id].retry == n && was.drawn < WORD32
    requires p.Owned() && p.Of(onLeft) == Call(was, id, bind)
    requires Legal(p, acts) && NoWrap(Exec(p, acts)) && UndisturbedRun(p, acts, onLeft, id)
    ensures var ep := Exec(p, acts).Of(onLeft);
            var timeouts := Count(TimeoutsOf(id), ep.log) - Count(TimeoutsOf(id), was.log);
            && 0 <= timeouts <= n + 1
            && (timeouts == n + 1 <==> NothingOutstanding(ep, id))
            && (NothingOutstanding(ep, id) ==>
                  && Count(SendsOf(id), ep.log) == Count(SendsOf(id), was.log) + n + 1
                  && Count(FinallyOf(id), ep.log) == Count(FinallyOf(id), was.log) + 1
                  && Count(EndsOf(id, Timeout), ep.log) == Count(EndsOf(id, Timeout), was.log) + 1)
            && was.log <= ep.log && Numbers.DistinctNumbers(ep.log, |was.log|)
  {
    hide Call, Count, Exec, Legal, UndisturbedRun, Numbers.DistinctNumbers;
    Numbers.CallAndRunDistinct(was, id, bind, p, acts, onLeft);
    CallStartsLaw(was, id, bind, n);
    LawHolds(was, p, acts, onLeft, id, n);
  }
}

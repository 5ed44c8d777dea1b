/** What a timeout does for each retry count, and the course of a request that retries for ever. */
module EndlessRetry {
  import opened Bytes
  import opened MsgWrapper
  import opened Protocol
  import opened Runs
  import opened Calls
  import opened RetryLaw
  import Accounting

  // ---- One timeout ----

  /**
   The timer of a request's number goes off, the request being bound, ready and not canceled. With the count -1 or
   positive it calls again: one more command, no ending by timeout, and a positive count is one less. With 0 or below -1
   nothing is sent, and a waiting request ends by timeout. Either way the number is gone.
   */
  lemma TimeoutByCount(ep: Endpoint, s: seqno)
    requires HandlersOwned(ep) && s in ep.handlers
    requires var q := ep.requests[ep.handlers[s].id]; ep.ready && q.bound && !q.canceled
    ensures var id := ep.handlers[s].id;
            var q, r := ep.requests[id], FireTimer(ep, s);
            var ends, endsNow := Count(EndsOf(id, Timeout), ep.log), Count(EndsOf(id, Timeout), r.log);
            && |r.requests| == |ep.requests| && s !in r.handlers
            && Count(TimeoutsOf(id), r.log) == Count(TimeoutsOf(id), ep.log) + 1
            && (q.retry == -1 || q.retry > 0 ==>
                  |r.sent| == |ep.sent| + 1 && endsNow == ends && (q.needRsp ==> r.requests[id].waiting))
            && (q.retry == -1 ==> r.requests[id].retry == -1)
            && (q.retry > 0 ==> r.requests[id].retry == q.retry - 1)
            && (q.retry == 0 || q.retry < -1 ==>
                  && r.sent == ep.sent && r.requests[id].retry == q.retry && !r.requests[id].waiting
                  && endsNow == ends + (if q.waiting then 1 else 0))
  {
    if ep.requests[ep.handlers[s].id].retry == -1 || ep.requests[ep.handlers[s].id].retry > 0 {
      TimeoutCallsAgain(ep, s);
    } else {
      TimeoutEnds(ep, s);
    }
  }

  lemma TimeoutCallsAgain(ep: Endpoint, s: seqno)
    requires HandlersOwned(ep) && s in ep.handlers
    requires var q := ep.requests[ep.handlers[s].id];
             ep.ready && q.bound && !q.canceled && (q.retry == -1 || q.retry > 0)
    ensures var id := ep.handlers[s].id;
            var q, r := ep.requests[id], FireTimer(ep, s);
            && |r.requests| == |ep.requests| && s !in r.handlers
            && Count(TimeoutsOf(id), r.log) == Count(TimeoutsOf(id), ep.log) + 1
            && |r.sent| == |ep.sent| + 1 && Count(EndsOf(id, Timeout), r.log) == Count(EndsOf(id, Timeout), ep.log)
            && (q.needRsp ==> r.requests[id].waiting)
            && r.requests[id].retry == (if q.retry == -1 then -1 else q.retry - 1)
  {
    hide Call, Count, LastRetrySet, RetriesSince, CallEvents, Table, Timers;
    var id := ep.handlers[s].id;
    var again := SpendRetry(Expire(ep, s), id);
    CallShape(again, id, false);
    CountsOfCall(again, id, false, id);
  }

  lemma TimeoutEnds(ep: Endpoint, s: seqno)
    requires HandlersOwned(ep) && s in ep.handlers
    requires var q := ep.requests[ep.handlers[s].id]; q.retry == 0 || q.retry < -1
    ensures var id := ep.handlers[s].id;
            var q, r := ep.requests[id], FireTimer(ep, s);
            && |r.requests| == |ep.requests| && s !in r.handlers
            && Count(TimeoutsOf(id), r.log) == Count(TimeoutsOf(id), ep.log) + 1
            && r.sent == ep.sent && r.requests[id].retry == q.retry && !r.requests[id].waiting
            && Count(EndsOf(id, Timeout), r.log) == Count(EndsOf(id, Timeout), ep.log) + (if q.waiting then 1 else 0)
  {
    hide Call, Count, LastRetrySet, RetriesSince;
  }

  /** A timer goes off once: afterwards it is no longer armed, and a number that is resolved already is left alone. */
  lemma TimersFireOnce(ep: Endpoint, s: seqno)
    requires HandlersOwned(ep) && s < ep.drawn < WORD32
    ensures s !in FireTimer(ep, s).armed
    ensures s !in ep.handlers ==> FireTimer(ep, s) == ep.(armed := ep.armed - {s})
  {
    hide Call, Count, LastRetrySet, RetriesSince, CallEvents;
    if s in ep.handlers && RetriesLeft(ep.requests[ep.handlers[s].id]) {
      CallShape(SpendRetry(Expire(ep, s), ep.handlers[s].id), ep.handlers[s].id, false);
    }
  }

  // ---- Undisturbed runs ----

  /**
   `was` is the state before the call. The request waits with the count -1 and its latest number in the table, it has
   not ended, and it has sent one command more than it has seen timeouts.
   */
  predicate Endless(was: Endpoint, ep: Endpoint, id: nat) {
    && HandlersOwned(ep) && Serviced(ep, id) && ep.requests[id].retry == -1 && ep.requests[id].waiting
    && (forall s :: s in ep.handlers ==> s < ep.drawn && (ep.handlers[s].id == id ==> s == ep.requests[id].seqNo))
    && ep.requests[id].seqNo in ep.handlers && ep.handlers[ep.requests[id].seqNo].id == id
    && Count(SendsOf(id), ep.log) - Count(SendsOf(id), was.log)
       == Count(TimeoutsOf(id), ep.log) - Count(TimeoutsOf(id), was.log) + 1
    && Count(FinallyOf(id), ep.log) == Count(FinallyOf(id), was.log)
  }

  lemma CallStartsEndless(ep: Endpoint, id: nat, bind: bool)
    requires Fresh(ep, id) && ep.requests[id].retry == -1 && ep.drawn < WORD32
    ensures Endless(ep, Call(ep, id, bind), id)
  {
    hide Call, Count, CallEvents;
    CallShape(ep, id, bind);
    CountsOfCall(ep, id, bind, id);
  }

  lemma OtherCallKeepsEndless(was: Endpoint, ep: Endpoint, target: nat, bind: bool, id: nat)
    requires Endless(was, ep, id) && target < |ep.requests| && target != id && Call(ep, target, bind).drawn <= WORD32
    ensures Endless(was, Call(ep, target, bind), id)
    ensures Call(ep, target, bind).requests[id] == ep.requests[id]
  {
    hide Call, Count, CallEvents;
    CallShape(ep, target, bind);
    CountsOfCall(ep, target, bind, id);
  }

  lemma OtherFinishKeepsEndless(was: Endpoint, ep: Endpoint, target: nat, outcome: Outcome, id: nat)
    requires Endless(was, ep, id) && target < |ep.requests| && target != id
    ensures Endless(was, OnFinish(ep, target, outcome), id) && OnFinish(ep, target, outcome).handlers == ep.handlers
  {
    hide Count, LastRetrySet, RetriesSince;
  }

  lemma OwnTimeoutKeepsEndless(was: Endpoint, ep: Endpoint, s: seqno, id: nat)
    requires Endless(was, ep, id) && FireTimer(ep, s).drawn <= WORD32
    requires s in ep.handlers && ep.handlers[s].id == id
    ensures Endless(was, FireTimer(ep, s), id)
  {
    hide Call, Count, LastRetrySet, RetriesSince, CallEvents;
    var again := SpendRetry(Expire(ep, s), id);
    CallShape(again, id, false);
    CountsOfCall(again, id, false, id);
  }

  lemma OtherTimeoutKeepsEndless(was: Endpoint, ep: Endpoint, s: seqno, id: nat)
    requires Endless(was, ep, id) && FireTimer(ep, s).drawn <= WORD32
    requires s in ep.handlers && ep.handlers[s].id != id
    ensures Endless(was, FireTimer(ep, s), id)
  {
    hide Call, Count, LastRetrySet, RetriesSince, OnFinish;
    var target := ep.handlers[s].id;
    if RetriesLeft(ep.requests[target]) {
      OtherCallKeepsEndless(was, SpendRetry(Expire(ep, s), target), target, false, id);
    } else {
      OtherFinishKeepsEndless(was, Expire(ep, s), target, Timeout, id);
    }
  }

  lemma FireKeepsEndless(was: Endpoint, ep: Endpoint, s: seqno, id: nat)
    requires Endless(was, ep, id) && FireTimer(ep, s).drawn <= WORD32
    ensures Endless(was, FireTimer(ep, s), id)
  {
    if s in ep.handlers {
      hide FireTimer, Endless;
      if ep.handlers[s].id == id {
        OwnTimeoutKeepsEndless(was, ep, s, id);
      } else {
        OtherTimeoutKeepsEndless(was, ep, s, id);
      }
    }
  }

  lemma ResponseKeepsEndless(was: Endpoint, ep: Endpoint, m: Msg, decodes: bool, id: nat)
    requires Endless(was, ep, id) && (m.seqNo in ep.handlers ==> ep.handlers[m.seqNo].id != id)
    ensures Endless(was, OnResponse(ep, m, decodes), id)
  {
    hide Count, LastRetrySet, RetriesSince, Has, RspCalls, RspOutcome, OnFinish;
    if m.seqNo in ep.handlers {
      var h := ep.handlers[m.seqNo];
      var called := RunCallback(Note(ep, Answered(h.id, m.seqNo, m)), h, m, decodes);
      var outcome := RspOutcome(ep.requests[h.id].canceled, Has(m.mtype, NO_SUCH_CMD), h.kind, decodes);
      OtherFinishKeepsEndless(was, called, h.id, outcome, id);
    }
  }

  lemma ApplyKeepsEndless(was: Endpoint, ep: Endpoint, target: nat, op: Op, id: nat)
    requires Endless(was, ep, id) && target < |ep.requests| && target != id && Apply(ep, target, op).drawn <= WORD32
    ensures Endless(was, Apply(ep, target, op), id)
  {
    hide Call, OnFinish, Count, LastRetrySet, RetriesSince;
    match op
    case DoCall(bind) => OtherCallKeepsEndless(was, ep, target, bind, id);
    case Cancel =>
      var flagged := WithRequest(ep, target, ep.requests[target].(canceled := true));
      OtherFinishKeepsEndless(was, flagged, target, Canceled, id);
    case _ =>
  }

  lemma SameBooksKeepEndless(was: Endpoint, ep: Endpoint, r: Endpoint, id: nat)
    requires Endless(was, ep, id) && Accounting.SameBooks(ep, r) && r.ready == ep.ready
    ensures Endless(was, r, id)
  {
    hide Count;
  }

  lemma NextKeepsEndless(was: Endpoint, ep: Endpoint, peer: seq<Msg>, step: Step, id: nat)
    requires Endless(was, ep, id) && Enabled(ep, peer, step) && Undisturbed(ep, peer, step, id)
    requires Next(ep, peer, step).drawn <= WORD32
    ensures Endless(was, Next(ep, peer, step), id)
  {
    hide Apply, FireTimer, OnDeferred, OnCommand, OnResponse, IsCommand, IsResponse, Count, LastRetrySet, RetriesSince;
    match step
    case User(target, op) => ApplyKeepsEndless(was, ep, target, op, id);
    case Fire(s) => FireKeepsEndless(was, ep, s, id);
    case RspLater(k, data) =>
      Accounting.DeferredSameBooks(ep, k, data);
      ReadyKept(ep, k, data);
      SameBooksKeepEndless(was, ep, OnDeferred(ep, k, data), id);
    case Receive(i, run, decodes) =>
      if IsCommand(peer[i]) {
        Accounting.CommandSameBooks(ep, peer[i], run);
        ReadyKeptByCommand(ep, peer[i], run);
        SameBooksKeepEndless(was, ep, OnCommand(ep, peer[i], run), id);
      } else if IsResponse(peer[i]) {
        ResponseKeepsEndless(was, ep, peer[i], decodes, id);
      }
    case _ =>
  }

  lemma {:induction false} EndlessHolds(was: Endpoint, p: Pair, acts: seq<Act>, onLeft: bool, id: nat)
    requires p.Owned() && Endless(was, p.Of(onLeft), id)
    requires Legal(p, acts) && NoWrap(Exec(p, acts)) && UndisturbedRun(p, acts, onLeft, id)
    ensures Endless(was, Exec(p, acts).Of(onLeft), id)
    decreases |acts|
  {
    hide Endless, Next, Undisturbed;
    if acts != [] {
      var q, a := Exec(p, Init(acts)), Last(acts);
      NoWrapBefore(q, a);
      EndlessHolds(was, p, Init(acts), onLeft, id);
      if a.onLeft == onLeft {
        NextKeepsEndless(was, q.Of(onLeft), q.Peer(onLeft), a.step, id);
      }
    }
  }

  /**
   A call with the count -1, then an undisturbed run of any length: the request has not ended, it still waits with the
   count -1, and it has sent one command more than its timer has gone off.
   */
  lemma {:induction false} RetriesForever(was: Endpoint, p: Pair, acts: seq<Act>, onLeft: bool, id: nat, bind: bool)
    requires Fresh(was, id) && was.requests[id].retry == -1 && was.drawn < WORD32
    requires p.Owned() && p.Of(onLeft) == Call(was, id, bind)
    requires Legal(p, acts) && NoWrap(Exec(p, acts)) && UndisturbedRun(p, acts, onLeft, id)
    ensures var ep := Exec(p, acts).Of(onLeft);
            && id < |ep.requests| && ep.requests[id].waiting && ep.requests[id].retry == -1
            && Count(FinallyOf(id), ep.log) == Count(FinallyOf(id), was.log)
            && Count(SendsOf(id), ep.log) - Count(SendsOf(id), was.log)
               == Count(TimeoutsOf(id), ep.log) - Count(TimeoutsOf(id), was.log) + 1
  {
    hide Call, Count, Exec, Legal, UndisturbedRun;
    CallStartsEndless(was, id, bind);
    EndlessHolds(was, p, acts, onLeft, id);
  }
}

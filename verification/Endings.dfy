/** What an ending tells the user is true, and a response callback runs at most once for each number. */
module Endings {
  import opened Bytes
  import opened MsgWrapper
  import opened Protocol
  import opened Runs
  import opened Calls
  import Accounting
  import Correlation
  import Coder

  /** What must have happened to the request immediately before it ended this way. */
  predicate Explains(before: Event, id: nat, outcome: Outcome) {
    match outcome
    case Normal => before.RspCallback? && before.id == id && before.decoded
    case RspSerializeError => (before.RspCallback? && before.id == id && !before.decoded)
      || (before.Answered? && before.id == id && !Has(before.msg.mtype, NO_SUCH_CMD))
    case NoSuchCmd => before.Answered? && before.id == id && Has(before.msg.mtype, NO_SUCH_CMD)
    case Timeout => before.TimedOut? && before.id == id
    case NoNeedRsp => before.Sent? && before.id == id && !Has(before.msg.mtype, NEED_RSP)
    case RpcExpired => before.Called? && before.id == id
    case RpcNotReady => before.Called? && before.id == id
    case Canceled => true
  }

  predicate Explained(log: seq<Event>, k: nat)
    requires k < |log|
  {
    && (log[k].Finished? && log[k].outcome != Canceled ==> k > 0 && Explains(log[k - 1], log[k].id, log[k].outcome))
    && (log[k].RspCallback? ==> k > 0 && log[k - 1] == Answered(log[k].id, log[k].seqNo, log[k].msg))
  }

  /** The log grows, and every new ending and every new callback is explained. */
  ghost predicate GrowsExplained(log: seq<Event>, log': seq<Event>) {
    log <= log' && forall k :: |log| <= k < |log'| ==> Explained(log', k)
  }

  lemma ExplainedTransitive(a: seq<Event>, b: seq<Event>, c: seq<Event>)
    requires GrowsExplained(a, b) && GrowsExplained(b, c)
    ensures GrowsExplained(a, c)
  {
    hide Explains;
    forall k | |a| <= k < |c|
      ensures Explained(c, k)
    {
      if k < |b| {
        assert Explained(b, k);
      }
    }
  }

  lemma CallExplained(ep: Endpoint, id: nat, bind: bool)
    requires id < |ep.requests|
    ensures GrowsExplained(ep.log, Call(ep, id, bind).log)
  {
    hide Call, Coder.Wire, CommandOf, Has, Table, Timers, Proceeds, Subscribes;
    CallShape(ep, id, bind);
    SentNeeds(CalledRequest(ep, id, bind));
  }

  lemma SentNeeds(r: Request)
    ensures Has(Coder.Wire(CommandOf(r)).mtype, NEED_RSP) == r.needRsp
  {
    hide Has;
  }

  lemma FinishExplained(ep: Endpoint, id: nat, outcome: Outcome)
    requires id < |ep.requests|
    requires outcome == Canceled || (ep.log != [] && Explains(Last(ep.log), id, outcome))
    ensures GrowsExplained(ep.log, OnFinish(ep, id, outcome).log)
  {
    hide Count, LastRetrySet, RetriesSince, Explains;
  }

  lemma NoteExplained(ep: Endpoint, e: Event)
    requires !e.Finished? && (e.RspCallback? ==> ep.log != [] && Last(ep.log) == Answered(e.id, e.seqNo, e.msg))
    ensures GrowsExplained(ep.log, Note(ep, e).log) && Last(Note(ep, e).log) == e
  {
    hide Explains, Count, LastRetrySet, RetriesSince;
  }

  lemma FireExplained(ep: Endpoint, s: seqno)
    requires HandlersOwned(ep)
    ensures GrowsExplained(ep.log, FireTimer(ep, s).log)
  {
    hide Call, OnFinish, Note, Count, LastRetrySet, RetriesSince, GrowsExplained;
    if s in ep.handlers {
      var id, expired := ep.handlers[s].id, Expire(ep, s);
      NoteExplained(ep.(armed := ep.armed - {s}), TimedOut(id, s));
      NoteKeepsRequests(ep.(armed := ep.armed - {s}), TimedOut(id, s));
      if RetriesLeft(ep.requests[id]) {
        var r := ep.requests[id];
        var spent := WithRequest(expired, id, r.(retry := if r.retry == -1 then -1 else r.retry - 1));
        NoteExplained(spent, Retried(id));
        NoteKeepsRequests(spent, Retried(id));
        CallExplained(SpendRetry(expired, id), id, false);
        ExplainedTransitive(ep.log, expired.log, SpendRetry(expired, id).log);
        ExplainedTransitive(ep.log, SpendRetry(expired, id).log, FireTimer(ep, s).log);
      } else {
        FinishExplained(expired, id, Timeout);
        ExplainedTransitive(ep.log, expired.log, FireTimer(ep, s).log);
      }
    } else {
      NothingNew(ep.log);
    }
  }

  lemma NoteKeepsRequests(ep: Endpoint, e: Event)
    ensures Note(ep, e) == ep.(log := ep.log + [e])
  {
  }

  lemma NothingNew(log: seq<Event>)
    ensures GrowsExplained(log, log)
  {
  }

  /** The callback and the ending agree: with data exactly when the ending is normal. */
  lemma HandleExplained(ep: Endpoint, h: Handler, m: Msg, decodes: bool)
    requires h.id < |ep.requests| && ep.log != [] && Last(ep.log) == Answered(h.id, m.seqNo, m)
    ensures GrowsExplained(ep.log, HandleRsp(ep, h, m, decodes).log)
  {
    hide OnFinish, Note, Count, LastRetrySet, RetriesSince, GrowsExplained, Has, HandlersOwned;
    var called := RunCallback(ep, h, m, decodes);
    var outcome := RspOutcome(ep.requests[h.id].canceled, Has(m.mtype, NO_SUCH_CMD), h.kind, decodes);
    NothingNew(ep.log);
    match RspCalls(ep.requests[h.id].canceled, Has(m.mtype, NO_SUCH_CMD), h.kind, decodes) {
      case None =>
      case Some(decoded) =>
        NoteExplained(ep, RspCallback(h.id, m.seqNo, m, decoded));
        NoteKeepsRequests(ep, RspCallback(h.id, m.seqNo, m, decoded));
    }
    FinishExplained(called, h.id, outcome);
    ExplainedTransitive(ep.log, called.log, HandleRsp(ep, h, m, decodes).log);
  }

  lemma ResponseExplained(ep: Endpoint, m: Msg, decodes: bool)
    requires HandlersOwned(ep)
    ensures GrowsExplained(ep.log, OnResponse(ep, m, decodes).log)
  {
    hide HandleRsp, Note, Count, LastRetrySet, RetriesSince, GrowsExplained;
    NothingNew(ep.log);
    if m.seqNo in ep.handlers {
      var h := ep.handlers[m.seqNo];
      var answered := Note(ep, Answered(h.id, m.seqNo, m));
      NoteExplained(ep, Answered(h.id, m.seqNo, m));
      NoteKeepsRequests(ep, Answered(h.id, m.seqNo, m));
      HandleExplained(answered, h, m, decodes);
      ExplainedTransitive(ep.log, answered.log, OnResponse(ep, m, decodes).log);
    }
  }

  lemma RespondExplained(ep: Endpoint, s: seqno, cmd: bytes, payload: bytes, data: bytes, origin: Origin, send: bool)
    ensures GrowsExplained(ep.log, Respond(ep, s, cmd, payload, data, origin, send).log)
  {
    hide Explains, Count, LastRetrySet, RetriesSince, Coder.Wire;
  }

  lemma CommandExplained(ep: Endpoint, m: Msg, run: HandlerRun)
    ensures GrowsExplained(ep.log, OnCommand(ep, m, run).log)
  {
    hide Explains, Count, LastRetrySet, RetriesSince, Coder.Wire, Has, Respond;
    var needRsp := Has(m.mtype, NEED_RSP);
    match run
    case Replies(data) => RespondExplained(ep, m.seqNo, m.cmd, m.data, data, HandlerResult, needRsp);
    case Defers(before) =>
      if before != [] {
        var d := Deferred(m.seqNo, m.cmd, m.data, true, false);
        RespondExplained(ep.(deferred := ep.deferred + [d]), m.seqNo, m.cmd, m.data, before[0], DeferredResult,
          needRsp);
      }
    case Undecodable =>
  }

  lemma ApplyExplained(ep: Endpoint, id: nat, op: Op)
    requires id < |ep.requests|
    ensures GrowsExplained(ep.log, Apply(ep, id, op).log)
  {
    hide Explains, Call, OnFinish, Count, LastRetrySet, RetriesSince;
    match op
    case DoCall(bind) => CallExplained(ep, id, bind);
    case Cancel => FinishExplained(WithRequest(ep, id, ep.requests[id].(canceled := true)), id, Canceled);
    case _ =>
  }

  lemma NextExplained(ep: Endpoint, peer: seq<Msg>, step: Step)
    requires HandlersOwned(ep) && Enabled(ep, peer, step)
    ensures GrowsExplained(ep.log, Next(ep, peer, step).log)
  {
    hide Explained, Apply, FireTimer, OnCommand, OnResponse, IsCommand, IsResponse, Count, LastRetrySet, RetriesSince,
      Respond;
    match step
    case User(id, op) => ApplyExplained(ep, id, op);
    case Fire(s) => FireExplained(ep, s);
    case RspLater(k, data) =>
      var d := ep.deferred[k];
      RespondExplained(ep.(deferred := ep.deferred[k := d.(ready := true)]), d.seqNo, d.cmd, d.payload, data,
        DeferredResult, d.senderSet);
    case Receive(i, run, decodes) =>
      CommandExplained(ep, peer[i], run);
      ResponseExplained(ep, peer[i], decodes);
    case _ =>
  }

  /**
   Over every run, an ending other than by cancellation tells the truth about the event right before it: normal, that
   the callback has just run with the data; timeout, that the request's timer went off; no response needed, that its
   command has just gone out without asking for one; and so on.
   */
  lemma {:induction false} EveryEndingExplained(acts: seq<Act>, onLeft: bool, k: nat)
    requires Legal(START, acts) && k < |Exec(START, acts).Of(onLeft).log|
    ensures Explained(Exec(START, acts).Of(onLeft).log, k)
    decreases |acts|
  {
    hide Explains, Next;
    if acts != [] {
      var p, a := Exec(START, Init(acts)), Last(acts);
      if a.onLeft == onLeft {
        NextExplained(p.Of(onLeft), p.Peer(onLeft), a.step);
      }
      if k < |p.Of(onLeft).log| {
        EveryEndingExplained(Init(acts), onLeft, k);
      }
    }
  }

  /**
   A request ends with no-such-command only if the peer has received exactly its command, at a moment when it had no
   handler for it.
   */
  lemma {:induction false} NoSuchCmdIsTrue(acts: seq<Act>, onLeft: bool, k: nat)
    requires Legal(START, acts) && NoWrap(Exec(START, acts))
    requires k < |Exec(START, acts).Of(onLeft).log|
    requires var e := Exec(START, acts).Of(onLeft).log[k]; e.Finished? && e.outcome == NoSuchCmd
    ensures var ep, peer := Exec(START, acts).Of(onLeft), Exec(START, acts).Of(!onLeft);
            && k > 0 && ep.log[k - 1].Answered?
            && var c := Correlation.CommandIn(ep.log, ep.log[k - 1].seqNo);
            && c.Some? && c.value.0 == ep.log[k].id
            && Refused(ep.log[k - 1].seqNo, c.value.1.cmd, c.value.1.data, false) in peer.log
  {
    hide Exec, Legal, Has, IsResponse, Correlation.CommandIn, Correlation.Produces;
    var ep, peer := Exec(START, acts).Of(onLeft), Exec(START, acts).Of(!onLeft);
    EveryEndingExplained(acts, onLeft, k);
    Correlation.BothSound(acts);
    assert Correlation.OkEvent(ep.log, peer.log, ep.log[k - 1]);
  }

  /**
   However often a response is repeated, the callback runs at most once for its number, right after it was answered.
   */
  lemma {:induction false} CallbackAtMostOnce(acts: seq<Act>, onLeft: bool, i: nat, j: nat)
    requires Legal(START, acts) && NoWrap(Exec(START, acts))
    requires var log := Exec(START, acts).Of(onLeft).log;
             i < |log| && j < |log| && log[i].RspCallback? && log[j].RspCallback? && log[i].seqNo == log[j].seqNo
    ensures i == j
  {
    hide Exec, Legal, Explains, Count;
    var log := Exec(START, acts).Of(onLeft).log;
    EveryEndingExplained(acts, onLeft, i);
    EveryEndingExplained(acts, onLeft, j);
    Accounting.ResolvedAtMostOnce(acts, onLeft, log[i].seqNo);
    if i < j {
      Accounting.CountTwice(Resolutions(log[i].seqNo), [], log, i - 1, j - 1);
    } else if j < i {
      Accounting.CountTwice(Resolutions(log[i].seqNo), [], log, j - 1, i - 1);
    }
  }
}

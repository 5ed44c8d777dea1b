/** Responses belong to the command whose number they carry. */
module Correlation {
  import opened Bytes
  import opened MsgWrapper
  import opened Protocol
  import opened Runs
  import opened Calls
  import Coder

  /** The request that sent the command numbered `s`, and the command as it travels. */
  function CommandIn(log: seq<Event>, s: seqno): Option<(nat, Msg)>
    decreases |log|
  {
    if log == [] then None
    else
      match CommandIn(Init(log), s)
      case Some(c) => Some(c)
      case None => if Last(log).Sent? && Last(log).msg.seqNo == s then Some((Last(log).id, Last(log).msg)) else None
  }

  /** A reply with this data came about, one way or another, for the command numbered `s`. */
  predicate Produces(log: seq<Event>, s: seqno, c: Msg, data: bytes) {
    || Produced(s, c.cmd, c.data, data, Echo) in log
    || Produced(s, c.cmd, c.data, data, HandlerResult) in log
    || Produced(s, c.cmd, c.data, data, DeferredResult) in log
  }

  // ---- What is right about each item an endpoint holds, given its own log and its peer's ----

  predicate OkSent(mine: seq<Event>, theirs: seq<Event>, m: Msg) {
    m.requestPayload == None &&
    if IsCommand(m) then CommandIn(mine, m.seqNo).Some? && CommandIn(mine, m.seqNo).value.1 == m
    else
      var c := CommandIn(theirs, m.seqNo);
      IsResponse(m) && c.Some? && Asked(c.value.1) && Truthful(mine, m, c.value.1)
  }

  /** What a response says about the command it answers: the data a reply produced for it, or that it had no handler. */
  predicate Truthful(log: seq<Event>, m: Msg, c: Msg) {
    if Has(m.mtype, NO_SUCH_CMD) then Refused(m.seqNo, c.cmd, c.data, false) in log && Has(c.mtype, NEED_RSP)
      && !Has(c.mtype, PING)
    else Produces(log, m.seqNo, c, m.data)
  }

  /** Pings are always answered, other commands only if they say so. */
  predicate Asked(c: Msg) {
    Has(c.mtype, PING) || Has(c.mtype, NEED_RSP)
  }

  predicate OkEvent(mine: seq<Event>, theirs: seq<Event>, e: Event) {
    match e
    case Sent(id, m) => IsCommand(m) && CommandIn(mine, m.seqNo) == Some((id, m))
    case Answered(id, s, m) =>
      var c := CommandIn(mine, s);
      s == m.seqNo && IsResponse(m) && c.Some? && c.value.0 == id && Truthful(theirs, m, c.value.1)
    case Refused(s, cmd, payload, subscribed) =>
      var c := CommandIn(theirs, s);
      !subscribed && c.Some? && c.value.1.cmd == cmd && c.value.1.data == payload
    case RspCallback(id, s, m, _) =>
      var c := CommandIn(mine, s);
      && s == m.seqNo && IsResponse(m) && !Has(m.mtype, NO_SUCH_CMD)
      && c.Some? && c.value.0 == id && Produces(theirs, s, c.value.1, m.data)
    case Produced(s, cmd, payload, data, origin) =>
      var c := CommandIn(theirs, s);
      && c.Some? && c.value.1.cmd == cmd && c.value.1.data == payload
      && (origin.Echo? <==> Has(c.value.1.mtype, PING)) && (origin.Echo? ==> data == payload)
    case _ => true
  }

  predicate OkDeferred(theirs: seq<Event>, d: Deferred) {
    var c := CommandIn(theirs, d.seqNo);
    && c.Some? && c.value.1.cmd == d.cmd && c.value.1.data == d.payload && !Has(c.value.1.mtype, PING)
    && (d.senderSet ==> Has(c.value.1.mtype, NEED_RSP))
  }

  predicate OkHandler(mine: seq<Event>, s: seqno, h: Handler) {
    CommandIn(mine, s).Some? && CommandIn(mine, s).value.0 == h.id
  }

  ghost predicate Sound(ep: Endpoint, theirs: seq<Event>) {
    && (forall k :: 0 <= k < |ep.sent| ==> OkSent(ep.log, theirs, ep.sent[k]))
    && (forall k :: 0 <= k < |ep.log| ==> OkEvent(ep.log, theirs, ep.log[k]))
    && (forall k :: 0 <= k < |ep.deferred| ==> OkDeferred(theirs, ep.deferred[k]))
    && (forall s :: s in ep.handlers ==> OkHandler(ep.log, s, ep.handlers[s]))
    && (forall s: seqno :: CommandIn(ep.log, s).Some? ==> s < ep.drawn)
  }

  // ---- Logs only grow, and everything stays right ----

  lemma {:induction false} CommandStays(log: seq<Event>, more: seq<Event>, s: seqno)
    ensures CommandIn(log + more, s) == if CommandIn(log, s).Some? then CommandIn(log, s) else CommandIn(more, s)
    decreases |more|
  {
    if more == [] {
      assert log + more == log;
    } else {
      assert Init(log + more) == log + Init(more) && Last(log + more) == Last(more);
      CommandStays(log, Init(more), s);
    }
  }

  lemma CommandKept(log: seq<Event>, log': seq<Event>, s: seqno)
    requires log <= log'
    ensures CommandIn(log, s).Some? ==> CommandIn(log', s) == CommandIn(log, s)
  {
    assert log' == log + log'[|log|..];
    CommandStays(log, log'[|log|..], s);
  }

  lemma SentStaysOk(mine: seq<Event>, theirs: seq<Event>, mine': seq<Event>, theirs': seq<Event>, m: Msg)
    requires mine <= mine' && theirs <= theirs' && OkSent(mine, theirs, m)
    ensures OkSent(mine', theirs', m)
  {
    hide CommandIn, IsCommand, IsResponse, Has;
    CommandKept(mine, mine', m.seqNo);
    CommandKept(theirs, theirs', m.seqNo);
  }

  lemma EventStaysOk(mine: seq<Event>, theirs: seq<Event>, mine': seq<Event>, theirs': seq<Event>, e: Event)
    requires mine <= mine' && theirs <= theirs' && OkEvent(mine, theirs, e)
    ensures OkEvent(mine', theirs', e)
  {
    hide CommandIn, IsCommand, IsResponse, Has;
    match e
    case Sent(id, m) => CommandKept(mine, mine', m.seqNo);
    case Answered(id, s, m) => CommandKept(mine, mine', s);
    case Refused(s, _, _, _) => CommandKept(theirs, theirs', s);
    case RspCallback(id, s, m, _) => CommandKept(mine, mine', s);
    case Produced(s, _, _, _, _) => CommandKept(theirs, theirs', s);
    case _ =>
  }

  /** When only the peer acts, its log grows and this endpoint stays sound. */
  lemma PeerGrows(ep: Endpoint, theirs: seq<Event>, theirs': seq<Event>)
    requires Sound(ep, theirs) && theirs <= theirs'
    ensures Sound(ep, theirs')
  {
    hide CommandIn, OkSent, OkEvent, Has;
    forall k | 0 <= k < |ep.sent|
      ensures OkSent(ep.log, theirs', ep.sent[k])
    {
      SentStaysOk(ep.log, theirs, ep.log, theirs', ep.sent[k]);
    }
    forall k | 0 <= k < |ep.log|
      ensures OkEvent(ep.log, theirs', ep.log[k])
    {
      EventStaysOk(ep.log, theirs, ep.log, theirs', ep.log[k]);
    }
    forall k | 0 <= k < |ep.deferred|
      ensures OkDeferred(theirs', ep.deferred[k])
    {
      CommandKept(theirs, theirs', ep.deferred[k].seqNo);
    }
  }

  /** From `ep` to `r` the logs grow, and everything that is new is right. */
  ghost predicate GrowsSoundly(ep: Endpoint, r: Endpoint, theirs: seq<Event>) {
    && ep.log <= r.log && ep.sent <= r.sent && ep.drawn <= r.drawn
    && (forall k :: |ep.sent| <= k < |r.sent| ==> OkSent(r.log, theirs, r.sent[k]))
    && (forall k :: |ep.log| <= k < |r.log| ==> OkEvent(r.log, theirs, r.log[k]))
    && (forall k :: 0 <= k < |r.deferred| ==> OkDeferred(theirs, r.deferred[k]))
    && (forall s :: s in r.handlers ==>
        (s in ep.handlers && r.handlers[s] == ep.handlers[s]) || OkHandler(r.log, s, r.handlers[s]))
    && (forall s: seqno :: CommandIn(r.log, s).Some? ==> s < r.drawn)
  }

  lemma SoundGrowth(ep: Endpoint, r: Endpoint, theirs: seq<Event>)
    requires Sound(ep, theirs) && GrowsSoundly(ep, r, theirs)
    ensures Sound(r, theirs)
  {
    hide CommandIn, OkSent, OkEvent, OkDeferred;
    forall k | 0 <= k < |ep.sent|
      ensures OkSent(r.log, theirs, r.sent[k])
    {
      SentStaysOk(ep.log, theirs, r.log, theirs, ep.sent[k]);
    }
    forall k | 0 <= k < |ep.log|
      ensures OkEvent(r.log, theirs, r.log[k])
    {
      EventStaysOk(ep.log, theirs, r.log, theirs, ep.log[k]);
    }
    forall s | s in r.handlers
      ensures OkHandler(r.log, s, r.handlers[s])
    {
      if s in ep.handlers {
        CommandKept(ep.log, r.log, s);
      }
    }
  }

  /** Events that say nothing about commands or data. */
  predicate Neutral(e: Event) {
    !e.Sent? && !e.Answered? && !e.RspCallback? && !e.Produced? && !e.Refused?
  }

  /** A step that logs one event which is not a command, and sends at most one message. */
  lemma NoteSound(ep: Endpoint, r: Endpoint, theirs: seq<Event>, e: Event)
    requires Sound(ep, theirs) && r.log == ep.log + [e] && !e.Sent? && OkEvent(r.log, theirs, e)
    requires r.sent == ep.sent && r.deferred == ep.deferred && r.drawn == ep.drawn
    requires forall s :: s in r.handlers ==> s in ep.handlers && r.handlers[s] == ep.handlers[s]
    ensures Sound(r, theirs)
  {
    hide OkSent, OkEvent, OkDeferred;
    assert Init(r.log) == ep.log && Last(r.log) == e;
    forall s: seqno | CommandIn(r.log, s).Some?
      ensures s < r.drawn
    {
      assert CommandIn(ep.log, s).Some?;
    }
    SoundGrowth(ep, r, theirs);
  }

  lemma TransmitSound(ep: Endpoint, theirs: seq<Event>, m: Msg)
    requires Sound(ep, theirs) && OkSent(ep.log, theirs, Coder.Wire(m))
    ensures Sound(Transmit(ep, m), theirs)
  {
    hide CommandIn, OkSent, OkEvent, OkDeferred, Coder.Wire;
    SoundGrowth(ep, Transmit(ep, m), theirs);
  }

  /** Only the table, the timers and the requests' own fields differ. */
  lemma SameItemsSound(ep: Endpoint, r: Endpoint, theirs: seq<Event>)
    requires Sound(ep, theirs)
    requires r.log == ep.log && r.sent == ep.sent && r.deferred == ep.deferred && r.drawn == ep.drawn
    requires forall s :: s in r.handlers ==> s in ep.handlers && r.handlers[s] == ep.handlers[s]
    ensures Sound(r, theirs)
  {
  }

  // ---- The requester's side ----

  lemma FinishSound(ep: Endpoint, id: nat, outcome: Outcome, theirs: seq<Event>)
    requires id < |ep.requests| && Sound(ep, theirs)
    ensures Sound(OnFinish(ep, id, outcome), theirs)
  {
    hide Sound, Count, LastRetrySet, RetriesSince;
    if ep.requests[id].waiting {
      NoteSound(ep, OnFinish(ep, id, outcome), theirs, Finished(id, outcome));
    }
  }

  lemma CallSound(ep: Endpoint, id: nat, bind: bool, theirs: seq<Event>)
    requires id < |ep.requests| && Sound(ep, theirs) && Call(ep, id, bind).drawn <= WORD32
    ensures Sound(Call(ep, id, bind), theirs)
  {
    hide Call, Count, CommandIn, OkSent, OkEvent, OkDeferred, Coder.Wire, CommandOf, CallEvents;
    CallShape(ep, id, bind);
    var r, events := Call(ep, id, bind), CallEvents(ep, id, bind);
    var c := Coder.Wire(CommandOf(CalledRequest(ep, id, bind)));
    WireOfCommand(CalledRequest(ep, id, bind));
    forall s: seqno
      ensures CommandIn(r.log, s)
           == if CommandIn(ep.log, s).Some? then CommandIn(ep.log, s)
              else if Proceeds(ep, id, bind) && s == ep.drawn then Some((id, c)) else None
    {
      CommandStays(ep.log, events, s);
      CommandInCall(ep, id, bind, s);
    }
    forall k | |ep.log| <= k < |r.log|
      ensures OkEvent(r.log, theirs, r.log[k])
    {
      CallEventOk(ep, id, bind, theirs, k - |ep.log|);
    }
    if Proceeds(ep, id, bind) {
      CommandOk(r.log, theirs, id, c);
    }
    SoundGrowth(ep, r, theirs);
  }

  lemma WireOfCommand(r: Request)
    ensures var c := Coder.Wire(CommandOf(r)); IsCommand(c) && c.seqNo == r.seqNo && c.requestPayload == None
  {
  }

  lemma CommandOk(mine: seq<Event>, theirs: seq<Event>, id: nat, c: Msg)
    requires c.requestPayload == None && IsCommand(c) && CommandIn(mine, c.seqNo) == Some((id, c))
    ensures OkSent(mine, theirs, c)
  {
  }

  lemma CommandInCall(ep: Endpoint, id: nat, bind: bool, s: seqno)
    requires id < |ep.requests|
    ensures var c := Coder.Wire(CommandOf(CalledRequest(ep, id, bind)));
            CommandIn(CallEvents(ep, id, bind), s) == if Proceeds(ep, id, bind) && c.seqNo == s then Some((id, c))
              else None
  {
    hide Coder.Wire, CommandOf, Refusal, Proceeds, Subscribes, CommandIn;
    var r := CalledRequest(ep, id, bind);
    var c := Coder.Wire(CommandOf(r));
    var before := [Called(id, !ep.requests[id].waiting)]
      + (if Subscribes(ep, id, bind) then [Registered(id, r.seqNo)] else []);
    var after := if r.needRsp then [] else [Finished(id, NoNeedRsp)];
    NoCommand(before, s);
    NoCommand(after, s);
    if Proceeds(ep, id, bind) {
      assert CallEvents(ep, id, bind) == before + ([Sent(id, c)] + after);
      CommandStays(before, [Sent(id, c)] + after, s);
      CommandStays([Sent(id, c)], after, s);
      OneCommand(id, c, s);
    } else {
      NoCommand(CallEvents(ep, id, bind), s);
    }
  }

  lemma {:induction false} NoCommand(events: seq<Event>, s: seqno)
    requires forall k :: 0 <= k < |events| ==> !events[k].Sent?
    ensures CommandIn(events, s) == None
    decreases |events|
  {
    if events != [] {
      NoCommand(Init(events), s);
    }
  }

  lemma OneCommand(id: nat, c: Msg, s: seqno)
    ensures CommandIn([Sent(id, c)], s) == if c.seqNo == s then Some((id, c)) else None
  {
    assert Init([Sent(id, c)]) == [];
  }

  lemma CallEventOk(ep: Endpoint, id: nat, bind: bool, theirs: seq<Event>, k: nat)
    requires id < |ep.requests| && k < |CallEvents(ep, id, bind)|
    requires var c := Coder.Wire(CommandOf(CalledRequest(ep, id, bind)));
             Proceeds(ep, id, bind) ==>
               IsCommand(c) && CommandIn(ep.log + CallEvents(ep, id, bind), c.seqNo) == Some((id, c))
    ensures OkEvent(ep.log + CallEvents(ep, id, bind), theirs, CallEvents(ep, id, bind)[k])
  {
    hide Coder.Wire, CommandOf, Refusal, CommandIn, IsCommand;
  }

  lemma ResponseSound(ep: Endpoint, theirs: seq<Event>, m: Msg, decodes: bool)
    requires HandlersOwned(ep) && Sound(ep, theirs)
    requires IsResponse(m) && OkSent(theirs, ep.log, m)
    ensures Sound(OnResponse(ep, m, decodes), theirs)
  {
    hide Sound, Count, LastRetrySet, RetriesSince, OkSent, OkEvent, CommandIn, Has, IsResponse, OnFinish, RspCalls,
      RspOutcome;
    if m.seqNo in ep.handlers {
      var h := ep.handlers[m.seqNo];
      var answered := Note(ep, Answered(h.id, m.seqNo, m));
      HandlerKnown(ep, theirs, m.seqNo);
      CommandKept(ep.log, answered.log, m.seqNo);
      AnsweredOk(ep.log, answered.log, theirs, h, m);
      NoteSound(ep, answered, theirs, Answered(h.id, m.seqNo, m));
      var called := RunCallback(answered, h, m, decodes);
      CallbackSound(ep, answered, theirs, h, m, decodes);
      var outcome := RspOutcome(ep.requests[h.id].canceled, Has(m.mtype, NO_SUCH_CMD), h.kind, decodes);
      FinishSound(called, h.id, outcome, theirs);
      SameItemsSound(OnFinish(called, h.id, outcome), OnResponse(ep, m, decodes), theirs);
    }
  }

  lemma AnsweredOk(mine: seq<Event>, mine': seq<Event>, theirs: seq<Event>, h: Handler, m: Msg)
    requires IsResponse(m) && OkSent(theirs, mine, m) && OkHandler(mine, m.seqNo, h)
    requires CommandIn(mine', m.seqNo) == CommandIn(mine, m.seqNo)
    ensures OkEvent(mine', theirs, Answered(h.id, m.seqNo, m))
  {
    hide CommandIn, Has, Truthful;
  }

  lemma AnyNeutral(mine: seq<Event>, theirs: seq<Event>, e: Event)
    requires Neutral(e)
    ensures OkEvent(mine, theirs, e)
  {
  }

  /** The handler found under a response's number belongs to the request whose command the response was produced for. */
  lemma CallbackSound(ep: Endpoint, answered: Endpoint, theirs: seq<Event>, h: Handler, m: Msg, decodes: bool)
    requires HandlersOwned(ep) && Sound(ep, theirs) && Sound(answered, theirs)
    requires m.seqNo in ep.handlers && h == ep.handlers[m.seqNo]
    requires answered.handlers == ep.handlers && answered.requests == ep.requests && ep.log <= answered.log
    requires IsResponse(m) && OkSent(theirs, ep.log, m)
    ensures Sound(RunCallback(answered, h, m, decodes), theirs)
  {
    hide Count, LastRetrySet, RetriesSince, CommandIn, Has, OkEvent, OkDeferred, Sound;
    match RspCalls(answered.requests[h.id].canceled, Has(m.mtype, NO_SUCH_CMD), h.kind, decodes)
    case None =>
    case Some(decoded) =>
      var e := RspCallback(h.id, m.seqNo, m, decoded);
      var r := RunCallback(answered, h, m, decodes);
      HandlerKnown(ep, theirs, m.seqNo);
      CommandKept(ep.log, r.log, m.seqNo);
      RspEventOk(ep.log, r.log, theirs, h.id, m, decoded);
      NoteSound(answered, r, theirs, e);
  }

  lemma HandlerKnown(ep: Endpoint, theirs: seq<Event>, s: seqno)
    requires Sound(ep, theirs) && s in ep.handlers
    ensures OkHandler(ep.log, s, ep.handlers[s])
  {
  }

  lemma RspEventOk(mine: seq<Event>, mine': seq<Event>, theirs: seq<Event>, id: nat, m: Msg, decoded: bool)
    requires IsResponse(m) && OkSent(theirs, mine, m) && !Has(m.mtype, NO_SUCH_CMD)
    requires CommandIn(mine, m.seqNo).Some? && CommandIn(mine, m.seqNo).value.0 == id
    requires CommandIn(mine', m.seqNo) == CommandIn(mine, m.seqNo)
    ensures OkEvent(mine', theirs, RspCallback(id, m.seqNo, m, decoded))
  {
    hide CommandIn, Has;
  }

  lemma FireSound(ep: Endpoint, s: seqno, theirs: seq<Event>)
    requires HandlersOwned(ep) && Sound(ep, theirs) && FireTimer(ep, s).drawn <= WORD32
    ensures Sound(FireTimer(ep, s), theirs)
  {
    hide Sound, Count, LastRetrySet, RetriesSince, OkEvent, CommandIn, OnFinish, Call;
    if s !in ep.handlers {
      SameItemsSound(ep, FireTimer(ep, s), theirs);
    } else {
      var id, expired := ep.handlers[s].id, Expire(ep, s);
      AnyNeutral(expired.log, theirs, TimedOut(id, s));
      NoteSound(ep, expired, theirs, TimedOut(id, s));
      if RetriesLeft(ep.requests[id]) {
        var again := SpendRetry(expired, id);
        AnyNeutral(again.log, theirs, Retried(id));
        NoteSound(expired, again, theirs, Retried(id));
        CallSound(again, id, false, theirs);
        SameItemsSound(Call(again, id, false), FireTimer(ep, s), theirs);
      } else {
        FinishSound(expired, id, Timeout, theirs);
        SameItemsSound(OnFinish(expired, id, Timeout), FireTimer(ep, s), theirs);
      }
    }
  }

  lemma ApplySound(ep: Endpoint, id: nat, op: Op, theirs: seq<Event>)
    requires id < |ep.requests| && Sound(ep, theirs) && Apply(ep, id, op).drawn <= WORD32
    ensures Sound(Apply(ep, id, op), theirs)
  {
    hide Sound, Count, LastRetrySet, RetriesSince, OkEvent, CommandIn, OnFinish, Call;
    var r := ep.requests[id];
    match op
    case DoCall(bind) => CallSound(ep, id, bind, theirs);
    case Cancel =>
      SameItemsSound(ep, WithRequest(ep, id, r.(canceled := true)), theirs);
      FinishSound(WithRequest(ep, id, r.(canceled := true)), id, Canceled, theirs);
    case SetRetry(count) =>
      AnyNeutral(Apply(ep, id, op).log, theirs, RetrySet(id, count));
      NoteSound(ep, Apply(ep, id, op), theirs, RetrySet(id, count));
    case _ => SameItemsSound(ep, Apply(ep, id, op), theirs);
  }

  // ---- The replier's side ----

  /** The command `c` behind a reply is in the peer's log. */
  lemma RespondSound(ep: Endpoint, theirs: seq<Event>, s: seqno, cmd: bytes, payload: bytes, data: bytes,
      origin: Origin, send: bool)
    requires Sound(ep, theirs) && !origin.Echo?
    requires var c := CommandIn(theirs, s);
             && c.Some? && c.value.1.cmd == cmd && c.value.1.data == payload && !Has(c.value.1.mtype, PING)
             && (send ==> Has(c.value.1.mtype, NEED_RSP))
    ensures Sound(Respond(ep, s, cmd, payload, data, origin, send), theirs)
  {
    hide Sound, Count, LastRetrySet, RetriesSince, CommandIn;
    var e := Produced(s, cmd, payload, data, origin);
    var noted := Note(ep, e);
    NoteSound(ep, noted, theirs, e);
    if send {
      assert e == noted.log[|noted.log| - 1];
      TransmitSound(noted, theirs, Reply(s, data));
    }
  }

  lemma CommandSound(ep: Endpoint, theirs: seq<Event>, m: Msg, run: HandlerRun)
    requires Sound(ep, theirs) && IsCommand(m) && OkSent(theirs, ep.log, m)
    ensures Sound(OnCommand(ep, m, run), theirs)
  {
    hide Sound, Count, LastRetrySet, RetriesSince, CommandIn, Has, Respond, Refuse;
    var needRsp := Has(m.mtype, NEED_RSP);
    if Has(m.mtype, PING) {
      PingSound(ep, theirs, m);
    } else if m.cmd !in ep.cmds {
      if needRsp {
        NoSuchCmdSound(ep, theirs, m);
      }
    } else {
      match run
      case Undecodable =>
      case Replies(data) => RespondSound(ep, theirs, m.seqNo, m.cmd, m.data, data, HandlerResult, needRsp);
      case Defers(before) =>
        var d := Deferred(m.seqNo, m.cmd, m.data, before != [], needRsp && before == []);
        var waiting := ep.(deferred := ep.deferred + [d]);
        DeferSound(ep, theirs, d);
        if before != [] {
          RespondSound(waiting, theirs, m.seqNo, m.cmd, m.data, before[0], DeferredResult, needRsp);
        }
    }
  }

  lemma PingSound(ep: Endpoint, theirs: seq<Event>, m: Msg)
    requires Sound(ep, theirs) && IsCommand(m) && OkSent(theirs, ep.log, m) && Has(m.mtype, PING)
    ensures Sound(OnCommand(ep, m, Undecodable), theirs)
  {
    hide Sound, Count, LastRetrySet, RetriesSince, CommandIn;
    var e := Produced(m.seqNo, m.cmd, m.data, m.data, Echo);
    var noted := Note(ep, e);
    NoteSound(ep, noted, theirs, e);
    assert e == noted.log[|noted.log| - 1];
    TransmitSound(noted, theirs, m.(mtype := RESPONSE + PONG));
  }

  lemma NoSuchCmdSound(ep: Endpoint, theirs: seq<Event>, m: Msg)
    requires Sound(ep, theirs) && IsCommand(m) && OkSent(theirs, ep.log, m)
    requires m.cmd !in ep.cmds && Has(m.mtype, NEED_RSP) && !Has(m.mtype, PING)
    ensures Sound(Refuse(ep, m), theirs)
  {
    hide Sound, Count, LastRetrySet, RetriesSince, CommandIn;
    var e := Refused(m.seqNo, m.cmd, m.data, false);
    var noted := Note(ep, e);
    NoteSound(ep, noted, theirs, e);
    assert e == noted.log[|noted.log| - 1];
    TransmitSound(noted, theirs, Msg(m.seqNo, [], RESPONSE + NO_SUCH_CMD, [], None));
  }

  /** From `ep` to `r` the peer has been told that its command does not exist, and the log says so. */
  ghost predicate Tells(ep: Endpoint, r: Endpoint) {
    |r.sent| > |ep.sent| && Has(Last(r.sent).mtype, NO_SUCH_CMD)
  }

  ghost predicate Logs(ep: Endpoint, r: Endpoint) {
    |r.log| > |ep.log| && Last(r.log).Refused?
  }

  /** The peer is told that a command does not exist exactly when it has no handler, wants a response and is no ping. */
  lemma RefusesExactly(ep: Endpoint, m: Msg, run: HandlerRun)
    ensures var r := OnCommand(ep, m, run);
            && (Tells(ep, r) <==> m.cmd !in ep.cmds && Has(m.mtype, NEED_RSP) && !Has(m.mtype, PING))
            && (Tells(ep, r) <==> Logs(ep, r))
            && (Logs(ep, r) ==> Last(r.log) == Refused(m.seqNo, m.cmd, m.data, false))
  {
    hide Has, Respond, Refuse, Tells, Logs, Count, LastRetrySet, RetriesSince;
    var needRsp := Has(m.mtype, NEED_RSP);
    NothingTold(ep, ep);
    if Has(m.mtype, PING) {
      EchoTellsNothing(ep, m);
    } else if m.cmd !in ep.cmds {
      RefusalIsTold(ep, m);
    } else if run.Replies? {
      RespondTellsNothing(ep, m.seqNo, m.cmd, m.data, run.data, HandlerResult, needRsp);
    } else if run.Defers? {
      var d := Deferred(m.seqNo, m.cmd, m.data, run.before != [], needRsp && run.before == []);
      var waiting := ep.(deferred := ep.deferred + [d]);
      NothingTold(ep, waiting);
      if run.before != [] {
        RespondTellsNothing(waiting, m.seqNo, m.cmd, m.data, run.before[0], DeferredResult, needRsp);
        SameFrom(ep, waiting, OnCommand(ep, m, run));
      }
    }
  }

  lemma NothingTold(ep: Endpoint, r: Endpoint)
    requires r.sent == ep.sent && r.log == ep.log
    ensures !Tells(ep, r) && !Logs(ep, r)
  {
  }

  lemma SameFrom(ep: Endpoint, ep': Endpoint, r: Endpoint)
    requires ep'.sent == ep.sent && ep'.log == ep.log
    ensures Tells(ep, r) == Tells(ep', r) && Logs(ep, r) == Logs(ep', r)
  {
  }

  lemma EchoTellsNothing(ep: Endpoint, m: Msg)
    requires Has(m.mtype, PING)
    ensures !Tells(ep, OnCommand(ep, m, Undecodable)) && !Logs(ep, OnCommand(ep, m, Undecodable))
  {
    hide Count, LastRetrySet, RetriesSince;
  }

  lemma RefusalIsTold(ep: Endpoint, m: Msg)
    requires m.cmd !in ep.cmds
    ensures Tells(ep, Refuse(ep, m)) && Logs(ep, Refuse(ep, m))
    ensures Last(Refuse(ep, m).log) == Refused(m.seqNo, m.cmd, m.data, false)
  {
    hide Count, LastRetrySet, RetriesSince;
  }

  lemma RespondTellsNothing(ep: Endpoint, s: seqno, cmd: bytes, payload: bytes, data: bytes, origin: Origin, send: bool)
    ensures var r := Respond(ep, s, cmd, payload, data, origin, send); !Tells(ep, r) && !Logs(ep, r)
  {
    hide Count, LastRetrySet, RetriesSince;
  }

  lemma DeferSound(ep: Endpoint, theirs: seq<Event>, d: Deferred)
    requires Sound(ep, theirs) && OkDeferred(theirs, d)
    ensures Sound(ep.(deferred := ep.deferred + [d]), theirs)
  {
    hide CommandIn, OkSent, OkEvent, OkDeferred;
  }

  lemma DeferredSound(ep: Endpoint, theirs: seq<Event>, k: nat, data: bytes)
    requires k < |ep.deferred| && Sound(ep, theirs)
    ensures Sound(OnDeferred(ep, k, data), theirs)
  {
    hide CommandIn, OkSent, OkEvent, Has, Respond;
    var d := ep.deferred[k];
    assert OkDeferred(theirs, d);
    if !d.ready {
      var marked := ep.(deferred := ep.deferred[k := d.(ready := true)]);
      assert Sound(marked, theirs);
      RespondSound(marked, theirs, d.seqNo, d.cmd, d.payload, data, DeferredResult, d.senderSet);
    }
  }

  // ---- Runs ----

  lemma NextSound(ep: Endpoint, peer: Endpoint, step: Step)
    requires HandlersOwned(ep) && Enabled(ep, peer.sent, step) && Next(ep, peer.sent, step).drawn <= WORD32
    requires Sound(ep, peer.log) && Sound(peer, ep.log)
    ensures Sound(Next(ep, peer.sent, step), peer.log)
  {
    hide Sound, Apply, FireTimer, OnDeferred, OnCommand, OnResponse, OkSent;
    match step
    case User(id, op) => ApplySound(ep, id, op, peer.log);
    case Fire(s) => FireSound(ep, s, peer.log);
    case RspLater(k, data) => DeferredSound(ep, peer.log, k, data);
    case Receive(i, run, decodes) =>
      SentKnown(peer, ep.log, i);
      if IsCommand(peer.sent[i]) {
        CommandSound(ep, peer.log, peer.sent[i], run);
      } else if IsResponse(peer.sent[i]) {
        ResponseSound(ep, peer.log, peer.sent[i], decodes);
      }
    case _ => SameItemsSound(ep, Next(ep, peer.sent, step), peer.log);
  }

  lemma SentKnown(peer: Endpoint, mine: seq<Event>, i: nat)
    requires Sound(peer, mine) && i < |peer.sent|
    ensures OkSent(peer.log, mine, peer.sent[i])
  {
  }

  lemma CallLogGrows(ep: Endpoint, id: nat, bind: bool)
    requires id < |ep.requests|
    ensures ep.log <= Call(ep, id, bind).log
  {
    hide Call, CallEvents;
    CallShape(ep, id, bind);
  }

  lemma FireLogGrows(ep: Endpoint, s: seqno)
    requires HandlersOwned(ep)
    ensures ep.log <= FireTimer(ep, s).log
  {
    hide Call, Count, LastRetrySet, RetriesSince, CallEvents;
    if s in ep.handlers {
      var id := ep.handlers[s].id;
      CallShape(SpendRetry(Expire(ep, s), id), id, false);
    }
  }

  lemma RespondLogGrows(ep: Endpoint, s: seqno, cmd: bytes, payload: bytes, data: bytes, origin: Origin, send: bool)
    ensures ep.log <= Respond(ep, s, cmd, payload, data, origin, send).log
  {
    hide Count, LastRetrySet, RetriesSince, Coder.Wire;
  }

  lemma CommandLogGrows(ep: Endpoint, m: Msg, run: HandlerRun)
    ensures ep.log <= OnCommand(ep, m, run).log
  {
    hide Count, LastRetrySet, RetriesSince, Coder.Wire, Has, Respond;
    var needRsp := Has(m.mtype, NEED_RSP);
    match run
    case Replies(data) => RespondLogGrows(ep, m.seqNo, m.cmd, m.data, data, HandlerResult, needRsp);
    case Defers(before) =>
      if before != [] {
        var d := Deferred(m.seqNo, m.cmd, m.data, true, false);
        RespondLogGrows(ep.(deferred := ep.deferred + [d]), m.seqNo, m.cmd, m.data, before[0], DeferredResult, needRsp);
      }
    case Undecodable =>
  }

  lemma FinishLogGrows(ep: Endpoint, id: nat, outcome: Outcome)
    requires id < |ep.requests|
    ensures ep.log <= OnFinish(ep, id, outcome).log
  {
    hide Count, LastRetrySet, RetriesSince;
  }

  lemma ResponseLogGrows(ep: Endpoint, m: Msg, decodes: bool)
    requires HandlersOwned(ep)
    ensures ep.log <= OnResponse(ep, m, decodes).log
  {
    hide Count, LastRetrySet, RetriesSince, Has, RspCalls, RspOutcome, OnFinish;
    if m.seqNo in ep.handlers {
      var h := ep.handlers[m.seqNo];
      var called := RunCallback(Note(ep, Answered(h.id, m.seqNo, m)), h, m, decodes);
      FinishLogGrows(called, h.id, RspOutcome(ep.requests[h.id].canceled, Has(m.mtype, NO_SUCH_CMD), h.kind, decodes));
    }
  }

  lemma ApplyLogGrows(ep: Endpoint, id: nat, op: Op)
    requires id < |ep.requests|
    ensures ep.log <= Apply(ep, id, op).log
  {
    hide Call, OnFinish, Count, LastRetrySet, RetriesSince;
    match op
    case DoCall(bind) => CallLogGrows(ep, id, bind);
    case Cancel => FinishLogGrows(WithRequest(ep, id, ep.requests[id].(canceled := true)), id, Canceled);
    case _ =>
  }

  lemma DeferredLogGrows(ep: Endpoint, k: nat, data: bytes)
    requires k < |ep.deferred|
    ensures ep.log <= OnDeferred(ep, k, data).log
  {
    hide Respond;
    var d := ep.deferred[k];
    var marked := ep.(deferred := ep.deferred[k := d.(ready := true)]);
    RespondLogGrows(marked, d.seqNo, d.cmd, d.payload, data, DeferredResult, d.senderSet);
  }

  lemma LogGrows(ep: Endpoint, peer: seq<Msg>, step: Step)
    requires HandlersOwned(ep) && Enabled(ep, peer, step)
    ensures ep.log <= Next(ep, peer, step).log
  {
    hide Apply, FireTimer, OnDeferred, OnCommand, OnResponse, IsCommand, IsResponse;
    match step
    case User(id, op) => ApplyLogGrows(ep, id, op);
    case Fire(s) => FireLogGrows(ep, s);
    case RspLater(k, data) => DeferredLogGrows(ep, k, data);
    case Receive(i, run, decodes) =>
      CommandLogGrows(ep, peer[i], run);
      ResponseLogGrows(ep, peer[i], decodes);
    case _ =>
  }

  lemma {:induction false} BothSound(acts: seq<Act>)
    requires Legal(START, acts) && NoWrap(Exec(START, acts))
    ensures var p := Exec(START, acts); Sound(p.left, p.right.log) && Sound(p.right, p.left.log)
    decreases |acts|
  {
    hide Sound, Next;
    if acts == [] {
      StartSound();
    } else {
      var p, a := Exec(START, Init(acts)), Last(acts);
      NoWrapBefore(p, a);
      BothSound(Init(acts));
      var ep, peer := p.Of(a.onLeft), p.Of(!a.onLeft);
      NextSound(ep, peer, a.step);
      LogGrows(ep, peer.sent, a.step);
      PeerGrows(peer, ep.log, Next(ep, peer.sent, a.step).log);
    }
  }

  lemma StartSound()
    ensures Sound(EMPTY, [])
  {
  }

  /**
   Response correlation. Whatever the network loses, delays, reorders or repeats: when a response callback runs for the
   number `s`, the response's data was produced by the peer (a handler's result, a deferred result or a ping's echo) for
   exactly the command and payload that this very request sent under `s`.
   */
  lemma {:induction false} ResponseCorrelation(acts: seq<Act>, onLeft: bool, k: nat)
    requires Legal(START, acts) && NoWrap(Exec(START, acts))
    requires k < |Exec(START, acts).Of(onLeft).log| && Exec(START, acts).Of(onLeft).log[k].RspCallback?
    ensures var ep, peer := Exec(START, acts).Of(onLeft), Exec(START, acts).Of(!onLeft);
            var e := ep.log[k];
            var c := CommandIn(ep.log, e.seqNo);
            && c.Some? && c.value.0 == e.id && IsResponse(e.msg) && e.msg.seqNo == e.seqNo
            && Sent(e.id, c.value.1) in ep.log && IsCommand(c.value.1)
            && Produces(peer.log, e.seqNo, c.value.1, e.msg.data)
  {
    hide Exec, Legal, CommandIn, Has, IsResponse;
    BothSound(acts);
    var ep, peer := Exec(START, acts).Of(onLeft), Exec(START, acts).Of(!onLeft);
    assert OkEvent(ep.log, peer.log, ep.log[k]);
    var c := CommandIn(ep.log, ep.log[k].seqNo);
    CommandIsLogged(ep.log, ep.log[k].seqNo);
    var i :| 0 <= i < |ep.log| && ep.log[i] == Sent(c.value.0, c.value.1);
    assert OkEvent(ep.log, peer.log, ep.log[i]);
  }

  lemma {:induction false} CommandIsLogged(log: seq<Event>, s: seqno)
    ensures CommandIn(log, s).Some? ==> Sent(CommandIn(log, s).value.0, CommandIn(log, s).value.1) in log
    decreases |log|
  {
    if log != [] {
      CommandIsLogged(Init(log), s);
    }
  }

  /**
   Every reply that ever came about belongs to the one command sent under its number, and an echo repeats its payload.
   */
  lemma {:induction false} ProducedForItsCommand(acts: seq<Act>, onLeft: bool, k: nat)
    requires Legal(START, acts) && NoWrap(Exec(START, acts))
    requires k < |Exec(START, acts).Of(onLeft).log| && Exec(START, acts).Of(onLeft).log[k].Produced?
    ensures var ep, peer := Exec(START, acts).Of(onLeft), Exec(START, acts).Of(!onLeft);
            var e := ep.log[k];
            var c := CommandIn(peer.log, e.seqNo);
            && c.Some? && c.value.1.cmd == e.cmd && c.value.1.data == e.payload
            && (e.origin.Echo? ==> e.data == e.payload)
  {
    hide Exec, Legal, CommandIn, Has;
    BothSound(acts);
    var ep, peer := Exec(START, acts).Of(onLeft), Exec(START, acts).Of(!onLeft);
    assert OkEvent(ep.log, peer.log, ep.log[k]);
  }

  /**
   No response is ever sent that the peer did not ask for, and each says something about the one command it answers.
   */
  lemma {:induction false} OnlyAskedForResponses(acts: seq<Act>, onLeft: bool, k: nat)
    requires Legal(START, acts) && NoWrap(Exec(START, acts))
    requires k < |Exec(START, acts).Of(onLeft).sent| && !IsCommand(Exec(START, acts).Of(onLeft).sent[k])
    ensures var ep, peer := Exec(START, acts).Of(onLeft), Exec(START, acts).Of(!onLeft);
            var m := ep.sent[k];
            var c := CommandIn(peer.log, m.seqNo);
            && IsResponse(m) && c.Some? && Asked(c.value.1)
            && (if Has(m.mtype, NO_SUCH_CMD) then Refused(m.seqNo, c.value.1.cmd, c.value.1.data, false) in ep.log
                else Produces(ep.log, m.seqNo, c.value.1, m.data))
  {
    hide Exec, Legal, CommandIn, Has, IsCommand, IsResponse;
    BothSound(acts);
    var ep, peer := Exec(START, acts).Of(onLeft), Exec(START, acts).Of(!onLeft);
    SentKnown(ep, peer.log, k);
  }
}

/** What a received message makes an endpoint send, in numbers, and over runs. */
module Answers {
  import opened Bytes
  import opened MsgWrapper
  import opened Protocol
  import opened Runs
  import opened Settings
  import Coder

  /**
   The answer to a command. A ping (bit 3) comes back as type 18, whether or not anybody subscribed to anything. Other
   commands are answered only if they ask for it (bit 2): with type 34 and nothing else if there is no handler, and with
   type 2 and the first reply, if there is one yet, otherwise.
   */
  function AnswerTo(subscribed: bool, m: Msg, run: HandlerRun): seq<Msg> {
    if (m.mtype / 8) % 2 == 1 then
      var echoed := if m.requestPayload.Some? then m.requestPayload.value else m.data;
      [Msg(m.seqNo, m.cmd[..|m.cmd| % 65536], 18, echoed, None)]
    else if (m.mtype / 4) % 2 == 0 then []
    else if !subscribed then [Msg(m.seqNo, [], 34, [], None)]
    else
      match run
      case Replies(data) => [Msg(m.seqNo, [], 2, data, None)]
      case Defers(before) => if before == [] then [] else [Msg(m.seqNo, [], 2, before[0], None)]
      case Undecodable => []
  }

  lemma CommandIsAnswered(ep: Endpoint, m: Msg, run: HandlerRun)
    ensures OnCommand(ep, m, run).sent == ep.sent + AnswerTo(m.cmd in ep.cmds, m, run)
  {
    hide Count, LastRetrySet, RetriesSince, Respond, Refuse;
    if (m.mtype / 8) % 2 == 1 {
    } else if m.cmd !in ep.cmds {
      RefusalSent(ep, m);
    } else {
      var needRsp := (m.mtype / 4) % 2 == 1;
      assert needRsp == Has(m.mtype, NEED_RSP);
      match run
      case Replies(data) => ReplySent(ep, m, data, HandlerResult, needRsp);
      case Defers(before) =>
        if before != [] {
          var d := Deferred(m.seqNo, m.cmd, m.data, true, false);
          ReplySent(ep.(deferred := ep.deferred + [d]), m, before[0], DeferredResult, needRsp);
        }
      case Undecodable =>
    }
  }

  lemma RefusalSent(ep: Endpoint, m: Msg)
    ensures Refuse(ep, m).sent == ep.sent + [Msg(m.seqNo, [], 34, [], None)]
  {
  }

  lemma ReplySent(ep: Endpoint, m: Msg, data: bytes, origin: Origin, send: bool)
    ensures Respond(ep, m.seqNo, m.cmd, m.data, data, origin, send).sent
         == ep.sent + (if send then [Msg(m.seqNo, [], 2, data, None)] else [])
  {
  }

  lemma ResponseSendsNothing(ep: Endpoint, m: Msg, decodes: bool)
    requires HandlersOwned(ep)
    ensures OnResponse(ep, m, decodes).sent == ep.sent
  {
    hide Count, LastRetrySet, RetriesSince, Has, RspCalls, RspOutcome;
  }

  /**
   The two low bits of the type decide: 1 is a command, 2 a response, which is never answered, 0 and 3 are ignored.
   */
  lemma DispatchSends(ep: Endpoint, m: Msg, run: HandlerRun, decodes: bool)
    requires HandlersOwned(ep)
    ensures var r := Dispatch(ep, m, run, decodes);
            && r.sent == ep.sent + (if m.mtype % 4 == 1 then AnswerTo(m.cmd in ep.cmds, m, run) else [])
            && (m.mtype % 4 == 0 || m.mtype % 4 == 3 ==> r == ep)
            && (m.mtype % 4 == 2 ==> r == OnResponse(ep, m, decodes))
  {
    hide OnCommand, OnResponse, AnswerTo;
    if m.mtype % 4 == 1 {
      CommandIsAnswered(ep, m, run);
    } else if m.mtype % 4 == 2 {
      ResponseSendsNothing(ep, m, decodes);
    }
  }

  /**
   Over runs: on every receipt of a command, however often and however late, exactly the answer above is sent, where
   "subscribed" means subscribed and not unsubscribed since. So a subscribed command is never refused.
   */
  lemma {:induction false} EveryReceiptIsAnswered(acts: seq<Act>, onLeft: bool, i: nat, run: HandlerRun, decodes: bool)
    requires Legal(START, acts) && CanHappen(Exec(START, acts), Act(onLeft, Receive(i, run, decodes)))
    ensures var p := Exec(START, acts);
            var m, r := p.Peer(onLeft)[i], Do(p, Act(onLeft, Receive(i, run, decodes))).Of(onLeft);
            var subscribed := m.cmd in ServicesSet(acts, onLeft).cmds;
            r.sent == p.Of(onLeft).sent + (if m.mtype % 4 == 1 then AnswerTo(subscribed, m, run) else [])
  {
    hide Exec, Legal, Dispatch, AnswerTo, ServicesSet, ParamsSet, Created;
    var p := Exec(START, acts);
    AllAsSet(acts, onLeft, 0);
    DispatchSends(p.Of(onLeft), p.Peer(onLeft)[i], run, decodes);
  }

  /** The bits of the type byte, as they are read. */
  lemma TypeBits(m: Msg)
    ensures IsCommand(m) <==> m.mtype % 4 == 1
    ensures IsResponse(m) <==> m.mtype % 4 == 2
    ensures Has(m.mtype, NEED_RSP) <==> (m.mtype / 4) % 2 == 1
    ensures Has(m.mtype, PING) <==> (m.mtype / 8) % 2 == 1
    ensures Has(m.mtype, PONG) <==> (m.mtype / 16) % 2 == 1
    ensures Has(m.mtype, NO_SUCH_CMD) <==> (m.mtype / 32) % 2 == 1
  {
  }
}

/** Why at most 2^32 numbers may be drawn: a run in which the counter wraps around while an answer is on its way. */
module WrapAround {
  import opened Bytes
  import opened MsgWrapper
  import opened Protocol
  import opened Runs
  import opened Calls
  import Correlation
  import Coder

  /** The second request is called when the counter is back at 0, the number of the first one's ping. */
  const PINGER := 0
  const VICTIM := 1
  const FILLER := 2

  const READY := NewRequest(true).(needRsp := true, rspKind := Some(NoArgs))

  const SETUP :=
    [Act(true, Create(true)), Act(true, Create(true)), Act(true, Create(true)), Act(true, SetReady(true)),
     Act(true, SetTimer(true)), Act(true, User(PINGER, SetPing)), Act(true, User(PINGER, SetRsp(NoArgs))),
     Act(true, User(VICTIM, SetRsp(NoArgs)))]

  const PING_OUT := Act(true, User(PINGER, DoCall(false)))
  const PING_IN := Act(false, Receive(0, Undecodable, true))
  const FILL := Act(true, User(FILLER, DoCall(false)))
  const CALL_VICTIM := Act(true, User(VICTIM, DoCall(false)))
  const PONG_IN := Act(true, Receive(0, Undecodable, true))

  function Repeat(a: Act, k: nat): seq<Act> {
    if k == 0 then [] else Repeat(a, k - 1) + [a]
  }

  // ---- Up to the pong ----

  ghost predicate SetUp(p: Pair) {
    && p.Owned() && p.left.requests == [READY.(isPing := true), READY, NewRequest(true)] && p.left.ready
      && p.left.timerSet
    && p.left.drawn == 0 && p.left.handlers == map[] && p.left.armed == {} && p.left.sent == [] && p.left.log == []
    && p.right == EMPTY
  }

  lemma SetUpIsReached()
    ensures Legal(START, SETUP) && SetUp(Exec(START, SETUP))
  {
    hide Count, LastRetrySet, RetriesSince, Exec, Legal;
    assert SETUP[..0] == [];
    ExecNothing(START);
    for i := 0 to 8
      invariant Legal(START, SETUP[..i])
      invariant var p := Exec(START, SETUP[..i]);
                && p.right == EMPTY && p.left.ready == (i >= 4) && p.left.timerSet == (i >= 5)
                && p.left.drawn == 0 && p.left.handlers == map[] && p.left.armed == {} && p.left.sent == []
                  && p.left.log == []
                && (i <= 3 ==> p.left.requests == seq(i, _ => NewRequest(true)))
                && (i > 3 ==>
                      p.left.requests == [AsPinger(i), if i == 8 then READY else NewRequest(true), NewRequest(true)])
    {
      ExecMore(START, SETUP[..i], SETUP[i]);
      assert SETUP[..i + 1] == SETUP[..i] + [SETUP[i]];
    }
    assert SETUP[..8] == SETUP;
  }

  function AsPinger(i: nat): Request {
    if i <= 5 then NewRequest(true) else if i == 6 then NewRequest(true).(isPing := true) else READY.(isPing := true)
  }

  lemma ExecNothing(p: Pair)
    requires p.Owned()
    ensures Legal(p, []) && Exec(p, []) == p
  {
  }

  /** The ping is out under number 0 and echoed, `k` other commands have followed it, and the pong has not arrived. */
  ghost predicate PongPending(p: Pair, k: nat) {
    && p.Owned() && |p.left.requests| == 3 && p.left.ready && p.left.timerSet
    && p.left.requests[PINGER].waiting
    && p.left.requests[VICTIM] == READY
    && p.left.requests[FILLER].(seqNo := 0) == NewRequest(true)
    && p.left.drawn == 1 + k && p.left.handlers == map[0 := Handler(PINGER, NoArgs)] && p.left.armed == {0}
    && Correlation.CommandIn(p.left.log, 0).Some? && Correlation.CommandIn(p.left.log, 0).value.0 == PINGER
    && |p.right.sent| == 1 && IsResponse(p.right.sent[0]) && !Has(p.right.sent[0].mtype, NO_SUCH_CMD)
    && p.right.sent[0].seqNo == 0
  }

  lemma PingIsEchoed(p: Pair)
    requires SetUp(p)
    ensures CanHappen(p, PING_OUT) && CanHappen(Do(p, PING_OUT), PING_IN)
    ensures PongPending(Do(Do(p, PING_OUT), PING_IN), 0)
  {
    hide Count, LastRetrySet, RetriesSince, Call, CallEvents, Correlation.CommandIn;
    CallShape(p.left, PINGER, false);
    Correlation.CommandInCall(p.left, PINGER, false, 0);
    assert p.left.log + CallEvents(p.left, PINGER, false) == CallEvents(p.left, PINGER, false);
    PingCommand(CalledRequest(p.left, PINGER, false));
  }

  lemma PingCommand(r: Request)
    requires r.isPing
    ensures var c := Coder.Wire(CommandOf(r)); IsCommand(c) && Has(c.mtype, PING) && c.seqNo == r.seqNo
  {
    hide Has;
  }

  // ---- Round the counter ----

  lemma FillKeepsPending(p: Pair, k: nat)
    requires PongPending(p, k)
    ensures CanHappen(p, FILL) && PongPending(Do(p, FILL), k + 1)
  {
    hide Count, LastRetrySet, RetriesSince, Call, CallEvents, Correlation.CommandIn, Has, IsResponse;
    CallShape(p.left, FILLER, false);
    Correlation.CommandStays(p.left.log, CallEvents(p.left, FILLER, false), 0);
  }

  lemma {:induction false} ManyFills(p: Pair, acts: seq<Act>, k: nat)
    requires p.Owned() && Legal(p, acts) && PongPending(Exec(p, acts), 0)
    ensures Legal(p, acts + Repeat(FILL, k)) && PongPending(Exec(p, acts + Repeat(FILL, k)), k)
  {
    hide PongPending, Do, CanHappen, Exec, Legal;
    if k == 0 {
      assert acts + Repeat(FILL, 0) == acts;
    } else {
      ManyFills(p, acts, k - 1);
      FillKeepsPending(Exec(p, acts + Repeat(FILL, k - 1)), k - 1);
      ExecMore(p, acts + Repeat(FILL, k - 1), FILL);
      assert acts + Repeat(FILL, k - 1) + [FILL] == acts + Repeat(FILL, k);
    }
  }

  // ---- The pong meets the wrong request ----

  /**
   The last event: the victim's callback has run for a response to the pinger's command, and the pinger waits for ever.
   */
  ghost predicate Mixed(ep: Endpoint) {
    && |ep.requests| == 3 && ep.requests[PINGER].waiting && ep.handlers == map[]
    && Correlation.CommandIn(ep.log, 0).Some? && Correlation.CommandIn(ep.log, 0).value.0 == PINGER
    && exists m: Msg :: RspCallback(VICTIM, 0, m, true) in ep.log
  }

  lemma PongIsMistaken(p: Pair)
    requires PongPending(p, WORD32 - 1)
    ensures CanHappen(p, CALL_VICTIM) && CanHappen(Do(p, CALL_VICTIM), PONG_IN)
    ensures Mixed(Do(Do(p, CALL_VICTIM), PONG_IN).left)
  {
    hide Count, LastRetrySet, RetriesSince, Call, CallEvents, Correlation.CommandIn, Has, OnResponse;
    CallShape(p.left, VICTIM, false);
    Correlation.CommandStays(p.left.log, CallEvents(p.left, VICTIM, false), 0);
    var q := Do(p, CALL_VICTIM);
    assert q.left.handlers == map[0 := Handler(VICTIM, NoArgs)];
    Mistaken(q.left, q.right.sent[0]);
  }

  lemma Mistaken(ep: Endpoint, m: Msg)
    requires HandlersOwned(ep) && ep.handlers == map[0 := Handler(VICTIM, NoArgs)] && |ep.requests| == 3
    requires ep.requests[PINGER].waiting && !ep.requests[VICTIM].canceled
    requires m.seqNo == 0 && !Has(m.mtype, NO_SUCH_CMD)
    requires Correlation.CommandIn(ep.log, 0).Some? && Correlation.CommandIn(ep.log, 0).value.0 == PINGER
    ensures Mixed(OnResponse(ep, m, true))
  {
    hide Count, LastRetrySet, RetriesSince, Correlation.CommandIn, Has;
    var r := OnResponse(ep, m, true);
    var e := RspCallback(VICTIM, 0, m, true);
    Correlation.ResponseLogGrows(ep, m, true);
    Correlation.CommandKept(ep.log, r.log, 0);
    assert r.log[|ep.log| + 1] == e;
  }

  /**
   With 2^32 + 1 numbers drawn, a response callback runs for another request's command, and a request is lost: without
   the bound on the numbers neither response correlation nor "no lost request" holds.
   */
  lemma WrappedNumbersAreMistaken()
    ensures exists acts: seq<Act> ::
              Legal(START, acts) && Exec(START, acts).left.drawn == WORD32 + 1 && Mixed(Exec(START, acts).left)
  {
    hide SetUp, PongPending, Mixed, Do, CanHappen, Exec, Legal, Repeat;
    SetUpIsReached();
    PingIsEchoed(Exec(START, SETUP));
    ExecMore(START, SETUP, PING_OUT);
    ExecMore(START, SETUP + [PING_OUT], PING_IN);
    var pinged := SETUP + [PING_OUT] + [PING_IN];
    ManyFills(START, pinged, WORD32 - 1);
    var filled := pinged + Repeat(FILL, WORD32 - 1);
    PongIsMistaken(Exec(START, filled));
    ExecMore(START, filled, CALL_VICTIM);
    ExecMore(START, filled + [CALL_VICTIM], PONG_IN);
    var acts := filled + [CALL_VICTIM] + [PONG_IN];
    LastDrawn(Exec(START, filled));
    assert Legal(START, acts) && Mixed(Exec(START, acts).left);
  }

  lemma LastDrawn(p: Pair)
    requires PongPending(p, WORD32 - 1) && CanHappen(p, CALL_VICTIM) && CanHappen(Do(p, CALL_VICTIM), PONG_IN)
    ensures Do(Do(p, CALL_VICTIM), PONG_IN).left.drawn == WORD32 + 1
  {
    hide Count, LastRetrySet, RetriesSince, Call, CallEvents, Correlation.CommandIn, Has, OnResponse;
    CallShape(p.left, VICTIM, false);
    ResponseDrawn(Do(p, CALL_VICTIM).left, p.right.sent[0], true);
  }
}

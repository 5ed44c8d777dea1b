/** Two runs that do lose a request: needing a response without a callback, and a timer removed while a retry is due. */
module LostRequests {
  import opened Bytes
  import opened MsgWrapper
  import opened Protocol
  import opened Runs
  import opened Calls
  import opened Drain
  import Coder

  function OnLeft(step: Step): Act {
    Act(true, step)
  }

  const ENABLED_WITHOUT_CALLBACK :=
    [OnLeft(Create(true)), OnLeft(SetReady(true)), OnLeft(SetTimer(true)), OnLeft(User(0, EnableRsp)),
      OnLeft(User(0, DoCall(false)))]

  const TIMER_REMOVED :=
    [OnLeft(Create(true)), OnLeft(SetReady(true)), OnLeft(SetTimer(true)), OnLeft(User(0, SetRsp(NoArgs))),
     OnLeft(User(0, SetRetry(1))), OnLeft(User(0, DoCall(false))), OnLeft(SetTimer(false)), OnLeft(Fire(0))]

  /** A left side with one request, ready and with a timer, that has drawn and sent nothing. */
  ghost predicate Prepared(p: Pair, r: Request) {
    && p.Owned() && p.left.requests == [r] && p.left.ready && p.left.timerSet && p.left.drawn == 0
    && p.left.handlers == map[] && p.left.armed == {} && p.right == EMPTY
  }

  lemma Prepare()
    ensures Legal(START, ENABLED_WITHOUT_CALLBACK[..3])
    ensures Prepared(Exec(START, ENABLED_WITHOUT_CALLBACK[..3]), NewRequest(true))
  {
    hide Count, LastRetrySet, RetriesSince;
    var acts := ENABLED_WITHOUT_CALLBACK;
    assert acts[..0] == [];
    ExecMore(START, [], acts[0]);
    assert acts[..1] == [] + [acts[0]];
    ExecMore(START, acts[..1], acts[1]);
    assert acts[..2] == acts[..1] + [acts[1]];
    ExecMore(START, acts[..2], acts[2]);
    assert acts[..3] == acts[..2] + [acts[2]];
  }

  /**
   The user calls a request that was told to need a response but has no callback: it waits, and nothing will end it.
   */
  lemma EnabledWithoutCallbackIsLost()
    ensures var acts := ENABLED_WITHOUT_CALLBACK;
            && Legal(START, acts) && NoWrap(Exec(START, acts))
            && var ep := Exec(START, acts).left;
               |ep.requests| == 1 && ep.requests[0].waiting && ep.handlers == map[] && ep.armed == {} && !NoneLost(ep)
  {
    hide Count, LastRetrySet, RetriesSince, Call, CallEvents, Exec, Legal, NoneLost;
    var acts := ENABLED_WITHOUT_CALLBACK;
    Prepare();
    ExecMore(START, acts[..3], acts[3]);
    assert acts[..4] == acts[..3] + [acts[3]];
    var p := Exec(START, acts[..4]);
    ExecMore(START, acts[..4], acts[4]);
    assert acts == acts[..4] + [acts[4]];
    CallShape(p.left, 0, false);
    LostIf(Exec(START, acts).left, 0);
  }

  /**
   The timer is removed while a request with one retry waits: the retry sends its command and is never heard of again.
   */
  lemma RetryWithoutTimerIsLost()
    ensures var acts := TIMER_REMOVED;
            && Legal(START, acts) && NoWrap(Exec(START, acts))
            && var ep := Exec(START, acts).left;
               |ep.requests| == 1 && ep.requests[0].waiting && ep.handlers == map[] && ep.armed == {} && !NoneLost(ep)
  {
    hide Count, LastRetrySet, RetriesSince, Call, CallEvents, Exec, Legal, NoneLost;
    var acts := TIMER_REMOVED;
    assert acts[..3] == ENABLED_WITHOUT_CALLBACK[..3];
    Prepare();
    ExecMore(START, acts[..3], acts[3]);
    assert acts[..4] == acts[..3] + [acts[3]];
    ExecMore(START, acts[..4], acts[4]);
    assert acts[..5] == acts[..4] + [acts[4]];
    var p := Exec(START, acts[..5]);
    ExecMore(START, acts[..5], acts[5]);
    assert acts[..6] == acts[..5] + [acts[5]];
    CallShape(p.left, 0, false);
    ExecMore(START, acts[..6], acts[6]);
    assert acts[..7] == acts[..6] + [acts[6]];
    var q := Exec(START, acts[..7]);
    ExecMore(START, acts[..7], acts[7]);
    assert acts == acts[..7] + [acts[7]];
    CallShape(SpendRetry(Expire(q.left, 0), 0), 0, false);
    LostIf(Exec(START, acts).left, 0);
  }

  lemma LostIf(ep: Endpoint, id: nat)
    requires !Awaited(ep, id)
    ensures !NoneLost(ep)
  {
  }
}

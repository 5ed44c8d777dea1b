/** Two endpoints and their runs. */
module Runs {
  import opened Bytes
  import opened MsgWrapper
  import opened Protocol
  import Coder

  datatype Pair = Pair(left: Endpoint, right: Endpoint) {
    function Of(onLeft: bool): Endpoint {
      if onLeft then left else right
    }

    /** What the endpoint on this side can be sent: everything the other one has ever sent. */
    function Peer(onLeft: bool): seq<Msg> {
      if onLeft then right.sent else left.sent
    }

    predicate Owned() {
      HandlersOwned(left) && HandlersOwned(right)
    }
  }

  datatype Act = Act(onLeft: bool, step: Step)

  predicate CanHappen(p: Pair, a: Act) {
    Enabled(p.Of(a.onLeft), p.Peer(a.onLeft), a.step)
  }

  function Do(p: Pair, a: Act): (r: Pair)
    requires p.Owned() && CanHappen(p, a)
    ensures r.Owned()
  {
    var next := Next(p.Of(a.onLeft), p.Peer(a.onLeft), a.step);
    if a.onLeft then p.(left := next) else p.(right := next)
  }

  /** The acts of a run, in order: each one possible where it happens. `Exec` is where the run leads. */
  predicate Legal(p: Pair, acts: seq<Act>)
    requires p.Owned()
    decreases acts, 0
  {
    acts == [] || (Legal(p, Init(acts)) && CanHappen(Exec(p, Init(acts)), Last(acts)))
  }

  function Exec(p: Pair, acts: seq<Act>): (r: Pair)
    requires p.Owned() && Legal(p, acts)
    ensures r.Owned()
    decreases acts, 1
  {
    if acts == [] then p else Do(Exec(p, Init(acts)), Last(acts))
  }

  /** Running one act more. */
  lemma ExecMore(p: Pair, acts: seq<Act>, a: Act)
    requires p.Owned() && Legal(p, acts) && CanHappen(Exec(p, acts), a)
    ensures Legal(p, acts + [a]) && Exec(p, acts + [a]) == Do(Exec(p, acts), a)
  {
    hide Do, CanHappen;
    assert Init(acts + [a]) == acts && Last(acts + [a]) == a;
  }

  /** A run after a run is a run. */
  lemma {:induction false} ExecConcat(p: Pair, acts: seq<Act>, more: seq<Act>)
    requires p.Owned() && Legal(p, acts) && Legal(Exec(p, acts), more)
    ensures Legal(p, acts + more) && Exec(p, acts + more) == Exec(Exec(p, acts), more)
    decreases |more|
  {
    hide Do, CanHappen;
    if more == [] {
      assert acts + more == acts;
    } else {
      ExecConcat(p, acts, Init(more));
      ExecMore(p, acts + Init(more), Last(more));
      assert acts + Init(more) + [Last(more)] == acts + more;
    }
  }

  lemma ExecOne(p: Pair, a: Act)
    requires p.Owned() && CanHappen(p, a)
    ensures Legal(p, [a]) && Exec(p, [a]) == Do(p, a)
  {
    hide Do, CanHappen;
    ExecMore(p, [], a);
    assert [] + [a] == [a];
  }

  const START := Pair(EMPTY, EMPTY)

  /** At most 2^32 numbers are drawn on either side. */
  predicate NoWrap(p: Pair) {
    p.left.drawn <= WORD32 && p.right.drawn <= WORD32
  }

  lemma CallDrawnGrows(ep: Endpoint, id: nat, bind: bool)
    requires id < |ep.requests|
    ensures ep.drawn <= Call(ep, id, bind).drawn
  {
    hide Count, LastRetrySet, RetriesSince, Coder.Wire, CommandOf, HandlersOwned;
  }

  lemma FireDrawnGrows(ep: Endpoint, s: seqno)
    requires HandlersOwned(ep)
    ensures ep.drawn <= FireTimer(ep, s).drawn
  {
    hide Count, LastRetrySet, RetriesSince, Call;
    if s in ep.handlers {
      var id := ep.handlers[s].id;
      CallDrawnGrows(SpendRetry(Expire(ep, s), id), id, false);
    }
  }

  lemma DrawnGrows(ep: Endpoint, peer: seq<Msg>, step: Step)
    requires HandlersOwned(ep) && Enabled(ep, peer, step)
    ensures ep.drawn <= Next(ep, peer, step).drawn
  {
    hide Apply, FireTimer, OnCommand, OnResponse, IsCommand, IsResponse, Respond;
    match step
    case User(id, op) => ApplyDrawnGrows(ep, id, op);
    case Fire(s) => FireDrawnGrows(ep, s);
    case RspLater(k, data) => RespondDrawn(ep, k, data);
    case Receive(i, run, decodes) =>
      CommandDrawn(ep, peer[i], run);
      ResponseDrawn(ep, peer[i], decodes);
    case _ =>
  }

  lemma ApplyDrawnGrows(ep: Endpoint, id: nat, op: Op)
    requires id < |ep.requests|
    ensures ep.drawn <= Apply(ep, id, op).drawn
  {
    hide Count, LastRetrySet, RetriesSince, Call;
    if op.DoCall? {
      CallDrawnGrows(ep, id, op.bind);
    }
  }

  lemma RespondDrawn(ep: Endpoint, k: nat, data: bytes)
    requires k < |ep.deferred|
    ensures OnDeferred(ep, k, data).drawn == ep.drawn
  {
    hide Count, LastRetrySet, RetriesSince, Coder.Wire;
  }

  lemma CommandDrawn(ep: Endpoint, m: Msg, run: HandlerRun)
    ensures OnCommand(ep, m, run).drawn == ep.drawn
  {
    hide Count, LastRetrySet, RetriesSince, Coder.Wire, Has;
  }

  lemma ResponseDrawn(ep: Endpoint, m: Msg, decodes: bool)
    requires HandlersOwned(ep)
    ensures OnResponse(ep, m, decodes).drawn == ep.drawn
  {
    hide Count, LastRetrySet, RetriesSince, Has, RspCalls, RspOutcome;
  }

  lemma NoWrapBefore(p: Pair, a: Act)
    requires p.Owned() && CanHappen(p, a) && NoWrap(Do(p, a))
    ensures NoWrap(p)
  {
    DrawnGrows(p.Of(a.onLeft), p.Peer(a.onLeft), a.step);
  }
}

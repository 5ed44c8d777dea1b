/** The numbers of the commands that a run sends. */
module Numbers {
  import opened Bytes
  import opened MsgWrapper
  import opened Protocol
  import opened Runs
  import Accounting
  import Coder
  import Correlation

  /** From `ep` to `r` every number drawn, and no other, has gone out in exactly one command. */
  ghost predicate Uses(ep: Endpoint, r: Endpoint, s: seqno) {
    && ep.drawn <= r.drawn
    && Count(SendsUnder(s), r.log) == Count(SendsUnder(s), ep.log) + Accounting.Bit(ep.drawn <= s < r.drawn)
  }

  lemma LaunchUses(ep: Endpoint, id: nat, s: seqno)
    requires id < |ep.requests| && ep.drawn < WORD32
    ensures Uses(ep, Launch(ep, id), s)
  {
    hide Count, LastRetrySet, RetriesSince, Coder.Wire, CommandOf, HandlersOwned;
    Accounting.CommandNumber(ep.requests[id].(seqNo := ep.drawn % WORD32));
  }

  lemma CallUses(ep: Endpoint, id: nat, bind: bool, s: seqno)
    requires id < |ep.requests| && Call(ep, id, bind).drawn <= WORD32
    ensures Uses(ep, Call(ep, id, bind), s)
  {
    hide Count, LastRetrySet, RetriesSince, HandlersOwned, Launch;
    var kept := Keep(Enter(ep, id), id, bind);
    Accounting.LaunchDraws(kept, id);
    if ep.drawn < WORD32 {
      LaunchUses(kept, id, s);
    }
  }

  lemma FireUses(ep: Endpoint, t: seqno, s: seqno)
    requires HandlersOwned(ep) && FireTimer(ep, t).drawn <= WORD32
    ensures Uses(ep, FireTimer(ep, t), s)
  {
    hide Count, LastRetrySet, RetriesSince, Call;
    if t in ep.handlers && RetriesLeft(ep.requests[ep.handlers[t].id]) {
      CallUses(SpendRetry(Expire(ep, t), ep.handlers[t].id), ep.handlers[t].id, false, s);
    }
  }

  lemma ResponseUses(ep: Endpoint, m: Msg, decodes: bool, s: seqno)
    requires HandlersOwned(ep)
    ensures Uses(ep, OnResponse(ep, m, decodes), s) && OnResponse(ep, m, decodes).drawn == ep.drawn
  {
    hide Count, LastRetrySet, RetriesSince, HandleRsp;
    if m.seqNo in ep.handlers {
      var h := ep.handlers[m.seqNo];
      Accounting.HandleRspCarries(Note(ep, Answered(h.id, m.seqNo, m)), h, m, decodes, s);
    }
  }

  lemma ApplyUses(ep: Endpoint, id: nat, op: Op, s: seqno)
    requires id < |ep.requests| && Apply(ep, id, op).drawn <= WORD32
    ensures Uses(ep, Apply(ep, id, op), s)
  {
    hide Count, LastRetrySet, RetriesSince, HandlersOwned, Call;
    if op.DoCall? {
      CallUses(ep, id, op.bind, s);
    }
  }

  lemma NextUses(ep: Endpoint, peer: seq<Msg>, step: Step, s: seqno)
    requires HandlersOwned(ep) && Enabled(ep, peer, step) && Next(ep, peer, step).drawn <= WORD32
    ensures Uses(ep, Next(ep, peer, step), s)
  {
    hide Count, Apply, FireTimer, OnDeferred, OnCommand, OnResponse, IsCommand, IsResponse;
    match step
    case User(id, op) => ApplyUses(ep, id, op, s);
    case Fire(t) => FireUses(ep, t, s);
    case RspLater(k, data) => Accounting.DeferredSameBooks(ep, k, data);
    case Receive(i, run, decodes) =>
      Accounting.CommandSameBooks(ep, peer[i], run);
      ResponseUses(ep, peer[i], decodes, s);
    case _ =>
  }

  lemma {:induction false} RunUses(p: Pair, acts: seq<Act>, onLeft: bool, s: seqno)
    requires p.Owned() && Legal(p, acts) && NoWrap(Exec(p, acts))
    ensures Uses(p.Of(onLeft), Exec(p, acts).Of(onLeft), s)
    ensures p.Of(onLeft).log <= Exec(p, acts).Of(onLeft).log
    decreases |acts|
  {
    hide Next, Count;
    if acts != [] {
      var q, a := Exec(p, Init(acts)), Last(acts);
      NoWrapBefore(q, a);
      RunUses(p, Init(acts), onLeft, s);
      if a.onLeft == onLeft {
        NextUses(q.Of(onLeft), q.Peer(onLeft), a.step, s);
        Correlation.LogGrows(q.Of(onLeft), q.Peer(onLeft), a.step);
      }
    }
  }

  /** All commands logged from position `from` on carry different numbers. */
  ghost predicate DistinctNumbers(log: seq<Event>, from: nat) {
    forall i, j :: from <= i < j < |log| && log[i].Sent? && log[j].Sent? ==> log[i].msg.seqNo != log[j].msg.seqNo
  }

  lemma UsesDistinct(was: Endpoint, ep: Endpoint)
    requires was.log <= ep.log && forall s: seqno :: Uses(was, ep, s)
    ensures DistinctNumbers(ep.log, |was.log|)
  {
    forall i, j | |was.log| <= i < j < |ep.log| && ep.log[i].Sent? && ep.log[j].Sent?
      ensures ep.log[i].msg.seqNo != ep.log[j].msg.seqNo
    {
      var s := ep.log[i].msg.seqNo;
      assert Uses(was, ep, s);
      if ep.log[j].msg.seqNo == s {
        Accounting.CountTwice(SendsUnder(s), was.log, ep.log, i, j);
      }
    }
  }

  /** Whatever happens: the commands that a call and any run after it send carry different numbers. */
  lemma CallAndRunDistinct(was: Endpoint, id: nat, bind: bool, p: Pair, acts: seq<Act>, onLeft: bool)
    requires id < |was.requests| && p.Owned() && p.Of(onLeft) == Call(was, id, bind)
    requires Legal(p, acts) && NoWrap(Exec(p, acts))
    ensures was.log <= Exec(p, acts).Of(onLeft).log
    ensures DistinctNumbers(Exec(p, acts).Of(onLeft).log, |was.log|)
  {
    hide Call, Exec, Legal, Count, DistinctNumbers;
    var ep := Exec(p, acts).Of(onLeft);
    Correlation.CallLogGrows(was, id, bind);
    RunUses(p, acts, onLeft, 0);
    forall s: seqno
      ensures Uses(was, ep, s)
    {
      RunUses(p, acts, onLeft, s);
      CallUses(was, id, bind, s);
    }
    UsesDistinct(was, ep);
  }
}

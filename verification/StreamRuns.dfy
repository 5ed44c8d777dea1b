/** The byte stream below the protocol: whatever has come through of it is something the state machine lets happen. */
module StreamRuns {
  import opened Bytes
  import opened MsgWrapper
  import opened DataPacker
  import opened Framing
  import opened StreamConnection
  import opened RpcObjects
  import P = Protocol
  import Coder

  /** What the peer's dispatcher has been handed after the chunks. */
  function Got(max: nat, residue: bytes, chunks: seq<bytes>): seq<Msg>
    requires |residue| == HEADER
  {
    Dispatched(FeedAll(max, residue, INITIAL, chunks).out)
  }

  /** The state machine lets the peer receive the message, with anything its handlers may do. */
  ghost predicate Receivable(peer: P.Endpoint, sent: seq<Msg>, m: Msg) {
    exists i :: 0 <= i < |sent| && sent[i] == m && CanReceive(peer, sent, i)
  }

  ghost predicate CanReceive(peer: P.Endpoint, sent: seq<Msg>, i: nat)
    requires i < |sent|
  {
    forall run, decodes :: (sent[i].cmd in peer.cmds ==> P.Possible(peer.cmds[sent[i].cmd], run)) ==>
                             P.Enabled(peer, sent, P.Receive(i, run, decodes))
  }

  lemma SentIsReceivable(peer: P.Endpoint, sent: seq<Msg>, m: Msg)
    requires m in sent
    ensures Receivable(peer, sent, m)
  {
    var i :| 0 <= i < |sent| && sent[i] == m;
    assert CanReceive(peer, sent, i);
  }

  /**
   An rpc object writes its packages to a byte stream. Whatever prefix of the bytes has come through, in whatever
   chunks, the messages handed to the peer's dispatcher are, in order, the first of those the object has sent that fit
   the limit; and handing over each of them is a `Receive` step that the state machine allows the peer.
   */
  lemma StreamStepsAreReceives(sender: Rpc, peer: P.Endpoint, max: nat, residue: bytes, n: nat, chunks: seq<bytes>)
    requires sender.Valid() && max < WORD32 && |residue| == HEADER
    requires n <= |Concat(Packed(max, sender.packages))| && Concat(chunks) == Concat(Packed(max, sender.packages))[..n]
    ensures Got(max, residue, chunks) <= Fitting(max, sender.packages, sender.sent)
    ensures n == |Concat(Packed(max, sender.packages))|
      ==> Got(max, residue, chunks) == Fitting(max, sender.packages, sender.sent)
    ensures forall m <- Got(max, residue, chunks) :: Receivable(peer, sender.View().sent, m)
  {
    hide FeedAll, Fitting, Fit, Completed, Dispatched, Coder.Deserialize, P.Enabled;
    AnyPrefixArrives(max, residue, sender.packages, sender.sent, n, chunks);
    FitDispatched(max, sender.packages, sender.sent, 0);
    forall m <- Got(max, residue, chunks)
      ensures Receivable(peer, sender.View().sent, m)
    {
      assert m in Fitting(max, sender.packages, sender.sent);
      SentIsReceivable(peer, sender.sent, m);
    }
    if n == |Concat(Packed(max, sender.packages))| {
      FitStream(max, sender.packages, sender.sent);
      AllCompleted(max, Fit(max, sender.packages));
    }
  }

  /** The whole stream completes every payload. */
  lemma {:induction false} AllCompleted(max: nat, payloads: seq<bytes>)
    requires AllFit(max, payloads)
    ensures Completed(payloads, |Concat(Packed(max, payloads))|) == |payloads|
  {
    if payloads != [] {
      AllCompleted(max, payloads[1..]);
      PackedCons(max, payloads);
    }
  }
}

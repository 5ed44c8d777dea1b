/** The stack below the dispatchers: messages through the coder and the packer onto a byte stream, and back. */
module StreamConnection {
  import opened Bytes
  import opened MsgWrapper
  import opened DataPacker
  import opened Framing
  import Coder

  /** The bytes a connection writes for a sequence of messages. */
  function SentStream(max: nat, msgs: seq<Msg>): bytes {
    if msgs == [] then [] else Pack(max, Coder.Serialize(msgs[0])) + SentStream(max, msgs[1..])
  }

  /** The messages whose coded size is within the limit, as the coder delivers them. */
  function Arriving(max: nat, msgs: seq<Msg>): seq<Msg> {
    if msgs == [] then []
    else (if |Coder.Serialize(msgs[0])| <= max then [Coder.Wire(msgs[0])] else []) + Arriving(max, msgs[1..])
  }

  /** What the dispatcher sees of the delivered payloads: those that do not decode are only logged. */
  function Dispatched(payloads: seq<bytes>): seq<Msg> {
    if payloads == [] then []
    else
      match Coder.Deserialize(payloads[0])
      case Some(m) => [m] + Dispatched(payloads[1..])
      case None => Dispatched(payloads[1..])
  }

  /**
   End to end: however the written bytes are cut into chunks, empty ones included, the receiver with the same limit
   dispatches exactly the messages that fit, in order; the others leave no trace, and nothing stays pending.
   */
  lemma EndToEnd(max: nat, residue: bytes, msgs: seq<Msg>, chunks: seq<bytes>)
    requires max < WORD32 && |residue| == HEADER
    requires Concat(chunks) == SentStream(max, msgs)
    ensures var r := FeedAll(max, residue, INITIAL, chunks);
            r.ok && Dispatched(r.out) == Arriving(max, msgs) && r.state.Clean() && r.state.Pending() == []
  {
    var payloads := Coded(max, msgs);
    SentIsPacked(max, msgs);
    PackedStream(max, payloads);
    FromStart(max, residue, chunks);
    CodedArrives(max, msgs);
  }

  /** The payloads that the packer accepts. */
  function Coded(max: nat, msgs: seq<Msg>): seq<bytes> {
    if msgs == [] then []
    else
      var payload := Coder.Serialize(msgs[0]);
      (if |payload| <= max then [payload] else []) + Coded(max, msgs[1..])
  }

  /** Coder output is never empty, so the stream consists of non-empty frames only. */
  lemma {:induction false} SentIsPacked(max: nat, msgs: seq<Msg>)
    ensures AllFit(max, Coded(max, msgs)) && NoneEmpty(Coded(max, msgs))
    ensures SentStream(max, msgs) == Concat(Packed(max, Coded(max, msgs)))
  {
    if msgs != [] {
      SentIsPacked(max, msgs[1..]);
      var payload, rest := Coder.Serialize(msgs[0]), Coded(max, msgs[1..]);
      if |payload| <= max {
        assert Coded(max, msgs) == [payload] + rest;
        assert ([payload] + rest)[1..] == rest;
      } else {
        assert Coded(max, msgs) == [] + rest == rest;
        assert [] + SentStream(max, msgs[1..]) == SentStream(max, msgs[1..]);
      }
    }
  }

  lemma {:induction false} CodedArrives(max: nat, msgs: seq<Msg>)
    ensures Dispatched(Coded(max, msgs)) == Arriving(max, msgs)
  {
    if msgs != [] {
      CodedArrives(max, msgs[1..]);
      var payload, rest := Coder.Serialize(msgs[0]), Coded(max, msgs[1..]);
      Coder.DeserializeSerialize(msgs[0]);
      if |payload| <= max {
        assert Coded(max, msgs) == [payload] + rest;
        assert ([payload] + rest)[1..] == rest;
      } else {
        assert Coded(max, msgs) == [] + rest == rest;
      }
    }
  }

  /** Commands shorter than 65536 bytes arrive unchanged. */
  lemma {:induction false} ShortCommandsArriveUnchanged(max: nat, msgs: seq<Msg>)
    requires forall i :: 0 <= i < |msgs| ==> |msgs[i].cmd| < WORD16 && |Coder.Serialize(msgs[i])| <= max
    ensures |Arriving(max, msgs)| == |msgs|
    ensures forall i :: 0 <= i < |msgs| ==> Arriving(max, msgs)[i] == msgs[i].Received()
  {
    if msgs != [] {
      ShortCommandsArriveUnchanged(max, msgs[1..]);
      Coder.RoundTripExactly(msgs[0]);
      Coder.DeserializeSerialize(msgs[0]);
    }
  }

  // ---- Prefixes of what has been written ----

  /** `sent` is what the peer's coder makes of the packages. */
  ghost predicate Decodes(packages: seq<bytes>, sent: seq<Msg>) {
    |packages| == |sent| && forall i :: 0 <= i < |packages| ==> Coder.Deserialize(packages[i]) == Some(sent[i])
  }

  /** The packages within the limit, and their messages. */
  function Fit(max: nat, packages: seq<bytes>): seq<bytes> {
    if packages == [] then [] else (if |packages[0]| <= max then [packages[0]] else []) + Fit(max, packages[1..])
  }

  function Fitting(max: nat, packages: seq<bytes>, sent: seq<Msg>): (r: seq<Msg>)
    requires |packages| == |sent|
    ensures forall m <- r :: m in sent
  {
    if packages == [] then []
    else (if |packages[0]| <= max then [sent[0]] else []) + Fitting(max, packages[1..], sent[1..])
  }

  lemma {:induction false} FitStream(max: nat, packages: seq<bytes>, sent: seq<Msg>)
    requires Decodes(packages, sent)
    ensures AllFit(max, Fit(max, packages)) && NoneEmpty(Fit(max, packages))
    ensures Concat(Packed(max, packages)) == Concat(Packed(max, Fit(max, packages)))
  {
    if packages != [] {
      FitStream(max, packages[1..], sent[1..]);
      var package, rest := packages[0], Fit(max, packages[1..]);
      assert Coder.Deserialize(package).Some?;
      if |package| <= max {
        assert ([package] + rest)[1..] == rest;
      } else {
        assert Fit(max, packages) == [] + rest == rest;
        assert [] + Concat(Packed(max, packages[1..])) == Concat(Packed(max, packages[1..]));
      }
    }
  }

  lemma {:induction false} FitDispatched(max: nat, packages: seq<bytes>, sent: seq<Msg>, k: nat)
    requires Decodes(packages, sent) && k <= |Fit(max, packages)|
    ensures |Fitting(max, packages, sent)| == |Fit(max, packages)|
    ensures Dispatched(Fit(max, packages)[..k]) == Fitting(max, packages, sent)[..k]
  {
    if packages != [] {
      var package, rest := packages[0], Fit(max, packages[1..]);
      assert Coder.Deserialize(package) == Some(sent[0]);
      if |package| <= max {
        FitDispatched(max, packages[1..], sent[1..], if k == 0 then 0 else k - 1);
        if k > 0 {
          assert ([package] + rest)[..k] == [package] + rest[..k - 1];
          assert ([package] + rest[..k - 1])[1..] == rest[..k - 1];
        }
      } else {
        FitDispatched(max, packages[1..], sent[1..], k);
        assert Fit(max, packages) == rest;
        assert Fitting(max, packages, sent) == Fitting(max, packages[1..], sent[1..]);
      }
    }
  }

  /**
   Any prefix of the written bytes, cut in any way: the messages of the packages it completes are dispatched, in order.
   */
  lemma AnyPrefixArrives(max: nat, residue: bytes, packages: seq<bytes>, sent: seq<Msg>, n: nat, chunks: seq<bytes>)
    requires max < WORD32 && |residue| == HEADER && Decodes(packages, sent)
    requires n <= |Concat(Packed(max, packages))| && Concat(chunks) == Concat(Packed(max, packages))[..n]
    ensures var k := Completed(Fit(max, packages), n);
            && k <= |Fitting(max, packages, sent)|
            && Dispatched(FeedAll(max, residue, INITIAL, chunks).out) == Fitting(max, packages, sent)[..k]
  {
    FitStream(max, packages, sent);
    PrefixDelivers(max, residue, Fit(max, packages), n, chunks);
    FitDispatched(max, packages, sent, Completed(Fit(max, packages), n));
  }

  // ---- The connection ----

  class Connection {
    const packer: Packer
    /** Everything handed to `send_bytes_impl`. */
    var written: bytes

    ghost predicate Valid()
      reads this, packer
    {
      packer.Valid()
    }

    constructor (max: nat, residue: bytes)
      requires max < WORD32 && |residue| == HEADER
      ensures Valid() && written == [] && packer.Now() == INITIAL && packer.delivered == []
      ensures packer.max == max && packer.residue == residue && fresh(packer)
    {
      packer := new Packer(max, residue);
      written := [];
    }

    method SendMsg(m: Msg)
      requires Valid()
      modifies this
      ensures Valid() && written == old(written) + SentStream(packer.max, [m])
    {
      var package := Coder.SerializeMsg(m);
      var payload := packer.PackData(package);
      written := written + payload;
      assert SentStream(packer.max, [m][1..]) == [];
    }

    method OnRecvBytes(data: bytes)
      requires Valid()
      modifies packer
      ensures Valid()
      ensures var r := Feed(packer.max, packer.residue, old(packer.Now()), data);
              packer.Now() == r.state && packer.delivered == old(packer.delivered) + r.out
    {
      var _ := packer.FeedData(data);
    }

    method Reset()
      requires Valid()
      modifies packer
      ensures Valid() && packer.Now() == INITIAL && packer.delivered == old(packer.delivered)
    {
      packer.Reset();
    }
  }
}

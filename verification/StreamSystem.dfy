/**
 Two endpoints joined by two byte streams. Local steps and the arrival of chunks, of any size, come in any order; every
 such run is a run of the two endpoints over a network of messages.
 */
module StreamSystem {
  import opened Bytes
  import opened MsgWrapper
  import opened DataPacker
  import opened Framing
  import opened StreamConnection
  import opened Protocol
  import opened Runs
  import Coder
  import Correlation

  /** One direction: all packages handed to it so far, and the chunks that have arrived at its other end. */
  datatype Channel = Channel(packages: seq<bytes>, chunks: seq<bytes>)

  datatype System = System(pair: Pair, toLeft: Channel, toRight: Channel) {
    function To(onLeft: bool): Channel {
      if onLeft then toLeft else toRight
    }

    /** An rpc object's packages decode to what it has sent; a chunk only holds bytes that were written. */
    ghost predicate Valid(max: nat) {
      pair.Owned() && Carries(max, toRight, pair.left.sent) && Carries(max, toLeft, pair.right.sent)
    }
  }

  ghost predicate Carries(max: nat, ch: Channel, sent: seq<Msg>) {
    Decodes(ch.packages, sent) && Concat(ch.chunks) <= Concat(Packed(max, ch.packages))
  }

  const SILENT := Channel([], [])
  const INITIAL_SYSTEM := System(START, SILENT, SILENT)

  /** What the handler and the callback do with a message. */
  datatype Reaction = Reaction(run: HandlerRun, decodes: bool)

  datatype Move = Local(act: Act) | Arrive(onLeft: bool, chunk: bytes, reactions: seq<Reaction>)

  // ---- The arrival of a chunk ----

  /** The messages that a chunk completes. */
  function Arrivals(max: nat, residue: bytes, ch: Channel, chunk: bytes): seq<Msg>
    requires |residue| == HEADER
  {
    Dispatched(Feed(max, residue, FeedAll(max, residue, INITIAL, ch.chunks).state, chunk).out)
  }

  /** Each message is dispatched in turn, and the reactions are ones that the subscribed handlers can have. */
  ghost predicate Reacts(ep: Endpoint, msgs: seq<Msg>, reactions: seq<Reaction>)
    requires HandlersOwned(ep)
    decreases |msgs|, 0
  {
    && |reactions| == |msgs|
    && (msgs != [] ==>
          && Reacts(ep, Init(msgs), Init(reactions))
          && var now := DispatchAll(ep, Init(msgs), Init(reactions));
             Last(msgs).cmd in now.cmds ==> Protocol.Possible(now.cmds[Last(msgs).cmd], Last(reactions).run))
  }

  ghost function DispatchAll(ep: Endpoint, msgs: seq<Msg>, reactions: seq<Reaction>): (r: Endpoint)
    requires HandlersOwned(ep) && Reacts(ep, msgs, reactions)
    ensures HandlersOwned(r)
    decreases |msgs|, 1
  {
    if msgs == [] then ep
    else Dispatch(DispatchAll(ep, Init(msgs), Init(reactions)), Last(msgs), Last(reactions).run,
      Last(reactions).decodes)
  }

  // ---- Moves ----

  /** More packages may have been handed over, never fewer. */
  ghost predicate Extends(ch: Channel, ch': Channel) {
    ch.packages <= ch'.packages
  }

  ghost predicate Moves(max: nat, residue: bytes, s: System, move: Move, s': System)
    requires |residue| == HEADER && s.pair.Owned()
  {
    && Extends(s.toLeft, s'.toLeft) && Extends(s.toRight, s'.toRight)
    && Decodes(s'.toRight.packages, s'.pair.left.sent) && Decodes(s'.toLeft.packages, s'.pair.right.sent)
    && match move
       case Local(act) =>
         && !act.step.Receive? && CanHappen(s.pair, act) && s'.pair == Do(s.pair, act)
         && s'.toLeft.chunks == s.toLeft.chunks && s'.toRight.chunks == s.toRight.chunks
       case Arrive(onLeft, chunk, reactions) =>
         var ch, ep := s.To(onLeft), s.pair.Of(onLeft);
         var msgs := Arrivals(max, residue, ch, chunk);
         && Concat(ch.chunks) + chunk <= Concat(Packed(max, ch.packages))
         && s'.To(onLeft).chunks == ch.chunks + [chunk] && s'.To(!onLeft).chunks == s.To(!onLeft).chunks
         && Reacts(ep, msgs, reactions)
         && s'.pair.Of(onLeft) == DispatchAll(ep, msgs, reactions) && s'.pair.Of(!onLeft) == s.pair.Of(!onLeft)
  }

  ghost predicate Reaches(p: Pair, q: Pair)
    requires p.Owned()
  {
    exists acts: seq<Act> :: Legal(p, acts) && Exec(p, acts) == q
  }

  // ---- Streams only grow ----

  lemma {:induction false} ConcatAppend(a: seq<bytes>, b: seq<bytes>)
    ensures Concat(a + b) == Concat(a) + Concat(b)
  {
    if a == [] {
      assert a + b == b;
    } else {
      ConcatAppend(a[1..], b);
      assert (a + b)[1..] == a[1..] + b;
      Concat3(a[0], Concat(a[1..]), Concat(b));
    }
  }

  lemma {:induction false} PackedAppend(max: nat, a: seq<bytes>, b: seq<bytes>)
    ensures Packed(max, a + b) == Packed(max, a) + Packed(max, b)
  {
    hide Pack;
    if a == [] {
      assert a + b == b;
    } else {
      PackedAppend(max, a[1..], b);
      assert (a + b)[1..] == a[1..] + b;
      Concat3([Pack(max, a[0])], Packed(max, a[1..]), Packed(max, b));
    }
  }

  lemma StreamGrows(max: nat, ch: Channel, ch': Channel)
    requires Extends(ch, ch')
    ensures Concat(Packed(max, ch.packages)) <= Concat(Packed(max, ch'.packages))
  {
    var more := ch'.packages[|ch.packages|..];
    assert ch'.packages == ch.packages + more;
    PackedAppend(max, ch.packages, more);
    ConcatAppend(Packed(max, ch.packages), Packed(max, more));
  }

  lemma OneMoreChunk(chunks: seq<bytes>, chunk: bytes)
    ensures Concat(chunks + [chunk]) == Concat(chunks) + chunk
  {
    ConcatAppend(chunks, [chunk]);
    assert [chunk][1..] == [] && Concat([chunk]) == chunk + [] == chunk;
  }

  lemma MovesKeepValid(max: nat, residue: bytes, s: System, move: Move, s': System)
    requires |residue| == HEADER && s.Valid(max) && Moves(max, residue, s, move, s')
    ensures s'.Valid(max)
  {
    hide Do, CanHappen, Decodes, DispatchAll, Reacts, Arrivals, Packed, Concat;
    StreamGrows(max, s.toLeft, s'.toLeft);
    StreamGrows(max, s.toRight, s'.toRight);
    if move.Arrive? {
      OneMoreChunk(s.To(move.onLeft).chunks, move.chunk);
    }
  }

  // ---- A chunk's messages are among those sent ----

  lemma {:induction false} FeedOneMore(max: nat, residue: bytes, st: State, chunks: seq<bytes>, chunk: bytes)
    requires |residue| == HEADER && st.Valid(max)
    ensures var was := FeedAll(max, residue, st, chunks);
            FeedAll(max, residue, st, chunks + [chunk]).out == was.out + Feed(max, residue, was.state, chunk).out
    decreases |chunks|
  {
    hide Feed;
    if chunks == [] {
      assert chunks + [chunk] == [chunk] && [chunk][1..] == [];
    } else {
      assert (chunks + [chunk])[1..] == chunks[1..] + [chunk];
      FeedOneMore(max, residue, Feed(max, residue, st, chunks[0]).state, chunks[1..], chunk);
    }
  }

  lemma {:induction false} DispatchedAppend(a: seq<bytes>, b: seq<bytes>)
    ensures Dispatched(a + b) == Dispatched(a) + Dispatched(b)
  {
    hide Coder.Deserialize;
    if a == [] {
      assert a + b == b;
    } else {
      DispatchedAppend(a[1..], b);
      assert (a + b)[1..] == a[1..] + b;
      if Coder.Deserialize(a[0]).Some? {
        Concat3([Coder.Deserialize(a[0]).value], Dispatched(a[1..]), Dispatched(b));
      }
    }
  }

  lemma ArrivalsWereSent(max: nat, residue: bytes, ch: Channel, chunk: bytes, sent: seq<Msg>)
    requires max < WORD32 && |residue| == HEADER && Decodes(ch.packages, sent)
    requires Concat(ch.chunks) + chunk <= Concat(Packed(max, ch.packages))
    ensures forall m <- Arrivals(max, residue, ch, chunk) :: m in sent
  {
    hide Feed, FeedAll, Fitting, Fit, Completed, Dispatched, Decodes;
    var stream := Concat(Packed(max, ch.packages));
    var chunks := ch.chunks + [chunk];
    OneMoreChunk(ch.chunks, chunk);
    assert Concat(chunks) == stream[..|Concat(chunks)|];
    AnyPrefixArrives(max, residue, ch.packages, sent, |Concat(chunks)|, chunks);
    var was := FeedAll(max, residue, INITIAL, ch.chunks);
    FeedOneMore(max, residue, INITIAL, ch.chunks, chunk);
    DispatchedAppend(was.out, Feed(max, residue, was.state, chunk).out);
    var all := Dispatched(FeedAll(max, residue, INITIAL, chunks).out);
    forall m <- Arrivals(max, residue, ch, chunk)
      ensures m in sent
    {
      assert m in Dispatched(was.out) + Arrivals(max, residue, ch, chunk);
      assert m in all;
    }
  }

  // ---- An arrival is a run of receipts ----

  lemma {:induction false} ArrivalIsRun(p: Pair, onLeft: bool, msgs: seq<Msg>, reactions: seq<Reaction>)
    returns (acts: seq<Act>)
    requires p.Owned() && Reacts(p.Of(onLeft), msgs, reactions) && forall m <- msgs :: m in p.Peer(onLeft)
    ensures Legal(p, acts)
    ensures Exec(p, acts).Of(onLeft) == DispatchAll(p.Of(onLeft), msgs, reactions)
    ensures Exec(p, acts).Of(!onLeft) == p.Of(!onLeft)
    decreases |msgs|
  {
    if msgs == [] {
      acts := [];
    } else {
      var before := ArrivalIsRun(p, onLeft, Init(msgs), Init(reactions));
      var q, m, reaction := Exec(p, before), Last(msgs), Last(reactions);
      assert m in msgs;
      var i :| 0 <= i < |p.Peer(onLeft)| && p.Peer(onLeft)[i] == m;
      var a := Act(onLeft, Receive(i, reaction.run, reaction.decodes));
      ReceiptOf(q, onLeft, i, reaction);
      hide Do, CanHappen, Dispatch;
      ExecMore(p, before, a);
      acts := before + [a];
    }
  }

  lemma ReceiptOf(q: Pair, onLeft: bool, i: nat, reaction: Reaction)
    requires q.Owned() && i < |q.Peer(onLeft)|
    requires var m, ep := q.Peer(onLeft)[i], q.Of(onLeft);
             m.cmd in ep.cmds ==> Protocol.Possible(ep.cmds[m.cmd], reaction.run)
    ensures var a := Act(onLeft, Receive(i, reaction.run, reaction.decodes));
            && CanHappen(q, a)
            && Do(q, a).Of(onLeft) == Dispatch(q.Of(onLeft), q.Peer(onLeft)[i], reaction.run, reaction.decodes)
            && Do(q, a).Of(!onLeft) == q.Of(!onLeft)
  {
    hide Dispatch;
  }

  /** Every move of the system is a run of the endpoints. */
  lemma MoveIsRun(max: nat, residue: bytes, s: System, move: Move, s': System)
    requires max < WORD32 && |residue| == HEADER && s.Valid(max) && Moves(max, residue, s, move, s')
    ensures Reaches(s.pair, s'.pair)
  {
    hide Do, CanHappen, Decodes, DispatchAll, Reacts, Exec, Legal;
    match move
    case Local(act) =>
      ExecOne(s.pair, act);
      assert Legal(s.pair, [act]) && Exec(s.pair, [act]) == s'.pair;
    case Arrive(onLeft, chunk, reactions) =>
      var ch := s.To(onLeft);
      ArrivalsWereSent(max, residue, ch, chunk, s.pair.Peer(onLeft));
      var acts := ArrivalIsRun(s.pair, onLeft, Arrivals(max, residue, ch, chunk), reactions);
      assert Exec(s.pair, acts) == s'.pair;
  }

  // ---- Whole runs ----

  ghost predicate SystemRun(max: nat, residue: bytes, states: seq<System>, moves: seq<Move>)
    requires |residue| == HEADER
  {
    && |states| == |moves| + 1 && states[0] == INITIAL_SYSTEM
    && forall i :: 0 <= i < |moves| ==>
        states[i].pair.Owned() && Moves(max, residue, states[i], moves[i], states[i + 1])
  }

  /**
   Simulation. Whatever the users, the timers and the two streams do, in any interleaving and with any chunks: in every
   state of the run the endpoints are as some legal run over the network of messages leaves them. So all that is proved
   of those runs holds over byte streams.
   */
  lemma {:induction false} StreamsSimulate(max: nat, residue: bytes, states: seq<System>, moves: seq<Move>, i: nat)
    requires max < WORD32 && |residue| == HEADER && SystemRun(max, residue, states, moves) && i < |states|
    ensures states[i].Valid(max) && Reaches(START, states[i].pair)
    decreases i
  {
    hide Moves, Exec, Legal;
    if i == 0 {
      InitialValid(max);
    } else {
      StreamsSimulate(max, residue, states, moves, i - 1);
      var s, s' := states[i - 1], states[i];
      MovesKeepValid(max, residue, s, moves[i - 1], s');
      MoveIsRun(max, residue, s, moves[i - 1], s');
      ReachesTransitive(START, s.pair, s'.pair);
    }
  }

  lemma InitialValid(max: nat)
    ensures INITIAL_SYSTEM.Valid(max) && Reaches(START, START)
  {
    assert Legal(START, []) && Exec(START, []) == START;
  }

  lemma ReachesTransitive(p: Pair, q: Pair, r: Pair)
    requires p.Owned() && q.Owned() && Reaches(p, q) && Reaches(q, r)
    ensures Reaches(p, r)
  {
    hide Exec, Legal;
    var acts: seq<Act> :| Legal(p, acts) && Exec(p, acts) == q;
    var more: seq<Act> :| Legal(q, more) && Exec(q, more) == r;
    ExecConcat(p, acts, more);
    assert Legal(p, acts + more) && Exec(p, acts + more) == r;
  }

  /** For instance, responses belong to their commands over byte streams, too. */
  lemma {:induction false} SoundOverStreams(max: nat, residue: bytes, states: seq<System>, moves: seq<Move>, i: nat)
    requires max < WORD32 && |residue| == HEADER && SystemRun(max, residue, states, moves) && i < |states|
    requires NoWrap(states[i].pair)
    ensures var p := states[i].pair; Correlation.Sound(p.left, p.right.log) && Correlation.Sound(p.right, p.left.log)
  {
    hide Moves, SystemRun, Exec, Legal, Correlation.Sound;
    StreamsSimulate(max, residue, states, moves, i);
    var acts: seq<Act> :| Legal(START, acts) && Exec(START, acts) == states[i].pair;
    Correlation.BothSound(acts);
  }
}

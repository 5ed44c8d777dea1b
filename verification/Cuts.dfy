/** Exactly which byte streams the parser reads the same way however they are cut into chunks. */
module Cuts {
  import opened Bytes
  import opened DataPacker
  import opened Framing

  /** The body size announced by the first four bytes. */
  function Announced(s: bytes): nat
    requires |s| >= HEADER
  {
    FromLittleEndian(s[..HEADER])
  }

  /**
   Given in one chunk to a parser that awaits a header, the bytes deliver a payload: an empty one only before more
   bytes.
   */
  predicate Completes(max: nat, s: bytes) {
    && |s| >= HEADER
    && var n := Announced(s);
       n <= max && (if n == 0 then |s| > HEADER else |s| >= HEADER + n)
  }

  /**
   The condition, frame by frame. Behind an oversize header nothing may ever complete, wherever reading resumes; a
   header that announces an empty body must be the end.
   */
  predicate CutFree(max: nat, s: bytes)
    decreases |s|
  {
    |s| >= HEADER ==>
      var n := Announced(s);
      if n > max then NothingCompletes(max, s[HEADER..])
      else if n == 0 then |s| == HEADER
      else |s| >= HEADER + n ==> CutFree(max, s[HEADER + n..])
  }

  predicate NothingCompletes(max: nat, s: bytes) {
    forall k :: 0 <= k <= |s| ==> !Completes(max, s[k..])
  }

  /** The payloads of the complete frames up to the first header that announces an empty or oversize body. */
  function Frames(max: nat, s: bytes): seq<bytes>
    decreases |s|
  {
    if |s| < HEADER then []
    else
      var n := Announced(s);
      if n > max || n == 0 || |s| < HEADER + n then []
      else [s[HEADER..HEADER + n]] + Frames(max, s[HEADER + n..])
  }

  // ---- Sufficiency ----

  /** Where nothing completes, cutting is harmless, and nothing is delivered. */
  lemma BarrenIsCutFree(max: nat, s: bytes)
    requires NothingCompletes(max, s)
    ensures CutFree(max, s) && Frames(max, s) == []
  {
    assert s[0..] == s;
    assert !Completes(max, s[0..]);
    if |s| >= HEADER {
      BarrenBehind(max, s, HEADER);
    }
  }

  lemma BarrenBehind(max: nat, s: bytes, from: nat)
    requires NothingCompletes(max, s) && from <= |s|
    ensures NothingCompletes(max, s[from..])
  {
    forall k | 0 <= k <= |s[from..]|
      ensures !Completes(max, s[from..][k..])
    {
      assert s[from..][k..] == s[from + k..];
    }
  }

  /**
   One call, with `more` still to come. Either the state is clean and stands for a stream that is cut free again, or a
   header that announces an empty body was the very end.
   */
  ghost predicate Follows(max: nat, r: Fed, s: bytes, more: bytes)
    requires max < WORD32 && r.state.Valid(max)
  {
    || (r.state.Clean() && CutFree(max, r.state.Pending() + more)
        && Frames(max, s) == r.out + Frames(max, r.state.Pending() + more))
    || (more == [] && r.state.bodySize == 0 && Frames(max, s) == r.out)
  }

  lemma {:induction false} FeedFollows(max: nat, residue: bytes, st: State, data: bytes, more: bytes)
    requires max < WORD32 && |residue| == HEADER && st.Valid(max) && st.Clean()
    requires CutFree(max, st.Pending() + data + more)
    ensures Follows(max, Feed(max, residue, st, data), st.Pending() + data + more, more)
    decreases |data|, 1
  {
    hide CutFree, Frames;
    if st.bodySize != 0 {
      BodyFollows(max, residue, st, data, more);
    } else if st.headerLenNow + |data| < HEADER {
      Joined(st.Pending(), data, more);
    } else {
      HeaderFollows(max, residue, st, data, more);
    }
  }

  lemma Joined(a: bytes, b: bytes, c: bytes)
    ensures a + b + c == a + (b + c)
  {
  }

  /** The call completes a header. */
  lemma {:induction false} HeaderFollows(max: nat, residue: bytes, st: State, data: bytes, more: bytes)
    requires max < WORD32 && |residue| == HEADER && st.Valid(max) && st.Clean()
    requires st.bodySize == 0 && st.headerLenNow + |data| >= HEADER
    requires CutFree(max, st.Pending() + data + more)
    ensures Follows(max, Feed(max, residue, st, data), st.Pending() + data + more, more)
    decreases |data|, 0, 1
  {
    hide FeedBody;
    var s := st.Pending() + data + more;
    var headerLen := HEADER - st.headerLenNow;
    var header := st.buffer + data[..headerLen];
    assert (header + residue)[..HEADER] == header == s[..HEADER];
    var n := HeaderWord(st.buffer + data[..headerLen], residue);
    assert n == Announced(s);
    assert s[HEADER..] == data[headerLen..] + more;
    if n > max {
      DropFollows(max, s, data[headerLen..], more);
    } else if n == 0 {
      assert |data| == headerLen && more == [];
    } else {
      var waiting := State([], st.headerLenNow, n);
      BytesRoundTrip(header);
      assert s == waiting.Pending() + data[headerLen..] + more;
      if |data| == headerLen {
        assert waiting.Pending() + more == s;
      } else {
        BodyFollows(max, residue, waiting, data[headerLen..], more);
      }
    }
  }

  /** An oversize header: the rest of the chunk is dropped, and what may come later completes nothing. */
  lemma DropFollows(max: nat, s: bytes, dropped: bytes, more: bytes)
    requires max < WORD32 && |s| >= HEADER && Announced(s) > max && CutFree(max, s)
    requires s[HEADER..] == dropped + more
    ensures Follows(max, Fed(INITIAL, [], false), s, more)
  {
    var rest := s[HEADER..];
    BarrenBehind(max, rest, |dropped|);
    assert rest[|dropped|..] == more;
    BarrenIsCutFree(max, more);
    assert INITIAL.Pending() + more == more;
  }

  lemma {:induction false} BodyFollows(max: nat, residue: bytes, st: State, data: bytes, more: bytes)
    requires max < WORD32 && |residue| == HEADER && st.Valid(max) && st.bodySize != 0
    requires CutFree(max, st.Pending() + data + more)
    ensures Follows(max, FeedBody(max, residue, st, data), st.Pending() + data + more, more)
    decreases |data|, 0, 0
  {
    hide Feed, CutFree, Frames, Follows;
    if |st.buffer| + |data| < st.bodySize {
      BodyWaits(max, residue, st, data, more);
    } else {
      var need := st.bodySize - |st.buffer|;
      OneFrame(max, st, data, more);
      if |data| == need {
        BodyEndsChunk(max, residue, st, data, more);
      } else {
        assert INITIAL.Pending() + data[need..] + more == data[need..] + more;
        FeedFollows(max, residue, INITIAL, data[need..], more);
        FrameFirst(max, residue, st, data, more);
      }
    }
  }

  lemma BodyWaits(max: nat, residue: bytes, st: State, data: bytes, more: bytes)
    requires max < WORD32 && |residue| == HEADER && st.Valid(max) && |st.buffer| + |data| < st.bodySize
    requires CutFree(max, st.Pending() + data + more)
    ensures Follows(max, FeedBody(max, residue, st, data), st.Pending() + data + more, more)
  {
    hide Feed, CutFree, Frames;
    assert st.(buffer := st.buffer + data).Pending() + more == st.Pending() + data + more;
  }

  /** The chunk ends with the body. */
  lemma BodyEndsChunk(max: nat, residue: bytes, st: State, data: bytes, more: bytes)
    requires max < WORD32 && |residue| == HEADER && st.Valid(max) && 0 < st.bodySize == |st.buffer| + |data|
    requires CutFree(max, st.Pending() + data + more)
    ensures Follows(max, FeedBody(max, residue, st, data), st.Pending() + data + more, more)
  {
    hide Feed, CutFree, Frames;
    OneFrame(max, st, data, more);
    assert INITIAL.Pending() + more == data[|data|..] + more;
  }

  /** The new data complete the body: one frame, and the stream behind it. */
  lemma OneFrame(max: nat, st: State, data: bytes, more: bytes)
    requires max < WORD32 && st.Valid(max) && 0 < st.bodySize <= |st.buffer| + |data|
    requires CutFree(max, st.Pending() + data + more)
    ensures var need := st.bodySize - |st.buffer|;
            && CutFree(max, data[need..] + more)
            && Frames(max, st.Pending() + data + more)
               == [st.buffer + data[..need]] + Frames(max, data[need..] + more)
  {
    var need := st.bodySize - |st.buffer|;
    Joined(st.Pending(), data, more);
    BodyPhase(st, data + more);
    assert (data + more)[..need] == data[..need] && (data + more)[need..] == data[need..] + more;
  }

  /** A frame, and then what the rest of the chunk has delivered. */
  lemma FrameFirst(max: nat, residue: bytes, st: State, data: bytes, more: bytes)
    requires max < WORD32 && |residue| == HEADER && st.Valid(max) && 0 < st.bodySize < |st.buffer| + |data|
    requires var rest := data[st.bodySize - |st.buffer|..];
             && Frames(max, st.Pending() + data + more)
                == [st.buffer + data[..st.bodySize - |st.buffer|]] + Frames(max, rest + more)
             && Follows(max, Feed(max, residue, INITIAL, rest), rest + more, more)
    ensures Follows(max, FeedBody(max, residue, st, data), st.Pending() + data + more, more)
  {
    hide Feed, CutFree, Frames;
    var need := st.bodySize - |st.buffer|;
    var r := Feed(max, residue, INITIAL, data[need..]);
    if r.state.Clean() {
      Concat3([st.buffer + data[..need]], r.out, Frames(max, r.state.Pending() + more));
    }
  }

  /** However a cut-free stream is cut, its frames are delivered, up to the first header that ends them. */
  lemma {:induction false} AnyCutDelivers(max: nat, residue: bytes, st: State, chunks: seq<bytes>)
    requires max < WORD32 && |residue| == HEADER && st.Valid(max) && st.Clean()
    requires CutFree(max, st.Pending() + Concat(chunks))
    ensures FeedAll(max, residue, st, chunks).out == Frames(max, st.Pending() + Concat(chunks))
    decreases |chunks|
  {
    hide Feed, CutFree, Frames;
    if chunks == [] {
      assert st.Pending() + Concat(chunks) == st.Pending();
      PendingHasNoFrame(max, st);
    } else {
      var more := Concat(chunks[1..]);
      var r := Feed(max, residue, st, chunks[0]);
      assert st.Pending() + Concat(chunks) == st.Pending() + chunks[0] + more;
      FeedFollows(max, residue, st, chunks[0], more);
      if r.state.Clean() && CutFree(max, r.state.Pending() + more) {
        AnyCutDelivers(max, residue, r.state, chunks[1..]);
      }
      if more == [] && r.state.bodySize == 0 {
        NothingLeft(max, residue, r.state, chunks[1..]);
      }
    }
  }

  lemma PendingHasNoFrame(max: nat, st: State)
    requires max < WORD32 && st.Valid(max) && st.Clean()
    ensures Frames(max, st.Pending()) == []
  {
    if st.bodySize != 0 {
      Pow256Values();
      WordRoundTrip(st.bodySize, HEADER);
      assert st.Pending()[..HEADER] == LittleEndian(st.bodySize, HEADER);
    }
  }

  /** Empty chunks deliver nothing while a header is awaited. */
  lemma {:induction false} NothingLeft(max: nat, residue: bytes, st: State, chunks: seq<bytes>)
    requires |residue| == HEADER && st.Valid(max) && st.bodySize == 0 && Concat(chunks) == []
    ensures FeedAll(max, residue, st, chunks).out == []
    decreases |chunks|
  {
    if chunks != [] {
      assert chunks[0] == [] && Concat(chunks[1..]) == [];
      assert Feed(max, residue, st, []) == Fed(State(st.buffer + [], st.headerLenNow, 0), [], true);
      NothingLeft(max, residue, State(st.buffer + [], st.headerLenNow, 0), chunks[1..]);
    }
  }

  // ---- Necessity ----

  /** Two ways of cutting the same bytes that are read differently. */
  ghost predicate Differ(max: nat, residue: bytes, s: bytes, a: seq<bytes>, b: seq<bytes>)
    requires |residue| == HEADER
  {
    && Concat(a) == s && Concat(b) == s
    && FeedAll(max, residue, INITIAL, a).out != FeedAll(max, residue, INITIAL, b).out
  }

  lemma OneChunk(max: nat, residue: bytes, s: bytes)
    requires |residue| == HEADER
    ensures Concat([s]) == s && FeedAll(max, residue, INITIAL, [s]).out == Feed(max, residue, INITIAL, s).out
  {
    hide Feed;
    assert [s][1..] == [];
  }

  lemma OneChunkFirst(max: nat, residue: bytes, first: bytes, others: seq<bytes>)
    requires |residue| == HEADER && Feed(max, residue, INITIAL, first).state == INITIAL
    ensures Concat([first] + others) == first + Concat(others)
    ensures FeedAll(max, residue, INITIAL, [first] + others).out
         == Feed(max, residue, INITIAL, first).out + FeedAll(max, residue, INITIAL, others).out
  {
    hide Feed;
    assert ([first] + others)[1..] == others;
  }

  /** The header word of a stream read from the start is the announced size. */
  lemma HeaderFromStart(residue: bytes, s: bytes)
    requires |residue| == HEADER && |s| >= HEADER
    ensures HeaderWord([] + s[..HEADER], residue) == Announced(s)
  {
    assert ([] + s[..HEADER] + residue)[..HEADER] == s[..HEADER];
  }

  lemma CompletesDelivers(max: nat, residue: bytes, s: bytes)
    requires |residue| == HEADER && Completes(max, s)
    ensures Feed(max, residue, INITIAL, s).out != []
  {
    HeaderFromStart(residue, s);
  }

  /** An oversize header: one chunk delivers nothing, but a chunk may begin where something completes. */
  lemma OversizeDiffers(max: nat, residue: bytes, s: bytes, k: nat) returns (a: seq<bytes>, b: seq<bytes>)
    requires |residue| == HEADER && |s| >= HEADER && Announced(s) > max
    requires HEADER <= k <= |s| && Completes(max, s[k..])
    ensures Differ(max, residue, s, a, b)
  {
    hide FeedBody, Completes;
    a, b := [s], [s[..k]] + [s[k..]];
    HeaderFromStart(residue, s);
    HeaderFromStart(residue, s[..k]);
    assert s[..k][..HEADER] == s[..HEADER];
    OneChunk(max, residue, s);
    OneChunk(max, residue, s[k..]);
    OneChunkFirst(max, residue, s[..k], [s[k..]]);
    CompletesDelivers(max, residue, s[k..]);
    assert s[..k] + s[k..] == s;
  }

  /** An empty body: in one chunk with what follows it is delivered, cut behind its header it is not. */
  lemma EmptyDiffers(max: nat, residue: bytes, s: bytes) returns (a: seq<bytes>, b: seq<bytes>)
    requires |residue| == HEADER && |s| > HEADER && Announced(s) == 0
    ensures Differ(max, residue, s, a, b)
  {
    var header, rest := s[..HEADER], s[HEADER..];
    a, b := [s], [header] + [rest];
    HeaderFromStart(residue, s);
    HeaderFromStart(residue, header);
    assert header[..HEADER] == s[..HEADER];
    OneChunk(max, residue, s);
    OneChunk(max, residue, rest);
    assert header + rest == s;
    EmptyWhole(max, residue, s);
    assert Feed(max, residue, INITIAL, header) == Fed(INITIAL, [], true);
    OneChunkFirst(max, residue, header, [rest]);
  }

  lemma EmptyWhole(max: nat, residue: bytes, s: bytes)
    requires |residue| == HEADER && |s| > HEADER && Announced(s) == 0
    ensures Feed(max, residue, INITIAL, s).out == [[]] + Feed(max, residue, INITIAL, s[HEADER..]).out
  {
    hide FeedBody;
    HeaderFromStart(residue, s);
    EmptyBody(max, residue, s[HEADER..]);
    assert Feed(max, residue, INITIAL, s) == FeedBody(max, residue, State([], 0, 0), s[HEADER..]).(ok := true);
  }

  lemma EmptyBody(max: nat, residue: bytes, rest: bytes)
    requires |residue| == HEADER && rest != []
    ensures FeedBody(max, residue, State([], 0, 0), rest).out == [[]] + Feed(max, residue, INITIAL, rest).out
  {
    hide Feed;
    assert rest[0..] == rest && [] + rest[..0] == [];
  }

  lemma FirstFrameAlone(max: nat, residue: bytes, s: bytes)
    requires max < WORD32 && |residue| == HEADER && |s| >= HEADER && 1 <= Announced(s) <= max
      && |s| >= HEADER + Announced(s)
    ensures var n := Announced(s);
            Feed(max, residue, INITIAL, s[..HEADER + n]) == Fed(INITIAL, [s[HEADER..HEADER + n]], true)
  {
    var n := Announced(s);
    var frame := s[HEADER..HEADER + n];
    BytesRoundTrip(s[..HEADER]);
    assert s[..HEADER + n] == Pack(max, frame);
    FrameAlone(max, residue, frame);
  }

  lemma {:induction false} TwoCuts(max: nat, residue: bytes, s: bytes) returns (a: seq<bytes>, b: seq<bytes>)
    requires max < WORD32 && |residue| == HEADER && !CutFree(max, s)
    ensures Differ(max, residue, s, a, b)
    decreases |s|
  {
    hide Feed, Completes;
    var n := Announced(s);
    if n > max {
      var k :| 0 <= k <= |s[HEADER..]| && Completes(max, s[HEADER..][k..]);
      assert s[HEADER..][k..] == s[HEADER + k..];
      a, b := OversizeDiffers(max, residue, s, HEADER + k);
    } else if n == 0 {
      a, b := EmptyDiffers(max, residue, s);
    } else {
      var first, rest := s[..HEADER + n], s[HEADER + n..];
      a, b := TwoCuts(max, residue, rest);
      FirstFrameAlone(max, residue, s);
      OneChunkFirst(max, residue, first, a);
      OneChunkFirst(max, residue, first, b);
      assert first + rest == s;
      var frame := [s[HEADER..HEADER + n]];
      SamePrefix(frame, FeedAll(max, residue, INITIAL, a).out, FeedAll(max, residue, INITIAL, b).out);
      a, b := [first] + a, [first] + b;
    }
  }

  lemma SamePrefix(x: seq<bytes>, y: seq<bytes>, z: seq<bytes>)
    ensures x + y == x + z ==> y == z
  {
    if x + y == x + z {
      assert (x + y)[|x|..] == y && (x + z)[|x|..] == z;
    }
  }

  // ---- The exact condition ----

  /** All ways of cutting the bytes are read the same way. */
  ghost predicate CutIndependent(max: nat, residue: bytes, s: bytes)
    requires |residue| == HEADER
  {
    forall a, b :: Concat(a) == s && Concat(b) == s ==>
                     FeedAll(max, residue, INITIAL, a).out == FeedAll(max, residue, INITIAL, b).out
  }

  /** For every byte string: what is delivered does not depend on the cut if and only if the string is cut free. */
  lemma CutIndependentExactly(max: nat, residue: bytes, s: bytes)
    requires max < WORD32 && |residue| == HEADER
    ensures CutIndependent(max, residue, s) <==> CutFree(max, s)
  {
    hide CutFree, Frames;
    if CutFree(max, s) {
      forall a, b | Concat(a) == s && Concat(b) == s
        ensures FeedAll(max, residue, INITIAL, a).out == FeedAll(max, residue, INITIAL, b).out
      {
        assert INITIAL.Pending() + s == s;
        AnyCutDelivers(max, residue, INITIAL, a);
        AnyCutDelivers(max, residue, INITIAL, b);
      }
    } else {
      var a, b := TwoCuts(max, residue, s);
    }
  }

  /** Streams of non-empty frames within the limit are cut free, and their frames are those of `Deframe`. */
  lemma {:induction false} InLimitIsCutFree(max: nat, s: bytes)
    requires InLimit(max, s)
    ensures CutFree(max, s) && Frames(max, s) == Deframe(s).0
    decreases |s|
  {
    if |s| >= HEADER && |s| >= HEADER + Announced(s) {
      InLimitIsCutFree(max, s[HEADER + Announced(s)..]);
    }
  }

  /**
   Chunk independence, from any clean state: two ways of cutting the same cut-free bytes deliver the same payloads; if
   all headers announce non-empty bodies within the limit, they also report success and leave the same frame pending.
   */
  lemma {:induction false} ChunkIndependence(max: nat, residue: bytes, st: State, chunks: seq<bytes>,
      chunks': seq<bytes>)
    requires max < WORD32 && |residue| == HEADER && st.Valid(max) && st.Clean()
    requires Concat(chunks) == Concat(chunks')
    requires CutFree(max, st.Pending() + Concat(chunks))
    ensures var r, r' := FeedAll(max, residue, st, chunks), FeedAll(max, residue, st, chunks');
            && r.out == r'.out
            && (InLimit(max, st.Pending() + Concat(chunks)) ==>
                  r.ok && r'.ok && r.state.Clean() && r'.state.Clean() && r.state.Pending() == r'.state.Pending())
  {
    hide FeedAll, CutFree, Frames, InLimit;
    AnyCutDelivers(max, residue, st, chunks);
    AnyCutDelivers(max, residue, st, chunks');
    if InLimit(max, st.Pending() + Concat(chunks)) {
      FeedAllRefines(max, residue, st, chunks);
      FeedAllRefines(max, residue, st, chunks');
    }
  }
}

/** What the parser delivers, stated on the whole byte stream instead of chunk by chunk. */
module Framing {
  import opened Bytes
  import opened DataPacker

  /** The complete frames of a stream and the bytes of the last, unfinished one. */
  function Deframe(s: bytes): (r: (seq<bytes>, bytes))
    ensures |r.1| <= |s|
    decreases |s|
  {
    if |s| < HEADER then ([], s)
    else
      var n := FromLittleEndian(s[..HEADER]);
      if |s| < HEADER + n then ([], s)
      else
        var (frames, rest) := Deframe(s[HEADER + n..]);
        ([s[HEADER..HEADER + n]] + frames, rest)
  }

  /** Every header that the stream completes announces a non-empty body within the limit. */
  predicate InLimit(max: nat, s: bytes)
    decreases |s|
  {
    |s| >= HEADER ==>
      var n := FromLittleEndian(s[..HEADER]);
      1 <= n <= max && (|s| >= HEADER + n ==> InLimit(max, s[HEADER + n..]))
  }

  function Concat(chunks: seq<bytes>): bytes {
    if chunks == [] then [] else chunks[0] + Concat(chunks[1..])
  }

  /** Feeding the chunks one after the other; `ok` when every call reported success. */
  function FeedAll(max: nat, residue: bytes, st: State, chunks: seq<bytes>): (r: Fed)
    requires |residue| == HEADER && st.Valid(max)
    ensures r.state.Valid(max)
    decreases |chunks|
  {
    if chunks == [] then Fed(st, [], true)
    else
      var first := Feed(max, residue, st, chunks[0]);
      var rest := FeedAll(max, residue, first.state, chunks[1..]);
      Fed(rest.state, first.out + rest.out, first.ok && rest.ok)
  }

  /** The stream a state stands for, extended by `data`, is deframed by the call that produced `r`. */
  ghost predicate Refines(max: nat, r: Fed, stream: bytes)
    requires max < WORD32 && r.state.Valid(max)
  {
    r.ok && r.state.Clean() && r.out == Deframe(stream).0 && r.state.Pending() == Deframe(stream).1
  }

  lemma {:induction false} FeedRefines(max: nat, residue: bytes, st: State, data: bytes)
    requires max < WORD32 && |residue| == HEADER && st.Valid(max) && st.Clean()
    requires InLimit(max, st.Pending() + data)
    ensures Refines(max, Feed(max, residue, st, data), st.Pending() + data)
    decreases |data|, 1
  {
    var s := st.Pending() + data;
    if st.bodySize != 0 {
      FeedBodyRefines(max, residue, st, data);
    } else if st.headerLenNow + |data| < HEADER {
    } else {
      var headerLen := HEADER - st.headerLenNow;
      var header := st.buffer + data[..headerLen];
      assert (header + residue)[..HEADER] == header == s[..HEADER];
      var size := HeaderWord(header, residue);
      var waiting := State([], st.headerLenNow, size);
      BytesRoundTrip(header);
      assert s == waiting.Pending() + data[headerLen..];
      if |data| == headerLen {
        assert waiting.Pending() == s;
      } else {
        FeedBodyRefines(max, residue, waiting, data[headerLen..]);
      }
    }
  }

  lemma {:induction false} FeedBodyRefines(max: nat, residue: bytes, st: State, data: bytes)
    requires max < WORD32 && |residue| == HEADER && st.Valid(max) && st.bodySize != 0
    requires InLimit(max, st.Pending() + data)
    ensures Refines(max, FeedBody(max, residue, st, data), st.Pending() + data)
    decreases |data|, 0
  {
    var s := st.Pending() + data;
    BodyPhase(st, data);
    if |st.buffer| + |data| < st.bodySize {
      assert st.(buffer := st.buffer + data).Pending() == s;
    } else {
      var need := st.bodySize - |st.buffer|;
      var rest := data[need..];
      assert Deframe(s) == ([st.buffer + data[..need]] + Deframe(rest).0, Deframe(rest).1);
      if |data| != need {
        assert INITIAL.Pending() + rest == rest;
        FeedRefines(max, residue, INITIAL, rest);
      }
    }
  }

  /** The stream of a state in its body phase: a complete header, then the body so far and the new data. */
  lemma BodyPhase(st: State, data: bytes)
    requires 0 < st.bodySize < WORD32 && |st.buffer| < st.bodySize
    ensures var s, n := st.Pending() + data, st.bodySize;
            && |s| == HEADER + |st.buffer| + |data| && FromLittleEndian(s[..HEADER]) == n
            && (|st.buffer| + |data| >= n ==>
                  && s[HEADER..HEADER + n] == st.buffer + data[..n - |st.buffer|]
                  && s[HEADER + n..] == data[n - |st.buffer|..])
  {
    var s := st.Pending() + data;
    Pow256Values();
    WordRoundTrip(st.bodySize, HEADER);
    assert s[..HEADER] == LittleEndian(st.bodySize, HEADER);
  }

  /** Deframing can stop anywhere and go on from the unfinished frame. */
  lemma {:induction false} DeframeAppend(max: nat, s: bytes, t: bytes)
    requires InLimit(max, s + t)
    ensures InLimit(max, s) && InLimit(max, Deframe(s).1 + t)
    ensures Deframe(s + t).0 == Deframe(s).0 + Deframe(Deframe(s).1 + t).0
    ensures Deframe(s + t).1 == Deframe(Deframe(s).1 + t).1
    decreases |s|
  {
    if |s| < HEADER {
      assert Deframe(s) == ([], s);
    } else {
      assert (s + t)[..HEADER] == s[..HEADER];
      var k := HEADER + FromLittleEndian(s[..HEADER]);
      if |s| < k {
        assert Deframe(s) == ([], s);
      } else {
        var f, tail := s[HEADER..k], s[k..];
        assert (s + t)[k..] == tail + t && (s + t)[HEADER..k] == f;
        DeframeAppend(max, tail, t);
        assert Deframe(s).1 == Deframe(tail).1;
        Concat3([f], Deframe(tail).0, Deframe(Deframe(tail).1 + t).0);
      }
    }
  }

  /**
   However a stream of in-limit, non-empty frames is cut, the frames it completes are delivered, in order, and no
   others.
   */
  lemma {:induction false} FeedAllRefines(max: nat, residue: bytes, st: State, chunks: seq<bytes>)
    requires max < WORD32 && |residue| == HEADER && st.Valid(max) && st.Clean()
    requires InLimit(max, st.Pending() + Concat(chunks))
    ensures Refines(max, FeedAll(max, residue, st, chunks), st.Pending() + Concat(chunks))
    decreases |chunks|
  {
    var s := st.Pending() + Concat(chunks);
    if chunks == [] {
      assert s == st.Pending();
      PendingIsUnfinished(max, st);
    } else {
      var t := st.Pending() + chunks[0];
      assert s == t + Concat(chunks[1..]);
      DeframeAppend(max, t, Concat(chunks[1..]));
      FeedRefines(max, residue, st, chunks[0]);
      FeedAllRefines(max, residue, Feed(max, residue, st, chunks[0]).state, chunks[1..]);
    }
  }

  lemma FromStart(max: nat, residue: bytes, chunks: seq<bytes>)
    requires max < WORD32 && |residue| == HEADER
    requires InLimit(max, Concat(chunks))
    ensures Refines(max, FeedAll(max, residue, INITIAL, chunks), Concat(chunks))
  {
    assert INITIAL.Pending() + Concat(chunks) == Concat(chunks);
    FeedAllRefines(max, residue, INITIAL, chunks);
  }

  lemma PendingIsUnfinished(max: nat, st: State)
    requires max < WORD32 && st.Valid(max) && st.Clean()
    ensures Deframe(st.Pending()) == ([], st.Pending())
  {
    if st.bodySize != 0 {
      Pow256Values();
      WordRoundTrip(st.bodySize, HEADER);
      assert st.Pending()[..HEADER] == LittleEndian(st.bodySize, HEADER);
    }
  }

  /** The concrete states can differ: the stale header count remembers the cut. */
  lemma ConcreteStateRemembersTheCut(residue: bytes)
    requires |residue| == HEADER
    ensures FeedAll(9, residue, INITIAL, [[1, 0, 0, 0]]).state == State([], 0, 1)
    ensures FeedAll(9, residue, INITIAL, [[1, 0], [0, 0]]).state == State([], 2, 1)
  {
    HalvedHeader(1, residue);
    OneByteHeader(1, residue);
    var whole: bytes := [1, 0, 0, 0];
    assert [] + whole[..HEADER] == whole;
    assert Feed(9, residue, INITIAL, whole) == Fed(State([], 0, 1), [], true);
    assert FeedAll(9, residue, State([], 0, 1), []) == Fed(State([], 0, 1), [], true);
  }

  /** A header in two chunks of two bytes leaves the header count at two. */
  lemma HalvedHeader(b: byte, residue: bytes)
    requires |residue| == HEADER && b <= 9
    ensures FeedAll(9, residue, INITIAL, [[b, 0], [0, 0]]) == Fed(State([], 2, b), [], true)
  {
    OneByteHeader(b, residue);
    assert [b, 0] + [0, 0][..2] == [b, 0, 0, 0];
    var half := State([b, 0], 2, 0);
    assert Feed(9, residue, INITIAL, [b, 0]) == Fed(half, [], true);
    assert Feed(9, residue, half, [0, 0]) == Fed(State([], 2, b), [], true);
    var chunks := [[b, 0], [0, 0]];
    assert chunks[1..] == [[0, 0]];
    assert FeedAll(9, residue, half, [[0, 0]]) == Fed(State([], 2, b), [], true);
  }

  lemma OneByteHeader(b: byte, residue: bytes)
    requires |residue| == HEADER
    ensures HeaderWord([b, 0, 0, 0], residue) == b
  {
    assert ([b, 0, 0, 0] + residue)[..HEADER] == [b, 0, 0, 0];
    assert LittleEndian(b, 4) == [b, 0, 0, 0] by {
      assert LittleEndian(0, 3) == [0, 0, 0];
    }
    Pow256Values();
    WordRoundTrip(b, 4);
  }

  // ---- Streams a sender produces ----

  function Packed(max: nat, payloads: seq<bytes>): (chunks: seq<bytes>)
    ensures |chunks| == |payloads|
  {
    if payloads == [] then [] else [Pack(max, payloads[0])] + Packed(max, payloads[1..])
  }

  ghost predicate AllFit(max: nat, payloads: seq<bytes>) {
    forall i :: 0 <= i < |payloads| ==> |payloads[i]| <= max
  }

  ghost predicate NoneEmpty(payloads: seq<bytes>) {
    forall i :: 0 <= i < |payloads| ==> payloads[i] != []
  }

  lemma {:induction false} PackedStream(max: nat, payloads: seq<bytes>)
    requires max < WORD32 && AllFit(max, payloads) && NoneEmpty(payloads)
    ensures InLimit(max, Concat(Packed(max, payloads)))
    ensures Deframe(Concat(Packed(max, payloads))) == (payloads, [])
    decreases |payloads|
  {
    if payloads != [] {
      var p := payloads[0];
      PackedStream(max, payloads[1..]);
      FirstFrame(max, p, Concat(Packed(max, payloads[1..])));
      assert [p] + payloads[1..] == payloads;
    }
  }

  lemma FirstFrame(max: nat, p: bytes, rest: bytes)
    requires |p| <= max < WORD32
    ensures var s := Pack(max, p) + rest;
            && |s| >= HEADER + |p| && FromLittleEndian(s[..HEADER]) == |p|
            && s[HEADER..HEADER + |p|] == p && s[HEADER + |p|..] == rest
  {
    var s := Pack(max, p) + rest;
    Pow256Values();
    WordRoundTrip(|p|, HEADER);
    assert s[..HEADER] == LittleEndian(|p|, HEADER);
  }

  /** Whatever way the packed payloads are cut, exactly they are delivered. */
  ghost predicate DeliversAnyCut(max: nat, residue: bytes, payloads: seq<bytes>)
    requires |residue| == HEADER
  {
    forall chunks :: Concat(chunks) == Concat(Packed(max, payloads)) ==>
        FeedAll(max, residue, INITIAL, chunks).out == payloads
  }

  /** The sender's guarantee holds exactly when it packs no empty payload. */
  lemma DeliversAnyCutExactly(max: nat, residue: bytes, payloads: seq<bytes>)
    requires max < WORD32 && |residue| == HEADER && AllFit(max, payloads)
    ensures DeliversAnyCut(max, residue, payloads) <==> NoneEmpty(payloads)
  {
    if NoneEmpty(payloads) {
      PackedStream(max, payloads);
      forall chunks | Concat(chunks) == Concat(Packed(max, payloads))
        ensures FeedAll(max, residue, INITIAL, chunks).out == payloads
      {
        FromStart(max, residue, chunks);
      }
    } else {
      FramePerChunk(max, residue, payloads);
      FilterShorter(payloads);
    }
  }

  function WithoutEmpty(payloads: seq<bytes>): (r: seq<bytes>)
    ensures |r| <= |payloads|
  {
    if payloads == [] then [] else (if payloads[0] == [] then [] else [payloads[0]]) + WithoutEmpty(payloads[1..])
  }

  lemma {:induction false} FilterShorter(payloads: seq<bytes>)
    requires !NoneEmpty(payloads)
    ensures |WithoutEmpty(payloads)| < |payloads|
  {
    if payloads[0] != [] {
      var i :| 0 <= i < |payloads| && payloads[i] == [];
      assert payloads[1..][i - 1] == [];
      assert !NoneEmpty(payloads[1..]);
      FilterShorter(payloads[1..]);
    }
  }

  lemma FrameAlone(max: nat, residue: bytes, p: bytes)
    requires |p| <= max < WORD32 && |residue| == HEADER
    ensures Feed(max, residue, INITIAL, Pack(max, p)) == Fed(INITIAL, if p == [] then [] else [p], true)
  {
    var chunk := Pack(max, p);
    FirstFrame(max, p, []);
    assert chunk + [] == chunk;
    assert [] + chunk[..HEADER] == chunk[..HEADER];
    assert (chunk[..HEADER] + residue)[..HEADER] == chunk[..HEADER];
    if p != [] {
      assert INITIAL.Pending() + chunk == chunk;
      FeedRefines(max, residue, INITIAL, chunk);
    }
  }

  /** Cut frame by frame, an empty frame is swallowed: its header ends the chunk. */
  lemma {:induction false} FramePerChunk(max: nat, residue: bytes, payloads: seq<bytes>)
    requires max < WORD32 && |residue| == HEADER && AllFit(max, payloads)
    ensures FeedAll(max, residue, INITIAL, Packed(max, payloads)) == Fed(INITIAL, WithoutEmpty(payloads), true)
    decreases |payloads|
  {
    if payloads != [] {
      FrameAlone(max, residue, payloads[0]);
      FramePerChunk(max, residue, payloads[1..]);
    }
  }

  /** An empty frame whose header is cut in the middle leaves the parser in a state that is no longer clean. */
  lemma SplitEmptyHeaderIsNotClean(residue: bytes)
    requires |residue| == HEADER
    ensures FeedAll(9, residue, INITIAL, [[0, 0], [0, 0]]) == Fed(State([], 2, 0), [], true)
    ensures !State([], 2, 0).Clean()
  {
    HalvedHeader(0, residue);
  }

  /**
   Behind an oversize header, what is delivered depends on the cut: the rest of the chunk is dropped, the next is not.
   */
  lemma OversizeDependsOnTheCut(residue: bytes)
    requires |residue| == HEADER
    ensures var header, frame: bytes := [10, 0, 0, 0], Pack(9, [7]);
            && FeedAll(9, residue, INITIAL, [header + frame]) == Fed(INITIAL, [], false)
            && FeedAll(9, residue, INITIAL, [header, frame]) == Fed(INITIAL, [[7]], false)
  {
    hide Pack, Feed;
    var header, frame: bytes := [10, 0, 0, 0], Pack(9, [7]);
    FrameAlone(9, residue, [7]);
    assert header + [] == header;
    OversizeIsDropped(residue, frame);
    OversizeIsDropped(residue, []);
    assert [header + frame][1..] == [] && [header, frame][1..] == [frame] && [frame][1..] == [];
    assert FeedAll(9, residue, INITIAL, [frame]) == Fed(INITIAL, [[7]], true);
  }

  lemma OversizeIsDropped(residue: bytes, rest: bytes)
    requires |residue| == HEADER
    ensures Feed(9, residue, INITIAL, [10, 0, 0, 0] + rest) == Fed(INITIAL, [], false)
  {
    OneByteHeader(10, residue);
    var header: bytes := [10, 0, 0, 0];
    assert [] + (header + rest)[..HEADER] == header;
  }

  // ---- Prefixes of a sent stream ----

  /** How many of the payloads lie completely within the first `n` bytes of their packed stream. */
  function Completed(payloads: seq<bytes>, n: nat): (k: nat)
    ensures k <= |payloads|
  {
    if payloads == [] || n < HEADER + |payloads[0]| then 0
    else 1 + Completed(payloads[1..], n - HEADER - |payloads[0]|)
  }

  /** A prefix of a sent stream delivers exactly the payloads it completes, however it is cut. */
  lemma PrefixDelivers(max: nat, residue: bytes, payloads: seq<bytes>, n: nat, chunks: seq<bytes>)
    requires max < WORD32 && |residue| == HEADER && AllFit(max, payloads) && NoneEmpty(payloads)
    requires n <= |Concat(Packed(max, payloads))| && Concat(chunks) == Concat(Packed(max, payloads))[..n]
    ensures FeedAll(max, residue, INITIAL, chunks).out == payloads[..Completed(payloads, n)]
  {
    var stream := Concat(Packed(max, payloads));
    assert InLimit(max, stream[..n]) by {
      PackedStream(max, payloads);
      assert stream == stream[..n] + stream[n..];
      DeframeAppend(max, stream[..n], stream[n..]);
    }
    FromStart(max, residue, chunks);
    DeframePrefix(max, payloads, n);
  }

  lemma {:induction false} DeframePrefix(max: nat, payloads: seq<bytes>, n: nat)
    requires max < WORD32 && AllFit(max, payloads)
    requires n <= |Concat(Packed(max, payloads))|
    ensures Deframe(Concat(Packed(max, payloads))[..n]).0 == payloads[..Completed(payloads, n)]
    decreases |payloads|
  {
    hide Deframe, Pack, Concat, Packed;
    if payloads == [] {
      NothingPacked(max, n);
    } else {
      var p, others := payloads[0], payloads[1..];
      var rest := Concat(Packed(max, others));
      PackedCons(max, payloads);
      DeframeStep(max, p, rest, n);
      if n >= HEADER + |p| {
        DeframePrefix(max, others, n - HEADER - |p|);
        TakeCons(p, others, payloads, Completed(others, n - HEADER - |p|));
      }
    }
  }

  lemma NothingPacked(max: nat, n: nat)
    requires n <= |Concat(Packed(max, []))|
    ensures Deframe(Concat(Packed(max, []))[..n]).0 == []
  {
  }

  lemma PackedCons(max: nat, payloads: seq<bytes>)
    requires payloads != [] && |payloads[0]| <= max
    ensures var first, rest := Pack(max, payloads[0]), Concat(Packed(max, payloads[1..]));
            Concat(Packed(max, payloads)) == first + rest && |first + rest| == HEADER + |payloads[0]| + |rest|
  {
  }

  lemma TakeCons(p: bytes, others: seq<bytes>, payloads: seq<bytes>, k: nat)
    requires payloads == [p] + others && k <= |others|
    ensures payloads[..1 + k] == [p] + others[..k]
  {
  }

  lemma DeframeStep(max: nat, p: bytes, rest: bytes, n: nat)
    requires |p| <= max < WORD32
    requires n <= |Pack(max, p) + rest|
    ensures Deframe((Pack(max, p) + rest)[..n]).0
         == if n < HEADER + |p| then [] else [p] + Deframe(rest[..n - HEADER - |p|]).0
  {
    var s := Pack(max, p) + rest;
    FirstFrame(max, p, rest);
    if n >= HEADER {
      assert s[..n][..HEADER] == s[..HEADER];
      if n >= HEADER + |p| {
        assert s[..n][HEADER..HEADER + |p|] == s[HEADER..HEADER + |p|];
        assert s[..n][HEADER + |p|..] == s[HEADER + |p|..][..n - HEADER - |p|];
      }
    }
  }
}

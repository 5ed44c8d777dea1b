/** The length-prefixed framing of byte streams: `pack`, and the incremental parser `feed`/`feed_body`. */
module DataPacker {
  import opened Bytes

  const HEADER := 4

  /**
   The parser's three fields. `headerLenNow` is not cleared when a header completes, so while a body is awaited it keeps
   however many header bytes had come in earlier chunks.
   */
  datatype State = State(buffer: bytes, headerLenNow: nat, bodySize: nat) {
    ghost predicate Valid(max: nat) {
      && headerLenNow < HEADER
      && if bodySize == 0 then |buffer| <= headerLenNow else |buffer| < bodySize <= max
    }

    /** No zero-length frame has left a stale header count behind. */
    ghost predicate Clean() {
      bodySize == 0 ==> |buffer| == headerLenNow
    }

    /** The bytes of the frame in progress: all that later behaviour depends on while the state is clean. */
    ghost function Pending(): bytes
      requires bodySize < WORD32
    {
      if bodySize == 0 then buffer else LittleEndian(bodySize, HEADER) + buffer
    }
  }

  const INITIAL := State([], 0, 0)

  datatype Fed = Fed(state: State, out: seq<bytes>, ok: bool)

  /** `pack`: the low four bytes of the size, then the data; nothing at all when the data exceeds the limit. */
  function Pack(max: nat, data: bytes): bytes {
    if |data| > max then [] else LittleEndian(|data|, HEADER) + data
  }

  lemma PackedForm(max: nat, data: bytes)
    requires |data| <= max < WORD32
    ensures var s := Pack(max, data);
            && |s| == 4 + |data| && s[4..] == data && Number4(s[0], s[1], s[2], s[3]) == |data|
  {
    var s := Pack(max, data);
    Pow256Values();
    WordRoundTrip(|data|, HEADER);
    assert s[..4] == LittleEndian(|data|, HEADER);
    FourBytes(s[..4]);
  }

  /**
   The header word. `residue` is what memory holds behind a buffer that is shorter than its stale header count claims;
   its value is arbitrary.
   */
  function HeaderWord(buffer: bytes, residue: bytes): (n: nat)
    requires |residue| == HEADER
    ensures n < WORD32
  {
    FromLittleEndianBound((buffer + residue)[..HEADER]);
    Pow256Values();
    FromLittleEndian((buffer + residue)[..HEADER])
  }

  function Feed(max: nat, residue: bytes, st: State, data: bytes): (r: Fed)
    requires |residue| == HEADER && st.Valid(max)
    ensures r.state.Valid(max)
    decreases |data|, 1
  {
    if st.bodySize != 0 then
      FeedBody(max, residue, st, data).(ok := true)
    else if st.headerLenNow + |data| < HEADER then
      Fed(State(st.buffer + data, st.headerLenNow + |data|, 0), [], true)
    else
      var headerLen := HEADER - st.headerLenNow;
      var size := HeaderWord(st.buffer + data[..headerLen], residue);
      if size > max then Fed(INITIAL, [], false)
      else
        var waiting := State([], st.headerLenNow, size);
        if |data| == headerLen then Fed(waiting, [], true)
        else FeedBody(max, residue, waiting, data[headerLen..]).(ok := true)
  }

  function FeedBody(max: nat, residue: bytes, st: State, data: bytes): (r: Fed)
    requires |residue| == HEADER && st.Valid(max)
    requires st.bodySize == 0 ==> st.buffer == []
    ensures r.state.Valid(max)
    decreases |data|, if st.bodySize == 0 then 2 else 0
  {
    if |st.buffer| + |data| < st.bodySize then
      Fed(st.(buffer := st.buffer + data), [], true)
    else
      var need := st.bodySize - |st.buffer|;
      var frame := st.buffer + data[..need];
      if |data| == need then Fed(INITIAL, [frame], true)
      else
        var rest := Feed(max, residue, INITIAL, data[need..]);
        rest.(out := [frame] + rest.out)
  }

  // ---- The object ----

  class Packer {
    const max: nat
    const residue: bytes
    var buffer: bytes
    var headerLenNow: nat
    var bodySize: nat
    /** The payloads handed to `on_data`, in order. */
    var delivered: seq<bytes>

    function Now(): State
      reads this
    {
      State(buffer, headerLenNow, bodySize)
    }

    ghost predicate Valid()
      reads this
    {
      max < WORD32 && |residue| == HEADER && Now().Valid(max)
    }

    constructor (max: nat, residue: bytes)
      requires max < WORD32 && |residue| == HEADER
      ensures Valid() && Now() == INITIAL && delivered == []
      ensures this.max == max && this.residue == residue
    {
      this.max := max;
      this.residue := residue;
      buffer, headerLenNow, bodySize, delivered := [], 0, 0, [];
    }

    method PackData(data: bytes) returns (payload: bytes)
      ensures payload == Pack(max, data)
      ensures |data| <= max < 0x1_0000_0000 ==>
                && |payload| == 4 + |data| && payload[4..] == data
                && Number4(payload[0], payload[1], payload[2], payload[3]) == |data|
      ensures |data| > max ==> payload == []
    {
      if |data| <= max < WORD32 {
        PackedForm(max, data);
      }
      payload := [];
      if |data| > max {
        return;
      }
      payload := LittleEndian(|data|, HEADER) + payload;
      payload := payload + data;
    }

    method Reset()
      requires Valid()
      modifies this
      ensures Valid() && Now() == INITIAL && delivered == old(delivered)
    {
      buffer := [];
      headerLenNow := 0;
      bodySize := 0;
    }

    method FeedData(data: bytes) returns (ok: bool)
      requires Valid()
      modifies this
      ensures Valid()
      ensures var r := Feed(max, residue, old(Now()), data);
              Now() == r.state && delivered == old(delivered) + r.out && ok == r.ok
      decreases |data|, 1
    {
      if bodySize != 0 {
        FeedBodyData(data);
        return true;
      }
      if headerLenNow + |data| < HEADER {
        buffer := buffer + data;
        headerLenNow := headerLenNow + |data|;
        return true;
      }
      var headerLen := HEADER - headerLenNow;
      var bodyLen := |data| - headerLen;
      for i := 0 to headerLen
        invariant buffer == old(buffer) + data[..i]
        invariant headerLenNow == old(headerLenNow) && bodySize == 0 && delivered == old(delivered)
      {
        buffer := buffer + [data[i]];
      }
      bodySize := HeaderWord(buffer, residue);
      buffer := [];
      if bodySize > max {
        bodySize := 0;
        Reset();
        return false;
      }
      if bodyLen != 0 {
        FeedBodyData(data[headerLen..]);
      }
      ok := true;
    }

    method FeedBodyData(data: bytes)
      requires Valid()
      requires bodySize == 0 ==> buffer == []
      modifies this
      ensures Valid()
      ensures var r := FeedBody(max, residue, old(Now()), data);
              Now() == r.state && delivered == old(delivered) + r.out
      decreases |data|, if bodySize == 0 then 2 else 0
    {
      if |buffer| + |data| < bodySize {
        buffer := buffer + data;
      } else {
        var bodyNeed := bodySize - |buffer|;
        var bodyLeft := |data| - bodyNeed;
        buffer := buffer + data[..bodyNeed];
        delivered := delivered + [buffer];
        buffer, bodySize := [], 0;
        Reset();
        if bodyLeft != 0 {
          var _ := FeedData(data[bodyNeed..]);
        }
      }
    }
  }
}

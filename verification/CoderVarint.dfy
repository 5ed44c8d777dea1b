/** The alternative message coder, with the sequence number and the command length as varints. */
module CoderVarint {
  import opened Bytes
  import opened MsgWrapper
  import Varint

  /** C++ defines the decoder's shifts for at most this many bytes. */
  const MAX_VARINT := 10

  /** Reading can leave the payload's memory, which C++ does not define. */
  datatype Outcome = Undefined | Rejected | Accepted(msg: Msg)

  function Serialize(m: Msg): bytes {
    Varint.Encode(m.seqNo) + Varint.Encode(|m.cmd| % WORD32) + m.cmd + [m.mtype] + m.Body()
  }

  /** A payload is a string, so its memory ends in one readable zero byte. */
  function Memory(payload: bytes): bytes {
    payload + [0]
  }

  /** The two leading numbers, as 64-bit results of the varint reader, and where the command starts. */
  function Numbers(payload: bytes): Option<(nat, nat, nat)> {
    match Varint.Decode(Memory(payload))
    case None => None
    case Some((number, n)) =>
      if n > MAX_VARINT || n > |payload| then None
      else
        match Varint.Decode(Memory(payload)[n..])
        case None => None
        case Some((len, k)) => if k > MAX_VARINT then None else Some((number, len, n + k))
  }

  /** The fields behind the numbers. */
  function Fields(number: seqno, cmdLen: nat, rest: bytes): Outcome {
    if cmdLen + 1 > |rest| then Rejected
    else Accepted(Msg(number, rest[..cmdLen], rest[cmdLen], rest[cmdLen + 1..], None))
  }

  function Deserialize(payload: bytes): Outcome {
    match Numbers(payload)
    case None => Undefined
    case Some((number, len, p)) =>
      if p > |payload| then Rejected else Fields(number % WORD32, len % WORD32 % WORD16, payload[p..])
  }

  function Tail(m: Msg): bytes {
    m.cmd + [m.mtype] + m.Body()
  }

  lemma NumbersSurvive(m: Msg)
    ensures var len := |m.cmd| % WORD32;
            var p := |Varint.Encode(m.seqNo)| + |Varint.Encode(len)|;
            && Numbers(Serialize(m)) == Some((Varint.Survivor(m.seqNo), Varint.Survivor(len), p))
            && p <= |Serialize(m)| && Serialize(m)[p..] == Tail(m)
  {
    hide Varint.Encode, Varint.Survivor, Varint.Groups;
    var len := |m.cmd| % WORD32;
    var first, second, rest := Varint.Encode(m.seqNo), Varint.Encode(len), Tail(m) + [0];
    assert Serialize(m) == first + second + Tail(m);
    assert Memory(Serialize(m)) == first + (second + rest);
    assert (first + (second + rest))[|first|..] == second + rest;
    Varint.DecodeEncode(m.seqNo, second + rest);
    Varint.DecodeEncode(len, rest);
    Varint.Encode32Length(m.seqNo);
    Varint.Encode32Length(len);
  }

  /**
   What the decoder makes of a coded message: both numbers lose their high bits, and the fields are cut accordingly.
   */
  lemma DeserializeSerialize(m: Msg)
    ensures Deserialize(Serialize(m))
      == Fields(Varint.Survivor(m.seqNo), Varint.Survivor(|m.cmd| % WORD32) % WORD16, Tail(m))
  {
    NumbersSurvive(m);
    DeserializeFields(Serialize(m));
  }

  lemma DeserializeFields(payload: bytes)
    requires Numbers(payload).Some?
    requires Numbers(payload).value.0 < WORD32 && Numbers(payload).value.1 < WORD32
    requires Numbers(payload).value.2 <= |payload|
    ensures var (number, len, p) := Numbers(payload).value;
            Deserialize(payload) == Fields(number, len % WORD16, payload[p..])
  {
    hide Numbers, Fields;
  }

  /** A message survives exactly when both numbers do and the command is shorter than 65536 bytes. */
  lemma RoundTripExactly(m: Msg)
    ensures Deserialize(Serialize(m)) == Accepted(m.Received())
       <==> Varint.Safe(m.seqNo) && Varint.Safe(|m.cmd|) && |m.cmd| < WORD16
  {
    hide Deserialize, Serialize, Fields, Tail, Varint.Safe, Varint.Survivor;
    DeserializeSerialize(m);
    Varint.SurvivorExactly(m.seqNo);
    Varint.SurvivorExactly(|m.cmd| % WORD32);
    FieldsExactly(m, Varint.Survivor(m.seqNo), Varint.Survivor(|m.cmd| % WORD32) % WORD16);
  }

  lemma FieldsExactly(m: Msg, number: seqno, cut: nat)
    ensures Fields(number, cut, Tail(m)) == Accepted(m.Received()) <==> number == m.seqNo && cut == |m.cmd|
  {
    var t := Tail(m);
    if cut == |m.cmd| {
      assert t[..cut] == m.cmd;
      assert t[cut + 1..] == m.Body();
    } else if cut + 1 <= |t| {
      assert |t[..cut]| == cut;
    }
  }

  /**
   The layout on safe messages: number and command length in LEB128, the command, the type, and then the request's
   payload if there is one and the message's data if not.
   */
  ghost predicate LaidOut(m: Msg, payload: bytes) {
    var head := Varint.Leb128(m.seqNo) + Varint.Leb128(|m.cmd|) + m.cmd + [m.mtype];
    && (m.requestPayload.Some? ==> payload == head + m.requestPayload.value)
    && (m.requestPayload.None? ==> payload == head + m.data)
  }

  lemma SerializeLaysOut(m: Msg)
    requires Varint.Safe(m.seqNo) && Varint.Safe(|m.cmd|) && |m.cmd| < 65536
    ensures LaidOut(m, Serialize(m))
  {
    hide Varint.Encode, Varint.Leb128, Varint.Safe;
    Varint.WritesLeb128Exactly(m.seqNo);
    Varint.WritesLeb128Exactly(|m.cmd|);
  }

  /** What is laid out like this, as any LEB128 writer would, is read back on all messages with short commands. */
  lemma LaidOutIsRead(m: Msg, payload: bytes)
    requires LaidOut(m, payload) && |m.cmd| < 65536
    ensures var r := Deserialize(payload);
            && r.Accepted? && r.msg.seqNo == m.seqNo && r.msg.cmd == m.cmd && r.msg.mtype == m.mtype
            && r.msg.data == (if m.requestPayload.Some? then m.requestPayload.value else m.data)
            && r.msg.requestPayload == None
  {
    hide Varint.Leb128, Fields, Numbers;
    var body := if m.requestPayload.Some? then m.requestPayload.value else m.data;
    var first, second, tail := Varint.Leb128(m.seqNo), Varint.Leb128(|m.cmd|), m.cmd + [m.mtype] + body;
    assert payload == first + second + tail;
    LebNumbers(m.seqNo, |m.cmd|, tail);
    assert payload[|first| + |second|..] == tail;
    DeserializeFields(payload);
    TailFields(m.seqNo, m.cmd, m.mtype, body);
  }

  lemma TailFields(number: seqno, cmd: bytes, mtype: byte, body: bytes)
    ensures Fields(number, |cmd|, cmd + [mtype] + body) == Accepted(Msg(number, cmd, mtype, body, None))
  {
    var t := cmd + [mtype] + body;
    assert t[..|cmd|] == cmd && t[|cmd| + 1..] == body;
  }

  lemma LebNumbers(a: seqno, b: nat, tail: bytes)
    requires b < 65536
    ensures var first, second := Varint.Leb128(a), Varint.Leb128(b);
            Numbers(first + second + tail) == Some((a, b, |first| + |second|))
  {
    hide Varint.Leb128;
    var first, second, rest := Varint.Leb128(a), Varint.Leb128(b), tail + [0];
    assert Memory(first + second + tail) == first + (second + rest);
    assert (first + (second + rest))[|first|..] == second + rest;
    Varint.DecodesEveryLeb128(a, second + rest);
    Varint.DecodesEveryLeb128(b, rest);
    assert Varint.Pow128(4) == 0x1000_0000 && Varint.Pow128(5) == 0x8_0000_0000;
    Varint.LebLength(a, 5);
    Varint.LebLength(b, 5);
  }

  method SerializeMsg(m: Msg) returns (payload: bytes)
    ensures payload == Serialize(m)
    ensures Varint.Safe(m.seqNo) && Varint.Safe(|m.cmd|) && |m.cmd| < 65536 ==> LaidOut(m, payload)
  {
    hide LaidOut, Varint.Encode, Varint.Continues, Varint.Safe, Varint.Leb128;
    if Varint.Safe(m.seqNo) && Varint.Safe(|m.cmd|) && |m.cmd| < 65536 {
      SerializeLaysOut(m);
    }
    var vSeq := Varint.ToVarint(m.seqNo);
    var vCmdLen := Varint.ToVarint(|m.cmd| % WORD32);
    payload := [];
    payload := payload + vSeq;
    payload := payload + vCmdLen;
    payload := payload + m.cmd;
    payload := payload + [m.mtype];
    if m.requestPayload.Some? {
      payload := payload + m.requestPayload.value;
    } else {
      payload := payload + m.data;
    }
  }

  method ReadNumbers(payload: bytes) returns (number: seqno, cmdLen: nat, p: nat)
    requires Numbers(payload).Some?
    ensures number == Numbers(payload).value.0 % WORD32
    ensures cmdLen == Numbers(payload).value.1 % WORD32 % WORD16
    ensures p == Numbers(payload).value.2
  {
    var memory := Memory(payload);
    var first, n := Varint.VarintDecode(memory);
    number := first % WORD32;
    NarrowWord(Numbers(payload).value.0);
    p := n;
    var len, k := Varint.VarintDecode(memory[p..]);
    cmdLen := len % WORD32 % WORD16;
    NarrowWord(Numbers(payload).value.1);
    p := p + k;
  }

  lemma NarrowWord(n: nat)
    ensures n % WORD64 % WORD32 == n % WORD32
  {
  }

  method DeserializeMsg(payload: bytes) returns (ok: bool, msg: Msg)
    requires !Deserialize(payload).Undefined?
    ensures ok == Deserialize(payload).Accepted?
    ensures ok ==> msg == Deserialize(payload).msg
  {
    var number, cmdLen, p := ReadNumbers(payload);
    msg := Msg(number, [], 0, [], None);
    if p + cmdLen + 1 > |payload| {
      return false, msg;
    }
    FieldsAt(payload, p, cmdLen, msg.seqNo);
    msg := msg.(cmd := payload[p..p + cmdLen]);
    p := p + cmdLen;
    msg := msg.(mtype := payload[p]);
    p := p + 1;
    msg := msg.(data := payload[p..]);
    ok := true;
  }

  /** Walking the payload by position and splitting its tail are the same. */
  lemma FieldsAt(payload: bytes, p: nat, cmdLen: nat, number: seqno)
    requires p + cmdLen + 1 <= |payload|
    ensures Fields(number, cmdLen, payload[p..])
         == Accepted(Msg(number, payload[p..p + cmdLen], payload[p + cmdLen], payload[p + cmdLen + 1..], None))
  {
    assert payload[p..][..cmdLen] == payload[p..p + cmdLen];
    assert payload[p..][cmdLen + 1..] == payload[p + cmdLen + 1..];
  }
}

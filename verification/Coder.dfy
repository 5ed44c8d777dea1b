/** The fixed-width message coder: sequence number, command length, command, type byte, body. */
module Coder {
  import opened Bytes
  import opened MsgWrapper

  const PAYLOAD_MIN_LEN := 7

  /** The command length is cast to 16 bits before it is written and before the command is copied. */
  function SentCmd(cmd: bytes): bytes {
    cmd[..|cmd| % WORD16]
  }

  function Serialize(m: Msg): (payload: bytes)
    ensures |payload| == PAYLOAD_MIN_LEN + |SentCmd(m.cmd)| + |m.Body()|
  {
    LittleEndian(m.seqNo, 4) + LittleEndian(|m.cmd| % WORD16, 2) + SentCmd(m.cmd) + [m.mtype] + m.Body()
  }

  /** The 16-bit command length embedded in a payload. */
  function EmbeddedLength(payload: bytes): nat
    requires |payload| >= PAYLOAD_MIN_LEN
  {
    FromLittleEndian(payload[4..6])
  }

  function Deserialize(payload: bytes): Option<Msg> {
    if |payload| < PAYLOAD_MIN_LEN then None
    else
      var cmdLen := EmbeddedLength(payload);
      if 6 + cmdLen + 1 > |payload| then None
      else
        SeqInRange(payload);
        Some(Msg(FromLittleEndian(payload[..4]), payload[6..6 + cmdLen], payload[6 + cmdLen], payload[7 + cmdLen..],
          None))
  }

  lemma SeqInRange(payload: bytes)
    requires |payload| >= 4
    ensures FromLittleEndian(payload[..4]) < WORD32
  {
    FromLittleEndianBound(payload[..4]);
    Pow256Values();
  }

  /** What arrives when `m` is sent: the command is cut to its first `length mod 65536` bytes, nothing else changes. */
  function Wire(m: Msg): Msg {
    m.Received().(cmd := SentCmd(m.cmd))
  }

  lemma DeserializeSerialize(m: Msg)
    ensures Deserialize(Serialize(m)) == Some(Wire(m))
  {
    var p := Serialize(m);
    var n := |m.cmd| % WORD16;
    Pow256Values();
    WordRoundTrip(m.seqNo, 4);
    WordRoundTrip(n, 2);
    assert p[..4] == LittleEndian(m.seqNo, 4);
    assert p[4..6] == LittleEndian(n, 2);
    assert p[6..6 + n] == SentCmd(m.cmd);
    assert p[7 + n..] == m.Body();
  }

  /** A message survives exactly when its command is shorter than 65536 bytes. */
  lemma RoundTripExactly(m: Msg)
    ensures Deserialize(Serialize(m)) == Some(m.Received()) <==> |m.cmd| < WORD16
  {
    DeserializeSerialize(m);
    if |m.cmd| < WORD16 {
      assert SentCmd(m.cmd) == m.cmd;
    } else {
      assert |SentCmd(m.cmd)| < |m.cmd|;
    }
  }

  /** The other direction: what is accepted is the coding of the message it is read as, byte for byte. */
  lemma SerializeDeserialize(payload: bytes)
    ensures Deserialize(payload).Some?
      <==> |payload| >= PAYLOAD_MIN_LEN && |payload| >= PAYLOAD_MIN_LEN + EmbeddedLength(payload)
    ensures Deserialize(payload).Some? ==> Serialize(Deserialize(payload).value) == payload
  {
    if Deserialize(payload).Some? {
      var n := EmbeddedLength(payload);
      FromLittleEndianBound(payload[4..6]);
      Pow256Values();
      BytesRoundTrip(payload[..4]);
      BytesRoundTrip(payload[4..6]);
      Rejoin(payload, n);
      assert SentCmd(payload[6..6 + n]) == payload[6..6 + n];
    }
  }

  lemma Rejoin(payload: bytes, n: nat)
    requires 7 + n <= |payload|
    ensures payload == payload[..4] + payload[4..6] + payload[6..6 + n] + [payload[6 + n]] + payload[7 + n..]
  {
  }

  // ---- The bytes, in numbers ----

  /**
   The layout of a coded message: four bytes of number, two of command length, the command's first bytes, the type, and
   then the request's payload if there is one and the message's data if not.
   */
  ghost predicate LaidOut(m: Msg, payload: bytes) {
    var n := |m.cmd| % 65536;
    && |payload| >= 7 + n
    && Number4(payload[0], payload[1], payload[2], payload[3]) == m.seqNo && Number2(payload[4], payload[5]) == n
    && payload[6..6 + n] == m.cmd[..n]
    && payload[6 + n] == m.mtype
    && (m.requestPayload.Some? ==> payload[7 + n..] == m.requestPayload.value)
    && (m.requestPayload.None? ==> payload[7 + n..] == m.data)
  }

  lemma SerializeLaysOut(m: Msg)
    ensures LaidOut(m, Serialize(m))
  {
    var p, n := Serialize(m), |m.cmd| % WORD16;
    Pow256Values();
    WordRoundTrip(m.seqNo, 4);
    WordRoundTrip(n, 2);
    FourBytes(p[..4]);
    TwoBytes(p[4..6]);
    assert p[..4] == LittleEndian(m.seqNo, 4);
    assert p[4..6] == LittleEndian(n, 2);
    assert p[6..6 + n] == SentCmd(m.cmd);
    assert p[7 + n..] == m.Body();
  }

  /**
   What is laid out like this is accepted and read as the same number, type and content, whatever `data` else holds.
   */
  lemma LaidOutIsRead(m: Msg, payload: bytes)
    requires LaidOut(m, payload) && |m.cmd| < 65536
    ensures var r := Deserialize(payload);
            && r.Some? && r.value.seqNo == m.seqNo && r.value.cmd == m.cmd && r.value.mtype == m.mtype
            && r.value.data == (if m.requestPayload.Some? then m.requestPayload.value else m.data)
            && r.value.requestPayload == None
  {
    FourBytes(payload[..4]);
    TwoBytes(payload[4..6]);
  }

  // ---- The coder's own steps ----

  method SerializeMsg(m: Msg) returns (payload: bytes)
    ensures payload == Serialize(m) && LaidOut(m, payload)
  {
    hide LaidOut;
    SerializeLaysOut(m);
    payload := [];
    payload := payload + LittleEndian(m.seqNo, 4);
    var cmdLen := |m.cmd| % WORD16;
    payload := payload + LittleEndian(cmdLen, 2);
    payload := payload + m.cmd[..cmdLen];
    payload := payload + [m.mtype];
    if m.requestPayload.Some? {
      payload := payload + m.requestPayload.value;
    } else {
      payload := payload + m.data;
    }
  }

  method DeserializeMsg(payload: bytes) returns (ok: bool, msg: Msg)
    ensures ok == Deserialize(payload).Some?
    ensures ok ==> msg == Deserialize(payload).value
  {
    msg := Msg(0, [], 0, [], None);
    if |payload| < PAYLOAD_MIN_LEN {
      return false, msg;
    }
    var p := 0;
    SeqInRange(payload);
    msg := msg.(seqNo := FromLittleEndian(payload[p..p + 4]));
    p := p + 4;
    var cmdLen := FromLittleEndian(payload[p..p + 2]);
    p := p + 2;
    if p + cmdLen + 1 > |payload| {
      return false, msg;
    }
    msg := msg.(cmd := payload[p..p + cmdLen]);
    p := p + cmdLen;
    msg := msg.(mtype := payload[p]);
    p := p + 1;
    msg := msg.(data := payload[p..]);
    ok := true;
  }
}

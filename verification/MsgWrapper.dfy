/** The message record that travels between dispatchers, and the bits of its type byte. */
module MsgWrapper {
  import opened Bytes

  type seqno = n: int | 0 <= n < WORD32

  const COMMAND: byte := 1
  const RESPONSE: byte := 2
  const NEED_RSP: byte := 4
  const PING: byte := 8
  const PONG: byte := 16
  const NO_SUCH_CMD: byte := 32

  /** `mtype & bit` for a one-bit mask. */
  predicate Has(mtype: byte, bit: byte)
    requires bit > 0
  {
    (mtype / bit) % 2 == 1
  }

  /** A request's message points at its payload; every other message carries `data`. */
  datatype Msg = Msg(seqNo: seqno, cmd: bytes, mtype: byte, data: bytes, requestPayload: Option<bytes>) {
    function Body(): bytes {
      match requestPayload
      case Some(payload) => payload
      case None => data
    }

    /** The message a faithful transport delivers: same contents, held in `data`. */
    function Received(): Msg {
      Msg(seqNo, cmd, mtype, Body(), None)
    }
  }
}

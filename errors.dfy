/** The errors `Net::WS` raises, with the message text each one carries. */
module Errors {
  import opened Text
  import opened Http

  datatype WSError =
    | HandshakeMismatch(response: Response)  // the accept value did not match; carries the reply
    | NotHandshaked                          // send or receive before the handshake completed
    | UnmaskedData                           // server role received an unmasked frame
    | BinaryUnsupported                      // opcode 2
    | PingUnsupported                        // opcode 9
    | UnknownOpcode(opcode: nat)             // any opcode without a case
    | ClosedStream                           // Ruby's IOError when the socket is already closed
    | LengthOutOfRange                       // Ruby's RangeError: a `read` length beyond a signed 64-bit integer

  const UnknownOpcodePrefix: string := "received unknown opcode: "

  function Message(e: WSError): string
  {
    match e
    case HandshakeMismatch(_) => "Sec-Websocket-Accept missmatch"
    case NotHandshaked => "call WebSocket#handshake first"
    case UnmaskedData => "received unmasked data"
    case BinaryUnsupported => "received binary data, which is not supported"
    case PingUnsupported => "received ping, which is not supported"
    case UnknownOpcode(op) => UnknownOpcodePrefix + Decimal(op)
    case ClosedStream => "closed stream"
    case LengthOutOfRange => "bignum too big to convert into `long'"
  }

  /** The unknown-opcode message names the opcode: the text after the prefix reads back as it. */
  lemma UnknownOpcodeNamed(opcode: nat)
    ensures var m := Message(UnknownOpcode(opcode));
      |m| > |UnknownOpcodePrefix| && m[..|UnknownOpcodePrefix|] == UnknownOpcodePrefix &&
      (forall i :: |UnknownOpcodePrefix| <= i < |m| ==> IsDigit(m[i])) &&
      ParseDecimal(m[|UnknownOpcodePrefix|..]) == opcode
  {
    var m := Message(UnknownOpcode(opcode));
    assert m[|UnknownOpcodePrefix|..] == Decimal(opcode);
    ParseDecimalOfDecimal(opcode);
  }
}

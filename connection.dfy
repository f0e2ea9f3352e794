/**
  The `Net::WS` object: a socket read through a cursor, the writes made to it, and the
  handshake, role and closed state. The socket's incoming octets are the sequence `input`;
  `pos` is how far reading has got; every `write` call appends its data to `writes`.
 */
module Connection {
  import opened Wrappers
  import opened Bytes
  import opened Text
  import opened Http
  import opened Errors
  import opened HixieKey
  import opened Frames

  /** Who started a close: the peer (a close frame) or this side. */
  datatype Origin = Peer | Local

  datatype CloseRecord = CloseRecord(code: nat, reason: string, origin: Origin)

  /**
    Why a read got fewer octets than it asked for: Ruby's EOFError, IOError on a closed
    socket, or RangeError for a length beyond a signed 64-bit integer.
   */
  datatype ReadFailure = EndOfStream | StreamClosed | LengthTooLarge

  /** `write_byte`: one octet appended to the frame buffer (`pack("C")` of a value below 256). */
  function WriteByte(buffer: seq<byte>, b: byte): (r: seq<byte>)
    ensures |r| == |buffer| + 1 && r[..|buffer|] == buffer && r[|buffer|] == b
  {
    buffer + [b]
  }

  class WS {
    /** `@server`: the role, fixed when the object is made. */
    const server: bool
    /** Every octet the peer sends on the socket, in order. */
    const input: seq<byte>
    /** How many octets of `input` have been read. */
    var pos: nat
    /** The data of each `write` call on the socket, in order. */
    var writes: seq<seq<byte>>
    /** `@handshaked` */
    var handshaked: bool
    /** Whether the socket has been closed. */
    var closed: bool
    /** The code, reason and origin recorded by `close`. */
    var closeRecord: Option<CloseRecord>

    ghost predicate Valid()
      reads this
    {
      pos <= |input|
    }

    /** A connection object before its handshake: nothing read, nothing written, not handshaked. */
    constructor (server: bool, input: seq<byte>)
      ensures Valid() && this.server == server && this.input == input
      ensures pos == 0 && writes == [] && !handshaked && !closed && closeRecord == None
    {
      this.server := server;
      this.input := input;
      pos := 0;
      writes := [];
      handshaked := false;
      closed := false;
      closeRecord := None;
    }

    /**
      The check at the end of `initialize`: `@handshaked` is set exactly when the reply's
      accept value equals the digest of the key; otherwise the handshake error carries the
      reply and nothing changes.
     */
    method Handshake(key: string, response: Response, encodedSha1: string -> string) returns (o: Outcome<WSError>)
      modifies this`handshaked
      ensures o.Pass? <==> Accepts(response, encodedSha1, key)
      ensures o.Pass? ==> handshaked
      ensures o.Fail? ==> o.error == HandshakeMismatch(response) && handshaked == old(handshaked)
    {
      var expected := SecurityDigest(encodedSha1, key);
      if AcceptHeader !in response.headers || response.headers[AcceptHeader] != expected {
        return Fail(HandshakeMismatch(response));
      }
      handshaked := true;
      return Pass;
    }

    /**
      `initialize`: generate the key, send the upgrade request for `uri` (the server's
      reply is `respond` applied to it), and hand back a handshaked connection only if the
      reply's accept value matches the key's digest.
     */
    static method Open(uri: Uri, server: bool, input: seq<byte>, respond: Request -> Response,
                       encode64: string -> string, encodedSha1: string -> string,
                       spaces: nat, number: nat, noise: seq<NoiseDraw>, spaceDraws: seq<nat>)
      returns (r: Result<WS, WSError>)
      requires ValidDraws(spaces, number, noise, spaceDraws)
      ensures var key := Chop(encode64(KeyMaterial(spaces, number, noise, spaceDraws)));
        var response := respond(HandshakeRequest(uri, key));
        (r.Success? <==> Accepts(response, encodedSha1, key)) &&
        (r.Failure? ==> r.error == HandshakeMismatch(response))
      ensures r.Success? ==>
        fresh(r.value) && r.value.Valid() && r.value.handshaked &&
        r.value.server == server && r.value.input == input &&
        r.value.pos == 0 && r.value.writes == [] && !r.value.closed && r.value.closeRecord == None
    {
      var key := GenerateKey(encode64, spaces, number, noise, spaceDraws);
      var response := respond(HandshakeRequest(uri, key));
      var ws := new WS(server, input);
      var o := ws.Handshake(key, response, encodedSha1);
      if o.Fail? {
        return Failure(o.error);
      }
      return Success(ws);
    }

    /** `close(code, reason, origin)`: closes the socket and records why. */
    method Close(code: nat, reason: string, origin: Origin)
      modifies this`closed, this`closeRecord
      ensures closed && closeRecord == Some(CloseRecord(code, reason, origin))
    {
      closed := true;
      closeRecord := Some(CloseRecord(code, reason, origin));
    }

    /**
      `read(n)`: exactly `n` octets, or a failure. `IO#read` first converts `n` to a
      signed 64-bit integer, so a length of 2^63 or more fails before anything else and
      reads nothing. A short read consumes what is left of the stream; a closed socket
      reads nothing.
     */
    method Read(n: nat) returns (r: Result<seq<byte>, ReadFailure>)
      requires Valid()
      modifies this`pos
      ensures Valid()
      ensures n >= MaxPayload ==> r == Failure(LengthTooLarge) && pos == old(pos)
      ensures n < MaxPayload && closed ==> r == Failure(StreamClosed) && pos == old(pos)
      ensures n < MaxPayload && !closed && old(pos) + n <= |input| ==>
        r == Success(input[old(pos)..old(pos) + n]) && pos == old(pos) + n
      ensures n < MaxPayload && !closed && old(pos) + n > |input| ==> r == Failure(EndOfStream) && pos == |input|
    {
      if n >= MaxPayload {
        return Failure(LengthTooLarge);
      }
      if closed {
        return Failure(StreamClosed);
      }
      if pos + n <= |input| {
        r := Success(input[pos..pos + n]);
        pos := pos + n;
      } else {
        pos := |input|;
        r := Failure(EndOfStream);
      }
    }

    /** `write(data)`: one write call on the socket. */
    method Write(data: seq<byte>) returns (o: Outcome<WSError>)
      modifies this`writes
      ensures closed ==> o == Fail(ClosedStream) && writes == old(writes)
      ensures !closed ==> o == Pass && writes == old(writes) + [data]
    {
      if closed {
        return Fail(ClosedStream);
      }
      writes := writes + [data];
      return Pass;
    }

    /**
      `send_frame(opcode, payload, mask)`: builds the frame in a buffer octet by octet and
      writes it in a single call. `maskKey` holds the four random key octets when masking.
     */
    method SendFrame(opcode: Opcode, payload: seq<byte>, maskKey: Option<MaskKey>) returns (o: Outcome<WSError>)
      requires |payload| < MaxPayload
      modifies this`writes
      ensures closed ==> o == Fail(ClosedStream) && writes == old(writes)
      ensures !closed ==> o == Pass && writes == old(writes) + [EncodeFrame(opcode, payload, maskKey)]
    {
      var buffer := WriteHeader(opcode, maskKey.Some?, |payload|);
      ghost var header := buffer;
      var body := payload;
      if maskKey.Some? {
        buffer := buffer + maskKey.value;
        body := ApplyMask(payload, maskKey.value);
      }
      buffer := buffer + body;
      assert buffer == header + FrameBody(payload, maskKey);
      o := Write(buffer);
    }

    /** The first octet and the length field of `send_frame`, written octet by octet. */
    static method WriteHeader(opcode: Opcode, masked: bool, len: nat) returns (buffer: seq<byte>)
      requires len < MaxPayload
      ensures buffer == [0x80 | Octet(opcode)] + LengthField(masked, len)
    {
      Pow256Widths();
      var first: byte := 0x80 | Octet(opcode);
      buffer := [];
      buffer := WriteByte(buffer, first);
      var maskedByte: byte := if masked then 0x80 else 0x00;
      if len <= 125 {
        buffer := WriteByte(buffer, maskedByte | Octet(len));
        assert buffer == [first] + [maskedByte | Octet(len)];
      } else if len < 0x1_0000 {
        buffer := WriteByte(buffer, maskedByte | 126);
        buffer := buffer + BigEndian(len, 2);
        assert buffer == [first] + ([maskedByte | 126] + BigEndian(len, 2));
      } else {
        var high, low := BigEndian(len / Two32, 4), BigEndian(len % Two32, 4);
        buffer := WriteByte(buffer, maskedByte | 127);
        buffer := buffer + high + low;
        assert buffer == [first] + ([maskedByte | 127] + high + low);
      }
    }

    /**
      `send(data)`: before the handshake it raises and writes nothing; afterwards it writes
      one unmasked text frame holding `data`.
     */
    method Send(data: seq<byte>) returns (o: Outcome<WSError>)
      requires |data| < MaxPayload
      modifies this`writes
      ensures !handshaked ==> o == Fail(NotHandshaked) && writes == old(writes)
      ensures handshaked && closed ==> o == Fail(ClosedStream) && writes == old(writes)
      ensures handshaked && !closed ==> o == Pass && writes == old(writes) + [EncodeFrame(OpcodeText, data, None)]
    {
      if !handshaked {
        return Fail(NotHandshaked);
      }
      o := SendFrame(OpcodeText, data, None);
    }

    /**
      The extended payload length of `receive`: none for a 7-bit length `code` up to 125,
      a 16-bit length after 126, two 32-bit halves after 127. It reads as `ReadLength` says.
     */
    method ReadLengthField(code: nat) returns (r: Option<nat>)
      requires Valid() && !closed
      modifies this`pos
      ensures Valid()
      ensures var want := ReadLength(input, old(pos), code);
        (want.None? ==> r.None? && pos == |input|) &&
        (want.Some? ==> r == Some(want.value.0) && pos == want.value.1)
    {
      if code == 126 {
        var ext := Read(2);
        if ext.Failure? {
          return None;
        }
        return Some(FromBigEndian(ext.value));
      } else if code == 127 {
        var ext := Read(8);
        if ext.Failure? {
          return None;
        }
        assert ext.value[..4] == input[old(pos)..old(pos) + 4];
        assert ext.value[4..] == input[old(pos) + 4..old(pos) + 8];
        var high, low := FromBigEndian(ext.value[..4]), FromBigEndian(ext.value[4..]);
        return Some(high * Two32 + low);
      }
      return Some(code);
    }

    /**
      The rest of a frame after its length: in server role an unmasked frame stops here;
      otherwise the mask key when the mask bit is set, then `len` payload octets, unmasked.
     */
    method ReadFrameBody(b0: byte, masked: bool, len: nat) returns (r: Parse)
      requires Valid() && !closed
      modifies this`pos
      ensures Valid()
      ensures r == ParseBody(server, input, b0, masked, len, old(pos))
      ensures pos == After(r, |input|)
    {
      if server && !masked {
        return Unmasked(pos);
      }
      var maskKey: Option<MaskKey> := None;
      if masked {
        var k := Read(4);
        if k.Failure? {
          return Truncated;
        }
        maskKey := Some(k.value);
      }
      r := ReadPayload(b0, maskKey, len);
    }

    /** `read(plength)` and the unmasking of the payload with the key read before it, if any. */
    method ReadPayload(b0: byte, maskKey: Option<MaskKey>, len: nat) returns (r: Parse)
      requires Valid() && !closed
      modifies this`pos
      ensures Valid()
      ensures r == PayloadAt(input, b0, maskKey, len, old(pos))
      ensures pos == After(r, |input|)
    {
      var body := Read(len);
      if body.Failure? {
        if body.error == LengthTooLarge {
          return Oversized(pos);
        }
        return Truncated;
      }
      var payload := body.value;
      if maskKey.Some? {
        payload := ApplyMask(payload, maskKey.value);
      }
      return Parsed(Frame(b0 & 0x80 != 0, (b0 & 0x0f) as nat, maskKey, payload), pos);
    }

    /** The reads of `receive` before its opcode dispatch: one frame, as `ParseFrame` says. */
    method ReadFrame() returns (r: Parse)
      requires Valid() && !closed
      modifies this`pos
      ensures Valid()
      ensures r == ParseFrame(server, input, old(pos))
      ensures pos == After(r, |input|)
    {
      var head := Read(2);
      if head.Failure? {
        return Truncated;
      }
      var bytes := head.value;
      r := ReadAfterHead(bytes[0], bytes[1]);
    }

    /** The reads of `receive` after the first two octets: the length field, then the body. */
    method ReadAfterHead(b0: byte, b1: byte) returns (r: Parse)
      requires Valid() && !closed
      modifies this`pos
      ensures Valid()
      ensures r == ParseAfterHead(server, input, b0, b1, old(pos))
      ensures pos == After(r, |input|)
    {
      var mask := b1 & 0x80 != 0;
      var len := ReadLengthField((b1 & 0x7f) as nat);
      if len.None? {
        return Truncated;
      }
      r := ReadFrameBody(b0, mask, len.value);
    }

    /**
      `receive`: reads one frame and acts on its opcode, as `ReceiveStep` describes. The
      read position, the closed flag and the close record change as that step says, and
      nothing else does.
     */
    method Receive() returns (r: Result<Option<seq<byte>>, WSError>)
      requires Valid()
      modifies this`pos, this`closed, this`closeRecord
      ensures Valid()
      ensures var st := ReceiveStep(old(handshaked), old(closed), server, input, old(pos));
        r == st.result && pos == st.next &&
        closed == (old(closed) || st.effect != NoEffect) &&
        closeRecord == (if st.effect == ClosedByPeer then Some(CloseRecord(CloseNoStatus, "", Peer)) else old(closeRecord))
    {
      if !handshaked {
        return Failure(NotHandshaked);
      }
      if closed {
        // the first read raises IOError on a closed socket
        var head := Read(2);
        assert head == Failure(StreamClosed);
        return Failure(ClosedStream);
      }
      var frame := ReadFrame();
      match frame
      case Truncated =>
        return Success(None);
      case Unmasked(_) =>
        closed := true;
        return Failure(UnmaskedData);
      case Oversized(_) =>
        return Failure(LengthOutOfRange);
      case Parsed(f, _) =>
        if f.opcode == OpcodeText {
          return Success(Some(f.payload));
        } else if f.opcode == OpcodeBinary {
          return Failure(BinaryUnsupported);
        } else if f.opcode == OpcodeClose {
          Close(CloseNoStatus, "", Peer);
          return Success(None);
        } else if f.opcode == OpcodePing {
          return Failure(PingUnsupported);
        } else if f.opcode == OpcodePong {
          return Success(None);
        } else {
          return Failure(UnknownOpcode(f.opcode));
        }
    }
  }
}

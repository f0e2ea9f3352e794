/**
  The base framing of section 5.2 of RFC 6455 as `Net::WS` writes and reads it: the
  encoder of `send_frame`, the parser and opcode dispatch of `receive`, and the lemmas
  that tie them together. The connection class in module Connection runs the same steps
  on its socket state and is proved equal to these functions.
 */
module Frames {
  import opened Wrappers
  import opened Bytes
  import opened Errors

  const OpcodeContinuation: nat := 0x00
  const OpcodeText: nat := 0x01
  const OpcodeBinary: nat := 0x02
  const OpcodeClose: nat := 0x08
  const OpcodePing: nat := 0x09
  const OpcodePong: nat := 0x0a

  /** An opcode fits the four low bits of the first octet. */
  type Opcode = n: nat | n < 16

  const Two32: nat := 0x1_0000_0000

  /** A Ruby String's `bytesize` is a signed 64-bit integer, so every payload is shorter than 2^63. */
  const MaxPayload: nat := 0x8000_0000_0000_0000

  /** Close status 1005, "no status code present" (section 7.4.1 of RFC 6455). */
  const CloseNoStatus: nat := 1005

  // ---------------------------------------------------------------- encoding

  /** The octets after the first one that carry the mask bit and the payload length. */
  function LengthField(masked: bool, len: nat): (r: seq<byte>)
    requires len < MaxPayload
    ensures |r| == HeaderSize(len) - 1
  {
    var maskedByte: byte := if masked then 0x80 else 0x00;
    if len <= 125 then [maskedByte | Octet(len)]
    else if len < 0x1_0000 then [maskedByte | 126] + BigEndian(len, 2)
    else [maskedByte | 127] + BigEndian(len / Two32, 4) + BigEndian(len % Two32, 4)
  }

  /** `send_frame(opcode, payload, mask)`: the frame written, with `maskKey` the four drawn key octets when masking. */
  function EncodeFrame(opcode: Opcode, payload: seq<byte>, maskKey: Option<MaskKey>): (r: seq<byte>)
    requires |payload| < MaxPayload
    ensures |r| == HeaderSize(|payload|) + (if maskKey.Some? then 4 else 0) + |payload|
  {
    [0x80 | Octet(opcode)] + LengthField(maskKey.Some?, |payload|) + FrameBody(payload, maskKey)
  }

  /** The octets after the length field: the payload, or the mask key followed by the masked payload. */
  function FrameBody(payload: seq<byte>, maskKey: Option<MaskKey>): (r: seq<byte>)
    ensures |r| == (if maskKey.Some? then 4 else 0) + |payload|
  {
    match maskKey
    case None => payload
    case Some(key) => key + ApplyMask(payload, key)
  }

  /** Octets before the mask key: the first octet and the length field (2, 4 or 10). */
  function HeaderSize(len: nat): nat
  {
    if len <= 125 then 2 else if len < 0x1_0000 then 4 else 10
  }

  // ---------------------------------------------------------------- decoding

  /** A frame as read: FIN flag, opcode, the mask key when the mask bit was set, and the unmasked payload. */
  datatype Frame = Frame(fin: bool, opcode: nat, maskKey: Option<MaskKey>, payload: seq<byte>)

  /** What reading one frame from position `pos` of a stream gives. */
  datatype Parse =
    | Truncated                        // some read came up short: the stream ended
    | Unmasked(next: nat)              // server role, mask bit clear; `next` is where reading stopped
    | Parsed(frame: Frame, next: nat)  // a whole frame, payload unmasked; `next` follows it
    | Oversized(next: nat)             // a payload length of 2^63 or more, which `read` refuses; `next` is where reading stopped

  /** The payload length announced by 7-bit length `code` and the octets at `p` after it, with the position that follows. */
  function ReadLength(s: seq<byte>, p: nat, code: nat): (r: Option<(nat, nat)>)
    requires p <= |s|
    ensures r.Some? ==> p <= r.value.1 <= |s|
    ensures r.None? <==> (code == 126 && p + 2 > |s|) || (code == 127 && p + 8 > |s|)
  {
    if code == 126 then
      if p + 2 <= |s| then Some((FromBigEndian(s[p..p + 2]), p + 2)) else None
    else if code == 127 then
      if p + 8 <= |s| then Some((FromBigEndian(s[p..p + 4]) * Two32 + FromBigEndian(s[p + 4..p + 8]), p + 8))
      else None
    else Some((code, p))
  }

  /** The frame starting at `pos`, read as `receive` reads it. */
  function ParseFrame(server: bool, s: seq<byte>, pos: nat): (r: Parse)
    requires pos <= |s|
  {
    if pos + 2 > |s| then Truncated
    else ParseAfterHead(server, s, s[pos], s[pos + 1], pos + 2)
  }

  /**
    What `ParseFrame` promises: a short read when the stream holds fewer than two octets;
    otherwise reading stops after the two header octets and within the stream; an
    unmasked stop only in server role with the mask bit clear; and a frame whose FIN
    flag, opcode and mask-key presence are the header bits.
   */
  lemma ParseFrameShape(server: bool, s: seq<byte>, pos: nat)
    requires pos <= |s|
    ensures var r := ParseFrame(server, s, pos);
      (pos + 2 > |s| ==> r.Truncated?) &&
      (!r.Truncated? ==> pos + 2 <= r.next <= |s|) &&
      (r.Unmasked? ==> server && s[pos + 1] & 0x80 == 0) &&
      (r.Parsed? ==> r.frame.fin == (s[pos] & 0x80 != 0) && r.frame.opcode == (s[pos] & 0x0f) as nat &&
                     r.frame.maskKey.Some? == (s[pos + 1] & 0x80 != 0))
  {
  }

  /** The rest of a frame once its first two octets `b0` and `b1` are read and `p` follows them. */
  function ParseAfterHead(server: bool, s: seq<byte>, b0: byte, b1: byte, p: nat): (r: Parse)
    requires p <= |s|
    ensures !r.Truncated? ==> p <= r.next <= |s|
    ensures r.Unmasked? ==> server && b1 & 0x80 == 0
    ensures r.Parsed? ==> r.frame.fin == (b0 & 0x80 != 0) && r.frame.opcode == (b0 & 0x0f) as nat
    ensures r.Parsed? ==> r.frame.maskKey.Some? == (b1 & 0x80 != 0)
  {
    match ReadLength(s, p, (b1 & 0x7f) as nat)
    case None => Truncated
    case Some((len, q)) => ParseBody(server, s, b0, b1 & 0x80 != 0, len, q)
  }

  /** The rest of a frame once the first octet `b0`, the mask bit and the length are known and `p` follows the length field. */
  function ParseBody(server: bool, s: seq<byte>, b0: byte, masked: bool, len: nat, p: nat): (r: Parse)
    requires p <= |s|
    ensures r.Unmasked? <==> server && !masked
    ensures r.Unmasked? ==> r.next == p
    ensures r.Parsed? ==> p < r.next <= |s| || (p == r.next && len == 0 && !masked)
    ensures r.Oversized? ==> p <= r.next <= |s|
  {
    if server && !masked then Unmasked(p)
    else if !masked then PayloadAt(s, b0, None, len, p)
    else if p + 4 > |s| then Truncated
    else PayloadAt(s, b0, Some(s[p..p + 4]), len, p + 4)
  }

  /**
    The payload of `len` octets at `q`, unmasked with `maskKey` when there is one, and the
    frame it completes. Ruby's `IO#read` converts its length to a signed 64-bit integer
    before reading anything, so a length of 2^63 or more raises `RangeError` and reads nothing.
   */
  function PayloadAt(s: seq<byte>, b0: byte, maskKey: Option<MaskKey>, len: nat, q: nat): (r: Parse)
    requires q <= |s|
    ensures r.Parsed? ==> r.next == q + len <= |s| && |r.frame.payload| == len
    ensures r.Oversized? <==> len >= MaxPayload
    ensures r.Oversized? ==> r.next == q
    ensures r.Truncated? <==> len < MaxPayload && q + len > |s|
  {
    if len >= MaxPayload then Oversized(q)
    else if q + len > |s| then Truncated
    else
      var raw := s[q..q + len];
      var payload := match maskKey case None => raw case Some(key) => ApplyMask(raw, key);
      Parsed(Frame(b0 & 0x80 != 0, (b0 & 0x0f) as nat, maskKey, payload), q + len)
  }

  /** What a `receive` call does to the connection besides returning. */
  datatype Effect =
    | NoEffect
    | SocketClosed   // `@socket.close()` on an unmasked frame in server role
    | ClosedByPeer   // `close(1005, "", :peer)` on a close frame

  /** One `receive` call: its result (`Some(payload)`, `None` for nil, or an error), the new read position and the effect. */
  datatype Step = Step(result: Result<Option<seq<byte>>, WSError>, next: nat, effect: Effect)

  /** The opcode dispatch of `receive` on a whole frame. */
  function Dispatch(f: Frame, next: nat): (st: Step)
    ensures st.next == next && st.effect != SocketClosed
    ensures st.effect == ClosedByPeer <==> f.opcode == OpcodeClose
    ensures st.result.Success? && st.result.value.Some? <==> f.opcode == OpcodeText
    ensures st.result == Success(Some(f.payload)) <==> f.opcode == OpcodeText
    ensures st.result == Success(None) <==> f.opcode == OpcodeClose || f.opcode == OpcodePong
    ensures st.result.Failure? <==> f.opcode !in {OpcodeText, OpcodeClose, OpcodePong}
  {
    if f.opcode == OpcodeText then Step(Success(Some(f.payload)), next, NoEffect)
    else if f.opcode == OpcodeBinary then Step(Failure(BinaryUnsupported), next, NoEffect)
    else if f.opcode == OpcodeClose then Step(Success(None), next, ClosedByPeer)
    else if f.opcode == OpcodePing then Step(Failure(PingUnsupported), next, NoEffect)
    else if f.opcode == OpcodePong then Step(Success(None), next, NoEffect)
    else Step(Failure(UnknownOpcode(f.opcode)), next, NoEffect)
  }

  /** `receive` has no case for a continuation frame: it raises the unknown-opcode error for opcode 0. */
  lemma ContinuationUnsupported(f: Frame, next: nat)
    requires f.opcode == OpcodeContinuation
    ensures Dispatch(f, next).result == Failure(UnknownOpcode(0))
  {
  }

  /** Where reading stops after a frame: the end of the stream when it came up short. */
  function After(p: Parse, streamLength: nat): nat
  {
    match p
    case Truncated => streamLength
    case Unmasked(next) => next
    case Parsed(_, next) => next
    case Oversized(next) => next
  }

  /**
    What `receive` does with the outcome of its reads: nil on a short read, the
    unmasked-data error with the socket closed, the `RangeError` of an oversized length
    (which `rescue EOFError` does not catch), or the opcode dispatch.
   */
  function Act(p: Parse, streamLength: nat): (st: Step)
    ensures st.next == After(p, streamLength)
    ensures st.effect == SocketClosed <==> p.Unmasked?
    ensures st.effect == SocketClosed ==> st.result == Failure(UnmaskedData)
    ensures st.effect == ClosedByPeer ==> st.result == Success(None)
    ensures !p.Parsed? ==> (st.result == Success(None) <==> p.Truncated?)
    ensures p.Oversized? ==> st.result == Failure(LengthOutOfRange) && st.effect == NoEffect
  {
    match p
    case Truncated => Step(Success(None), streamLength, NoEffect)
    case Unmasked(next) => Step(Failure(UnmaskedData), next, SocketClosed)
    case Parsed(f, next) => Dispatch(f, next)
    case Oversized(next) => Step(Failure(LengthOutOfRange), next, NoEffect)
  }

  /**
    `receive` on a connection whose socket holds `s` and has been read up to `pos`.
    A short read anywhere ends in nil with the whole stream consumed, and the read
    position never moves back nor passes the end of the stream.
   */
  function ReceiveStep(handshaked: bool, closed: bool, server: bool, s: seq<byte>, pos: nat): (st: Step)
    requires pos <= |s|
    ensures pos <= st.next <= |s|
    ensures st.effect == SocketClosed ==> st.result == Failure(UnmaskedData)
    ensures st.effect == ClosedByPeer ==> st.result == Success(None)
  {
    if !handshaked then Step(Failure(NotHandshaked), pos, NoEffect)
    else if closed then Step(Failure(ClosedStream), pos, NoEffect)
    else
      Act(ParseFrame(server, s, pos), |s|)
  }

  /** When the stream ends inside a frame, `receive` returns nil and consumes the rest of the stream. */
  lemma ShortReadIsNil(server: bool, s: seq<byte>, pos: nat)
    requires pos <= |s| && ParseFrame(server, s, pos).Truncated?
    ensures ReceiveStep(true, false, server, s, pos) == Step(Success(None), |s|, NoEffect)
  {
  }

  /**
    A payload length of 2^63 or more makes `receive` raise the `RangeError` of `read`,
    whatever the stream holds after it: nothing of the payload is read, and a masked
    frame has had its key read first.
   */
  lemma OversizedRaises(server: bool, s: seq<byte>, pos: nat, len: nat, q: nat)
    requires pos + 2 <= |s| && ReadLength(s, pos + 2, (s[pos + 1] & 0x7f) as nat) == Some((len, q))
    requires len >= MaxPayload
    requires s[pos + 1] & 0x80 == 0 ==> !server
    requires s[pos + 1] & 0x80 != 0 ==> q + 4 <= |s|
    ensures ReceiveStep(true, false, server, s, pos) ==
      Step(Failure(LengthOutOfRange), if s[pos + 1] & 0x80 != 0 then q + 4 else q, NoEffect)
  {
    ParseFrameUnfold(server, s, pos, len, q);
  }

  /**
    In server role every unmasked frame is rejected once its length field is read,
    however the rest of it looks: the socket is closed and the unmasked-data error raised.
   */
  lemma ServerRejectsAnyUnmasked(s: seq<byte>, pos: nat)
    requires pos + 2 <= |s| && s[pos + 1] & 0x80 == 0
    requires ReadLength(s, pos + 2, (s[pos + 1] & 0x7f) as nat).Some?
    ensures ReceiveStep(true, false, true, s, pos) ==
      Step(Failure(UnmaskedData), ReadLength(s, pos + 2, (s[pos + 1] & 0x7f) as nat).value.1, SocketClosed)
  {
  }

  // ---------------------------------------------------------------- properties

  /** The first octet has FIN set and carries the opcode. */
  lemma FirstOctet(opcode: Opcode)
    ensures (0x80 | Octet(opcode)) & 0x80 != 0
    ensures ((0x80 | Octet(opcode)) & 0x0f) as nat == opcode
  {
    var b := Octet(opcode);
    assert b < 16;
    assert (0x80 | b) & 0x0f == b;
  }

  /** The second octet carries the mask bit and a 7-bit length code. */
  lemma SecondOctet(masked: bool, code: nat)
    requires code < 128
    ensures var b := (if masked then 0x80 else 0x00) | Octet(code);
      (b & 0x80 != 0) == masked && (b & 0x7f) as nat == code
  {
    var c := Octet(code);
    assert c < 128;
    assert (0x80 | c) & 0x7f == c && (0x80 | c) & 0x80 == 0x80;
    assert (0x00 | c) & 0x7f == c && (0x00 | c) & 0x80 == 0;
  }

  /**
    The layout of an encoded frame: FIN and the opcode in the first octet; the mask bit
    and a length code in the second; the 7-bit, 16-bit or 64-bit length (two 32-bit
    halves) chosen at 125 and 65535; then exactly four key octets when masked and
    exactly `len` payload octets, masked with that key.
   */
  lemma EncodeLayout(opcode: Opcode, payload: seq<byte>, maskKey: Option<MaskKey>)
    requires |payload| < MaxPayload
    ensures var f := EncodeFrame(opcode, payload, maskKey);
      var len, h := |payload|, HeaderSize(|payload|);
      var k := if maskKey.Some? then 4 else 0;
      |f| == h + k + len &&
      f[0] & 0x80 != 0 && (f[0] & 0x0f) as nat == opcode &&
      (f[1] & 0x80 != 0) == maskKey.Some? &&
      (len <= 125 ==> (f[1] & 0x7f) as nat == len) &&
      (125 < len < 0x1_0000 ==> (f[1] & 0x7f) as nat == 126 && FromBigEndian(f[2..4]) == len) &&
      (0x1_0000 <= len ==>
        (f[1] & 0x7f) as nat == 127 &&
        FromBigEndian(f[2..6]) == len / Two32 && FromBigEndian(f[6..10]) == len % Two32) &&
      (maskKey.Some? ==> f[h..h + 4] == maskKey.value && f[h + 4..] == ApplyMask(payload, maskKey.value)) &&
      (maskKey.None? ==> f[h..] == payload)
  {
    var len := |payload|;
    var f := EncodeFrame(opcode, payload, maskKey);
    var lf := LengthField(maskKey.Some?, len);
    EncodeParts(opcode, payload, maskKey);
    FirstOctet(opcode);
    LengthFieldShape(maskKey.Some?, len);
    if 125 < len < 0x1_0000 {
      BigEndianRoundTrip(len, 2);
    } else if 0x1_0000 <= len {
      Length64Layout(f, maskKey.Some?, len);
    }
    BodyLayout(f, HeaderSize(len), payload, maskKey);
  }

  /** An encoded frame is the first octet, the length field and the body, at fixed offsets. */
  lemma EncodeParts(opcode: Opcode, payload: seq<byte>, maskKey: Option<MaskKey>)
    requires |payload| < MaxPayload
    ensures var f := EncodeFrame(opcode, payload, maskKey);
      var lf := LengthField(maskKey.Some?, |payload|);
      var h := HeaderSize(|payload|);
      |f| == h + |FrameBody(payload, maskKey)| &&
      f[0] == 0x80 | Octet(opcode) && f[1] == lf[0] && f[2..h] == lf[1..] &&
      f[h..] == FrameBody(payload, maskKey)
  {
    var f := EncodeFrame(opcode, payload, maskKey);
    var lf := LengthField(maskKey.Some?, |payload|);
    var body := FrameBody(payload, maskKey);
    var h := HeaderSize(|payload|);
    assert f == [0x80 | Octet(opcode)] + lf + body;
    assert f[2..h] == lf[1..];
    assert f[h..] == body;
  }

  /** Where the key and the payload sit once the body starts at `h`. */
  lemma BodyLayout(f: seq<byte>, h: nat, payload: seq<byte>, maskKey: Option<MaskKey>)
    requires h <= |f| && f[h..] == FrameBody(payload, maskKey)
    ensures maskKey.Some? ==> f[h..h + 4] == maskKey.value && f[h + 4..] == ApplyMask(payload, maskKey.value)
    ensures maskKey.None? ==> f[h..] == payload
  {
    if maskKey.Some? {
      assert f[h..h + 4] == f[h..][..4];
      assert f[h + 4..] == f[h..][4..];
    }
  }

  /** The 64-bit length of a frame: the two 32-bit halves read back as `len / 2^32` and `len % 2^32`. */
  lemma Length64Layout(f: seq<byte>, masked: bool, len: nat)
    requires 0x1_0000 <= len < MaxPayload && 10 <= |f| && f[2..10] == LengthField(masked, len)[1..]
    ensures FromBigEndian(f[2..6]) == len / Two32 && FromBigEndian(f[6..10]) == len % Two32
  {
    var high, low := BigEndian(len / Two32, 4), BigEndian(len % Two32, 4);
    Pow256Widths();
    assert LengthField(masked, len)[1..] == high + low;
    SubSlice(f, 2, high + low, 0, 4);
    SubSlice(f, 2, high + low, 4, 8);
    assert (high + low)[0..4] == high && (high + low)[4..8] == low;
    BigEndianRoundTrip(len / Two32, 4);
    BigEndianRoundTrip(len % Two32, 4);
  }

  /** A slice of a slice. */
  lemma SubSlice(x: seq<byte>, i: nat, y: seq<byte>, a: nat, b: nat)
    requires i + |y| <= |x| && x[i..i + |y|] == y && a <= b <= |y|
    ensures x[i + a..i + b] == y[a..b]
  {
    forall k | 0 <= k < b - a
      ensures x[i + a..i + b][k] == y[a..b][k]
    {
      assert x[i + a..i + b][k] == x[i + a + k] == x[i..i + |y|][a + k];
    }
  }


  /** The 7-bit length code the encoder picks for a payload of `len` octets. */
  function LengthCode(len: nat): nat
  {
    if len <= 125 then len else if len < 0x1_0000 then 126 else 127
  }

  /** The length field holds the mask bit, the length code and, after it, the extended length in big-endian order. */
  lemma LengthFieldShape(masked: bool, len: nat)
    requires len < MaxPayload
    ensures var lf := LengthField(masked, len);
      |lf| == HeaderSize(len) - 1 &&
      (lf[0] & 0x80 != 0) == masked && (lf[0] & 0x7f) as nat == LengthCode(len) &&
      (125 < len < 0x1_0000 ==> lf[1..] == BigEndian(len, 2)) &&
      (0x1_0000 <= len ==> lf[1..5] == BigEndian(len / Two32, 4) && lf[5..] == BigEndian(len % Two32, 4))
  {
    SecondOctet(masked, LengthCode(len));
  }

  lemma ReadLength16(s: seq<byte>, p: nat, len: nat)
    requires len < 0x1_0000 && p + 2 <= |s| && s[p..p + 2] == BigEndian(len, 2)
    ensures ReadLength(s, p, 126) == Some((len, p + 2))
  {
    BigEndianRoundTrip(len, 2);
  }

  lemma ReadLength64(s: seq<byte>, p: nat, len: nat)
    requires len < 0x1_0000_0000_0000_0000 && p + 8 <= |s|
    requires s[p..p + 4] == BigEndian(len / Two32, 4) && s[p + 4..p + 8] == BigEndian(len % Two32, 4)
    ensures ReadLength(s, p, 127) == Some((len, p + 8))
  {
    Pow256Widths();
    BigEndianRoundTrip(len / Two32, 4);
    BigEndianRoundTrip(len % Two32, 4);
  }

  /** Reading the length code and extended length of an encoded frame gives back the payload length, or a short read. */
  lemma ReadLengthOfEncoded(masked: bool, len: nat, s: seq<byte>, p: nat)
    requires len < MaxPayload && p <= |s|
    requires var lf := LengthField(masked, len);
      forall i :: 1 <= i < |lf| && p + i - 1 < |s| ==> s[p + i - 1] == lf[i]
    ensures var code := LengthCode(len);
      (ReadLength(s, p, code).Some? <==> p + HeaderSize(len) - 2 <= |s|) &&
      (ReadLength(s, p, code).Some? ==> ReadLength(s, p, code).value == (len, p + HeaderSize(len) - 2))
  {
    var lf := LengthField(masked, len);
    LengthFieldShape(masked, len);
    if 125 < len < 0x1_0000 && p + 2 <= |s| {
      assert s[p..p + 2] == lf[1..3] by {
        forall i | 0 <= i < 2 ensures s[p..p + 2][i] == lf[1..3][i] {
          assert s[p + (i + 1) - 1] == lf[i + 1];
        }
      }
      ReadLength16(s, p, len);
    } else if 0x1_0000 <= len && p + 8 <= |s| {
      assert s[p..p + 4] == lf[1..5] by {
        forall i | 0 <= i < 4 ensures s[p..p + 4][i] == lf[1..5][i] {
          assert s[p + (i + 1) - 1] == lf[i + 1];
        }
      }
      assert s[p + 4..p + 8] == lf[5..9] by {
        forall i | 0 <= i < 4 ensures s[p + 4..p + 8][i] == lf[5..9][i] {
          assert s[p + (i + 5) - 1] == lf[i + 5];
        }
      }
      ReadLength64(s, p, len);
    }
  }

  /** `s` holds the encoded frame at `pos`, possibly cut short by the end of the stream. */
  predicate HoldsPrefixOf(s: seq<byte>, pos: nat, frame: seq<byte>)
  {
    forall i :: 0 <= i < |frame| && pos + i < |s| ==> s[pos + i] == frame[i]
  }

  /**
    Decoding against encoding, for a whole frame or one the stream cuts short. When the
    whole frame is there it parses back to FIN set, the same opcode, the same key and
    exactly the same payload, ending right after the frame; when it is cut short the
    parse reports a short read. In server role an unmasked frame stops right after the
    length field, before any key or payload octet is read.
   */
  lemma ParseEncoded(server: bool, s: seq<byte>, pos: nat, opcode: Opcode, payload: seq<byte>, maskKey: Option<MaskKey>)
    requires pos <= |s| && |payload| < MaxPayload
    requires HoldsPrefixOf(s, pos, EncodeFrame(opcode, payload, maskKey))
    ensures var f := EncodeFrame(opcode, payload, maskKey);
      var h := HeaderSize(|payload|);
      if server && maskKey.None? then
        ParseFrame(server, s, pos) == (if pos + h <= |s| then Unmasked(pos + h) else Truncated)
      else
        ParseFrame(server, s, pos) ==
          if pos + |f| <= |s| then Parsed(Frame(true, opcode, maskKey, payload), pos + |f|)
          else Truncated
  {
    if pos + 2 <= |s| {
      EncodedHeaderRead(s, pos, opcode, payload, maskKey);
      if pos + HeaderSize(|payload|) <= |s| {
        EncodeBody(opcode, payload, maskKey);
        ParseEncodedWhole(server, s, pos, opcode, payload, maskKey, EncodeFrame(opcode, payload, maskKey), HeaderSize(|payload|));
      } else {
        ParseEncodedShort(server, s, pos, opcode, payload, maskKey);
      }
    }
  }

  /**
    `ParseEncoded` once the stream holds the first two octets and the whole length field,
    for a frame `f` whose key and payload sit after octet `h` as `EncodeBody` says.
   */
  lemma ParseEncodedWhole(server: bool, s: seq<byte>, pos: nat, opcode: Opcode, payload: seq<byte>, maskKey: Option<MaskKey>,
                          f: seq<byte>, h: nat)
    requires 2 <= h && pos + h <= |s| && HoldsPrefixOf(s, pos, f) && |payload| < MaxPayload
    requires |f| == h + (if maskKey.Some? then 4 else 0) + |payload|
    requires maskKey.Some? ==> f[h..h + 4] == maskKey.value && f[h + 4..] == ApplyMask(payload, maskKey.value)
    requires maskKey.None? ==> f[h..] == payload
    requires s[pos] & 0x80 != 0 && (s[pos] & 0x0f) as nat == opcode && (s[pos + 1] & 0x80 != 0) == maskKey.Some?
    requires ReadLength(s, pos + 2, (s[pos + 1] & 0x7f) as nat) == Some((|payload|, pos + h))
    ensures if server && maskKey.None? then ParseFrame(server, s, pos) == Unmasked(pos + h)
      else
        ParseFrame(server, s, pos) ==
          if pos + |f| <= |s| then Parsed(Frame(true, opcode, maskKey, payload), pos + |f|)
          else Truncated
  {
    ParseFrameUnfold(server, s, pos, |payload|, pos + h);
    match maskKey {
      case None =>
        if !server {
          PlainSlice(s, pos, f, h, payload);
          PlainBody(server, s, s[pos], pos + h, payload);
        }
      case Some(key) =>
        MaskedFromLayout(server, s, pos, f, h, key, payload);
    }
  }

  /** `ParseEncoded` when the stream ends inside the extended length field. */
  lemma ParseEncodedShort(server: bool, s: seq<byte>, pos: nat, opcode: Opcode, payload: seq<byte>, maskKey: Option<MaskKey>)
    requires |payload| < MaxPayload && pos + 2 <= |s| < pos + HeaderSize(|payload|)
    requires (s[pos + 1] & 0x7f) as nat == LengthCode(|payload|)
    requires ReadLength(s, pos + 2, LengthCode(|payload|)) == None
    ensures ParseFrame(server, s, pos) == Truncated
  {
    assert ParseAfterHead(server, s, s[pos], s[pos + 1], pos + 2) == Truncated;
  }


  /** Where the key and the payload sit in an encoded frame. */
  lemma EncodeBody(opcode: Opcode, payload: seq<byte>, maskKey: Option<MaskKey>)
    requires |payload| < MaxPayload
    ensures var f := EncodeFrame(opcode, payload, maskKey);
      var h := HeaderSize(|payload|);
      |f| == h + (if maskKey.Some? then 4 else 0) + |payload| &&
      (maskKey.Some? ==> f[h..h + 4] == maskKey.value && f[h + 4..] == ApplyMask(payload, maskKey.value)) &&
      (maskKey.None? ==> f[h..] == payload)
  {
    EncodeParts(opcode, payload, maskKey);
    BodyLayout(EncodeFrame(opcode, payload, maskKey), HeaderSize(|payload|), payload, maskKey);
  }


  /** The parse of the body of a masked frame `f` whose key starts at `h`. */
  lemma MaskedFromLayout(server: bool, s: seq<byte>, pos: nat, f: seq<byte>, h: nat, key: MaskKey, payload: seq<byte>)
    requires HoldsPrefixOf(s, pos, f) && pos + h <= |s| && |f| == h + 4 + |payload| && |payload| < MaxPayload
    requires f[h..h + 4] == key && f[h + 4..] == ApplyMask(payload, key)
    requires pos < |s| && s[pos] & 0x80 != 0
    ensures var p := pos + h;
      ParseBody(server, s, s[pos], true, |payload|, p) ==
        if p + 4 + |payload| <= |s| then Parsed(Frame(true, (s[pos] & 0x0f) as nat, Some(key), payload), p + 4 + |payload|)
        else Truncated
  {
    if pos + h + 4 <= |s| {
      MaskedSlices(s, pos, f, h, key, payload);
      MaskedBody(server, s, s[pos], pos + h, key, payload);
    }
  }

  /** The payload octets of an unmasked frame `f` whose body starts at `h`, as far as the stream holds them. */
  lemma PlainSlice(s: seq<byte>, pos: nat, f: seq<byte>, h: nat, payload: seq<byte>)
    requires HoldsPrefixOf(s, pos, f) && h <= |f| && f[h..] == payload
    ensures pos + h + |payload| <= |s| ==> s[pos + h..pos + h + |payload|] == payload
  {
    if pos + h + |payload| <= |s| {
      assert f[h..h + |payload|] == payload;
      SliceOfPrefix(s, pos, f, h, h + |payload|);
    }
  }

  /** The key and masked payload octets of a masked frame `f` whose body starts at `h`, as far as the stream holds them. */
  lemma MaskedSlices(s: seq<byte>, pos: nat, f: seq<byte>, h: nat, key: MaskKey, payload: seq<byte>)
    requires HoldsPrefixOf(s, pos, f) && h + 4 <= |f| && pos + h + 4 <= |s|
    requires f[h..h + 4] == key && f[h + 4..] == ApplyMask(payload, key)
    ensures s[pos + h..pos + h + 4] == key
    ensures pos + h + 4 + |payload| <= |s| ==> s[pos + h + 4..pos + h + 4 + |payload|] == ApplyMask(payload, key)
  {
    SliceOfPrefix(s, pos, f, h, h + 4);
    if pos + h + 4 + |payload| <= |s| {
      assert f[h + 4..h + 4 + |payload|] == ApplyMask(payload, key);
      SliceOfPrefix(s, pos, f, h + 4, h + 4 + |payload|);
    }
  }

  lemma PlainBody(server: bool, s: seq<byte>, b0: byte, p: nat, payload: seq<byte>)
    requires !server && p <= |s| && |payload| < MaxPayload
    requires p + |payload| <= |s| ==> s[p..p + |payload|] == payload
    ensures ParseBody(server, s, b0, false, |payload|, p) ==
      if p + |payload| <= |s| then Parsed(Frame(b0 & 0x80 != 0, (b0 & 0x0f) as nat, None, payload), p + |payload|)
      else Truncated
  {
  }

  lemma MaskedBody(server: bool, s: seq<byte>, b0: byte, p: nat, key: MaskKey, payload: seq<byte>)
    requires p + 4 <= |s| && s[p..p + 4] == key && |payload| < MaxPayload
    requires p + 4 + |payload| <= |s| ==> s[p + 4..p + 4 + |payload|] == ApplyMask(payload, key)
    ensures ParseBody(server, s, b0, true, |payload|, p) ==
      if p + 4 + |payload| <= |s| then Parsed(Frame(b0 & 0x80 != 0, (b0 & 0x0f) as nat, Some(key), payload), p + 4 + |payload|)
      else Truncated
  {
    if p + 4 + |payload| <= |s| {
      MaskInvolution(payload, key);
    }
  }

  lemma SliceOfPrefix(s: seq<byte>, pos: nat, frame: seq<byte>, a: nat, b: nat)
    requires HoldsPrefixOf(s, pos, frame) && a <= b <= |frame| && pos + b <= |s|
    ensures s[pos + a..pos + b] == frame[a..b]
  {
    forall i | 0 <= i < b - a ensures s[pos + a..pos + b][i] == frame[a..b][i] {
      assert s[pos + (a + i)] == frame[a + i];
    }
  }

  /** The first two octets and the extended length of an encoded frame, as the parser reads them. */
  lemma EncodedHeaderRead(s: seq<byte>, pos: nat, opcode: Opcode, payload: seq<byte>, maskKey: Option<MaskKey>)
    requires pos + 2 <= |s| && |payload| < MaxPayload
    requires HoldsPrefixOf(s, pos, EncodeFrame(opcode, payload, maskKey))
    ensures s[pos] & 0x80 != 0 && (s[pos] & 0x0f) as nat == opcode
    ensures (s[pos + 1] & 0x80 != 0) == maskKey.Some? && (s[pos + 1] & 0x7f) as nat == LengthCode(|payload|)
    ensures var h := HeaderSize(|payload|);
      ReadLength(s, pos + 2, LengthCode(|payload|)) == if pos + h <= |s| then Some((|payload|, pos + h)) else None
  {
    EncodedHeadOctets(s, pos, opcode, payload, maskKey);
    EncodedLengthRead(s, pos, opcode, payload, maskKey);
  }

  lemma EncodedLengthRead(s: seq<byte>, pos: nat, opcode: Opcode, payload: seq<byte>, maskKey: Option<MaskKey>)
    requires pos + 2 <= |s| && |payload| < MaxPayload
    requires HoldsPrefixOf(s, pos, EncodeFrame(opcode, payload, maskKey))
    ensures var h := HeaderSize(|payload|);
      ReadLength(s, pos + 2, LengthCode(|payload|)) == if pos + h <= |s| then Some((|payload|, pos + h)) else None
  {
    EncodedLengthOctets(s, pos, opcode, payload, maskKey);
    ReadLengthOfEncoded(maskKey.Some?, |payload|, s, pos + 2);
  }

  lemma EncodedHeadOctets(s: seq<byte>, pos: nat, opcode: Opcode, payload: seq<byte>, maskKey: Option<MaskKey>)
    requires pos + 2 <= |s| && |payload| < MaxPayload
    requires HoldsPrefixOf(s, pos, EncodeFrame(opcode, payload, maskKey))
    ensures s[pos] & 0x80 != 0 && (s[pos] & 0x0f) as nat == opcode
    ensures (s[pos + 1] & 0x80 != 0) == maskKey.Some? && (s[pos + 1] & 0x7f) as nat == LengthCode(|payload|)
  {
    var f := EncodeFrame(opcode, payload, maskKey);
    EncodeParts(opcode, payload, maskKey);
    FirstOctet(opcode);
    LengthFieldShape(maskKey.Some?, |payload|);
    assert s[pos] == f[0] && s[pos + 1] == f[1];
  }

  lemma EncodedLengthOctets(s: seq<byte>, pos: nat, opcode: Opcode, payload: seq<byte>, maskKey: Option<MaskKey>)
    requires pos + 2 <= |s| && |payload| < MaxPayload
    requires HoldsPrefixOf(s, pos, EncodeFrame(opcode, payload, maskKey))
    ensures var lf := LengthField(maskKey.Some?, |payload|);
      forall i :: 1 <= i < |lf| && pos + 2 + i - 1 < |s| ==> s[pos + 2 + i - 1] == lf[i]
  {
    var f := EncodeFrame(opcode, payload, maskKey);
    var len := |payload|;
    var lf := LengthField(maskKey.Some?, len);
    EncodeParts(opcode, payload, maskKey);
    forall i | 1 <= i < |lf| && pos + 2 + i - 1 < |s|
      ensures s[pos + 2 + i - 1] == lf[i]
    {
      assert s[pos + (1 + i)] == f[1 + i];
      assert f[1 + i] == f[2..HeaderSize(len)][i - 1];
    }
  }



  /**
    Round trip: reading a whole encoded frame on an open, handshaked connection gives
    the payload back for text, nil for close (closing the connection as the peer's close)
    and pong, the unsupported errors for binary and ping, and an error naming any other
    opcode; the read position ends right after the frame.
   */
  lemma ReceiveEncoded(server: bool, s: seq<byte>, pos: nat, opcode: Opcode, payload: seq<byte>, maskKey: Option<MaskKey>)
    requires |payload| < MaxPayload && !(server && maskKey.None?)
    requires pos + |EncodeFrame(opcode, payload, maskKey)| <= |s|
    requires s[pos..pos + |EncodeFrame(opcode, payload, maskKey)|] == EncodeFrame(opcode, payload, maskKey)
    ensures var st := ReceiveStep(true, false, server, s, pos);
      st.next == pos + |EncodeFrame(opcode, payload, maskKey)| &&
      st.result == (
        if opcode == OpcodeText then Success(Some(payload))
        else if opcode == OpcodeClose || opcode == OpcodePong then Success(None)
        else if opcode == OpcodeBinary then Failure(BinaryUnsupported)
        else if opcode == OpcodePing then Failure(PingUnsupported)
        else Failure(UnknownOpcode(opcode))) &&
      st.effect == (if opcode == OpcodeClose then ClosedByPeer else NoEffect)
  {
    var f := EncodeFrame(opcode, payload, maskKey);
    forall i | 0 <= i < |f| ensures s[pos + i] == f[i] {
      assert s[pos..pos + |f|][i] == f[i];
    }
    ParseEncoded(server, s, pos, opcode, payload, maskKey);
  }

  /** Round trip for text, the frames `send` writes: the payload comes back exactly, masked or not. */
  lemma TextRoundTrip(payload: seq<byte>, maskKey: Option<MaskKey>)
    requires |payload| < MaxPayload
    ensures var f := EncodeFrame(OpcodeText, payload, maskKey);
      ReceiveStep(true, false, false, f, 0) == Step(Success(Some(payload)), |f|, NoEffect) &&
      (maskKey.Some? ==> ReceiveStep(true, false, true, f, 0) == Step(Success(Some(payload)), |f|, NoEffect))
  {
    var f := EncodeFrame(OpcodeText, payload, maskKey);
    assert f[0..|f|] == f;
    ReceiveEncoded(false, f, 0, OpcodeText, payload, maskKey);
    if maskKey.Some? {
      ReceiveEncoded(true, f, 0, OpcodeText, payload, maskKey);
    }
  }

  /**
    A frame cut short by the end of the stream (in the header, the extended length, the
    key or the payload) reads as nil, not as an error, and the read position stops at
    the end of the stream.
   */
  lemma ReceiveTruncated(server: bool, s: seq<byte>, pos: nat, opcode: Opcode, payload: seq<byte>, maskKey: Option<MaskKey>)
    requires |payload| < MaxPayload && !(server && maskKey.None?)
    requires pos <= |s| < pos + |EncodeFrame(opcode, payload, maskKey)|
    requires s[pos..] == EncodeFrame(opcode, payload, maskKey)[..|s| - pos]
    ensures ReceiveStep(true, false, server, s, pos) == Step(Success(None), |s|, NoEffect)
  {
    var f := EncodeFrame(opcode, payload, maskKey);
    assert forall i :: 0 <= i < |s| - pos ==> s[pos + i] == s[pos..][i];
    ParseEncoded(server, s, pos, opcode, payload, maskKey);
  }

  /**
    In server role an unmasked frame is refused: the socket is closed, the error raised,
    and reading stops right after the length field, before any payload octet.
   */
  lemma ServerRejectsUnmasked(s: seq<byte>, pos: nat, opcode: Opcode, payload: seq<byte>)
    requires |payload| < MaxPayload
    requires pos + HeaderSize(|payload|) <= |s|
    requires HoldsPrefixOf(s, pos, EncodeFrame(opcode, payload, None))
    ensures ReceiveStep(true, false, true, s, pos) ==
      Step(Failure(UnmaskedData), pos + HeaderSize(|payload|), SocketClosed)
  {
    ParseEncoded(true, s, pos, opcode, payload, None);
  }

  /** Two streams that agree from index `a` on. */
  predicate AgreeFrom(s: seq<byte>, t: seq<byte>, a: nat)
  {
    |s| == |t| && forall k :: a <= k < |s| ==> s[k] == t[k]
  }

  lemma ParseBodyAgreeFrom(server: bool, s: seq<byte>, t: seq<byte>, a: nat, b0: byte, masked: bool, len: nat, p: nat)
    requires AgreeFrom(s, t, a) && a <= p <= |s|
    ensures ReadLength(s, p, len) == ReadLength(t, p, len)
    ensures ParseBody(server, s, b0, masked, len, p) == ParseBody(server, t, b0, masked, len, p)
  {
    forall i, j | p <= i <= j <= |s| ensures s[i..j] == t[i..j] {
      assert forall k :: 0 <= k < j - i ==> s[i..j][k] == s[i + k] && t[i..j][k] == t[i + k];
    }
  }

  /** A parse with the FIN flag of its frame, if it has one, negated. */
  function FlipFin(r: Parse): Parse
  {
    if r.Parsed? then Parsed(r.frame.(fin := !r.frame.fin), r.next) else r
  }

  /** Flipping bit 7 of the first octet flips the parsed FIN flag and nothing else. */
  lemma ParseBodyFin(server: bool, s: seq<byte>, b0: byte, masked: bool, len: nat, p: nat)
    requires p <= |s|
    ensures var r := ParseBody(server, s, b0, masked, len, p);
      ParseBody(server, s, b0 ^ 0x80, masked, len, p) ==
        FlipFin(r)
  {
    assert (b0 ^ 0x80) & 0x0f == b0 & 0x0f;
    assert ((b0 ^ 0x80) & 0x80 != 0) == !(b0 & 0x80 != 0);
  }

  /** Once the length field has been read, the parse of a frame is the parse of its body. */
  lemma ParseFrameUnfold(server: bool, s: seq<byte>, pos: nat, len: nat, p: nat)
    requires pos + 2 <= |s| && ReadLength(s, pos + 2, (s[pos + 1] & 0x7f) as nat) == Some((len, p))
    ensures ParseFrame(server, s, pos) == ParseBody(server, s, s[pos], s[pos + 1] & 0x80 != 0, len, p)
  {
  }

  /** Flipping bit 7 of the first octet of a frame flips the FIN flag of the parsed frame and nothing else. */
  lemma ParseFrameFin(server: bool, s: seq<byte>, t: seq<byte>, pos: nat)
    requires pos < |s| && AgreeFrom(s, t, pos + 1) && t[pos] == s[pos] ^ 0x80
    ensures var r := ParseFrame(server, s, pos);
      ParseFrame(server, t, pos) == FlipFin(r)
  {
    if pos + 2 <= |s| {
      var code := (s[pos + 1] & 0x7f) as nat;
      assert t[pos + 1] == s[pos + 1];
      ParseBodyAgreeFrom(server, s, t, pos + 1, s[pos], false, code, pos + 2);
      var rl := ReadLength(s, pos + 2, code);
      if rl.Some? {
        ParseFrameFinAfterLength(server, s, t, pos, rl.value.0, rl.value.1);
      }
    }
  }

  lemma ParseFrameFinAfterLength(server: bool, s: seq<byte>, t: seq<byte>, pos: nat, len: nat, p: nat)
    requires pos + 2 <= |s| && AgreeFrom(s, t, pos + 1) && t[pos] == s[pos] ^ 0x80
    requires pos + 2 <= p <= |s|
    requires ReadLength(s, pos + 2, (s[pos + 1] & 0x7f) as nat) == Some((len, p))
    requires ReadLength(t, pos + 2, (t[pos + 1] & 0x7f) as nat) == Some((len, p))
    ensures var r := ParseFrame(server, s, pos);
      ParseFrame(server, t, pos) == FlipFin(r)
  {
    var masked := s[pos + 1] & 0x80 != 0;
    assert t[pos + 1] == s[pos + 1];
    ParseFrameUnfold(server, s, pos, len, p);
    ParseFrameUnfold(server, t, pos, len, p);
    ParseBodyAgreeFrom(server, s, t, pos + 1, t[pos], masked, len, p);
    ParseBodyFin(server, s, s[pos], masked, len, p);
    calc {
      ParseFrame(server, t, pos);
      ParseBody(server, t, t[pos], masked, len, p);
      ParseBody(server, s, s[pos] ^ 0x80, masked, len, p);
      FlipFin(ParseBody(server, s, s[pos], masked, len, p));
      FlipFin(ParseFrame(server, s, pos));
    }
  }

  /** The FIN bit is read but never used: flipping it changes nothing about a `receive` call. */
  lemma FinIgnored(handshaked: bool, closed: bool, server: bool, s: seq<byte>, pos: nat)
    requires pos < |s|
    ensures ReceiveStep(handshaked, closed, server, s[pos := s[pos] ^ 0x80], pos) ==
            ReceiveStep(handshaked, closed, server, s, pos)
  {
    var t := s[pos := s[pos] ^ 0x80];
    assert AgreeFrom(s, t, pos + 1);
    if handshaked && !closed {
      ReceiveStepFin(server, s, t, pos);
    }
  }

  lemma ReceiveStepFin(server: bool, s: seq<byte>, t: seq<byte>, pos: nat)
    requires pos < |s| && AgreeFrom(s, t, pos + 1) && t[pos] == s[pos] ^ 0x80
    ensures ReceiveStep(true, false, server, t, pos) == ReceiveStep(true, false, server, s, pos)
  {
    ParseFrameFin(server, s, t, pos);
    ActIgnoresFin(ParseFrame(server, s, pos), |s|);
    calc {
      ReceiveStep(true, false, server, t, pos);
      Act(ParseFrame(server, t, pos), |t|);
      Act(FlipFin(ParseFrame(server, s, pos)), |s|);
      Act(ParseFrame(server, s, pos), |s|);
      ReceiveStep(true, false, server, s, pos);
    }
  }

  lemma ActIgnoresFin(r: Parse, n: nat)
    ensures Act(FlipFin(r), n) == Act(r, n)
  {
    if r.Parsed? {
      assert Dispatch(r.frame.(fin := !r.frame.fin), r.next) == Dispatch(r.frame, r.next);
    }
  }



  /** Before the handshake nothing is read: `receive` raises and the position stays. */
  lemma ReceiveNeedsHandshake(closed: bool, server: bool, s: seq<byte>, pos: nat)
    requires pos <= |s|
    ensures ReceiveStep(false, closed, server, s, pos) == Step(Failure(NotHandshaked), pos, NoEffect)
  {
  }
}

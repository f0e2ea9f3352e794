# Net::WS in Dafny

A model of `Net::WS` (lib/ws.rb), a small blocking WebSocket client for Ruby. It uses
the opening handshake and base framing of RFC 6455 and the client key of
draft-hixie-thewebsocketprotocol-76. The model covers four parts of the class:

- **Frame encoder.** `send_frame` and `write_byte` build one frame in a buffer:
  - FIN and the opcode;
  - the mask bit and a 7-, 16- or 64-bit payload length;
  - an optional 4-octet masking key;
  - the payload.

  The frame goes to the socket in one `write`.
- **Frame decoder.** `receive` reads one frame from the socket, unmasks it and acts on
  its opcode. A short read anywhere (`read`) makes it return nil.
- **Handshake gate.** A connection is usable only once the server's
  `Sec-WebSocket-Accept` value equals the digest of the client's key. `send` and
  `receive` refuse to run before that.
- **Key generator.** `generate_key` produces the client key: the decimal form of
  `number * spaces`, with noise characters and then spaces inserted, and the result
  Base64-encoded.

Layout:

| file | module | contents |
|---|---|---|
| wrappers.dfy | `Wrappers` | `Option`, `Result`, `Outcome` |
| bytes.dfy | `Bytes` | octets, big-endian packing (`pack("n")`, `pack("N")`), masking (section 5.3 of RFC 6455) |
| text.dfy | `Text` | insertion into strings, filtering, decimal text, `chop`, newline removal |
| http.dfy | `Http` | `initheader`, the upgrade request, `security_digest`, the accept check |
| errors.dfy | `Errors` | the errors raised, with their messages |
| keygen.dfy | `HixieKey` | `NOISE_CHARS` and `generate_key` |
| frames.dfy | `Frames` | the frame format as pure functions: encoder, parser, opcode dispatch, one `receive` step |
| connection.dfy | `Connection` | class `WS`: the socket cursor, the writes, `@handshaked`, the closed state, and the methods `read`, `write`, `send_frame`, `send`, `receive`, `close` and the handshake |

The socket's incoming data is the sequence `WS.input`. `WS.pos` records how far it has
been read. `WS.writes` holds the data of each `write` call in order. The methods of `WS`
are imperative, as in the source. `Receive` and `SendFrame` are proved equal to the pure
`Frames.ReceiveStep` and `Frames.EncodeFrame`, and the protocol properties are proved
about those functions.

## Model

| member | source | states |
|---|---|---|
| Bytes.BigEndianRoundTrip | lib/ws.rb:98-103 | unpacking what `pack("n")`/`pack("N")` wrote at a width gives back the number |
| Bytes.FromBigEndianRoundTrip | lib/ws.rb:98-103 | any octet string unpacks to a value below 256^width that packs back to the same octets |
| Bytes.BigEndian | lib/ws.rb:159-162 | `pack("n")` and `pack("N")` of a number below 256^width give exactly `width` octets |
| Bytes.FromBigEndian | lib/ws.rb:98-103 | `unpack("n")` and `unpack("N")` read octets most significant first; its meaning is fixed by the two round-trip lemmas |
| Bytes.ApplyMask | lib/ws.rb:167 | masking keeps the payload length; octet `i` is XORed with key octet `i mod 4` |
| Bytes.MaskInvolution | lib/ws.rb:112 | masking twice with the same 4-octet key gives back the payload (masking keeps the length), which is what lets `receive` undo the mask of `send_frame` |
| Text.Decimal | lib/ws.rb:191 | `to_s` of a natural number is a non-empty string of digits with no leading zero (only 0 itself starts with "0") |
| Text.ParseDecimalOfDecimal | lib/ws.rb:191 | reading the decimal text of `n` back as a number gives `n` |
| Text.Chop | lib/ws.rb:201 | `chop` gives a prefix of its argument: the empty string stays empty; otherwise exactly the last character is dropped, or both characters of a trailing CR LF pair, which is always dropped whole |
| Text.RemoveNewlines | lib/ws.rb:205 | `gsub(/\n/, "")` leaves no line break, and a string without one comes back unchanged |
| Text.RemoveNewlinesConcat | lib/ws.rb:205 | removing line breaks from a concatenation is removing them from each part and concatenating |
| Text.RemoveNewlinesChar | lib/ws.rb:205 | a single character is dropped exactly when it is a line break |
| Http.RequestPath | lib/ws.rb:53 | the request path is never empty: "/" for an empty URI path, the path itself otherwise |
| Http.InitHeader | lib/ws.rb:177-185 | exactly the five upgrade headers, with the key, version "13" and origin given |
| Http.HandshakeRequest | lib/ws.rb:49-53 | a GET whose path is the URI's path, or "/" when that is empty, carrying the `initheader` headers for origin `http://host` |
| Http.SecurityDigest | lib/ws.rb:204-206 | the expected accept value holds no line break, and equals the encoded digest of key and GUID whenever that holds none |
| Http.DigestDropsTrailingNewline | lib/ws.rb:204-206 | when the encoded digest is a line-free text followed by the one line break `Base64.encode64` ends with, the expected accept value is that text |
| Http.Accepts | lib/ws.rb:54 | a reply passes only with an accept header free of line breaks, and a reply whose accept header is the line-free encoded digest passes |
| Errors.Message | lib/ws.rb:88-125 | the text each error carries: the accept mismatch of line 55, the handshake-first text of line 88, unmasked data (108), binary (117) and ping (122) unsupported, the unknown opcode in decimal (125), and Ruby's `RangeError` text for a `read` length of 2^63 or more (111) |
| Errors.UnknownOpcodeNamed | lib/ws.rb:125 | the unknown-opcode message is the fixed prefix followed by digits that read back as the opcode |
| HixieKey.NoiseCharsShape | lib/ws.rb:39 | `NOISE_CHARS` has 84 characters, none a digit or a space |
| HixieKey.CharRange | lib/ws.rb:39 | a character range holds each code from `lo` to `hi` once, in order |
| HixieKey.WithNoise | lib/ws.rb:192-196 | each noise insertion lengthens the key by one |
| HixieKey.WithSpaces | lib/ws.rb:197-200 | each space insertion lengthens the key by one |
| HixieKey.ValidDraws | lib/ws.rb:188-199 | the ranges of the draws: 1 to 12 spaces, `number` up to `0xffffffff / spaces`, 1 to 12 noise draws, each one of the 84 noise characters at a position inside the key built so far, and one interior position per space, never first or last |
| HixieKey.KeyMaterial | lib/ws.rb:188-200 | the key before Base64 has one character per digit of `number * spaces`, per noise draw and per space |
| HixieKey.GenerateKey | lib/ws.rb:187-202 | the two in-place insertion loops produce exactly the specified key material, which is then Base64-encoded and chopped |
| HixieKey.InsertNoise | lib/ws.rb:192-196 | the first `times` loop, inserting in place, leaves exactly `WithNoise` of the digits |
| HixieKey.InsertSpaces | lib/ws.rb:197-200 | the second `times` loop, inserting in place, leaves exactly `WithSpaces` of the noisy key |
| HixieKey.NoiseFilters | lib/ws.rb:192-196 | noise insertion keeps the digits in order, adds one noise character per draw and adds no space |
| HixieKey.SpaceFilters | lib/ws.rb:197-200 | space insertion keeps the first and last characters, the digits and the noise, and adds one space per draw |
| HixieKey.KeyTextShape | lib/ws.rb:192-200 | after both insertion loops the digits read in order, there is one noise character per noise draw and one space per space draw, and neither the first nor the last character is a space |
| HixieKey.KeyMaterialShape | lib/ws.rb:188-200 | the key before Base64 has exactly `spaces` spaces, none first or last, and 1 to 12 noise characters; its digits spell `number * spaces`, which is at most 0xffffffff and a multiple of `spaces` |
| HixieKey.ProductBound | lib/ws.rb:188-191 | drawing `number` up to `0xffffffff / spaces` keeps `number * spaces` within 32 bits and divisible by `spaces` |
| HixieKey.KeyNumberRecoverable | lib/ws.rb:188-200 | dividing the number spelled by the key's digits by its count of spaces gives back the drawn `number` |
| Frames.EncodeFrame | lib/ws.rb:150-171 | the frame is the header (2, 4 or 10 octets), then 4 key octets when masking, then as many octets as the payload |
| Frames.LengthField | lib/ws.rb:154-163 | the length field is one octet for lengths up to 125, three below 2^16 and nine otherwise |
| Frames.FirstOctet | lib/ws.rb:153 | the first octet (bit 7 OR the opcode) has FIN set and reads back (lines 93-94) as the opcode |
| Frames.SecondOctet | lib/ws.rb:154-161 | the second octet reads back (lines 95-96) as the mask bit and the 7-bit length code |
| Frames.LengthFieldShape | lib/ws.rb:154-163 | the length field has the mask bit and the length code (`len`, 126 or 127), then 0, 2 or 8 big-endian octets; the 8 are `len / 2^32` and `len % 2^32` |
| Frames.EncodeLayout | lib/ws.rb:150-171 | full layout of a frame: FIN and opcode; mask bit; the 125/65535 length thresholds with exact extended octets; exactly 4 key octets when masked; then exactly `len` payload octets, masked with that key |
| Frames.ReadLength | lib/ws.rb:96-104 | the length read fails exactly when the 2 or 8 extended octets are not all there; it never moves back or past the end |
| Frames.ReadLength16 | lib/ws.rb:97-99 | code 126 followed by a packed 16-bit length reads back as that length |
| Frames.ReadLength64 | lib/ws.rb:100-103 | for every length below 2^64, code 127 followed by the two packed 32-bit halves reads back as `high * 2^32 + low`, the length |
| Frames.ReadLengthOfEncoded | lib/ws.rb:97-104 | the length field the encoder writes reads back as the payload length, or as a short read when the stream ends inside it |
| Frames.ParseFrameShape | lib/ws.rb:92-104 | fewer than two octets is a short read; otherwise reading stops after the header and inside the stream; an unmasked stop happens only in server role with the mask bit clear; a parsed frame's FIN, opcode and key presence are the header bits |
| Frames.ParseAfterHead | lib/ws.rb:95-104 | after the first two octets reading never moves back or past the end; an unmasked stop needs server role and a clear mask bit; a parsed frame carries the FIN and opcode bits of the first octet and a key exactly when the mask bit is set |
| Frames.ParseBody | lib/ws.rb:105-112 | the part after the length stops at once exactly when the frame is unmasked in server role; a whole frame ends inside the stream; an oversized length stops reading after the key, inside the stream |
| Frames.PayloadAt | lib/ws.rb:110-112 | a length of 2^63 or more is refused before anything is read; otherwise the payload read is short exactly when fewer than `len` octets remain, and the frame ends right after `len` octets and carries `len` payload octets |
| Frames.ParseEncoded | lib/ws.rb:92-112 | decoding an encoded frame gives FIN, the opcode, the key and exactly the payload back, ending right after the frame; a frame cut short reads as a short read; in server role an unmasked frame stops after the length field |
| Frames.Dispatch | lib/ws.rb:113-126 | text returns the payload and only text returns data; close and pong return nil, and only close closes the connection; binary, ping and every other opcode raise; the read position is kept |
| Frames.ContinuationUnsupported | lib/ws.rb:113-125 | a continuation frame (opcode 0, line 40) falls to the `else` branch and raises the unknown-opcode error |
| Frames.ShortReadIsNil | lib/ws.rb:127-128 | when the stream ends inside a frame, `receive` returns nil and consumes the rest of the stream |
| Frames.OversizedRaises | lib/ws.rb:100-111 | a 64-bit length of 2^63 or more makes `read(plength)` (line 77) raise `RangeError`, which `rescue EOFError` (line 127) lets through: `receive` raises with the position after the length field, or after the key when masked |
| Frames.ReceiveStep | lib/ws.rb:86-130 | one `receive` never moves the read position back or past the end; closing the socket goes with the unmasked-data error, and the peer's close with nil |
| Frames.Act | lib/ws.rb:105-128 | reading stops where the parse stopped, or at the end of the stream on a short read; the socket is closed exactly for an unmasked frame, with the unmasked-data error; an oversized length raises `RangeError` (not rescued); outside the dispatch, nil means a short read; the peer's close comes with nil |
| Frames.ReceiveEncoded | lib/ws.rb:113-126 | receiving an encoded frame: text gives the payload; close gives nil and a peer close; pong gives nil; binary and ping give their errors; any other opcode gives the unknown-opcode error; the position ends after the frame |
| Frames.TextRoundTrip | lib/ws.rb:92-115 | decoding `send_frame(OPCODE_TEXT, p, m)` gives `p` exactly, masked or not, at every length |
| Frames.ReceiveTruncated | lib/ws.rb:76-84 | a frame cut short anywhere (header, extended length, key or payload) gives nil, not an error, and the read position stops at the end of the stream |
| Frames.ServerRejectsUnmasked | lib/ws.rb:105-109 | in server role an unmasked frame as `send_frame` writes it closes the socket and raises, before any key or payload octet is read |
| Frames.ServerRejectsAnyUnmasked | lib/ws.rb:105-109 | in server role every unmasked frame, whatever its FIN, reserved bits or length form, closes the socket and raises once its length field is read |
| Frames.ParseFrameFin | lib/ws.rb:93 | flipping the FIN bit of a frame changes only the parsed FIN flag |
| Frames.FinIgnored | lib/ws.rb:93 | flipping the FIN bit never changes the outcome of `receive` |
| Frames.ReceiveNeedsHandshake | lib/ws.rb:87-88 | before the handshake `receive` raises and reads nothing |
| Connection.WriteByte | lib/ws.rb:173-175 | `write_byte` appends exactly the one octet to the buffer |
| Connection.WS.constructor | lib/ws.rb:47 | a new connection has its role and stream, has read and written nothing, and is neither handshaked nor closed |
| Connection.WS.Handshake | lib/ws.rb:54-57 | `@handshaked` is set exactly when the accept value equals `security_digest(key)`; otherwise the mismatch error carries the reply and nothing changes |
| Connection.WS.Open | lib/ws.rb:47-58 | `initialize` yields a fresh, handshaked connection exactly when the reply to the request carrying the generated key passes the check; otherwise the mismatch error carries the reply |
| Connection.WS.Close | lib/ws.rb:119 | `close` closes the socket and records the code, reason and origin |
| Connection.WS.Read | lib/ws.rb:76-84 | `read(n)` gives exactly the next `n` octets; a length of 2^63 or more fails first and reads nothing; a short read fails and consumes the rest of the stream; a closed socket fails and reads nothing |
| Connection.WS.Write | lib/ws.rb:132-140 | one `write` appends its data as one entry; on a closed socket it fails and writes nothing |
| Connection.WS.SendFrame | lib/ws.rb:150-171 | the buffer built octet by octet is the encoded frame, written in one call |
| Connection.WS.WriteHeader | lib/ws.rb:153-163 | the octets written before the key are the FIN-and-opcode octet followed by `Frames.LengthField` |
| Connection.WS.Send | lib/ws.rb:142-148 | before the handshake `send` raises and writes nothing; afterwards it writes one unmasked text frame of `data` |
| Connection.WS.ReadLengthField | lib/ws.rb:96-104 | the extended-length reads give `Frames.ReadLength`'s value and position, or a short read at the end of the stream |
| Connection.WS.ReadFrameBody | lib/ws.rb:105-112 | the key and payload reads give `Frames.ParseBody`'s result and position |
| Connection.WS.ReadPayload | lib/ws.rb:111-112 | the payload read and its unmasking give `Frames.PayloadAt`'s result and position |
| Connection.WS.ReadFrame | lib/ws.rb:92-112 | the reads of one frame give `Frames.ParseFrame`'s result and position |
| Connection.WS.ReadAfterHead | lib/ws.rb:95-112 | the reads after the first two octets give `Frames.ParseAfterHead`'s result and position |
| Connection.WS.Receive | lib/ws.rb:86-130 | `receive` returns what `Frames.ReceiveStep` says; position, closed flag and close record change as that step says and nothing else changes |

## Left out

- Network I/O (lib/ws.rb:52-53, 58). The model does not open the HTTP connection, send the request or take the raw socket from `Net::HTTP`. The server's reply is the function `respond` applied to the request. The socket is the stream `input`.
- SHA-1 and Base64 (lib/ws.rb:201, 205) are library calls outside the model. `Base64.encode64(Digest::SHA1.digest(_))` is the parameter `encodedSha1`, and `Base64.encode64` is the parameter `encode64`. The concatenation with the GUID, `gsub(/\n/, "")` and `chop` are modelled.
- Randomness (lib/ws.rb:165, 188-199). Every `rand` draw is a parameter, and `HixieKey.ValidDraws` gives the ranges the source draws from. The mask key of `send_frame` is the argument `maskKey`.
- The background thread that feeds received messages to the caller's block (lib/ws.rb:60-66) is concurrency. Only single `receive` calls are modelled.
- Debug printing (lib/ws.rb:72, 78, 133-138) has no protocol effect. `gets` (lib/ws.rb:70-74) is never called.
- The StringIO encoding (lib/ws.rb:151-152) is not modelled. The buffer is raw octets.
- samples/stdio_client.rb is not part of this model. It is a command-line driver that only calls `new`, `send` and `close`.
- Connection.WS.SendFrame: requires the payload to be shorter than 2^63 octets. A Ruby String's `bytesize` is a signed 64-bit integer, so no longer payload exists. Under this bound `pack("NN")` never truncates.
- Connection.WS.Close: `close` is not defined in lib/ws.rb. It is modelled as closing the socket and recording code 1005, an empty reason and the peer as origin (section 7.4.1 of RFC 6455).
- `apply_mask` is called at lib/ws.rb:112 and 167 but not defined there. It is modelled as the masking of section 5.3 of RFC 6455.
- Connection.WS.Read: a length below 2^63 that no buffer can hold makes `IO#read` raise `NoMemoryError` when it allocates the buffer. The model has no memory bound, so such a read is a short read that gives nil.
- Errors.Message: `WebSocket::Error` is not defined in lib/ws.rb. Binary, ping and unknown opcodes are modelled as the errors their messages describe.
- Frames.ReceiveStep: reading from a socket that is already closed raises Ruby's `IOError`, which `receive` does not rescue. This is modelled as the `ClosedStream` error, with nothing read.
- Connection.WS.Open: `@server` is never assigned in lib/ws.rb, so the source always runs in client role. The role is a parameter here so that the server-side check at lib/ws.rb:105-109 is reachable.
- Http.Accepts: `Net::HTTP` looks up header names case-insensitively. Reply headers are modelled as stored under lower-case names.
- `NOISE_CHARS` (lib/ws.rb:39) is `"\x21".."\x2f"` followed by `"\x3a".."\x7e"`, so it includes letters. The model follows the code.
- Fragmentation is not reassembled: the source reads FIN and ignores it, and so does the model (`Frames.FinIgnored`). Opcode 0 (continuation) has no case in the source and gives the unknown-opcode error.
- `send` never masks (lib/ws.rb:146). A server-role reader therefore rejects every frame `send` writes: `Frames.ServerRejectsUnmasked` states this. The model keeps the source's behaviour.

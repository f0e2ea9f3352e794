/**
  The data of the opening handshake (section 4.1 of RFC 6455): the upgrade request the
  client sends and the check it applies to the server's `Sec-WebSocket-Accept` value
  (section 4.2.2 of RFC 6455). The HTTP exchange itself is not modelled; the response is
  a value handed in by the caller.
 */
module Http {
  import opened Text

  const WSVersion: string := "13"
  const WsMagicString: string := "258EAFA5-E914-47DA-95CA-C5AB0DC85B11"

  /** The header the accept value is looked up under; Net::HTTP matches header names case-insensitively. */
  const AcceptHeader: string := "sec-websocket-accept"

  /** The parts of the URI the handshake uses; the port only matters to the HTTP connection, which is outside the model. */
  datatype Uri = Uri(host: string, path: string)

  datatype Request = Request(verb: string, path: string, headers: map<string, string>)

  /** A server reply, with header names stored lower-case. */
  datatype Response = Response(headers: map<string, string>)

  /** The request target: the URI's path, or "/" when the path is empty. */
  function RequestPath(path: string): (r: string)
    ensures r != []
    ensures path != [] ==> r == path
  {
    if path == [] then "/" else path
  }

  /** `initheader`: the five upgrade headers of the client's opening handshake. */
  function InitHeader(key: string, origin: string): (h: map<string, string>)
    ensures h.Keys == {"Upgrade", "Connection", "Sec-WebSocket-Key", "Sec-WebSocket-Version", "Origin"}
    ensures h["Upgrade"] == "websocket" && h["Connection"] == "Upgrade"
    ensures h["Sec-WebSocket-Key"] == key && h["Sec-WebSocket-Version"] == WSVersion
    ensures h["Origin"] == origin
  {
    map["Upgrade" := "websocket",
        "Connection" := "Upgrade",
        "Sec-WebSocket-Key" := key,
        "Sec-WebSocket-Version" := WSVersion,
        "Origin" := origin]
  }

  /** The GET request that `initialize` sends for `uri`, carrying the client key `key`. */
  function HandshakeRequest(uri: Uri, key: string): (r: Request)
    ensures r.verb == "GET" && r.path != []
    ensures r.path == RequestPath(uri.path)
    ensures r.headers == InitHeader(key, "http://" + uri.host)
  {
    Request("GET", RequestPath(uri.path), InitHeader(key, "http://" + uri.host))
  }

  /**
    `security_digest`: the Base64 text of the SHA-1 digest of the key followed by the
    magic GUID, with the line breaks of Ruby's `Base64.encode64` removed. `encodedSha1`
    stands for `Base64.encode64(Digest::SHA1.digest(_))`, a library call outside the model.
   */
  function SecurityDigest(encodedSha1: string -> string, key: string): (r: string)
    ensures forall i :: 0 <= i < |r| ==> r[i] != '\n'
    ensures var e := encodedSha1(key + WsMagicString);
      (forall i :: 0 <= i < |e| ==> e[i] != '\n') ==> r == e
  {
    RemoveNewlines(encodedSha1(key + WsMagicString))
  }

  /**
    `Base64.encode64` of a 20-octet SHA-1 digest is 28 characters and one trailing line
    break; the digest is those 28 characters, with the line break dropped.
   */
  lemma DigestDropsTrailingNewline(encodedSha1: string -> string, key: string, d: string)
    requires encodedSha1(key + WsMagicString) == d + "\n"
    requires forall i :: 0 <= i < |d| ==> d[i] != '\n'
    ensures SecurityDigest(encodedSha1, key) == d
  {
    RemoveNewlinesConcat(d, "\n");
    RemoveNewlinesChar('\n');
    assert d + [] == d;
  }

  /**
    The response carries an accept value and it equals the digest of the key. A value
    holding a line break never passes; a value equal to the line-free encoded digest does.
   */
  predicate Accepts(response: Response, encodedSha1: string -> string, key: string)
    ensures Accepts(response, encodedSha1, key) ==>
      AcceptHeader in response.headers && '\n' !in response.headers[AcceptHeader]
    ensures var e := encodedSha1(key + WsMagicString);
      (AcceptHeader in response.headers && response.headers[AcceptHeader] == e && '\n' !in e) ==>
        Accepts(response, encodedSha1, key)
  {
    AcceptHeader in response.headers && response.headers[AcceptHeader] == SecurityDigest(encodedSha1, key)
  }
}

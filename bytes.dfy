/**
  Raw octets, the big-endian integer packing used by Ruby's `pack("n")`, `pack("N")`
  and their `unpack` counterparts, and the payload masking of section 5.3 of RFC 6455.
 */
module Bytes {

  type byte = bv8

  /** A masking key is exactly four octets. */
  type MaskKey = k: seq<byte> | |k| == 4 witness [0, 0, 0, 0]

  /**
    The octet whose value is `n` (Ruby's `pack("C")` of a value below 256). It is the
    unique octet with that value, so the solver reasons about its value alone and not
    about the conversion from integers.
   */
  function Octet(n: int): (b: byte)
    requires 0 <= n < 256
    ensures b as int == n
  {
    ByteValue(n);
    var b: byte :| b as int == n;
    b
  }

  function Pow256(width: nat): (r: nat)
    ensures r >= 1
  {
    if width == 0 then 1 else 256 * Pow256(width - 1)
  }

  lemma Pow256Widths()
    ensures Pow256(2) == 0x1_0000 && Pow256(4) == 0x1_0000_0000
  {
    assert Pow256(1) == 256;
    assert Pow256(3) == 0x100_0000;
  }

  /** `n` as `width` octets, most significant first (`pack("n")` for width 2, `pack("N")` for width 4). */
  function BigEndian(n: nat, width: nat): (r: seq<byte>)
    requires n < Pow256(width)
    ensures |r| == width
  {
    if width == 0 then [] else BigEndian(n / 256, width - 1) + [Octet(n % 256)]
  }

  /** The unsigned value of octets read most significant first (`unpack("n")`, `unpack("N")`). */
  function FromBigEndian(s: seq<byte>): (r: nat)
  {
    if s == [] then 0 else FromBigEndian(s[..|s| - 1]) * 256 + s[|s| - 1] as nat
  }

  lemma {:induction false} BigEndianRoundTrip(n: nat, width: nat)
    requires n < Pow256(width)
    ensures FromBigEndian(BigEndian(n, width)) == n
  {
    if width > 0 {
      var q, m := n / 256, n % 256;
      DivMod256(n, width);
      var init := BigEndian(q, width - 1);
      BigEndianRoundTrip(q, width - 1);
      FromBigEndianSnoc(init, Octet(m));
    }
  }

  /** Appending a low octet: the value is shifted by one octet and the octet added. */
  lemma FromBigEndianSnoc(s: seq<byte>, b: byte)
    ensures FromBigEndian(s + [b]) == FromBigEndian(s) * 256 + b as int
  {
    assert (s + [b])[..|s|] == s;
  }

  /** Splitting off the low octet of a number below 256^width. */
  lemma DivMod256(n: nat, width: nat)
    requires 0 < width && n < Pow256(width)
    ensures n == (n / 256) * 256 + n % 256 && n % 256 < 256 && n / 256 < Pow256(width - 1)
  {
  }

  /**
    A number below 256 converts to the octet of the same value. The split into ranges of
    eight values keeps the solver's search over the conversion small.
   */
  lemma ByteValue(m: int)
    requires 0 <= m < 256
    ensures (m as byte) as int == m
  {
    if m < 8 {} else if m < 16 {} else if m < 24 {} else if m < 32 {}
    else if m < 40 {} else if m < 48 {} else if m < 56 {} else if m < 64 {}
    else if m < 72 {} else if m < 80 {} else if m < 88 {} else if m < 96 {}
    else if m < 104 {} else if m < 112 {} else if m < 120 {} else if m < 128 {}
    else if m < 136 {} else if m < 144 {} else if m < 152 {} else if m < 160 {}
    else if m < 168 {} else if m < 176 {} else if m < 184 {} else if m < 192 {}
    else if m < 200 {} else if m < 208 {} else if m < 216 {} else if m < 224 {}
    else if m < 232 {} else if m < 240 {} else if m < 248 {} else {}
  }

  /** An octet converts to a number and back to itself. */
  lemma OctetValue(b: byte)
    ensures 0 <= b as int < 256 && (b as int) as byte == b
  {
  }

  lemma {:induction false} FromBigEndianBound(s: seq<byte>)
    ensures FromBigEndian(s) < Pow256(|s|)
  {
    if s != [] {
      FromBigEndianBound(s[..|s| - 1]);
    }
  }

  /** Unpacking then packing at the same width gives back the octets: both directions of the round trip. */
  lemma {:induction false} FromBigEndianRoundTrip(s: seq<byte>)
    ensures FromBigEndian(s) < Pow256(|s|) && BigEndian(FromBigEndian(s), |s|) == s
  {
    FromBigEndianBound(s);
    if s != [] {
      var init := s[..|s| - 1];
      FromBigEndianRoundTrip(init);
      var n := FromBigEndian(s);
      var last := s[|s| - 1];
      assert n == FromBigEndian(init) * 256 + last as int;
      assert n / 256 == FromBigEndian(init) && n % 256 == last as int;
      OctetValue(last);
      OctetValue(Octet(n % 256));
      assert s == init + [s[|s| - 1]];
    }
  }

  /** XOR of payload octet `i` with key octet `i mod 4` (section 5.3 of RFC 6455). */
  function ApplyMask(payload: seq<byte>, key: MaskKey): (r: seq<byte>)
    ensures |r| == |payload|
  {
    seq(|payload|, i requires 0 <= i < |payload| => payload[i] ^ key[i % 4])
  }

  /** Masking with the same key twice gives the payload back. */
  lemma MaskInvolution(payload: seq<byte>, key: MaskKey)
    ensures ApplyMask(ApplyMask(payload, key), key) == payload
  {
    var once := ApplyMask(payload, key);
    var twice := ApplyMask(once, key);
    forall i | 0 <= i < |payload|
      ensures twice[i] == payload[i]
    {
      assert twice[i] == (payload[i] ^ key[i % 4]) ^ key[i % 4];
    }
  }
}

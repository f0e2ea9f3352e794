/**
  `generate_key`: the client key of draft-hixie-thewebsocketprotocol-76 (section 4.1 of
  that draft). The decimal form of `number * spaces` gets 1 to 12 noise characters at
  arbitrary positions and then `spaces` spaces at interior positions, and the result is
  Base64-encoded. Every random draw of the source is a parameter here.
 */
module HixieKey {
  import opened Text

  /** `NOISE_CHARS`: the characters 0x21-0x2f followed by 0x3a-0x7e. */
  const NoiseChars: string := CharRange(0x21, 0x2f) + CharRange(0x3a, 0x7e)

  /** Ruby's `(lo.chr..hi.chr).to_a`. */
  function CharRange(lo: nat, hi: nat): (r: string)
    requires lo <= hi < 0xD800
    ensures |r| == hi - lo + 1
    ensures forall i :: 0 <= i < |r| ==> r[i] as nat == lo + i
  {
    seq(hi - lo + 1, i requires 0 <= i < hi - lo + 1 => (lo + i) as char)
  }

  predicate IsNoise(c: char) { '!' <= c <= '/' || ':' <= c <= '~' }

  /** There are 84 noise characters, none a digit or a space. */
  lemma NoiseCharsShape()
    ensures |NoiseChars| == 84
    ensures forall i :: 0 <= i < |NoiseChars| ==>
      IsNoise(NoiseChars[i]) && !IsDigit(NoiseChars[i]) && !IsSpace(NoiseChars[i])
  {
    var a, b := CharRange(0x21, 0x2f), CharRange(0x3a, 0x7e);
    forall i | 0 <= i < |NoiseChars|
      ensures IsNoise(NoiseChars[i]) && !IsDigit(NoiseChars[i]) && !IsSpace(NoiseChars[i])
    {
      if i < |a| {
        assert NoiseChars[i] == a[i];
      } else {
        assert NoiseChars[i] == b[i - |a|];
      }
    }
  }

  /** One noise insertion: `NOISE_CHARS[charIndex]` inserted at `pos`. */
  datatype NoiseDraw = NoiseDraw(charIndex: nat, pos: nat)

  /** Every noise draw is in range for the string it is applied to, `base` characters plus those inserted before it. */
  predicate NoiseInRange(base: nat, noise: seq<NoiseDraw>)
  {
    forall i :: 0 <= i < |noise| ==> noise[i].charIndex < 84 && noise[i].pos <= base + i
  }

  /** Every space draw `d` gives an interior position `1 + d` of the string it is applied to. */
  predicate SpacesInRange(base: nat, draws: seq<nat>)
  {
    forall j :: 0 <= j < |draws| ==> draws[j] + 1 < base + j
  }

  /** The ranges `generate_key` draws from: `1 + rand(12)` spaces, `rand(max + 1)` for the number, and so on. */
  predicate ValidDraws(spaces: nat, number: nat, noise: seq<NoiseDraw>, spaceDraws: seq<nat>)
  {
    1 <= spaces <= 12 && number <= 0xffffffff / spaces &&
    1 <= |noise| <= 12 && NoiseInRange(|Decimal(number * spaces)|, noise) &&
    |spaceDraws| == spaces && SpacesInRange(|Decimal(number * spaces)| + |noise|, spaceDraws)
  }

  /** `digits` after the noise insertions, in the order they are made. */
  function WithNoise(digits: string, noise: seq<NoiseDraw>): (r: string)
    requires NoiseInRange(|digits|, noise)
    ensures |r| == |digits| + |noise|
    decreases |noise|
  {
    if noise == [] then digits
    else
      var last := noise[|noise| - 1];
      assert NoiseChars == CharRange(0x21, 0x2f) + CharRange(0x3a, 0x7e);
      Insert(WithNoise(digits, noise[..|noise| - 1]), last.pos, NoiseChars[last.charIndex])
  }

  /** `s` after the space insertions, in the order they are made. */
  function WithSpaces(s: string, draws: seq<nat>): (r: string)
    requires SpacesInRange(|s|, draws)
    ensures |r| == |s| + |draws|
    decreases |draws|
  {
    if draws == [] then s
    else Insert(WithSpaces(s, draws[..|draws| - 1]), 1 + draws[|draws| - 1], ' ')
  }

  /** The key before Base64 encoding. */
  function KeyMaterial(spaces: nat, number: nat, noise: seq<NoiseDraw>, spaceDraws: seq<nat>): (r: string)
    requires ValidDraws(spaces, number, noise, spaceDraws)
    ensures |r| == |Decimal(number * spaces)| + |noise| + spaces
  {
    WithSpaces(WithNoise(Decimal(number * spaces), noise), spaceDraws)
  }

  /**
    `generate_key`, with `encode64` standing for `Base64.encode64`. The two loops insert
    into the key in place, as the source's `times` blocks do.
   */
  method GenerateKey(encode64: string -> string, spaces: nat, number: nat,
                     noise: seq<NoiseDraw>, spaceDraws: seq<nat>) returns (key: string)
    requires ValidDraws(spaces, number, noise, spaceDraws)
    ensures key == Chop(encode64(KeyMaterial(spaces, number, noise, spaceDraws)))
  {
    var digits := Decimal(number * spaces);
    var noisy := InsertNoise(digits, noise);
    var k := InsertSpaces(noisy, spaceDraws);
    key := Chop(encode64(k));
  }

  /** The first `times` block: one noise character inserted per draw. */
  method InsertNoise(digits: string, noise: seq<NoiseDraw>) returns (k: string)
    requires NoiseInRange(|digits|, noise)
    ensures k == WithNoise(digits, noise)
  {
    k := digits;
    var i := 0;
    while i < |noise|
      invariant 0 <= i <= |noise|
      invariant k == WithNoise(digits, noise[..i])
    {
      assert noise[..i + 1][..i] == noise[..i];
      assert WithNoise(digits, noise[..i + 1]) ==
        Insert(WithNoise(digits, noise[..i]), noise[i].pos, NoiseChars[noise[i].charIndex]);
      var ch := NoiseChars[noise[i].charIndex];
      var pos := noise[i].pos;
      k := Insert(k, pos, ch);
      i := i + 1;
    }
    assert noise[..|noise|] == noise;
  }

  /** The second `times` block: one space inserted per draw. */
  method InsertSpaces(s: string, draws: seq<nat>) returns (k: string)
    requires SpacesInRange(|s|, draws)
    ensures k == WithSpaces(s, draws)
  {
    k := s;
    var j := 0;
    while j < |draws|
      invariant 0 <= j <= |draws|
      invariant k == WithSpaces(s, draws[..j])
    {
      assert draws[..j + 1][..j] == draws[..j];
      assert WithSpaces(s, draws[..j + 1]) == Insert(WithSpaces(s, draws[..j]), 1 + draws[j], ' ');
      var pos := 1 + draws[j];
      k := Insert(k, pos, ' ');
      j := j + 1;
    }
    assert draws[..|draws|] == draws;
  }

  /** Noise insertions keep the digits in order, add exactly one noise character each and no space. */
  lemma {:induction false} NoiseFilters(digits: string, noise: seq<NoiseDraw>)
    requires forall i :: 0 <= i < |digits| ==> IsDigit(digits[i])
    requires NoiseInRange(|digits|, noise)
    ensures Filter(WithNoise(digits, noise), IsDigit) == digits
    ensures |Filter(WithNoise(digits, noise), IsNoise)| == |noise|
    ensures Filter(WithNoise(digits, noise), IsSpace) == []
    ensures forall i :: 0 <= i < |WithNoise(digits, noise)| ==> !IsSpace(WithNoise(digits, noise)[i])
    decreases |noise|
  {
    if noise == [] {
      FilterAll(digits, IsDigit);
      FilterNone(digits, IsNoise);
      FilterNone(digits, IsSpace);
    } else {
      var init := noise[..|noise| - 1];
      var last := noise[|noise| - 1];
      NoiseFilters(digits, init);
      NoiseCharsShape();
      var c := NoiseChars[last.charIndex];
      var before := WithNoise(digits, init);
      assert WithNoise(digits, noise) == Insert(before, last.pos, c);
      FilterInsert(before, last.pos, c, IsDigit);
      FilterInsert(before, last.pos, c, IsNoise);
      FilterInsert(before, last.pos, c, IsSpace);
    }
  }

  /** Space insertions keep the first and the last character, leave digits and noise alone and add one space each. */
  lemma {:induction false} SpaceFilters(s: string, draws: seq<nat>)
    requires |s| >= 1 && SpacesInRange(|s|, draws)
    ensures var r := WithSpaces(s, draws);
      r[0] == s[0] && r[|r| - 1] == s[|s| - 1] &&
      Filter(r, IsDigit) == Filter(s, IsDigit) &&
      Filter(r, IsNoise) == Filter(s, IsNoise) &&
      |Filter(r, IsSpace)| == |Filter(s, IsSpace)| + |draws|
    decreases |draws|
  {
    if draws != [] {
      var init := draws[..|draws| - 1];
      assert SpacesInRange(|s|, init);
      SpaceFilters(s, init);
      var before := WithSpaces(s, init);
      var pos := 1 + draws[|draws| - 1];
      var r := Insert(before, pos, ' ');
      assert WithSpaces(s, draws) == r;
      assert 1 <= pos < |before|;
      assert r[0] == before[0] && r[|r| - 1] == before[|before| - 1];
      FilterInsert(before, pos, ' ', IsDigit);
      FilterInsert(before, pos, ' ', IsNoise);
      FilterInsert(before, pos, ' ', IsSpace);
    }
  }

  /**
    The key material holds exactly `spaces` spaces, none first or last; between 1 and 12
    noise characters; and its digits, read in order, are the decimal form of
    `number * spaces`, a value that fits in 32 bits and is a multiple of `spaces`.
   */
  lemma KeyMaterialShape(spaces: nat, number: nat, noise: seq<NoiseDraw>, spaceDraws: seq<nat>)
    requires ValidDraws(spaces, number, noise, spaceDraws)
    ensures var m := KeyMaterial(spaces, number, noise, spaceDraws);
      |Filter(m, IsSpace)| == spaces && m[0] != ' ' && m[|m| - 1] != ' ' &&
      1 <= |Filter(m, IsNoise)| <= 12 && |Filter(m, IsNoise)| == |noise| &&
      Filter(m, IsDigit) == Decimal(number * spaces) &&
      number * spaces <= 0xffffffff && (number * spaces) % spaces == 0
  {
    KeyTextShape(Decimal(number * spaces), noise, spaceDraws);
    ProductBound(spaces, number);
  }

  /** The character classes of `digits` after the noise and then the space insertions. */
  lemma KeyTextShape(digits: string, noise: seq<NoiseDraw>, draws: seq<nat>)
    requires |digits| >= 1 && forall i :: 0 <= i < |digits| ==> IsDigit(digits[i])
    requires NoiseInRange(|digits|, noise) && SpacesInRange(|digits| + |noise|, draws)
    ensures var m := WithSpaces(WithNoise(digits, noise), draws);
      |Filter(m, IsSpace)| == |draws| && m[0] != ' ' && m[|m| - 1] != ' ' &&
      |Filter(m, IsNoise)| == |noise| && Filter(m, IsDigit) == digits
  {
    var noisy := WithNoise(digits, noise);
    NoiseFilters(digits, noise);
    assert !IsSpace(noisy[0]) && !IsSpace(noisy[|noisy| - 1]);
    SpaceFilters(noisy, draws);
  }

  lemma ProductBound(spaces: nat, number: nat)
    requires 1 <= spaces && number <= 0xffffffff / spaces
    ensures number * spaces <= 0xffffffff && (number * spaces) % spaces == 0
  {
    var q := 0xffffffff / spaces;
    assert q * spaces <= 0xffffffff;
    MulMonotone(number, q, spaces);
    MulDivExact(number, spaces);
  }

  lemma MulMonotone(a: nat, b: nat, c: nat)
    requires a <= b
    ensures a * c <= b * c
  {
    assert b * c == a * c + (b - a) * c;
  }

  /** Euclidean division of a multiple of `s` by `s` is exact. */
  lemma MulDivExact(n: nat, s: nat)
    requires s > 0
    ensures (n * s) / s == n && (n * s) % s == 0
  {
    var q, r := (n * s) / s, (n * s) % s;
    assert n * s == q * s + r && 0 <= r < s;
    if q < n {
      MulMonotone(q + 1, n, s);
    } else if q > n {
      MulMonotone(n + 1, q, s);
    }
  }

  /**
    What a draft-76 server does with the key: divide the number its digits spell by the
    count of its spaces. It recovers exactly the `number` the client drew.
   */
  lemma KeyNumberRecoverable(spaces: nat, number: nat, noise: seq<NoiseDraw>, spaceDraws: seq<nat>)
    requires ValidDraws(spaces, number, noise, spaceDraws)
    ensures var m := KeyMaterial(spaces, number, noise, spaceDraws);
      var digits := Filter(m, IsDigit);
      (forall i :: 0 <= i < |digits| ==> IsDigit(digits[i])) && |Filter(m, IsSpace)| >= 1 &&
      ParseDecimal(digits) / |Filter(m, IsSpace)| == number
  {
    KeyMaterialShape(spaces, number, noise, spaceDraws);
    ParseDecimalOfDecimal(number * spaces);
    MulDivExact(number, spaces);
  }
}

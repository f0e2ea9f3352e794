/**
  The string operations the client relies on: Ruby's `Integer#to_s`, in-place insertion
  `s[pos...pos] = x`, `String#chop`, `gsub(/\n/, "")`, and filtering by character class.
 */
module Text {

  predicate IsDigit(c: char) { '0' <= c <= '9' }

  predicate IsSpace(c: char) { c == ' ' }

  /** `s` with `x` inserted before index `pos`, as Ruby's `s[pos...pos] = x` does. */
  function Insert<T>(s: seq<T>, pos: nat, x: T): (r: seq<T>)
    requires pos <= |s|
    ensures |r| == |s| + 1 && r[pos] == x
  {
    s[..pos] + [x] + s[pos..]
  }

  /** The characters of `s` that satisfy `keep`, in order. */
  function Filter(s: string, keep: char -> bool): (r: string)
  {
    if s == [] then [] else (if keep(s[0]) then [s[0]] else []) + Filter(s[1..], keep)
  }

  lemma {:induction false} FilterConcat(a: string, b: string, keep: char -> bool)
    ensures Filter(a + b, keep) == Filter(a, keep) + Filter(b, keep)
  {
    if a == [] {
      assert a + b == b;
      assert Filter(a, keep) == [];
    } else {
      var head := if keep(a[0]) then [a[0]] else [];
      assert (a + b)[0] == a[0] && (a + b)[1..] == a[1..] + b;
      assert Filter(a + b, keep) == head + Filter(a[1..] + b, keep);
      assert Filter(a, keep) == head + Filter(a[1..], keep);
      FilterConcat(a[1..], b, keep);
    }
  }

  /** Inserting a character adds it to the filtered string exactly when it is kept. */
  lemma FilterInsert(s: string, pos: nat, c: char, keep: char -> bool)
    requires pos <= |s|
    ensures |Filter(Insert(s, pos, c), keep)| == |Filter(s, keep)| + (if keep(c) then 1 else 0)
    ensures !keep(c) ==> Filter(Insert(s, pos, c), keep) == Filter(s, keep)
  {
    assert s == s[..pos] + s[pos..];
    FilterConcat(s[..pos], s[pos..], keep);
    FilterConcat(s[..pos] + [c], s[pos..], keep);
    FilterConcat(s[..pos], [c], keep);
    assert Filter([c], keep) == if keep(c) then [c] else [] by {
      assert [c][1..] == [];
    }
  }

  /** A string none of whose characters is kept filters to the empty string. */
  lemma {:induction false} FilterNone(s: string, keep: char -> bool)
    requires forall i :: 0 <= i < |s| ==> !keep(s[i])
    ensures Filter(s, keep) == []
  {
    if s != [] {
      FilterNone(s[1..], keep);
    }
  }

  /** A string all of whose characters are kept filters to itself. */
  lemma {:induction false} FilterAll(s: string, keep: char -> bool)
    requires forall i :: 0 <= i < |s| ==> keep(s[i])
    ensures Filter(s, keep) == s
  {
    if s != [] {
      FilterAll(s[1..], keep);
    }
  }

  function DigitChar(d: nat): (c: char)
    requires d < 10
    ensures IsDigit(c)
  {
    ('0' as int + d) as char
  }

  /** Ruby's `Integer#to_s` for a non-negative integer: decimal digits, most significant first. */
  function Decimal(n: nat): (r: string)
    ensures |r| >= 1
    ensures forall i :: 0 <= i < |r| ==> IsDigit(r[i])
    ensures r[0] == '0' ==> n == 0
  {
    if n < 10 then [DigitChar(n)] else Decimal(n / 10) + [DigitChar(n % 10)]
  }

  /** The value of a string of decimal digits. */
  function ParseDecimal(s: string): nat
    requires forall i :: 0 <= i < |s| ==> IsDigit(s[i])
  {
    if s == [] then 0
    else
      assert IsDigit(s[|s| - 1]);
      ParseDecimal(s[..|s| - 1]) * 10 + (s[|s| - 1] as int - '0' as int)
  }

  /** The decimal form names its number: reading it back gives the number. */
  lemma {:induction false} ParseDecimalOfDecimal(n: nat)
    ensures ParseDecimal(Decimal(n)) == n
  {
    if n >= 10 {
      var s := Decimal(n);
      assert s[..|s| - 1] == Decimal(n / 10);
      ParseDecimalOfDecimal(n / 10);
    }
  }

  /** Ruby's `String#chop`: drops the last character, or a trailing "\r\n" pair. */
  function Chop(s: string): (r: string)
    ensures |s| >= 1 ==> |r| < |s|
    ensures |r| <= |s| && r == s[..|r|]
    ensures s == [] ==> r == []
    ensures |s| >= 1 ==> s[|r|..] == [s[|s| - 1]] || s[|r|..] == "\r\n"
    ensures |s| >= 1 ==> (s[|r|..] == "\r\n" <==> |s| >= 2 && s[|s| - 2..] == "\r\n")
  {
    if |s| >= 2 && s[|s| - 2..] == "\r\n" then s[..|s| - 2]
    else if |s| >= 1 then s[..|s| - 1]
    else s
  }

  function IsNotNewline(c: char): bool { c != '\n' }

  /** `gsub(/\n/, "")`: every newline removed, every other character kept in order. */
  function RemoveNewlines(s: string): (r: string)
    ensures forall i :: 0 <= i < |r| ==> r[i] != '\n'
    ensures (forall i :: 0 <= i < |s| ==> s[i] != '\n') ==> r == s
  {
    NoNewlineInFilter(s);
    if forall i :: 0 <= i < |s| ==> s[i] != '\n' then
      FilterAll(s, IsNotNewline);
      Filter(s, IsNotNewline)
    else Filter(s, IsNotNewline)
  }

  /** Removing newlines works piecewise: on a concatenation it is the concatenation of the two results. */
  lemma RemoveNewlinesConcat(a: string, b: string)
    ensures RemoveNewlines(a + b) == RemoveNewlines(a) + RemoveNewlines(b)
  {
    FilterConcat(a, b, IsNotNewline);
  }

  /** A single character is dropped exactly when it is a newline. */
  lemma RemoveNewlinesChar(c: char)
    ensures RemoveNewlines([c]) == if c == '\n' then [] else [c]
  {
    assert [c][1..] == [];
    assert Filter([c], IsNotNewline) == (if IsNotNewline(c) then [c] else []) + Filter([], IsNotNewline);
  }

  lemma {:induction false} NoNewlineInFilter(s: string)
    ensures forall i :: 0 <= i < |Filter(s, IsNotNewline)| ==> Filter(s, IsNotNewline)[i] != '\n'
  {
    if s != [] {
      NoNewlineInFilter(s[1..]);
    }
  }
}

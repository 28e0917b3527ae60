/**
 Character-level pieces of the debug module's output: C strings (the text
 before the first NUL) and the two printf conversions the module relies on,
 "%u" for source line numbers and "%02hX" for data bytes. Each rendering has
 a parser as its partner, and the two are proved inverse.
 */
module DbgText {
  import opened Types

  /** The C string terminator. */
  const NUL: char := '\0'

  predicate NoNul(s: seq<char>)
  {
    forall i :: 0 <= i < |s| ==> s[i] != NUL
  }

  /** The C string held by the char buffer `s`: every character before the
      first NUL, or all of `s` when it holds none. */
  function UntilNul(s: seq<char>): (r: seq<char>)
    ensures r <= s && NoNul(r)
    ensures r == s || s[|r|] == NUL
  {
    if |s| == 0 || s[0] == NUL then [] else [s[0]] + UntilNul(s[1..])
  }

  /** The three properties of UntilNul pin it down: any NUL-free prefix that
      ends at the end of `s` or at a NUL is the C string of `s`. */
  lemma {:induction false} UntilNulUnique(s: seq<char>, p: seq<char>)
    requires p <= s && NoNul(p)
    requires p == s || s[|p|] == NUL
    ensures p == UntilNul(s)
  {
    if |p| > 0 {
      assert s[0] == p[0] && p[0] != NUL;
      UntilNulUnique(s[1..], p[1..]);
      assert p == [p[0]] + p[1..];
    }
  }

  /* ---- "%u" ---- */

  predicate IsDigit(c: char)
  {
    '0' <= c <= '9'
  }

  predicate AllDigits(s: seq<char>)
  {
    forall i :: 0 <= i < |s| ==> IsDigit(s[i])
  }

  function DigitChar(d: nat): (c: char)
    requires d < 10
    ensures IsDigit(c) && c as int - '0' as int == d
  {
    ('0' as int + d) as char
  }

  /** A canonical decimal numeral: non-empty, digits only, and no leading
      zero except for "0" itself. */
  predicate IsDecimal(s: seq<char>)
  {
    |s| > 0 && AllDigits(s) && (s[0] == '0' ==> |s| == 1)
  }

  /** The number a string of decimal digits denotes. */
  function DecimalValue(s: seq<char>): nat
    requires AllDigits(s)
  {
    if |s| == 0 then 0
    else 10 * DecimalValue(s[..|s| - 1]) + (s[|s| - 1] as int - '0' as int)
  }

  /** What printf's "%u" prints for n: its canonical decimal numeral. */
  function Decimal(n: nat): (r: seq<char>)
    ensures IsDecimal(r)
    ensures DecimalValue(r) == n
  {
    if n < 10 then [DigitChar(n)]
    else
      var s := Decimal(n / 10) + [DigitChar(n % 10)];
      assert s[..|s| - 1] == Decimal(n / 10);
      s
  }

  /** A canonical numeral whose first digit is not '0' has a positive value. */
  lemma {:induction false} LeadingDigitPositive(s: seq<char>)
    requires AllDigits(s) && |s| > 0 && s[0] != '0'
    ensures DecimalValue(s) > 0
  {
    if |s| > 1 {
      var init := s[..|s| - 1];
      assert init[0] == s[0];
      LeadingDigitPositive(init);
    }
  }

  /** The converse of Decimal's round trip: every canonical numeral is what
      "%u" prints for its value, so Decimal is a bijection onto IsDecimal. */
  lemma {:induction false} DecimalCanonical(s: seq<char>)
    requires IsDecimal(s)
    ensures Decimal(DecimalValue(s)) == s
  {
    if |s| > 1 {
      var init := s[..|s| - 1];
      var last := s[|s| - 1];
      var d := last as int - '0' as int;
      assert IsDecimal(init) by {
        assert init[0] == s[0];
      }
      LeadingDigitPositive(init);
      DecimalCanonical(init);
      var m := DecimalValue(init);
      var n := DecimalValue(s);
      assert n == 10 * m + d;
      DivModTen(m, d);
      assert DigitChar(d) == last;
      assert Decimal(n) == Decimal(m) + [DigitChar(d)];
      assert s == init + [last];
    }
  }

  /** Splitting 10m + d, for a digit d, by ten gives back m and d. */
  lemma DivModTen(m: nat, d: nat)
    requires d < 10
    ensures (10 * m + d) / 10 == m && (10 * m + d) % 10 == d
  {
  }

  /* ---- "%02hX" ---- */

  predicate IsHexDigit(c: char)
  {
    '0' <= c <= '9' || 'A' <= c <= 'F'
  }

  /** Upper-case hexadecimal digit for a value below 16. */
  function HexDigit(v: nat): (c: char)
    requires v < 16
    ensures IsHexDigit(c)
    ensures HexDigitValue(c) == v
  {
    if v < 10 then ('0' as int + v) as char else ('A' as int + v - 10) as char
  }

  /** The value of a hexadecimal digit; zero for any other character. */
  function HexDigitValue(c: char): (v: nat)
    ensures v < 16
  {
    if '0' <= c <= '9' then c as int - '0' as int
    else if 'A' <= c <= 'F' then c as int - 'A' as int + 10
    else 0
  }

  /** What printf's "%02hX" prints for a byte: two upper-case hex digits,
      high nibble first, zero padded. */
  function Hex2(b: byte): (r: seq<char>)
    ensures |r| == 2 && IsHexDigit(r[0]) && IsHexDigit(r[1])
    ensures HexPairValue(r[0], r[1]) == b
  {
    [HexDigit(b / 16), HexDigit(b % 16)]
  }

  /** The byte two hex digits denote. */
  function HexPairValue(hi: char, lo: char): byte
  {
    16 * HexDigitValue(hi) + HexDigitValue(lo)
  }

  /** The converse of Hex2's round trip: every pair of upper-case hex digits is
      what "%02hX" prints for the byte it denotes. */
  lemma HexPairCanonical(hi: char, lo: char)
    requires IsHexDigit(hi) && IsHexDigit(lo)
    ensures Hex2(HexPairValue(hi, lo)) == [hi, lo]
  {
    var b := HexPairValue(hi, lo);
    assert b / 16 == HexDigitValue(hi) && b % 16 == HexDigitValue(lo);
  }
}

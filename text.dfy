/**
 * The string operations the dialog relies on: case-insensitive substring
 * search (QString::contains with Qt::CaseInsensitive), lower-casing, and the
 * decimal text of an unsigned integer together with its parse
 * (QString::toUInt).  Case folding covers ASCII letters only.
 */
module Text {
  import opened Prefs

  /** ASCII lower-casing of one character. */
  function LowerChar(c: char): (r: char)
    ensures !('A' <= r <= 'Z')
    ensures 'a' <= c <= 'z' || !('A' <= c <= 'Z') ==> r == c
  {
    if 'A' <= c <= 'Z' then (c as int - 'A' as int + 'a' as int) as char else c
  }

  /** ASCII lower-casing of a string, character by character. */
  function Lower(s: string): (r: string)
    ensures |r| == |s|
    ensures forall i :: 0 <= i < |s| ==> r[i] == LowerChar(s[i])
  {
    seq(|s|, i requires 0 <= i < |s| => LowerChar(s[i]))
  }

  lemma LowerIdempotent(s: string)
    ensures Lower(Lower(s)) == Lower(s)
  {
  }

  /** `t` occurs in `s` as a contiguous piece: it is a prefix of some suffix of `s`. */
  predicate Contains(s: string, t: string)
    decreases |s|
  {
    t <= s || (s != [] && Contains(s[1..], t))
  }

  /** `t` occurs in `s` when letter case is ignored. */
  predicate ContainsIgnoringCase(s: string, t: string) {
    Contains(Lower(s), Lower(t))
  }

  predicate IsDigit(c: char) {
    '0' <= c <= '9'
  }

  predicate AllDigits(s: string) {
    forall i :: 0 <= i < |s| ==> IsDigit(s[i])
  }

  function DigitChar(d: nat): (c: char)
    requires d < 10
    ensures IsDigit(c) && c as int - '0' as int == d
  {
    ('0' as int + d) as char
  }

  /** The decimal text of `n`, most significant digit first, without leading zeros. */
  function Decimal(n: nat): (s: string)
    ensures |s| > 0 && AllDigits(s)
    ensures |s| > 1 ==> s[0] != '0'
    decreases n
  {
    if n < 10 then [DigitChar(n)] else Decimal(n / 10) + [DigitChar(n % 10)]
  }

  /** The number a string of decimal digits denotes. */
  function DigitsValue(s: string): nat
    requires AllDigits(s)
    decreases |s|
  {
    if s == [] then 0 else DigitsValue(s[..|s| - 1]) * 10 + (s[|s| - 1] as int - '0' as int)
  }

  /** Reading back the decimal text of `n` gives `n`. */
  lemma {:induction false} DigitsValueOfDecimal(n: nat)
    ensures DigitsValue(Decimal(n)) == n
    decreases n
  {
    if n >= 10 {
      var s := Decimal(n);
      DigitsValueOfDecimal(n / 10);
      assert s[..|s| - 1] == Decimal(n / 10);
    }
  }

  /**
   * QString::toUInt in base 10 on digit strings: the number when the text
   * is a non-empty run of digits whose value fits 32 bits, 0 otherwise.
   */
  function ToUInt(s: string): (r: uint32)
    ensures s != [] && AllDigits(s) && DigitsValue(s) < 0x1_0000_0000 ==> r as int == DigitsValue(s)
    ensures r != 0 ==> s != [] && AllDigits(s) && DigitsValue(s) == r as int
  {
    if s != [] && AllDigits(s) && DigitsValue(s) < 0x1_0000_0000 then DigitsValue(s) as uint32 else 0
  }

  /** Parsing the decimal text of an unsigned 32-bit value gives the value back. */
  lemma DecimalRoundTrip(u: uint32)
    ensures ToUInt(Decimal(u as nat)) == u
  {
    DigitsValueOfDecimal(u as nat);
  }
}

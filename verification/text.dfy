/** Decimal text as Java prints and parses it, and substring search. */
module Text {
  import opened Wrappers

  /** The range of Java's `long`. */
  const MinLong: int := -0x8000_0000_0000_0000
  const MaxLong: int := 0x7FFF_FFFF_FFFF_FFFF

  predicate IsDigit(c: char) { '0' <= c <= '9' }

  predicate AllDigits(s: string) { forall i :: 0 <= i < |s| ==> IsDigit(s[i]) }

  function DigitValue(c: char): nat
    requires IsDigit(c)
  {
    c as int - '0' as int
  }

  function DigitChar(d: nat): (c: char)
    requires d < 10
    ensures IsDigit(c) && DigitValue(c) == d
  {
    ('0' as int + d) as char
  }

  /** The number a string of decimal digits denotes; leading zeros are allowed. */
  function DigitsValue(s: string): nat
    requires AllDigits(s)
    decreases |s|
  {
    if |s| == 0 then 0 else 10 * DigitsValue(s[..|s| - 1]) + DigitValue(s[|s| - 1])
  }

  /** Decimal text of a natural number, as `Long.toString` prints it: it
      reads back as the same number and has no leading zero. */
  function NatToString(n: nat): (s: string)
    ensures 0 < |s| && AllDigits(s)
    ensures DigitsValue(s) == n
    ensures s[0] == '0' ==> n == 0 && |s| == 1
  {
    if n < 10 then [DigitChar(n)]
    else
      var s := NatToString(n / 10) + [DigitChar(n % 10)];
      assert s[..|s| - 1] == NatToString(n / 10);
      s
  }

  /** Decimal text of an integer, with a leading '-' when negative
      (Java's string concatenation of an `int` or `long`). */
  function IntToString(i: int): (s: string)
    ensures 0 < |s| && IsDigit(s[|s| - 1])
    ensures i < 0 <==> s[0] == '-'
  {
    if i < 0 then "-" + NatToString(-i) else NatToString(i)
  }

  /** Text shaped like a decimal long: an optional sign, then at least one
      digit. */
  predicate LongSyntax(s: string)
  {
    0 < |s| && if s[0] == '-' || s[0] == '+' then 1 < |s| && AllDigits(s[1..]) else AllDigits(s)
  }

  /** The number such text denotes, leading zeros and a '+' allowed. */
  function SignedValue(s: string): int
    requires LongSyntax(s)
  {
    if s[0] == '-' then -(DigitsValue(s[1..]) as int)
    else if s[0] == '+' then DigitsValue(s[1..])
    else DigitsValue(s)
  }

  /** `Long.parseLong` on ASCII text: an optional '+' or '-', then at least
      one decimal digit, and a value inside the 64-bit range; anything else
      is a NumberFormatException, here None. */
  function ParseLong(s: string): (r: Option<int>)
    ensures r.Some? ==> MinLong <= r.value <= MaxLong
    ensures r.Some? ==> exists k :: 0 <= k < |s| && IsDigit(s[k])
    ensures r.Some? ==> forall k :: 0 < k < |s| ==> IsDigit(s[k])
    ensures r.Some? <==> LongSyntax(s) && MinLong <= SignedValue(s) <= MaxLong
    ensures r.Some? ==> LongSyntax(s) && r.value == SignedValue(s)
  {
    var signed := 0 < |s| && (s[0] == '-' || s[0] == '+');
    var digits := if signed then s[1..] else s;
    if |digits| == 0 || !AllDigits(digits) then None
    else
      assert IsDigit(s[|s| - 1]);
      var v: int := if signed && s[0] == '-' then 0 - DigitsValue(digits) as int else DigitsValue(digits);
      if MinLong <= v <= MaxLong then Some(v) else None
  }

  /** Printing a long and parsing it back gives the same long. */
  lemma ParseLongOfIntToString(v: int)
    requires MinLong <= v <= MaxLong
    ensures ParseLong(IntToString(v)) == Some(v)
  {
    var s := IntToString(v);
    if v < 0 {
      assert s[1..] == NatToString(-v);
    } else {
      assert IsDigit(s[0]);
    }
  }

  /** Leading zeros and a '+' do not change what is parsed: "+007" is 7. */
  lemma ParseLongPadded()
    ensures ParseLong("+007") == Some(7)
    ensures ParseLong("-0") == Some(0)
    ensures ParseLong("+") == None && ParseLong("") == None && ParseLong("1-") == None
  {
    assert DigitsValue("007") == 7 by {
      assert "007"[..2] == "00" && "00"[..1] == "0" && "0"[..0] == "";
    }
    assert DigitsValue("0") == 0 by { assert "0"[..0] == ""; }
    assert !IsDigit("1-"[1]);
  }

  /** `t` occurs in `s` as a contiguous piece (Java's `String.contains`). */
  predicate HasSubstring(s: string, t: string)
  {
    exists i | 0 <= i <= |s| - |t| :: OccursAt(s, t, i)
  }

  predicate OccursAt(s: string, t: string, i: int)
  {
    0 <= i <= |s| - |t| && s[i..i + |t|] == t
  }

  lemma HasSubstringOfConcat(a: string, t: string, b: string)
    ensures HasSubstring(a + t + b, t)
  {
    assert OccursAt(a + t + b, t, |a|);
  }
}

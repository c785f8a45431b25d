/** `Util.Period`, a duration written as a number and a unit ("30s", "5m",
    "100ms"), and the small string helpers `Util.capitalize`,
    `Util.Str.suffix` and `Util.Str.id`. */
module Util {
  import opened Wrappers
  import opened Text

  /** A parsed duration: the number, the unit as written, and the length in
      milliseconds. */
  datatype Period = Period(value: int, unit: string, ms: int)

  /** Milliseconds per unit; None for a unit the parser does not know. */
  function UnitMillis(unit: string): Option<int>
  {
    if unit == "ms" then Some(1)
    else if unit == "s" then Some(1000)
    else if unit == "m" then Some(60 * 1000)
    else if unit == "h" then Some(60 * 60 * 1000)
    else if unit == "d" then Some(24 * 60 * 60 * 1000)
    else None
  }

  predicate EndsWithMs(s: string)
  {
    2 <= |s| && s[|s| - 2..] == "ms"
  }

  /** Where the unit starts: before a trailing "ms", else at the last
      character; the string "0" is all value. */
  function UnitIndex(s: string): nat
    requires 0 < |s|
  {
    if s == "0" then 1
    else if EndsWithMs(s) then |s| - 2
    else |s| - 1
  }

  /** The `Period(String)` constructor. The error carries the input, as the
      IllegalArgumentException it throws does. */
  function ParsePeriod(s: string): (r: Result<Period>)
    ensures r.Err? ==> r.error == s
    ensures r.Ok? ==> UnitMillis(r.value.unit).Some? && r.value.ms == r.value.value * UnitMillis(r.value.unit).value
    ensures r.Ok? ==> MinLong <= r.value.value <= MaxLong
    ensures r.Ok? && s != "0" ==>
              && |r.value.unit| < |s|
              && s[|s| - |r.value.unit|..] == r.value.unit
              && ParseLong(s[..|s| - |r.value.unit|]) == Some(r.value.value)
    ensures r.Ok? && EndsWithMs(s) ==> r.value.unit == "ms"
    ensures r.Ok? && !EndsWithMs(s) && s != "0" ==> |r.value.unit| == 1
  {
    if |s| == 0 then Err(s)
    else
      var i := UnitIndex(s);
      match ParseLong(s[..i])
      case None => Err(s)
      case Some(v) =>
        var unit := if s == "0" then "ms" else s[i..];
        match UnitMillis(unit)
        case None => Err(s)
        case Some(f) => Ok(Period(v, unit, v * f))
  }

  /** Every long in decimal followed by a known unit is accepted, with its
      value, its unit and its length in milliseconds: "30s", "100ms" and
      "+1d" parse. */
  lemma ParsePeriodAccepts(n: string, u: string)
    requires LongSyntax(n) && MinLong <= SignedValue(n) <= MaxLong
    requires UnitMillis(u).Some?
    ensures ParsePeriod(n + u) == Ok(Period(SignedValue(n), u, SignedValue(n) * UnitMillis(u).value))
  {
    var s := n + u;
    assert IsDigit(n[|n| - 1]);
    assert s[..|n|] == n && s[|n|..] == u;
    if u == "ms" {
      assert EndsWithMs(s) by { assert s[|s| - 2..] == u; }
    } else {
      assert |u| == 1;
      assert s[|s| - 2] == n[|n| - 1];
      assert !EndsWithMs(s);
    }
    assert s != "0";
    assert UnitIndex(s) == |n|;
  }

  /** `Period.toString`: the number followed by the unit. */
  function PeriodText(p: Period): string
  {
    IntToString(p.value) + p.unit
  }

  /** `Period.equals`: two periods are equal when they last equally long. */
  predicate SamePeriod(p: Period, q: Period)
  {
    p.ms == q.ms
  }

  /** "0" is the one string without a unit: zero milliseconds. */
  lemma ParseZero()
    ensures ParsePeriod("0") == Ok(Period(0, "ms", 0))
  {
    assert "0"[..1] == "0";
    assert DigitsValue("0") == 0 by { assert "0"[..0] == ""; }
  }

  /** Printing a parsed period and parsing the text again gives the very
      same period back. */
  lemma ParsePeriodText(s: string)
    requires ParsePeriod(s).Ok?
    ensures ParsePeriod(PeriodText(ParsePeriod(s).value)) == ParsePeriod(s)
  {
    var p := ParsePeriod(s).value;
    var n := IntToString(p.value);
    var t := PeriodText(p);
    ParseLongOfIntToString(p.value);
    assert t != "0";
    if p.unit == "ms" {
      assert EndsWithMs(t) by { assert t[|t| - 2..] == "ms"; }
      assert t[..|t| - 2] == n;
      assert t[|t| - 2..] == "ms";
    } else {
      assert |p.unit| == 1;
      assert t[|t| - 2] == n[|n| - 1];
      assert !EndsWithMs(t);
      assert t[..|t| - 1] == n;
      assert t[|t| - 1..] == p.unit;
    }
  }

  /** Equality compares lengths only: "60s" equals "1m", though value and
      unit differ. */
  lemma SixtySecondsIsOneMinute()
    ensures ParsePeriod("60s").Ok? && ParsePeriod("1m").Ok?
    ensures SamePeriod(ParsePeriod("60s").value, ParsePeriod("1m").value)
    ensures ParsePeriod("60s").value != ParsePeriod("1m").value
  {
    ParseSixtySeconds();
    ParseOneMinute();
  }

  lemma ParseSixtySeconds()
    ensures ParsePeriod("60s") == Ok(Period(60, "s", 60000))
  {
    assert "60s"[..2] == "60" && "60"[..1] == "6" && "6"[..0] == "";
    assert "60s"[2..] == "s";
  }

  lemma ParseOneMinute()
    ensures ParsePeriod("1m") == Ok(Period(1, "m", 60000))
  {
    assert "1m"[..1] == "1" && "1"[..0] == "";
    assert "1m"[1..] == "m";
  }


  /** The empty string and a bare one-letter unit (an empty number) are
      rejected. */
  lemma ParsePeriodRejectsBareUnit()
    ensures ParsePeriod("").Err?
    ensures ParsePeriod("s").Err? && ParsePeriod("d").Err?
  {
    assert "s"[..0] == "" && "d"[..0] == "";
  }

  /** "ms" alone is a bare unit too, not the number "m" in seconds. */
  lemma ParsePeriodRejectsBareMillis()
    ensures ParsePeriod("ms").Err?
  {
    assert EndsWithMs("ms") && UnitIndex("ms") == 0;
    assert "ms"[..0] == "";
  }

  /** A number without a unit is rejected, except "0". */
  lemma ParsePeriodRejectsNoUnit()
    ensures ParsePeriod("5").Err? && ParsePeriod("10").Err?
  {
    assert "5"[..0] == "";
    assert "10"[1..] == "0";
  }

  /** A unit the parser does not know is rejected. */
  lemma ParsePeriodRejectsUnknownUnit()
    ensures ParsePeriod("5x").Err?
  {
    assert "5x"[1..] == "x";
  }

  /** A number that is not an integer is rejected. */
  lemma ParsePeriodRejectsFraction()
    ensures ParsePeriod("1.5s").Err?
  {
    assert "1.5s"[..3] == "1.5";
    assert !IsDigit("1.5"[1]);
  }

  /** Any string the parser accepts ends in one of its units, or is "0". */
  lemma ParsedEndsInUnit(s: string)
    requires ParsePeriod(s).Ok?
    ensures s == "0" || exists u :: u in ["ms", "s", "m", "h", "d"] && 1 <= |u| < |s| && s[|s| - |u|..] == u
  {
    var p := ParsePeriod(s).value;
    if s != "0" {
      assert p.unit in ["ms", "s", "m", "h", "d"];
    }
  }

  // ------------------------------------------------------------------ strings

  /** Upper case of an ASCII letter; other characters are unchanged. */
  function ToUpper(c: char): char
  {
    if 'a' <= c <= 'z' then (c as int - 'a' as int + 'A' as int) as char else c
  }

  /** `Util.capitalize`: the first character in upper case, the rest as is. */
  function Capitalize(s: string): (r: string)
    ensures |r| == |s|
    ensures 0 < |s| ==> r[0] == ToUpper(s[0]) && r[1..] == s[1..]
  {
    if |s| == 0 then s else [ToUpper(s[0])] + s[1..]
  }

  /** Capitalizing changes a string exactly when it starts with a lower-case
      letter, and then only that letter, to its upper-case form. */
  lemma CapitalizeChanges(s: string)
    ensures Capitalize(s) == s <==> s == "" || !('a' <= s[0] <= 'z')
    ensures Capitalize(s) != s ==> Capitalize(s) == [s[0] - 'a' + 'A'] + s[1..]
  {
    if s != "" && Capitalize(s) == s {
      assert Capitalize(s)[0] == s[0];
    }
  }

  /** Capitalizing twice changes nothing more. */
  lemma CapitalizeIdempotent(s: string)
    ensures Capitalize(Capitalize(s)) == Capitalize(s)
  {
  }

  /** `Util.Str.suffix`: the last `maxLen` characters, or all of `s` when it
      is no longer than that. A negative length throws in the source; the
      `nat` type rules it out. */
  function Suffix(s: string, maxLen: nat): (r: string)
    ensures |r| == if |s| <= maxLen then |s| else maxLen
    ensures s == s[..|s| - |r|] + r
  {
    if |s| <= maxLen then s else s[|s| - maxLen..]
  }

  /** `Util.Str.id`: "#" and the last five characters of an id. */
  function Id(id: string): (r: string)
    ensures 1 <= |r| <= 6 && r[0] == '#'
    ensures |r| == 1 + (if |id| <= 5 then |id| else 5)
    ensures |id| <= 5 ==> r[1..] == id
    ensures id == id[..|id| - (|r| - 1)] + r[1..]
  {
    "#" + Suffix(id, 5)
  }

  /** Shortening an already short suffix changes nothing. */
  lemma SuffixIdempotent(s: string, n: nat)
    ensures Suffix(Suffix(s, n), n) == Suffix(s, n)
  {
  }
}

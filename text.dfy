/**
 * The two pieces of Rust string handling the duration decoders use:
 * `str::split` on a single character and `u64::from_str`, plus the decimal
 * rendering that inverts the latter.
 */
module Text {
  import opened Errors
  import opened Durations

  predicate IsDigit(c: char) {
    '0' <= c <= '9'
  }

  predicate AllDigits(s: string) {
    forall i | 0 <= i < |s| :: IsDigit(s[i])
  }

  function DigitValue(c: char): (n: nat)
    requires IsDigit(c)
    ensures n < 10
  {
    c as int - '0' as int
  }

  function DigitChar(n: nat): (c: char)
    requires n < 10
    ensures IsDigit(c) && DigitValue(c) == n
  {
    ('0' as int + n) as char
  }

  /** The value of a string of decimal digits, most significant first. */
  function DigitsValue(s: string): nat
    requires AllDigits(s)
    decreases |s|
  {
    if s == [] then 0 else DigitsValue(s[..|s| - 1]) * 10 + DigitValue(s[|s| - 1])
  }

  /** The canonical decimal rendering of `n`: no sign, no leading zeros. */
  function DecimalText(n: nat): (s: string)
    ensures |s| >= 1 && AllDigits(s)
    ensures n >= 10 ==> s[0] != '0'
  {
    if n < 10 then [DigitChar(n)] else DecimalText(n / 10) + [DigitChar(n % 10)]
  }

  /** Rendering and reading back a decimal number gives the number. */
  lemma {:induction false} DecimalTextValue(n: nat)
    ensures DigitsValue(DecimalText(n)) == n
  {
    if n >= 10 {
      var s := DecimalText(n);
      assert s[..|s| - 1] == DecimalText(n / 10);
      DecimalTextValue(n / 10);
    }
  }

  /** A leading zero does not change the value of a digit string. */
  lemma {:induction false} LeadingZeroValue(s: string)
    requires AllDigits(s)
    ensures AllDigits("0" + s) && DigitsValue("0" + s) == DigitsValue(s)
  {
    if s != [] {
      var z := "0" + s;
      assert z[..|z| - 1] == "0" + s[..|s| - 1];
      LeadingZeroValue(s[..|s| - 1]);
    }
  }

  /** Two zero-padded digits, as the minutes and seconds of `HH:MM:SS`. */
  function TwoDigits(n: nat): (s: string)
    requires n < 100
    ensures |s| == 2 && AllDigits(s) && DigitsValue(s) == n
  {
    var s := [DigitChar(n / 10), DigitChar(n % 10)];
    assert s[..1] == [DigitChar(n / 10)] && [DigitChar(n / 10)][..0] == [];
    assert DigitsValue(s[..1]) == n / 10;
    s
  }

  /** Appending two digits shifts the value two decimal places. */
  lemma AppendTwoDigitsValue(a: string, b: string)
    requires AllDigits(a) && |b| == 2 && AllDigits(b)
    ensures AllDigits(a + b) && DigitsValue(a + b) == DigitsValue(a) * 100 + DigitsValue(b)
  {
    var ab, a0 := a + b, a + b[..1];
    assert ab[..|ab| - 1] == a0 && a0[..|a0| - 1] == a && b[..1][..0] == [];
    assert DigitsValue(ab) == DigitsValue(a0) * 10 + DigitValue(b[1]);
    assert DigitsValue(a0) == DigitsValue(a) * 10 + DigitValue(b[0]);
    assert b[..|b| - 1] == b[..1] && DigitsValue(b[..1]) == DigitValue(b[0]);
    assert DigitsValue(b) == DigitValue(b[0]) * 10 + DigitValue(b[1]);
  }

  /** Four zero-padded digits, as the year of `YYYY-MM-DD`. */
  function FourDigits(n: nat): (s: string)
    requires n < 10000
    ensures |s| == 4 && AllDigits(s) && DigitsValue(s) == n
  {
    AppendTwoDigitsValue(TwoDigits(n / 100), TwoDigits(n % 100));
    TwoDigits(n / 100) + TwoDigits(n % 100)
  }

  /** What `u64::from_str` reads after an optional leading `+`. */
  function UnsignedDigits(s: string): string {
    if |s| >= 1 && s[0] == '+' then s[1..] else s
  }

  /**
   * `u64::from_str`: one optional `+`, then at least one ASCII digit, and a
   * value that fits in a u64. Leading zeros are accepted; a `-` never is.
   */
  function ParseU64(s: string): (r: Option<nat>)
    ensures r.Some? <==> var d := UnsignedDigits(s); d != [] && AllDigits(d) && DigitsValue(d) <= U64_MAX
    ensures r.Some? ==> r.value <= U64_MAX && r.value == DigitsValue(UnsignedDigits(s))
    ensures r.Some? ==> forall i | 0 <= i < |s| :: IsDigit(s[i]) || (i == 0 && s[i] == '+')
  {
    if s == [] then
      None
    else
      var digits := if s[0] == '+' then s[1..] else s;
      if digits == [] || !AllDigits(digits) then
        None
      else if DigitsValue(digits) > U64_MAX then
        None
      else
        Some(DigitsValue(digits))
  }

  /** A plain digit string that fits is read as its value. */
  lemma ParseU64Digits(d: string)
    requires d != [] && AllDigits(d) && DigitsValue(d) <= U64_MAX
    ensures ParseU64(d) == Some(DigitsValue(d))
  {
    assert IsDigit(d[0]);
  }

  /** `u64::from_str` reads back every u64 rendered in decimal, with or without `+` or leading zeros. */
  lemma ParseU64DecimalText(n: nat)
    requires n <= U64_MAX
    ensures ParseU64(DecimalText(n)) == Some(n)
    ensures ParseU64("+" + DecimalText(n)) == Some(n)
    ensures ParseU64("0" + DecimalText(n)) == Some(n)
  {
    DecimalTextValue(n);
    LeadingZeroValue(DecimalText(n));
    assert ("+" + DecimalText(n))[1..] == DecimalText(n);
  }

  /** `parts` joined with `sep`: the inverse of `Split`. */
  function Join(parts: seq<string>, sep: char): string
    requires |parts| >= 1
  {
    if |parts| == 1 then parts[0] else parts[0] + [sep] + Join(parts[1..], sep)
  }

  /**
   * `s.split(sep)`: the maximal runs of `s` free of `sep`, in order. There is
   * always at least one part (`"".split(':')` yields `[""]`).
   */
  function Split(s: string, sep: char): (parts: seq<string>)
    ensures |parts| >= 1
    ensures forall i | 0 <= i < |parts| :: sep !in parts[i]
    ensures Join(parts, sep) == s
    decreases |s|
  {
    if s == [] then
      [[]]
    else
      var rest := Split(s[1..], sep);
      if s[0] == sep then
        [[]] + rest
      else
        var parts := [[s[0]] + rest[0]] + rest[1..];
        assert parts[1..] == rest[1..];
        parts
  }

  /** A string free of the separator is a single part. */
  lemma {:induction false} SplitNoSeparator(s: string, sep: char)
    requires sep !in s
    ensures Split(s, sep) == [s]
  {
    if s != [] {
      SplitNoSeparator(s[1..], sep);
    }
  }

  /** A separator between `a` and `b` splits each of them independently. */
  lemma {:induction false} SplitConcat(a: string, b: string, sep: char)
    ensures Split(a + [sep] + b, sep) == Split(a, sep) + Split(b, sep)
  {
    var s := a + [sep] + b;
    if a == [] {
      assert s[1..] == b;
    } else {
      assert s[1..] == a[1..] + [sep] + b;
      SplitConcat(a[1..], b, sep);
    }
  }

  /** Splitting three separator-free fields joined by the separator gives them back. */
  lemma SplitThree(a: string, b: string, c: string, sep: char)
    requires sep !in a && sep !in b && sep !in c
    ensures Split(a + [sep] + b + [sep] + c, sep) == [a, b, c]
  {
    SplitNoSeparator(a, sep);
    SplitNoSeparator(b, sep);
    SplitNoSeparator(c, sep);
    SplitConcat(b, c, sep);
    assert a + [sep] + b + [sep] + c == a + [sep] + (b + [sep] + c);
    SplitConcat(a, b + [sep] + c, sep);
  }
}

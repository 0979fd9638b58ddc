/**
 * The two metric suffixes of a summary (preprocessing/preprocess_texts.py:69-84): Python's
 * `float()` on the strings the extractor can hand it, and the `:.2f` / `:+.2f` renderings.
 * Numbers are exact rationals; rounding is to the nearest hundredth, ties to even.
 */
module Metrics {
  import opened Wrappers
  import opened Strings

  /** The characters of `[\d.]`: every field passed to `float()` is made of them. */
  predicate IsDecimalChar(c: char) {
    IsDigit(c) || c == '.'
  }

  ghost predicate AllDigits(s: string) {
    forall c | c in s :: IsDigit(c)
  }

  ghost predicate OverDecimalChars(s: string) {
    forall c | c in s :: IsDecimalChar(c)
  }

  function Pow10(n: nat): (r: nat)
    ensures r >= 1
  {
    if n == 0 then 1 else 10 * Pow10(n - 1)
  }

  function DigitValue(c: char): nat
    requires IsDigit(c)
  {
    c as int - '0' as int
  }

  function DigitChar(d: nat): (c: char)
    requires d < 10
    ensures IsDigit(c) && DigitValue(c) == d
  {
    ('0' as int + d) as char
  }

  /** The number a string of decimal digits denotes; the empty string denotes 0. */
  function DigitsValue(s: string): (v: nat)
    requires AllDigits(s)
    ensures v < Pow10(|s|)
    decreases |s|
  {
    if s == "" then 0 else 10 * DigitsValue(s[..|s| - 1]) + DigitValue(s[|s| - 1])
  }

  /** Decimal rendering of `n`, without leading zeros. */
  function NatToString(n: nat): (r: string)
    ensures r != [] && AllDigits(r)
    ensures DigitsValue(r) == n
    ensures r[0] == '0' ==> r == "0"
  {
    if n < 10 then [DigitChar(n)]
    else
      var r := NatToString(n / 10) + [DigitChar(n % 10)];
      assert r[..|r| - 1] == NatToString(n / 10);
      r
  }

  /** Two digits, with a leading zero below 10. */
  function Pad2(n: nat): (r: string)
    requires n < 100
    ensures |r| == 2 && AllDigits(r) && DigitsValue(r) == n
  {
    var r := [DigitChar(n / 10), DigitChar(n % 10)];
    assert r[..1] == [DigitChar(n / 10)];
    r
  }

  // ---------------------------------------------------------------------------------------
  // float()

  ghost predicate AtMostOneDot(s: string) {
    forall i, j | 0 <= i < j < |s| :: !(s[i] == '.' && s[j] == '.')
  }

  ghost predicate HasDigit(s: string) {
    exists c | c in s :: IsDigit(c)
  }

  /** What Python's `float()` accepts among strings over `[\d.]`: one dot at most, one digit at least. */
  ghost predicate IsDecimalLiteral(s: string) {
    OverDecimalChars(s) && AtMostOneDot(s) && HasDigit(s)
  }

  /**
   * Python's `float(s)` for `s` over `[\d.]`: `None` where Python raises `ValueError`.
   * `"5"`, `"5."`, `".5"` and `"5.25"` are numbers; `""`, `"."` and `"1.2.3"` are not.
   */
  function ParseFloat(s: string): (r: Option<real>)
    requires OverDecimalChars(s)
  {
    var i := FindChar(s, 0, '.');
    if i == |s| then
      if s == "" then None else Some(DigitsValue(s) as real)
    else
      var whole, frac := s[..i], s[i + 1..];
      if '.' in frac || (whole == "" && frac == "") then None
      else
        assert AllDigits(whole) by {
          forall c | c in whole ensures IsDigit(c) {
            var k :| 0 <= k < |whole| && whole[k] == c;
            assert s[k] == c && s[k] in s;
          }
        }
        assert AllDigits(frac) by {
          forall c | c in frac ensures IsDigit(c) {
            var k :| 0 <= k < |frac| && frac[k] == c;
            assert s[i + 1 + k] == c && s[i + 1 + k] in s;
          }
        }
        Some(DigitsValue(whole) as real + DigitsValue(frac) as real / Pow10(|frac|) as real)
  }

  /** `float()` succeeds exactly on the decimal literals. */
  lemma ParseFloatSucceeds(s: string)
    requires OverDecimalChars(s)
    ensures ParseFloat(s).Some? <==> IsDecimalLiteral(s)
  {
    var i := FindChar(s, 0, '.');
    if i == |s| {
      if s != "" {
        assert s[0] in s && s[0] != '.';
      }
    } else {
      var whole, frac := s[..i], s[i + 1..];
      if '.' in frac {
        var k :| 0 <= k < |frac| && frac[k] == '.';
        assert s[i] == '.' && s[i + 1 + k] == '.';
      } else {
        forall a, b | 0 <= a < b < |s| && s[a] == '.' ensures s[b] != '.' {
          assert i <= a;
          assert s[b] == frac[b - i - 1];
        }
        if whole == "" && frac == "" {
          assert s == ".";
        } else if whole != "" {
          assert s[0] in s && s[0] != '.';
        } else {
          assert s[i + 1] in s && s[i + 1] == frac[0];
        }
      }
    }
  }

  lemma ParseFloatWhole(s: string)
    requires s != [] && AllDigits(s)
    ensures ParseFloat(s) == Some(DigitsValue(s) as real)
  {
    forall k | 0 <= k < |s| ensures s[k] != '.' {
      assert s[k] in s;
    }
  }

  /** `float()` reads back what `NatToString` writes. */
  lemma ParseFloatNatToString(n: nat)
    ensures ParseFloat(NatToString(n)) == Some(n as real)
  {
    ParseFloatWhole(NatToString(n));
  }

  /** `float()` reads back a rendering with two decimals. */
  lemma ParseFloatFixed2(q: nat, d: nat)
    requires d < 100
    ensures var t := NatToString(q) + "." + Pad2(d);
      OverDecimalChars(t) && ParseFloat(t) == Some(q as real + d as real / 100.0)
  {
    var w, f := NatToString(q), Pad2(d);
    var t := w + "." + f;
    Fixed2Pieces(w, f);
    FindCharLands(t, |w|);
    assert '.' !in f;
    assert Pow10(|f|) == 100;
    assert DigitsValue(f) as real / Pow10(|f|) as real == d as real / 100.0;
  }

  /** The pieces of `w.f` around its one dot. */
  lemma Fixed2Pieces(w: string, f: string)
    requires AllDigits(w) && AllDigits(f)
    ensures var t := w + "." + f;
      && OverDecimalChars(t) && t[..|w|] == w && t[|w| + 1..] == f
      && t[|w|] == '.' && forall c | c in t[..|w|] :: IsDigit(c)
  {
    var t := w + "." + f;
    assert t[..|w|] == w;
    assert t[|w| + 1..] == f;
  }

  lemma FindCharLands(t: string, i: nat)
    requires i < |t| && t[i] == '.' && forall c | c in t[..i] :: IsDigit(c)
    ensures FindChar(t, 0, '.') == i
  {
    forall k | 0 <= k < i ensures t[k] != '.' {
      assert t[..i][k] == t[k] && t[..i][k] in t[..i];
    }
  }

  // ---------------------------------------------------------------------------------------
  // Formatting with two decimals

  function Abs(x: real): (r: real)
    ensures r >= 0.0 && (r == x || r == -x)
  {
    if x < 0.0 then -x else x
  }

  /** The integer nearest to `x`, ties going to the even neighbour (how `format` rounds). */
  function RoundHalfEven(x: real): (r: int)
    ensures r as real - 0.5 <= x <= r as real + 0.5
    ensures (x == r as real - 0.5 || x == r as real + 0.5) ==> r % 2 == 0
  {
    var f := x.Floor;
    var d := x - f as real;
    if d < 0.5 then f
    else if d > 0.5 then f + 1
    else if f % 2 == 0 then f
    else f + 1
  }

  /** The digits part of `format(x, '.2f')`: the magnitude of `x` rounded to hundredths. */
  function Fixed2Digits(x: real): (r: string)
  {
    var n := RoundHalfEven(Abs(x) * 100.0);
    assert n >= 0;
    NatToString(n / 100) + "." + Pad2(n % 100)
  }

  /** `format(x, '+.2f')` when `plus`, `format(x, '.2f')` otherwise: the sign of `x`, then `Fixed2Digits`. */
  function FormatFixed2(x: real, plus: bool): string {
    (if x < 0.0 then "-" else if plus then "+" else "") + Fixed2Digits(x)
  }

  /** The rendering reads back as a number within half a hundredth of the magnitude of `x`. */
  lemma Fixed2DigitsValue(x: real)
    ensures var t := Fixed2Digits(x);
      && |t| >= 4 && t[|t| - 3] == '.' && OverDecimalChars(t)
      && ParseFloat(t).Some?
      && Abs(ParseFloat(t).value - Abs(x)) <= 0.005
  {
    var n := RoundHalfEven(Abs(x) * 100.0);
    ParseFloatFixed2(n / 100, n % 100);
    assert (n / 100) as real + (n % 100) as real / 100.0 == n as real / 100.0;
  }

  /** The sign shown: `-` for negative `x`, `+` for the others when asked for, then the digits. */
  lemma FormatFixed2Sign(x: real, plus: bool)
    ensures var t := FormatFixed2(x, plus);
      && (x < 0.0 ==> t[0] == '-' && t[1..] == Fixed2Digits(x))
      && (x >= 0.0 && plus ==> t[0] == '+' && t[1..] == Fixed2Digits(x))
      && (x >= 0.0 && !plus ==> t == Fixed2Digits(x) && IsDigit(t[0]))
  {
  }

  /** The rendering is made of digits, the dot and the sign. */
  lemma FormatFixed2Chars(x: real, plus: bool)
    ensures forall c | c in FormatFixed2(x, plus) :: IsDecimalChar(c) || c == '-' || c == '+'
  {
    var n := RoundHalfEven(Abs(x) * 100.0);
    assert n >= 0;
    assert Fixed2Digits(x) == NatToString(n / 100) + "." + Pad2(n % 100);
  }

  // ---------------------------------------------------------------------------------------
  // The two suffixes

  /** Python's `float(s.replace('%', ''))` for `s` over `[\d.%]`. */
  function ParsePercent(s: string): Option<real>
    requires forall c | c in s :: IsDecimalChar(c) || c == '%'
  {
    ParseFloat(RemoveChar(s, '%'))
  }

  /** `" (±X.XX% change)"` from the two holding percentages, or `""` when either fails to parse. */
  function PctChangeSuffix(percentBefore: string, percentAfter: string): (r: string)
    requires forall c | c in percentBefore :: IsDecimalChar(c) || c == '%'
    requires forall c | c in percentAfter :: IsDecimalChar(c) || c == '%'
  {
    var b, a := ParsePercent(percentBefore), ParsePercent(percentAfter);
    if b.Some? && a.Some? then " (" + FormatFixed2(a.value - b.value, true) + "% change)" else ""
  }

  /** `n / d * 100`, the share of `d` that `n` is, in percent. */
  function Percentage(n: real, d: real): real
    requires d != 0.0
  {
    n / d * 100.0
  }

  /** `" (X.XX% of initial)"` for registered over initial shares, or `""` when either fails to parse or the initial count is zero. */
  function RegisteredPctSuffix(registered: string, before: string): (r: string)
    requires OverDecimalChars(registered) && OverDecimalChars(before)
  {
    var n, d := ParseFloat(registered), ParseFloat(before);
    if n.Some? && d.Some? && d.value != 0.0 then " (" + FormatFixed2(Percentage(n.value, d.value), false) + "% of initial)"
    else ""
  }

  /** The change suffix is there exactly when both percentages, `%` removed, are decimal numbers. */
  lemma PctChangeSuffixPresent(percentBefore: string, percentAfter: string)
    requires forall c | c in percentBefore :: IsDecimalChar(c) || c == '%'
    requires forall c | c in percentAfter :: IsDecimalChar(c) || c == '%'
    ensures PctChangeSuffix(percentBefore, percentAfter) != "" <==>
      IsDecimalLiteral(RemoveChar(percentBefore, '%')) && IsDecimalLiteral(RemoveChar(percentAfter, '%'))
  {
    ParseFloatSucceeds(RemoveChar(percentBefore, '%'));
    ParseFloatSucceeds(RemoveChar(percentAfter, '%'));
  }

  /** When present, the change suffix shows `after - before` with its sign and two decimals (Fixed2DigitsValue). */
  lemma PctChangeSuffixValue(percentBefore: string, percentAfter: string)
    requires forall c | c in percentBefore :: IsDecimalChar(c) || c == '%'
    requires forall c | c in percentAfter :: IsDecimalChar(c) || c == '%'
    requires ParsePercent(percentBefore).Some? && ParsePercent(percentAfter).Some?
    ensures var diff := ParsePercent(percentAfter).value - ParsePercent(percentBefore).value;
      PctChangeSuffix(percentBefore, percentAfter) ==
        " (" + [if diff < 0.0 then '-' else '+'] + Fixed2Digits(diff) + "% change)"
  {
  }

  /** A string of digits denotes zero exactly when every digit is `0`. */
  lemma {:induction false} DigitsValueZero(s: string)
    requires AllDigits(s)
    ensures DigitsValue(s) == 0 <==> forall c | c in s :: c == '0'
    decreases |s|
  {
    if s != "" {
      var init, last := s[..|s| - 1], s[|s| - 1];
      assert s == init + [last];
      assert forall c | c in init :: c in s;
      assert last in s;
      DigitsValueZero(init);
      if DigitsValue(s) == 0 {
        assert DigitsValue(init) == 0 && DigitValue(last) == 0;
      }
      if forall c | c in s :: c == '0' {
        assert DigitValue(last) == 0;
      }
    }
  }

  /**
   * For the share counts (digits only), the registered suffix is there exactly when both counts
   * are non-empty and the initial count has a non-zero digit; `float()` of the empty count raises
   * and a zero initial count divides by zero.
   */
  lemma RegisteredPctSuffixPresent(registered: string, before: string)
    requires AllDigits(registered) && AllDigits(before)
    ensures RegisteredPctSuffix(registered, before) != "" <==>
      registered != "" && before != "" && exists c | c in before :: c != '0'
  {
    if registered != "" {
      ParseFloatWhole(registered);
    }
    if before != "" {
      ParseFloatWhole(before);
      DigitsValueZero(before);
    }
  }

  /** When present, the registered suffix shows registered / initial * 100 with two decimals (Fixed2DigitsValue). */
  lemma RegisteredPctSuffixValue(registered: string, before: string)
    requires AllDigits(registered) && AllDigits(before)
    requires registered != "" && before != "" && DigitsValue(before) != 0
    ensures RegisteredPctSuffix(registered, before) ==
      " (" + Fixed2Digits(Percentage(DigitsValue(registered) as real, DigitsValue(before) as real)) + "% of initial)"
  {
    var n, d := DigitsValue(registered) as real, DigitsValue(before) as real;
    ParseFloatWhole(registered);
    ParseFloatWhole(before);
    RegisteredPctSuffixParsed(registered, before, n, d);
    RatioNonNegative(n, d);
    UnsignedSuffix(RegisteredPctSuffix(registered, before), Percentage(n, d), "% of initial)");
  }

  lemma UnsignedSuffix(suffix: string, x: real, tail: string)
    requires x >= 0.0 && suffix == " (" + FormatFixed2(x, false) + tail
    ensures suffix == " (" + Fixed2Digits(x) + tail
  {
  }

  lemma RegisteredPctSuffixParsed(registered: string, before: string, n: real, d: real)
    requires OverDecimalChars(registered) && OverDecimalChars(before)
    requires ParseFloat(registered) == Some(n) && ParseFloat(before) == Some(d) && d != 0.0
    ensures RegisteredPctSuffix(registered, before) == " (" + FormatFixed2(Percentage(n, d), false) + "% of initial)"
  {
  }

  lemma RatioNonNegative(n: real, d: real)
    requires n >= 0.0 && d > 0.0
    ensures Percentage(n, d) >= 0.0
  {
    assert n / d >= 0.0;
  }

  /** Neither suffix contains a newline, whatever the inputs. */
  lemma SuffixesOneLine(registered: string, before: string, percentBefore: string, percentAfter: string)
    requires OverDecimalChars(registered) && OverDecimalChars(before)
    requires forall c | c in percentBefore :: IsDecimalChar(c) || c == '%'
    requires forall c | c in percentAfter :: IsDecimalChar(c) || c == '%'
    ensures '\n' !in RegisteredPctSuffix(registered, before)
    ensures '\n' !in PctChangeSuffix(percentBefore, percentAfter)
  {
    RegisteredPctSuffixOneLine(registered, before);
    PctChangeSuffixOneLine(percentBefore, percentAfter);
  }

  lemma RegisteredPctSuffixOneLine(registered: string, before: string)
    requires OverDecimalChars(registered) && OverDecimalChars(before)
    ensures '\n' !in RegisteredPctSuffix(registered, before)
  {
    var n, d := ParseFloat(registered), ParseFloat(before);
    if n.Some? && d.Some? && d.value != 0.0 {
      var x := Percentage(n.value, d.value);
      RegisteredPctSuffixParsed(registered, before, n.value, d.value);
      FormatFixed2Chars(x, false);
      WrappedOneLine(FormatFixed2(x, false), "% of initial)");
    }
  }

  lemma PctChangeSuffixOneLine(percentBefore: string, percentAfter: string)
    requires forall c | c in percentBefore :: IsDecimalChar(c) || c == '%'
    requires forall c | c in percentAfter :: IsDecimalChar(c) || c == '%'
    ensures '\n' !in PctChangeSuffix(percentBefore, percentAfter)
  {
    var b, a := ParsePercent(percentBefore), ParsePercent(percentAfter);
    if b.Some? && a.Some? {
      FormatFixed2Chars(a.value - b.value, true);
      WrappedOneLine(FormatFixed2(a.value - b.value, true), "% change)");
    }
  }

  lemma WrappedOneLine(t: string, tail: string)
    requires forall c | c in t :: IsDecimalChar(c) || c == '-' || c == '+'
    requires '\n' !in tail
    ensures '\n' !in " (" + t + tail
  {
  }
}

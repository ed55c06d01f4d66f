/** `extract_value` of app.py: `re.match(r"([0-9]*\.?[0-9]+)", s)` followed
    by `float(match.group(1))`, or `None` when there is no match.

    `re.match` anchors the match at index 0 and backtracks, so the match is
    the longest prefix of `s` written as a run of digits, optionally a `.`
    and at least one more digit. Python's `[0-9]` is ASCII only. */
module ValueParser {
  import opened Wrappers

  predicate IsDigit(c: char) {
    '0' <= c <= '9'
  }

  predicate AllDigits(t: string) {
    forall k :: 0 <= k < |t| ==> IsDigit(t[k])
  }

  /** The language of the pattern `[0-9]*\.?[0-9]+`, written as the regex
      reads: a digit part `t[..i]`, an optional dot `t[i..j]`, and a
      non-empty digit part `t[j..]`. */
  ghost predicate InPattern(t: string) {
    exists i, j :: 0 <= i <= j < |t| && AllDigits(t[..i]) && AllDigits(t[j..])
      && (j == i || (j == i + 1 && t[i] == '.'))
  }

  /** Length of the run of digits in `s` that starts at index `i`. */
  function DigitRun(s: string, i: nat): (n: nat)
    requires i <= |s|
    ensures i + n <= |s|
    ensures AllDigits(s[i..i + n])
    ensures i + n == |s| || !IsDigit(s[i + n])
    decreases |s| - i
  {
    if i < |s| && IsDigit(s[i]) then
      var n := DigitRun(s, i + 1);
      assert s[i..i + 1 + n] == [s[i]] + s[i + 1..i + 1 + n];
      1 + n
    else 0
  }

  /** Length of the prefix `re.match` accepts, or None when it fails.
      After the greedy digit run `[0-9]*`, the dot is taken only when a
      digit follows it; otherwise the regex backtracks and the match is
      the digit run alone, which must then be non-empty. */
  function MatchLength(s: string): (r: Option<nat>)
    ensures r.Some? ==> 0 < r.value <= |s|
  {
    var d := DigitRun(s, 0);
    if d + 1 < |s| && s[d] == '.' && IsDigit(s[d + 1]) then
      Some(d + 1 + DigitRun(s, d + 1))
    else if d > 0 then
      Some(d)
    else
      None
  }

  /** Decimal value of a digit string. */
  function NatValue(t: string): (v: nat)
    requires AllDigits(t)
  {
    if t == [] then 0 else 10 * NatValue(t[..|t| - 1]) + (t[|t| - 1] as int - '0' as int)
  }

  function Pow10(n: nat): (p: nat)
    ensures p >= 1
  {
    if n == 0 then 1 else 10 * Pow10(n - 1)
  }

  /** The number `whole.frac` where `frac` is written with `scale`
      digits. */
  function DecimalValue(whole: nat, frac: nat, scale: nat): (v: real)
    ensures v >= whole as real
  {
    whole as real + frac as real / Pow10(scale) as real
  }

  /** What `float` makes of a matched text: digits, or digits, a dot
      and digits. */
  function FloatValue(t: string): real
    requires InPattern(t)
  {
    var k := DigitRun(t, 0);
    if k == |t| then NatValue(t) as real
    else
      DecimalAt(t, k);
      DecimalValue(NatValue(t[..k]), NatValue(t[k + 1..]), |t| - k - 1)
  }

  /** The dot of a pattern text that is not all digits sits right after
      its leading digit run, and digits follow it. */
  lemma DecimalAt(t: string, k: nat)
    requires InPattern(t) && k <= |t| && k == DigitRun(t, 0) && k < |t|
    ensures k + 1 < |t| && t[k] == '.' && AllDigits(t[..k]) && AllDigits(t[k + 1..])
  {
    var i, j :| 0 <= i <= j < |t| && AllDigits(t[..i]) && AllDigits(t[j..])
      && (j == i || (j == i + 1 && t[i] == '.'));
    // The leading digits end at k at the earliest, and t[k] is no digit,
    // so the trailing digits start after k: the dot is at k.
    assert i <= k by {
      assert t[0..i] == t[..i];
      RunCoversDigits(t, 0, i);
    }
    assert k < j by {
      assert forall x :: j <= x < |t| ==> IsDigit(t[x]) by {
        forall x | j <= x < |t| ensures IsDigit(t[x]) {
          assert t[j..][x - j] == t[x];
        }
      }
      assert !IsDigit(t[k]);
    }
    assert AllDigits(t[..k]) by {
      assert t[0..k] == t[..k];
    }
    assert j == k + 1 && t[k] == '.';
    assert t[k + 1..] == t[j..];
  }

  /** A run of digits from `a` to `b` lies inside the digit run at `a`. */
  lemma {:induction false} RunCoversDigits(s: string, a: nat, b: nat)
    requires a <= b <= |s|
    requires AllDigits(s[a..b])
    ensures b <= a + DigitRun(s, a)
    decreases b - a
  {
    if a < b {
      assert IsDigit(s[a..b][0]);
      assert s[a + 1..b] == s[a..b][1..];
      RunCoversDigits(s, a + 1, b);
    }
  }

  /** `extract_value(s)`: None exactly when `s` neither starts with a
      digit nor with a dot followed by a digit (no leading blank and no
      sign is accepted), and otherwise a value that is never negative. */
  function ExtractValue(s: string): (r: Option<real>)
    ensures r.None? <==>
      !(|s| > 0 && IsDigit(s[0])) && !(|s| > 1 && s[0] == '.' && IsDigit(s[1]))
    ensures r.Some? ==> r.value >= 0.0
  {
    match MatchLength(s)
    case None => None
    case Some(n) =>
      MatchIsPattern(s);
      Some(FloatValue(s[..n]))
  }

  /** The matched text is a prefix of `s` in the pattern's language. */
  lemma MatchIsPattern(s: string)
    ensures MatchLength(s).Some? ==>
      MatchLength(s).value <= |s| && InPattern(s[..MatchLength(s).value])
  {
    var d := DigitRun(s, 0);
    if d + 1 < |s| && s[d] == '.' && IsDigit(s[d + 1]) {
      var n := d + 1 + DigitRun(s, d + 1);
      var t := s[..n];
      assert t[..d] == s[0..d];
      assert t[d + 1..] == s[d + 1..n];
      assert AllDigits(t[..d]) && AllDigits(t[d + 1..]) && t[d] == '.';
    } else if d > 0 {
      var t := s[..d];
      assert t[..0] == [] && t[0..] == s[0..d];
      assert AllDigits(t[..0]) && AllDigits(t[0..]);
    }
  }

  /** No longer prefix of `s` is in the pattern's language: the match is
      the longest one. */
  lemma MatchIsLongest(s: string, m: nat)
    requires MatchLength(s).Some? && MatchLength(s).value < m <= |s|
    ensures !InPattern(s[..m])
  {
    if InPattern(s[..m]) {
      var t := s[..m];
      var i, j :| 0 <= i <= j < |t| && AllDigits(t[..i]) && AllDigits(t[j..])
        && (j == i || (j == i + 1 && t[i] == '.'));
      if j == i {
        LongerNotDigits(s, m, i);
      } else {
        LongerNotDecimal(s, m, i);
      }
    }
  }

  /** Digits followed by digits: longer than the match means longer than
      the leading run of digits. */
  lemma LongerNotDigits(s: string, m: nat, i: nat)
    requires MatchLength(s).Some? && MatchLength(s).value < m <= |s| && i <= m
    ensures !(AllDigits(s[..m][..i]) && AllDigits(s[..m][i..]))
  {
    var t := s[..m];
    if AllDigits(t[..i]) && AllDigits(t[i..]) {
      assert forall k :: 0 <= k < m ==> IsDigit(s[0..m][k]) by {
        forall k | 0 <= k < m ensures IsDigit(s[0..m][k]) {
          if k < i { assert t[..i][k] == s[k]; } else { assert t[i..][k - i] == s[k]; }
        }
      }
      RunCoversDigits(s, 0, m);
      assert false;
    }
  }

  /** Digits, a dot and digits: the dot can only be the one after the
      leading run, and then the fraction cannot reach past its own run. */
  lemma LongerNotDecimal(s: string, m: nat, i: nat)
    requires MatchLength(s).Some? && MatchLength(s).value < m <= |s| && i + 1 < m
    ensures !(AllDigits(s[..m][..i]) && s[..m][i] == '.' && AllDigits(s[..m][i + 1..]))
  {
    var t := s[..m];
    if AllDigits(t[..i]) && t[i] == '.' {
      var d := DigitRun(s, 0);
      assert i == d by {
        assert s[0..i] == t[..i];
        RunCoversDigits(s, 0, i);
      }
      if IsDigit(s[d + 1]) {
        var e := d + 1 + DigitRun(s, d + 1);
        assert !IsDigit(t[i + 1..][e - i - 1]);
      } else {
        assert !IsDigit(t[i + 1..][0]);
      }
    }
  }

  /** `re.match` fails exactly when no prefix of `s` (the empty one
      included) is in the pattern's language. */
  lemma MatchFailsIffNoPatternPrefix(s: string)
    ensures MatchLength(s).None? <==> forall m :: 0 <= m <= |s| ==> !InPattern(s[..m])
  {
    if MatchLength(s).None? {
      forall m | 0 <= m <= |s| ensures !InPattern(s[..m]) {
        PatternPrefixStart(s, m);
      }
    } else {
      MatchIsPattern(s);
    }
  }

  /** A text in the pattern's language starts with a digit, or with a dot
      and a digit. */
  lemma PatternStart(t: string)
    requires InPattern(t)
    ensures (|t| > 0 && IsDigit(t[0])) || (|t| > 1 && t[0] == '.' && IsDigit(t[1]))
  {
    var i, j :| 0 <= i <= j < |t| && AllDigits(t[..i]) && AllDigits(t[j..])
      && (j == i || (j == i + 1 && t[i] == '.'));
    if i > 0 {
      assert IsDigit(t[..i][0]);
    } else {
      assert IsDigit(t[j..][0]);
    }
  }

  /** So does every text with a prefix in the pattern's language. */
  lemma PatternPrefixStart(s: string, m: nat)
    requires m <= |s|
    ensures InPattern(s[..m]) ==>
      (|s| > 0 && IsDigit(s[0])) || (|s| > 1 && s[0] == '.' && IsDigit(s[1]))
  {
    if InPattern(s[..m]) {
      PatternStart(s[..m]);
    }
  }

  /** The digit run at `a` is exactly `s[a..b]` when that is all digits
      and no digit follows it. */
  lemma DigitRunExact(s: string, a: nat, b: nat)
    requires a <= b <= |s| && AllDigits(s[a..b])
    requires b == |s| || !IsDigit(s[b])
    ensures DigitRun(s, a) == b - a
  {
    RunCoversDigits(s, a, b);
  }

  /** A digit run ended by anything but a dot-and-digit reads back as
      its integer value. */
  lemma ExtractInteger(digits: string, rest: string)
    requires |digits| > 0 && AllDigits(digits)
    requires !(|rest| > 0 && IsDigit(rest[0]))
    requires !(|rest| > 1 && rest[0] == '.' && IsDigit(rest[1]))
    ensures ExtractValue(digits + rest) == Some(NatValue(digits) as real)
  {
    var s := digits + rest;
    assert MatchLength(s) == Some(|digits|) by {
      assert s[0..|digits|] == digits;
      DigitRunExact(s, 0, |digits|);
    }
    assert s[..|digits|] == digits;
    assert DigitRun(digits, 0) == |digits| by {
      assert digits[0..|digits|] == digits;
      DigitRunExact(digits, 0, |digits|);
    }
  }

  /** A match with a fractional part, located by index: digits up to
      `w`, the dot at `w`, digits up to `n` and no digit after them. */
  lemma ExtractDecimalAt(s: string, w: nat, n: nat)
    requires w + 1 < n <= |s| && s[w] == '.'
    requires AllDigits(s[..w]) && AllDigits(s[w + 1..n])
    requires n == |s| || !IsDigit(s[n])
    ensures ExtractValue(s) ==
      Some(DecimalValue(NatValue(s[..w]), NatValue(s[w + 1..n]), n - w - 1))
  {
    assert MatchLength(s) == Some(n) by {
      assert s[0..w] == s[..w];
      DigitRunExact(s, 0, w);
      DigitRunExact(s, w + 1, n);
      assert IsDigit(s[w + 1..n][0]);
    }
    var t := s[..n];
    assert t[..w] == s[..w] && t[w + 1..] == s[w + 1..n];
    assert DigitRun(t, 0) == w by {
      assert t[0..w] == s[..w];
      DigitRunExact(t, 0, w);
    }
  }

  /** Digits, a dot and digits, ended by a non-digit, read back as the
      decimal number they spell. */
  lemma ExtractDecimal(whole: string, frac: string, rest: string)
    requires AllDigits(whole) && AllDigits(frac) && |frac| > 0
    requires !(|rest| > 0 && IsDigit(rest[0]))
    ensures ExtractValue(whole + "." + frac + rest) ==
      Some(DecimalValue(NatValue(whole), NatValue(frac), |frac|))
  {
    var s := whole + "." + frac + rest;
    var w := |whole|;
    var n := w + 1 + |frac|;
    assert s[..w] == whole && s[w + 1..n] == frac;
    ExtractDecimalAt(s, w, n);
  }

  /** "2.5 ± 0.1" reads as 2.5: the uncertainty is dropped. */
  lemma ExtractUncertaintyExample()
    ensures ExtractValue("2.5 \U{00B1} 0.1") == Some(2.5)
  {
    assert NatValue("2") == 2;
    assert NatValue("5") == 5;
    assert DecimalValue(2, 5, 1) == 2.5;
    ExtractDecimal("2", "5", " \U{00B1} 0.1");
    assert "2" + "." + "5" + " \U{00B1} 0.1" == "2.5 \U{00B1} 0.1";
  }

  /** "12. x" reads as 12: the regex backtracks over the dangling dot. */
  lemma ExtractDanglingDotExample()
    ensures ExtractValue("12. x") == Some(12.0)
  {
    assert AllDigits("12") && !IsDigit('.') && !IsDigit(' ');
    assert NatValue("12") == 12 by {
      assert "12"[..1] == "1";
    }
    ExtractInteger("12", ". x");
    assert "12" + ". x" == "12. x";
  }

  /** ".5" reads as 0.5: the digit part before the dot may be empty. */
  lemma ExtractLeadingDotExample()
    ensures ExtractValue(".5") == Some(0.5)
  {
    assert DecimalValue(NatValue(""), NatValue("5"), 1) == 0.5 by {
      assert NatValue("") == 0 && NatValue("5") == 5 && Pow10(1) == 10;
    }
    ExtractDecimal("", "5", "");
    assert "" + "." + "5" + "" == ".5";
  }

  /** "7" reads as 7. */
  lemma ExtractIntegerExample()
    ensures ExtractValue("7") == Some(7.0)
  {
    ExtractInteger("7", "");
    assert "7" + "" == "7";
  }

  /** A leading blank, a sign or a word makes the match fail. */
  lemma ExtractRejectsExamples()
    ensures ExtractValue(" 12") == None
    ensures ExtractValue("-3") == None
    ensures ExtractValue("n/a") == None
  {
  }
}

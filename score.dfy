/**
 * The score parser of the food-matching routine: the oracle's reply text, or
 * "0" when the reply is missing or empty, with every non-digit character removed
 * and the remaining digits read as a base-10 integer (0 when none remain).
 */
module ScoreParser {
  import opened Wrappers

  /** The characters the regular expression class [0-9] matches. */
  predicate IsDigit(c: char) {
    '0' <= c <= '9'
  }

  predicate AllDigits(s: string) {
    forall i :: 0 <= i < |s| ==> IsDigit(s[i])
  }

  predicate NoDigits(s: string) {
    forall i :: 0 <= i < |s| ==> !IsDigit(s[i])
  }

  function DigitValue(c: char): (d: nat)
    requires IsDigit(c)
    ensures d < 10
  {
    c as int - '0' as int
  }

  function DigitChar(d: nat): (c: char)
    requires d < 10
    ensures IsDigit(c) && DigitValue(c) == d
  {
    ('0' as int + d) as char
  }

  function Pow10(n: nat): (p: nat)
    ensures p >= 1
  {
    if n == 0 then 1 else 10 * Pow10(n - 1)
  }

  /** The digit characters of `s`, in their original order. */
  function StripNonDigits(s: string): (r: string)
    ensures |r| <= |s|
    ensures AllDigits(r)
  {
    if s == [] then []
    else (if IsDigit(s[0]) then [s[0]] else []) + StripNonDigits(s[1..])
  }

  /**
   * The base-10 value of a string of digits, read left to right as parseInt does:
   * each digit multiplies the value so far by ten and adds itself.
   */
  function DigitsValue(d: string): (v: nat)
    requires AllDigits(d)
    ensures v < Pow10(|d|)
  {
    if d == [] then 0
    else
      var v0 := DigitsValue(d[..|d| - 1]);
      assert v0 <= Pow10(|d| - 1) - 1;
      v0 * 10 + DigitValue(d[|d| - 1])
  }

  /** The reply text after the `|| "0"` default: a missing or empty reply becomes "0". */
  function ScoreText(content: Option<string>): (t: string)
    ensures t != []
    ensures content.Some? && content.value != [] ==> t == content.value
    ensures content.None? || content.value == [] ==> t == "0"
  {
    match content
    case Some(t) => if t == [] then "0" else t
    case None => "0"
  }

  /**
   * The parsed score of a reply; `parseInt("", 10)` is NaN, which `|| 0` turns
   * into 0. It is the place value of the defaulted text's digits, in order.
   */
  function ParseScore(content: Option<string>): (score: nat)
    ensures score == PlaceValue(StripNonDigits(ScoreText(content)))
  {
    var digits := StripNonDigits(ScoreText(content));
    DigitsValueIsPlaceValue(digits);
    if digits == [] then 0 else DigitsValue(digits)
  }

  /** An independent reading of a digit string: the sum of each digit times its place value. */
  function PlaceValue(d: string): nat
    requires AllDigits(d)
  {
    if d == [] then 0 else DigitValue(d[0]) * Pow10(|d| - 1) + PlaceValue(d[1..])
  }

  /** The decimal numeral of `n`, without leading zeros. */
  function Decimal(n: nat): (s: string)
    ensures s != [] && AllDigits(s)
  {
    if n < 10 then [DigitChar(n)] else Decimal(n / 10) + [DigitChar(n % 10)]
  }

  // ---------------------------------------------------------------------------
  // Digit stripping

  /** Stripping distributes over concatenation. */
  lemma {:induction false} StripConcat(a: string, b: string)
    ensures StripNonDigits(a + b) == StripNonDigits(a) + StripNonDigits(b)
  {
    if a == [] {
      assert a + b == b;
    } else {
      assert (a + b)[1..] == a[1..] + b;
      StripConcat(a[1..], b);
    }
  }

  /** A string of digits is left unchanged, so stripping twice is stripping once. */
  lemma {:induction false} StripKeepsDigits(s: string)
    requires AllDigits(s)
    ensures StripNonDigits(s) == s
  {
    if s != [] {
      StripKeepsDigits(s[1..]);
    }
  }

  lemma StripIdempotent(s: string)
    ensures StripNonDigits(StripNonDigits(s)) == StripNonDigits(s)
  {
    StripKeepsDigits(StripNonDigits(s));
  }

  /** A string with no digit characters strips to nothing. */
  lemma {:induction false} StripNoDigits(s: string)
    requires NoDigits(s)
    ensures StripNonDigits(s) == []
  {
    if s != [] {
      StripNoDigits(s[1..]);
    }
  }

  /** Every digit character of the input is present in the stripped result. */
  lemma {:induction false} StripKeepsEveryDigit(s: string, i: nat)
    requires i < |s| && IsDigit(s[i])
    ensures s[i] in StripNonDigits(s)
  {
    if i > 0 {
      StripKeepsEveryDigit(s[1..], i - 1);
    }
  }

  // ---------------------------------------------------------------------------
  // Reading digits

  /** Reading `a + b` is reading `a`, shifted by the length of `b`, plus reading `b`. */
  lemma {:induction false} DigitsValueConcat(a: string, b: string)
    requires AllDigits(a) && AllDigits(b)
    ensures AllDigits(a + b)
    ensures DigitsValue(a + b) == DigitsValue(a) * Pow10(|b|) + DigitsValue(b)
  {
    assert AllDigits(a + b) by {
      forall i | 0 <= i < |a + b| ensures IsDigit((a + b)[i]) {
        if i < |a| { assert (a + b)[i] == a[i]; } else { assert (a + b)[i] == b[i - |a|]; }
      }
    }
    if b == [] {
      assert a + b == a;
    } else {
      var b0 := b[..|b| - 1];
      assert (a + b)[..|a + b| - 1] == a + b0;
      assert (a + b)[|a + b| - 1] == b[|b| - 1];
      DigitsValueConcat(a, b0);
      var x, y, c, p := DigitsValue(a), DigitsValue(b0), DigitValue(b[|b| - 1]), Pow10(|b0|);
      assert DigitsValue(a + b) == DigitsValue(a + b0) * 10 + c;
      assert DigitsValue(a + b0) == x * p + y;
      assert DigitsValue(b) == y * 10 + c by { assert b[..|b| - 1] == b0; }
      assert Pow10(|b|) == p * 10;
      MulDistributes(x, p, y);
    }
  }

  lemma MulDistributes(x: int, p: int, y: int)
    ensures (x * p + y) * 10 == x * (p * 10) + y * 10
  {
  }

  /** Left-to-right reading agrees with the place-value sum. */
  lemma {:induction false} DigitsValueIsPlaceValue(d: string)
    requires AllDigits(d)
    ensures DigitsValue(d) == PlaceValue(d)
  {
    if d != [] {
      var head, tail := d[..1], d[1..];
      assert d == head + tail;
      DigitsValueConcat(head, tail);
      assert head[..0] == [];
      DigitsValueIsPlaceValue(tail);
    }
  }

  /** Leading zeros do not change the value. */
  lemma LeadingZero(d: string)
    requires AllDigits(d)
    ensures AllDigits("0" + d) && DigitsValue("0" + d) == DigitsValue(d)
  {
    DigitsValueConcat("0", d);
    assert "0"[..0] == [];
  }

  /** The value is zero exactly when every digit is '0'. */
  lemma {:induction false} DigitsValueZero(d: string)
    requires AllDigits(d)
    ensures DigitsValue(d) == 0 <==> forall i :: 0 <= i < |d| ==> d[i] == '0'
  {
    if d != [] {
      var init := d[..|d| - 1];
      DigitsValueZero(init);
      if forall i :: 0 <= i < |d| ==> d[i] == '0' {
        assert forall i :: 0 <= i < |init| ==> init[i] == '0' by {
          forall i | 0 <= i < |init| ensures init[i] == '0' { assert init[i] == d[i]; }
        }
      } else {
        var i :| 0 <= i < |d| && d[i] != '0';
        if i < |d| - 1 {
          assert init[i] == d[i];
        }
      }
    }
  }

  /** Reading back a decimal numeral gives the number. */
  lemma {:induction false} DecimalRoundTrip(n: nat)
    ensures DigitsValue(Decimal(n)) == n
  {
    if n >= 10 {
      var s := Decimal(n);
      assert s[..|s| - 1] == Decimal(n / 10);
      DecimalRoundTrip(n / 10);
    }
  }

  // ---------------------------------------------------------------------------
  // The parsed score

  /** A missing or empty reply scores 0. */
  lemma MissingReplyScoresZero(content: Option<string>)
    requires content.None? || content.value == []
    ensures ParseScore(content) == 0
  {
    assert StripNonDigits("0") == "0";
  }

  /** The score is the value of the reply's digit characters taken in order, 0 when there are none. */
  lemma ParseScoreIsDigitValue(t: string)
    ensures ParseScore(Some(t)) == PlaceValue(StripNonDigits(t))
  {
    if t == [] {
      assert StripNonDigits("0") == "0";
      assert PlaceValue("0") == 0;
    } else {
      DigitsValueIsPlaceValue(StripNonDigits(t));
    }
  }

  /** A score is zero exactly when the reply's digits are all '0' (or it has none). */
  lemma ParseScoreZero(t: string)
    ensures ParseScore(Some(t)) == 0 <==> forall i :: 0 <= i < |t| && IsDigit(t[i]) ==> t[i] == '0'
  {
    if t == [] {
      assert StripNonDigits("0") == "0";
    } else {
      var digits := StripNonDigits(t);
      DigitsValueZero(digits);
      if ParseScore(Some(t)) == 0 {
        forall i | 0 <= i < |t| && IsDigit(t[i]) ensures t[i] == '0' {
          StripKeepsEveryDigit(t, i);
        }
      } else {
        var k :| 0 <= k < |digits| && digits[k] != '0';
        DigitOrigin(t, k);
      }
    }
  }

  /** Every character of the stripped result is a digit taken from the input. */
  lemma {:induction false} DigitOrigin(s: string, k: nat)
    requires k < |StripNonDigits(s)|
    ensures exists i :: 0 <= i < |s| && IsDigit(s[i]) && s[i] == StripNonDigits(s)[k]
  {
    if IsDigit(s[0]) && k == 0 {
      assert IsDigit(s[0]) && s[0] == StripNonDigits(s)[0];
    } else {
      var k' := if IsDigit(s[0]) then k - 1 else k;
      DigitOrigin(s[1..], k');
      var i :| 0 <= i < |s[1..]| && IsDigit(s[1..][i]) && s[1..][i] == StripNonDigits(s[1..])[k'];
      assert s[i + 1] == s[1..][i];
    }
  }

  /** A number printed between text that has no digits scores as that number ("Score: 85." gives 85). */
  lemma ParseNumberInText(prefix: string, n: nat, suffix: string)
    requires NoDigits(prefix) && NoDigits(suffix)
    ensures ParseScore(Some(prefix + Decimal(n) + suffix)) == n
  {
    var d := Decimal(n);
    var t := prefix + d + suffix;
    assert |t| >= |d| > 0;
    assert ScoreText(Some(t)) == t;
    StripConcat(prefix + d, suffix);
    StripConcat(prefix, d);
    StripNoDigits(prefix);
    StripNoDigits(suffix);
    StripKeepsDigits(d);
    assert StripNonDigits(t) == [] + d + [];
    assert [] + d + [] == d;
    DecimalRoundTrip(n);
  }

  /** Digits separated by other text are run together: "Score: 42/100" gives 42100, not 42. */
  lemma FractionRunsTogether()
    ensures ParseScore(Some("Score: 42/100")) == 42100
  {
    FractionDigits();
    FractionValue();
  }

  lemma FractionDigits()
    ensures StripNonDigits("Score: 42/100") == "42100"
  {
    assert NoDigits("Score: ") && AllDigits("42") && NoDigits("/") && AllDigits("100");
    StripAroundSeparators("Score: ", "42", "/", "100");
    assert "Score: " + "42" + "/" + "100" == "Score: 42/100";
    assert "42" + "100" == "42100";
  }

  /** Stripping text laid out as label, digits, separator, digits leaves the two digit runs joined. */
  lemma StripAroundSeparators(p: string, x: string, q: string, y: string)
    requires NoDigits(p) && AllDigits(x) && NoDigits(q) && AllDigits(y)
    ensures StripNonDigits(p + x + q + y) == x + y
  {
    assert StripNonDigits(p + x) == x by {
      StripConcat(p, x);
      StripNoDigits(p);
      StripKeepsDigits(x);
      assert [] + x == x;
    }
    assert StripNonDigits(p + x + q) == x by {
      StripConcat(p + x, q);
      StripNoDigits(q);
      assert x + [] == x;
    }
    StripConcat(p + x + q, y);
    StripKeepsDigits(y);
  }

  lemma FractionValue()
    ensures DigitsValue("42100") == 42100
  {
    assert "42100" == "42" + "100";
    DigitsValueConcat("42", "100");
    DigitsValueOf2("42");
    DigitsValueOf3("100");
    assert Pow10(3) == 1000;
  }

  lemma DigitsValueOf2(d: string)
    requires |d| == 2 && AllDigits(d)
    ensures DigitsValue(d) == 10 * DigitValue(d[0]) + DigitValue(d[1])
  {
    assert d[..1][..0] == [];
  }

  lemma DigitsValueOf3(d: string)
    requires |d| == 3 && AllDigits(d)
    ensures DigitsValue(d) == 100 * DigitValue(d[0]) + 10 * DigitValue(d[1]) + DigitValue(d[2])
  {
    DigitsValueOf2(d[..2]);
  }

  /** A bare numeral reply scores its number ("85" gives 85). */
  lemma ParseNumeral(n: nat)
    ensures ParseScore(Some(Decimal(n))) == n
  {
    ParseNumberInText([], n, []);
    assert [] + Decimal(n) + [] == Decimal(n);
  }
}

/**
 * Numeric tokens: the test `is_garbled` applies (does Python's `float()`
 * accept the token?), the conversions `int(tok)` and `float(tok)`, and the
 * decomposition of an `hhmmss.sss` time token into seconds of the day.
 *
 * `float()` is modelled by the signed decimal grammar
 *   [ '+' | '-' ] ( digits [ '.' [ digits ] ] | '.' digits )
 * and `int()` by [ '+' | '-' ] digits. Values are exact rationals (`real`).
 */
module Numbers {

  datatype Option<T> = None | Some(value: T)

  predicate IsDigit(c: char) { '0' <= c <= '9' }

  predicate AllDigits(s: string) {
    forall i | 0 <= i < |s| :: IsDigit(s[i])
  }

  function Pow10(n: nat): (p: nat)
    ensures p >= 1
  {
    if n == 0 then 1 else 10 * Pow10(n - 1)
  }

  /** The value of a string of decimal digits, most significant first. */
  function DigitsValue(s: string): (v: nat)
    requires AllDigits(s)
    decreases |s|
  {
    if s == [] then 0
    else DigitsValue(s[..|s| - 1]) * 10 + (s[|s| - 1] as int - '0' as int)
  }

  /** A string of `n` digits denotes less than `10^n`. */
  lemma {:induction false} DigitsValueBound(s: string)
    requires AllDigits(s)
    ensures DigitsValue(s) < Pow10(|s|)
    decreases |s|
  {
    if s != [] {
      DigitsValueBound(s[..|s| - 1]);
    }
  }

  /** The token without its optional leading sign. */
  function Unsigned(s: string): (u: string)
    ensures u == s || (|s| > 0 && u == s[1..] && (s[0] == '+' || s[0] == '-'))
  {
    if |s| > 0 && (s[0] == '+' || s[0] == '-') then s[1..] else s
  }

  function Sign(s: string): int {
    if |s| > 0 && s[0] == '-' then -1 else 1
  }

  /** Position of the first '.', or the length when there is none. */
  function DotPos(u: string): (k: nat)
    ensures k <= |u|
    ensures k < |u| ==> u[k] == '.'
    ensures forall i | 0 <= i < k :: u[i] != '.'
    decreases |u|
  {
    if u == [] || u[0] == '.' then 0 else 1 + DotPos(u[1..])
  }

  /** Digits with at most one '.', and at least one digit. */
  predicate IsUnsignedDecimal(u: string) {
    var k := DotPos(u);
    AllDigits(u[..k]) && |u| >= 1
    && (k < |u| ==> |u| >= 2 && AllDigits(u[k + 1..]))
  }

  function UnsignedValue(u: string): real
    requires IsUnsignedDecimal(u)
  {
    var k := DotPos(u);
    if k == |u| then DigitsValue(u) as real
    else DigitsValue(u[..k]) as real + DigitsValue(u[k + 1..]) as real / Pow10(|u| - k - 1) as real
  }

  /** What `float(s)` accepts (within the signed decimal grammar). */
  predicate IsDecimal(s: string) {
    IsUnsignedDecimal(Unsigned(s))
  }

  /** `is_garbled(s)`: the token is not a number `float()` accepts. */
  predicate IsGarbled(s: string) {
    !IsDecimal(s)
  }

  /** `float(s)`, exactly. */
  function DecimalValue(s: string): real
    requires IsDecimal(s)
  {
    Sign(s) as real * UnsignedValue(Unsigned(s))
  }

  /** What `int(s)` accepts: an optional sign followed by digits. */
  predicate IsInteger(s: string) {
    var u := Unsigned(s);
    u != "" && AllDigits(u)
  }

  /** `int(s)`. */
  function IntValue(s: string): int
    requires IsInteger(s)
  {
    Sign(s) * DigitsValue(Unsigned(s))
  }

  lemma {:induction false} DotPosNoDot(u: string)
    requires '.' !in u
    ensures DotPos(u) == |u|
    decreases |u|
  {
    if u != [] {
      DotPosNoDot(u[1..]);
    }
  }

  /**
   * Every token `int()` accepts also passes `is_garbled`, with the same value;
   * among the tokens that pass `is_garbled`, `int()` refuses exactly those with a '.'.
   */
  lemma IntegerIsDecimal(s: string)
    ensures IsInteger(s) ==> IsDecimal(s) && DecimalValue(s) == IntValue(s) as real
    ensures IsDecimal(s) ==> (IsInteger(s) <==> '.' !in s)
  {
    var u := Unsigned(s);
    assert '.' in u ==> '.' in s;
    if '.' !in u {
      DotPosNoDot(u);
      assert u[..|u|] == u;
    } else {
      var i :| 0 <= i < |u| && u[i] == '.';
      assert !IsDigit(u[i]);
    }
  }

  /**
   * The same grammar read character by character: after an optional sign,
   * only digits and '.', at least one digit, and at most one '.'.
   */
  predicate DecimalShape(s: string) {
    var u := Unsigned(s);
    (forall i | 0 <= i < |u| :: IsDigit(u[i]) || u[i] == '.')
    && (exists i | 0 <= i < |u| :: IsDigit(u[i]))
    && (forall i, j | 0 <= i < j < |u| && u[i] == '.' :: u[j] != '.')
  }

  /** `is_garbled(s)` is false exactly for the tokens of that shape. */
  lemma {:induction false} DecimalGrammar(s: string)
    ensures IsDecimal(s) <==> DecimalShape(s)
  {
    var u := Unsigned(s);
    var k := DotPos(u);
    if IsDecimal(s) {
      forall i | 0 <= i < |u| ensures IsDigit(u[i]) || u[i] == '.' {
        if i < k {
          assert u[..k][i] == u[i];
        } else if i > k {
          assert u[k + 1..][i - k - 1] == u[i];
        }
      }
      if k > 0 {
        assert u[..k][0] == u[0];
      } else {
        assert u[k + 1..][0] == u[1];
      }
      forall i, j | 0 <= i < j < |u| && u[i] == '.' ensures u[j] != '.' {
        assert u[k + 1..][j - k - 1] == u[j];
      }
    }
    if DecimalShape(s) {
      assert AllDigits(u[..k]);
      var d :| 0 <= d < |u| && IsDigit(u[d]);
      if k < |u| {
        assert forall i | k < i < |u| :: u[i] != '.';
        assert AllDigits(u[k + 1..]);
      }
    }
  }

  /** `float(s)` has the digits before the '.' as its whole part, and the sign of `s`. */
  lemma {:induction false} DecimalWholePart(s: string)
    requires IsDecimal(s)
    ensures var u := Unsigned(s); var k := DotPos(u);
      && AllDigits(u[..k])
      && DigitsValue(u[..k]) as real <= Sign(s) as real * DecimalValue(s) < DigitsValue(u[..k]) as real + 1.0
  {
    var u := Unsigned(s);
    var k := DotPos(u);
    assert Sign(s) * Sign(s) == 1;
    if k == |u| {
      assert u[..k] == u;
    } else {
      FractionBelowOne(u[k + 1..]);
    }
  }

  lemma {:induction false} Pow10Grows(m: nat, n: nat)
    requires m <= n
    ensures Pow10(m) <= Pow10(n)
    decreases n
  {
    if m < n {
      Pow10Grows(m, n - 1);
    }
  }

  /** `int()` of a token of at most nine digits lies strictly between -10^9 and 10^9. */
  lemma {:induction false} ShortIntegerBound(s: string)
    requires IsInteger(s) && |Unsigned(s)| <= 9
    ensures -1_000_000_000 < IntValue(s) < 1_000_000_000
  {
    DigitsValueBound(Unsigned(s));
    Pow10Grows(|Unsigned(s)|, 9);
    assert Pow10(9) == 1_000_000_000;
  }

  /** `int(t)` applied to each token in turn: `None` when one of them raises. */
  function ParseInts(toks: seq<string>): (r: Option<seq<int>>)
    ensures r.Some? <==> forall k | 0 <= k < |toks| :: IsInteger(toks[k])
    ensures r.Some? ==> |r.value| == |toks| && forall k | 0 <= k < |toks| :: r.value[k] == IntValue(toks[k])
  {
    if forall k | 0 <= k < |toks| :: IsInteger(toks[k]) then
      Some(seq(|toks|, k requires 0 <= k < |toks| && IsInteger(toks[k]) => IntValue(toks[k])))
    else None
  }

  /** A fractional part `.ddd` is less than one. */
  lemma FractionBelowOne(f: string)
    requires AllDigits(f)
    ensures 0.0 <= DigitsValue(f) as real / Pow10(|f|) as real < 1.0
  {
    DigitsValueBound(f);
    QuotientBelowOne(DigitsValue(f) as real, Pow10(|f|) as real);
  }

  lemma QuotientBelowOne(a: real, b: real)
    requires 0.0 <= a < b
    ensures 0.0 <= a / b < 1.0
  {
    var q := a / b;
    assert q * b == a;
  }

  // ---------------------------------------------------------------------------
  // Time tokens
  // ---------------------------------------------------------------------------

  /** Python's slice `s[lo:hi]` for 0 <= lo <= hi: the bounds are clamped to the length. */
  function Slice(s: string, lo: nat, hi: nat): (r: string)
    requires lo <= hi
    ensures |r| == (if hi <= |s| then hi - lo else if lo <= |s| then |s| - lo else 0)
  {
    var a := if lo <= |s| then lo else |s|;
    var b := if hi <= |s| then hi else |s|;
    s[a..b]
  }

  /**
   * `float(t[0:2]) * 60 * 60 + float(t[2:4]) * 60 + float(t[4:10])`, or `None`
   * when one of the three `float()` calls raises. A token of at most four
   * characters always raises, because `t[4:10]` is then empty.
   */
  function TimeOf(t: string): (r: Option<real>)
    ensures |t| <= 4 ==> r.None?
  {
    var hh := Slice(t, 0, 2);
    var mm := Slice(t, 2, 4);
    var ss := Slice(t, 4, 10);
    assert |t| <= 4 ==> !IsDecimal(ss) by {
      if |t| <= 4 { assert Unsigned(ss) == ss == ""; }
    }
    if IsDecimal(hh) && IsDecimal(mm) && IsDecimal(ss) then
      Some(DecimalValue(hh) * 60.0 * 60.0 + DecimalValue(mm) * 60.0 + DecimalValue(ss))
    else None
  }

  /**
   * A token longer than four characters can pass `is_garbled` and still make
   * the time raise: the seconds slice of "1234." is ".".
   */
  lemma TimeSecondsDot()
    ensures IsDecimal("1234.") && TimeOf("1234.").None?
  {
    var t := "1234.";
    assert Unsigned(t) == t;
    assert DotPos(t) == 4 by {
      assert t[1..][1..][1..][1..] == ".";
    }
    assert t[..4] == "1234" && t[5..] == "";
    assert Slice(t, 4, 10) == ".";
    assert Unsigned(".") == "." && DotPos(".") == 0;
  }

  /** The same happens through the hours slice: that of "-.123" is "-.". */
  lemma TimeHoursDot()
    ensures IsDecimal("-.123") && TimeOf("-.123").None?
  {
    var t := "-.123";
    assert Unsigned(t) == ".123" && DotPos(".123") == 0;
    assert ".123"[1..] == "123";
    assert Slice(t, 0, 2) == "-.";
    assert Unsigned("-.") == "." && DotPos(".") == 0;
  }

  /** A well-formed clock reading `hhmmss` or `hhmmss.s` .. `hhmmss.sss`. */
  predicate IsClockToken(t: string) {
    6 <= |t| <= 10 && AllDigits(t[..6])
    && DigitsValue(t[..2]) < 24 && DigitsValue(t[2..4]) < 60 && DigitsValue(t[4..6]) < 60
    && (|t| > 6 ==> t[6] == '.' && AllDigits(t[7..]))
  }

  lemma TwoDigitsDecimal(s: string)
    requires |s| == 2 && AllDigits(s)
    ensures IsDecimal(s) && DecimalValue(s) == DigitsValue(s) as real
  {
    assert Unsigned(s) == s;
    assert DotPos(s) == 2 by {
      assert s[0] != '.' && s[1] != '.';
      assert DotPos(s[1..][1..]) == 0;
    }
    assert s[..2] == s;
  }

  /**
   * The seconds-field slice `t[4:10]` of a clock token is a decimal worth less
   * than its two whole-second digits plus one.
   */
  lemma SecondsSlice(t: string)
    requires IsClockToken(t)
    ensures IsDecimal(t[4..]) && DigitsValue(t[4..6]) as real <= DecimalValue(t[4..]) < DigitsValue(t[4..6]) as real + 1.0
  {
    var ss := t[4..];
    assert Unsigned(ss) == ss;
    assert ss[..2] == t[4..6];
    assert AllDigits(ss[..2]);
    if |t| == 6 {
      TwoDigitsDecimal(ss);
    } else {
      assert ss[0] != '.' && ss[1] != '.' && ss[2] == '.';
      assert DotPos(ss) == 2 by {
        assert DotPos(ss[1..][1..]) == 0;
      }
      assert ss[3..] == t[7..];
      FractionBelowOne(ss[3..]);
    }
  }

  /**
   * A well-formed clock token passes `is_garbled`, its slices all convert, and
   * the time is `3600 * hh + 60 * mm + ss`, within one day.
   */
  lemma {:induction false} ClockTime(t: string)
    requires IsClockToken(t)
    ensures IsDecimal(t)
    ensures AllDigits(t[..2]) && AllDigits(t[2..4])
    ensures TimeOf(t).Some? && IsDecimal(t[4..])
    ensures TimeOf(t).value == 3600.0 * DigitsValue(t[..2]) as real + 60.0 * DigitsValue(t[2..4]) as real + DecimalValue(t[4..])
    ensures 0.0 <= TimeOf(t).value < 86400.0
  {
    assert Slice(t, 0, 2) == t[..2];
    assert Slice(t, 2, 4) == t[2..4];
    assert Slice(t, 4, 10) == t[4..];
    TwoDigitsDecimal(t[..2]);
    TwoDigitsDecimal(t[2..4]);
    SecondsSlice(t);
    assert Unsigned(t) == t;
    var k := DotPos(t);
    assert k >= 6 by {
      forall i | 0 <= i < 6 ensures t[i] != '.' {
        assert t[..6][i] == t[i];
      }
      assert DotPos(t[1..][1..][1..][1..][1..][1..]) >= 0;
    }
    if |t| > 6 {
      assert k == 6;
      assert t[..k] == t[..6];
    } else {
      assert t[..k] == t;
    }
  }
}

/**
 * Decimal text of integers: Java's `Integer.toString`/`Long.toString` (used when
 * a number is appended to a `StringBuilder`) and the `parseByte`/`parseShort`/
 * `parseInt`/`parseLong` family, plus the lexical check `Float.parseFloat` and
 * `Double.parseDouble` make of a plain decimal.
 */
module Decimals {
  import opened Wrappers

  predicate IsDigit(c: char)
  {
    '0' <= c <= '9'
  }

  predicate AllDigits(s: string)
  {
    forall i :: 0 <= i < |s| ==> IsDigit(s[i])
  }

  function DigitChar(d: nat): (c: char)
    requires d < 10
    ensures IsDigit(c)
  {
    ('0' as int + d) as char
  }

  /** The decimal digits of `n`, most significant first, without leading zeros. */
  function Digits(n: nat): (s: string)
    ensures |s| >= 1 && AllDigits(s)
    ensures s[0] == '0' <==> n == 0
    ensures n == 0 ==> s == "0"
    decreases n
  {
    if n < 10 then [DigitChar(n)] else Digits(n / 10) + [DigitChar(n % 10)]
  }

  /** `Integer.toString(x)` / `Long.toString(x)`: a minus sign for negatives, then the digits of the magnitude. */
  function IntText(x: int): string
  {
    if x < 0 then "-" + Digits(-x) else Digits(x)
  }

  /** The value of a string of decimal digits. */
  function ValueOf(s: string): nat
    requires AllDigits(s)
  {
    if s == [] then 0 else ValueOf(s[..|s| - 1]) * 10 + (s[|s| - 1] as int - '0' as int)
  }

  /**
   * `parseInt` and its siblings on a string, for the range `lo..hi` of the
   * target type: an optional sign, at least one digit and nothing else, and a
   * value inside the range; `None` is the NumberFormatException.
   */
  function ParseInteger(s: string, lo: int, hi: int): (r: Option<int>)
    ensures r.Some? ==> lo <= r.value <= hi
  {
    if s == [] then None
    else
      var body := if s[0] == '-' || s[0] == '+' then s[1..] else s;
      if body == [] || !AllDigits(body) then None
      else
        var v: int := if s[0] == '-' then -(ValueOf(body) as int) else ValueOf(body);
        if lo <= v <= hi then Some(v) else None
  }

  /**
   * The strings `Float.parseFloat` and `Double.parseDouble` accept among those
   * made of digits, `.` and `-` only: an optional leading minus, digits with at
   * most one point, and at least one digit.
   */
  predicate DecimalSyntax(s: string)
  {
    var body := if s != [] && s[0] == '-' then s[1..] else s;
    (exists i :: 0 <= i < |body| && IsDigit(body[i]))
    && (forall i :: 0 <= i < |body| ==> IsDigit(body[i]) || body[i] == '.')
    && (forall i, j :: 0 <= i < j < |body| && body[i] == '.' ==> body[j] != '.')
  }

  // ----- the text of an integer reads back -----

  lemma {:induction false} ValueOfDigits(n: nat)
    ensures ValueOf(Digits(n)) == n
    decreases n
  {
    if n >= 10 {
      ValueOfDigits(n / 10);
      var s := Digits(n);
      assert s[..|s| - 1] == Digits(n / 10);
    }
  }

  /** Every integer of the target range prints as text that parses back to it. */
  lemma ParseIntText(x: int, lo: int, hi: int)
    requires lo <= x <= hi
    ensures ParseInteger(IntText(x), lo, hi) == Some(x)
  {
    ValueOfDigits(if x < 0 then -x else x);
    if x < 0 {
      assert IntText(x)[1..] == Digits(-x);
    }
  }

  /** Printing is injective: two integers with the same text are equal. */
  lemma IntTextInjective(x: int, y: int)
    requires IntText(x) == IntText(y)
    ensures x == y
  {
    var lo := if x < y then x else y;
    var hi := if x < y then y else x;
    ParseIntText(x, lo, hi);
    ParseIntText(y, lo, hi);
  }

  /** A number with a point is never an integer. */
  lemma PointIsNotInteger(s: string, lo: int, hi: int)
    requires exists i :: 0 <= i < |s| && s[i] == '.'
    ensures ParseInteger(s, lo, hi).None?
  {
    var i :| 0 <= i < |s| && s[i] == '.';
    var body := if s[0] == '-' || s[0] == '+' then s[1..] else s;
    var j := if s[0] == '-' || s[0] == '+' then i - 1 else i;
    assert 0 <= j < |body| && body[j] == '.';
  }
}

/** The parser table shared by the three loaders (src/config.ts:21-44,
    lib/config.js:16-33, src/config.js:16-31): each parser turns the raw
    environment string into a typed value or fails with a fixed message. */
module Parsers {
  import opened Results
  import opened Text
  import opened Patterns
  import opened Durations

  /** An exact decimal number, mantissa / 10^scale. */
  datatype Decimal = Decimal(mantissa: int, scale: nat)

  /** A configured value. */
  datatype Value =
    | Str(s: string)
    | Bool(b: bool)
    | Int(i: int)
    | Num(n: Decimal)
    | Dur(d: Duration)

  const BOOLEAN_ERROR := "Cannot convert to a boolean"
  const INTEGER_ERROR := "Cannot convert to an integer"
  const NUMBER_ERROR := "Cannot convert to a number"
  const ENUM_ERROR := "Value not found in enumeration values"

  /** The `boolean` parser: the true pattern is tried first. Because `yes`
      and `no` are subsumed by `y` and `n`, a string is true exactly when it
      starts with `true`, contains a `y` or ends with `1`, in any case. */
  function ParseBoolean(s: string): (r: Result<bool, string>)
    ensures r == Ok(true) <==> StartsWithCI(s, "true") || Occurs(s, "y") || EndsWithCI(s, "1")
    ensures r == Ok(false) <==>
      && !(StartsWithCI(s, "true") || Occurs(s, "y") || EndsWithCI(s, "1"))
      && (StartsWithCI(s, "false") || Occurs(s, "n") || EndsWithCI(s, "0"))
    ensures r.Err? ==> r.error == BOOLEAN_ERROR
  {
    TruePatternSimplified(s);
    FalsePatternSimplified(s);
    if TruePattern(s) then Ok(true)
    else if FalsePattern(s) then Ok(false)
    else Err(BOOLEAN_ERROR)
  }

  /** The `integer` parser: the anchored pattern, then `parseInt(s, 10)`. */
  function ParseInteger(s: string): (r: Result<int, string>)
    ensures r.Ok? <==> IntegerPattern(s)
    ensures r.Ok? ==> r.value == IntegerValue(s)
    ensures r.Err? ==> r.error == INTEGER_ERROR
  {
    if IntegerPattern(s) then Ok(IntegerValue(s)) else Err(INTEGER_ERROR)
  }

  /** The `number` parser. The value keeps the text's digits and the number
      of fraction digits, unnormalised (`3.14` and `3.140` differ here);
      `parseFloat` would give one double for both. */
  function ParseNumber(s: string): (r: Result<Decimal, string>)
    ensures r.Ok? <==> NumberPattern(s)
    ensures r.Err? ==> r.error == NUMBER_ERROR
  {
    var b := Unsigned(s);
    var k := LeadingDigits(b);
    if NumberSplit(b, k) then
      var frac := if k == |b| then "" else b[k + 1..];
      DigitsValueConcat(b[..k], frac);
      Ok(Decimal(ApplySign(s, DigitsValue(b[..k] + frac)), |frac|))
    else
      Err(NUMBER_ERROR)
  }

  /** The `duration` parser (src/config.ts:37-40): an integer string is a
      millisecond count, anything else goes to the string constructor. */
  function ParseDuration(s: string, resolve: string -> Option<int>): (r: Result<Duration, string>)
    ensures IntegerPattern(s) ==> (r.Ok? <==> IntegerValue(s) != 0)
    ensures IntegerPattern(s) && r.Ok? ==> r.value.ms == IntegerValue(s)
    ensures !IntegerPattern(s) ==> (r.Ok? <==> resolve(s).Some? && resolve(s).value != 0)
    ensures !IntegerPattern(s) && r.Ok? ==> r.value.ms == resolve(s).value
    ensures r.Err? ==> r.error == DURATION_ERROR
  {
    if IntegerPattern(s) then FromNumber(IntegerValue(s)) else FromString(s, resolve)
  }

  /** `values.indexOf(s)`: the first position holding `s`, or -1. */
  function IndexOf(values: seq<string>, s: string): (i: int)
    ensures -1 <= i < |values|
    ensures i >= 0 ==> values[i] == s && s !in values[..i]
    ensures i == -1 ==> s !in values
  {
    if values == [] then -1
    else if values[0] == s then 0
    else
      var j := IndexOf(values[1..], s);
      assert j >= 0 ==> values[..j + 1] == [values[0]] + values[1..][..j];
      if j == -1 then -1 else j + 1
  }

  /** The `enum` parser (src/config.ts:41-44): an exact member of the list is
      returned unchanged. */
  function ParseEnum(s: string, values: seq<string>): (r: Result<string, string>)
    ensures r.Ok? <==> s in values
    ensures r.Ok? ==> r.value == s
    ensures r.Err? ==> r.error == ENUM_ERROR
  {
    if IndexOf(values, s) > -1 then Ok(s) else Err(ENUM_ERROR)
  }

  /** Decimal text of a natural number. */
  function NatText(n: nat): (t: string)
    ensures |t| > 0 && AllDigits(t)
    ensures DigitsValue(t) == n
  {
    var last := [DigitChar(n % 10)];
    if n < 10 then
      assert last[..0] == [];
      last
    else
      var t := NatText(n / 10) + last;
      assert t[..|t| - 1] == NatText(n / 10);
      t
  }

  /** Decimal text of an integer, with a `-` when negative. */
  function IntText(n: int): (t: string)
    ensures |t| > 0
  {
    if n < 0 then "-" + NatText(-n) else NatText(n)
  }

  /** Printing an integer and parsing it back gives the integer. */
  lemma IntegerRoundTrip(n: int)
    ensures ParseInteger(IntText(n)) == Ok(n)
  {
    var t := NatText(if n < 0 then -n else n);
    if n < 0 {
      assert Unsigned("-" + t) == t;
    } else {
      assert !IsSign(t[0]);
    }
  }

  /** The accepted strings are exactly a non-empty run of digits with an
      optional sign, and the result is their base-10 value with that sign. */
  lemma IntegerOfDigits(sign: string, d: string)
    requires sign == "" || sign == "+" || sign == "-"
    requires |d| > 0 && AllDigits(d)
    ensures ParseInteger(sign + d) == Ok(Signed(sign, DigitsValue(d)))
  {
    var s := sign + d;
    SignedForm(sign, d);
    assert IntegerPattern(s);
  }

  /** `n` negated when `sign` is a minus. */
  function Signed(sign: string, n: nat): (v: int)
  {
    if sign == "-" then -(n as int) else n
  }

  /** Dropping the optional sign of `sign + d`, where `d` starts with a digit. */
  lemma SignedForm(sign: string, d: string)
    requires sign == "" || sign == "+" || sign == "-"
    requires |d| > 0 && IsDigit(d[0])
    ensures Unsigned(sign + d) == d
    ensures forall n :: ApplySign(sign + d, n) == Signed(sign, n)
  {
    if sign == "" {
      assert sign + d == d;
    } else {
      assert (sign + d)[0] == sign[0];
      assert (sign + d)[1..] == d;
    }
  }

  /** Every string the integer parser accepts is accepted by the number
      parser with the same value and no fractional digits. */
  lemma NumberExtendsInteger(s: string)
    requires ParseInteger(s).Ok?
    ensures ParseNumber(s) == Ok(Decimal(ParseInteger(s).value, 0))
  {
    var b := Unsigned(s);
    IntegerIsNumber(s);
    assert b[..|b|] + "" == b;
  }

  /** The number parser's value read at a split of the unsigned text: the
      integer digits and the fraction digits together, with the text's sign,
      over 10^(number of fraction digits). */
  lemma NumberAtSplit(s: string, b: string, k: int, frac: string, digits: string, m: int)
    requires b == Unsigned(s) && NumberSplit(b, k)
    requires frac == if k == |b| then "" else b[k + 1..]
    requires digits == b[..k] + frac && AllDigits(digits) && m == ApplySign(s, DigitsValue(digits))
    ensures ParseNumber(s) == Ok(Decimal(m, |frac|))
  {
    SplitIsLeading(b, k);
    assert LeadingDigits(b) == k;
    DigitsValueConcat(b[..k], frac);
  }

  /** The slices of `a + "." + f` at the point. */
  lemma PointSplit(a: string, f: string, b: string)
    requires |a| > 0 && AllDigits(a) && AllDigits(f) && b == a + "." + f
    ensures |a| < |b| && b[0] == a[0] && b[..|a|] == a && b[|a| + 1..] == f
    ensures NumberSplit(b, |a|)
  {
    assert b[..|a|] == a && b[|a| + 1..] == f;
  }

  /** A string of the form sign, digits, `.`, digits denotes the integer
      and fraction digits read together, over 10^|fraction| (by
      DigitsValueConcat, integer part * 10^|fraction| + fraction). */
  lemma NumberOfDecimal(s: string, sign: string, a: string, f: string)
    requires sign == "" || sign == "+" || sign == "-"
    requires |a| > 0 && AllDigits(a) && AllDigits(f)
    requires s == sign + a + "." + f
    ensures AllDigits(a + f)
    ensures ParseNumber(s) == Ok(Decimal(Signed(sign, DigitsValue(a + f)), |f|))
  {
    var b := a + "." + f;
    Regroup(sign, a, f);
    DecimalParts(s, sign, a, f, b);
    NumberAtSplit(s, b, |a|, f, a + f, Signed(sign, DigitsValue(a + f)));
  }

  /** `sign + a + "." + f` is the sign before the unsigned text. */
  lemma Regroup(sign: string, a: string, f: string)
    ensures sign + a + "." + f == sign + (a + "." + f)
  {
  }

  /** The pieces of `sign + a + "." + f` that the number parser looks at. */
  lemma DecimalParts(s: string, sign: string, a: string, f: string, b: string)
    requires sign == "" || sign == "+" || sign == "-"
    requires |a| > 0 && AllDigits(a) && AllDigits(f)
    requires b == a + "." + f && s == sign + b
    ensures Unsigned(s) == b && NumberSplit(b, |a|) && |a| < |b| && b[|a| + 1..] == f
    ensures AllDigits(a + f) && b[..|a|] + f == a + f
    ensures ApplySign(s, DigitsValue(a + f)) == Signed(sign, DigitsValue(a + f))
  {
    DigitsValueConcat(a, f);
    PointSplit(a, f, b);
    SignedAt(sign, b, DigitsValue(a + f));
  }

  /** The sign written before a digit string, applied to one count. */
  lemma SignedAt(sign: string, d: string, n: nat)
    requires sign == "" || sign == "+" || sign == "-"
    requires |d| > 0 && IsDigit(d[0])
    ensures Unsigned(sign + d) == d && ApplySign(sign + d, n) == Signed(sign, n)
  {
    SignedForm(sign, d);
  }

  /** A duration written as an integer is that many milliseconds: zero is
      rejected, negative counts are kept. */
  lemma DurationOfIntegerText(n: int, resolve: string -> Option<int>)
    ensures ParseDuration(IntText(n), resolve).Ok? <==> n != 0
    ensures n != 0 ==> ParseDuration(IntText(n), resolve).value.ms == n
  {
    IntegerRoundTrip(n);
  }

  /** The expected values of the boolean parser on the documented inputs. */
  lemma BooleanTrueExamples(s: string)
    requires s in {"true", "TRUE", "yes", "y", "1"}
    ensures ParseBoolean(s) == Ok(true)
  {
    if s == "true" || s == "TRUE" {
      assert StartsWithCI(s, "true");
    } else if s == "yes" || s == "y" {
      assert OccursAt(s, "y", 0);
    } else {
      assert EndsWithCI(s, "1");
    }
  }

  lemma BooleanFalseExamples(s: string)
    requires s in {"false", "FALSE", "no", "n", "0"}
    ensures ParseBoolean(s) == Ok(false)
  {
    if s == "false" || s == "FALSE" {
      FalseByWord(s);
    } else if s == "no" || s == "n" {
      FalseByLetter(s);
    } else {
      LetterAbsent(s, "y");
      MismatchAt(s, "1", 0, 0);
    }
  }

  /** `false` in either case: no `y`, no leading `true`, no trailing `1`. */
  lemma FalseByWord(s: string)
    requires s in {"false", "FALSE"}
    ensures ParseBoolean(s) == Ok(false)
  {
    LetterAbsent(s, "y");
    MismatchAt(s, "true", 0, 0);
    MismatchAt(s, "1", 4, 0);
    assert StartsWithCI(s, "false");
  }

  /** `no` and `n`: false through the unanchored `n`. */
  lemma FalseByLetter(s: string)
    requires s in {"no", "n"}
    ensures ParseBoolean(s) == Ok(false)
  {
    LetterAbsent(s, "y");
    MismatchAt(s, "true", 0, 0);
    MismatchAt(s, "1", |s| - 1, 0);
    assert OccursAt(s, "n", 0);
  }

  /** `hello` is neither true nor false. */
  lemma BooleanRejectsHello(s: string)
    requires s == "hello"
    ensures ParseBoolean(s) == Err(BOOLEAN_ERROR)
  {
    LetterAbsent(s, "y");
    LetterAbsent(s, "n");
    MismatchAt(s, "true", 0, 0);
    MismatchAt(s, "false", 0, 0);
    MismatchAt(s, "1", 4, 0);
    MismatchAt(s, "0", 4, 0);
  }

  /** Consequences of the loose alternation: a `y` anywhere makes the value
      true, even after a leading `false`, and an `n` anywhere makes it false. */
  lemma BooleanLooseMatches(s: string)
    requires s in {"FALSEY", "deny", "on"}
    ensures s == "FALSEY" || s == "deny" ==> ParseBoolean(s) == Ok(true)
    ensures s == "on" ==> ParseBoolean(s) == Ok(false)
  {
    if s == "FALSEY" {
      assert OccursAt(s, "y", 5);
    } else if s == "deny" {
      assert OccursAt(s, "y", 3);
    } else {
      LetterAbsent(s, "y");
      MismatchAt(s, "true", 0, 0);
      MismatchAt(s, "1", 1, 0);
      assert OccursAt(s, "n", 1);
    }
  }

  /** The integer parser rejects text that is not all digits after the sign. */
  lemma IntegerRejects(s: string)
    requires s in {"hello", "123.45"}
    ensures ParseInteger(s) == Err(INTEGER_ERROR)
  {
    if s == "hello" {
      assert !IsDigit(Unsigned(s)[0]);
    } else {
      assert !IsDigit(Unsigned(s)[3]);
    }
  }

  /** The integer parser on the documented signed and unsigned inputs. */
  lemma IntegerAccepts(s: string)
    requires s in {"0", "+123", "-456789"}
    ensures s == "0" ==> ParseInteger(s) == Ok(0)
    ensures s == "+123" ==> ParseInteger(s) == Ok(123)
    ensures s == "-456789" ==> ParseInteger(s) == Ok(-456789)
  {
    if s == "0" {
      assert "" + s == s;
      IntegerOfDigits("", s);
    } else if s == "+123" {
      var d := "123";
      Digits3(d);
      assert s == "+" + d;
      IntegerOfDigits("+", d);
    } else {
      var d := "456789";
      Digits6(d);
      assert s == "-" + d;
      IntegerOfDigits("-", d);
    }
  }

  /** The number parser rejects text without a leading digit run, or with
      anything but digits after the point. */
  lemma NumberRejects(s: string)
    requires s in {"hello", "123.hello"}
    ensures ParseNumber(s) == Err(NUMBER_ERROR)
  {
    var b := Unsigned(s);
    assert b == s;
    if s == "hello" {
      assert !IsDigit(b[0]);
    } else {
      assert b[3] == '.' && !IsDigit(b[4]);
      forall k | NumberSplit(b, k) ensures false {
        SplitIsLeading(b, k);
      }
    }
  }

  /** The number parser on the documented decimal inputs. */
  lemma NumberAcceptsPositive(s: string)
    requires s == "+123.45"
    ensures ParseNumber(s) == Ok(Decimal(12345, 2))
  {
    var a, f := "123", "45";
    assert s == "+" + a + "." + f;
    NumberOfDecimal(s, "+", a, f);
    Digits5(a + f);
  }

  lemma NumberAcceptsNegative(s: string)
    requires s == "-678.9"
    ensures ParseNumber(s) == Ok(Decimal(-6789, 1))
  {
    var a, f := "678", "9";
    assert s == "-" + a + "." + f;
    NumberOfDecimal(s, "-", a, f);
    Digits4(a + f);
  }

  /** The integer value of the example configuration. */
  lemma ExampleInteger(i: string)
    requires i == "1234"
    ensures ParseInteger(i) == Ok(1234)
  {
    Digits4(i);
    assert "" + i == i;
    IntegerOfDigits("", i);
  }

  /** The number value of the example configuration. */
  lemma ExampleNumber(n: string)
    requires n == "3.14"
    ensures ParseNumber(n) == Ok(Decimal(314, 2))
  {
    var a, f := "3", "14";
    assert n == "" + a + "." + f;
    NumberOfDecimal(n, "", a, f);
    Digits3(a + f);
  }
}

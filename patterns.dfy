/** The regular expressions of the parser table, stated as predicates on
    strings. JavaScript's `^` and `$` (without the `m` flag) match only at the
    very start and the very end of the input, and `[0-9]` only ASCII digits. */
module Patterns {
  import opened Text

  predicate IsSign(c: char) { c == '+' || c == '-' }

  /** The input with its optional leading `+` or `-` removed. */
  function Unsigned(s: string): (b: string)
    ensures |b| <= |s|
  {
    if |s| > 0 && IsSign(s[0]) then s[1..] else s
  }

  /** `n` carrying the sign written at the start of `s`. */
  function ApplySign(s: string, n: nat): (v: int)
  {
    if |s| > 0 && s[0] == '-' then -(n as int) else n
  }

  /** `/^(\-|\+)?[0-9]+$/` (src/config.ts:18). The optional group can only
      consume a sign, and a sign is not a digit, so dropping it first is exact. */
  predicate IntegerPattern(s: string)
    ensures IntegerPattern(s) <==>
      (|s| > 0 && AllDigits(s)) || (|s| > 1 && IsSign(s[0]) && AllDigits(s[1..]))
  {
    |Unsigned(s)| > 0 && AllDigits(Unsigned(s))
  }

  /** What `parseInt(s, 10)` yields on a string the integer pattern accepts. */
  function IntegerValue(s: string): (v: int)
    requires IntegerPattern(s)
    ensures -(Pow10(|Unsigned(s)|) as int) < v < Pow10(|Unsigned(s)|)
    ensures v < 0 ==> s[0] == '-'
    ensures s[0] == '-' ==> v <= 0
  {
    ApplySign(s, DigitsValue(Unsigned(s)))
  }

  /** `b[..k]` is a non-empty run of digits and the rest of `b` is either
      empty or a `.` followed by digits only. */
  predicate NumberSplit(b: string, k: int)
  {
    0 < k <= |b| && AllDigits(b[..k]) && (k == |b| || (b[k] == '.' && AllDigits(b[k + 1..])))
  }

  /** `/^(\-|\+)?[0-9]+(\.[0-9]*)?$/` (src/config.ts:19). */
  ghost predicate NumberPattern(s: string)
    ensures NumberPattern(s) <==> NumberSplit(Unsigned(s), LeadingDigits(Unsigned(s)))
  {
    exists k :: NumberSplit(Unsigned(s), k)
  }

  /** The number of digits at the start of `b`. */
  function LeadingDigits(b: string): (k: nat)
    ensures k <= |b| && AllDigits(b[..k])
    ensures k < |b| ==> !IsDigit(b[k])
  {
    if b == [] || !IsDigit(b[0]) then 0
    else
      var k := LeadingDigits(b[1..]);
      assert b[..k + 1] == [b[0]] + b[1..][..k];
      k + 1
  }

  /** The integer part of a number is the maximal run of leading digits, so a
      number has at most one split. */
  lemma SplitIsLeading(b: string, k: int)
    requires NumberSplit(b, k)
    ensures k == LeadingDigits(b)
  {
  }

  /** `/^true|yes|y|1$/i` (src/config.ts:25) as written: alternation binds
      loosest, so only `true` is anchored at the start and only `1` at the
      end; `yes` and `y` may occur anywhere. */
  predicate TruePattern(s: string)
  {
    StartsWithCI(s, "true") || ContainsCI(s, "yes") || ContainsCI(s, "y") || EndsWithCI(s, "1")
  }

  /** `/^false|no|n|0$/i` (src/config.ts:26) as written. */
  predicate FalsePattern(s: string)
  {
    StartsWithCI(s, "false") || ContainsCI(s, "no") || ContainsCI(s, "n") || EndsWithCI(s, "0")
  }

  /** The `yes` alternative is subsumed by `y`: the true pattern holds exactly
      when the input starts with `true`, contains a `y`, or ends with `1`. */
  lemma TruePatternSimplified(s: string)
    ensures TruePattern(s) <==> StartsWithCI(s, "true") || Occurs(s, "y") || EndsWithCI(s, "1")
  {
    if Occurs(s, "yes") {
      OccursPrefix(s, "yes", 1);
      assert "yes"[..1] == "y";
    }
  }

  /** Likewise `no` is subsumed by `n`. */
  lemma FalsePatternSimplified(s: string)
    ensures FalsePattern(s) <==> StartsWithCI(s, "false") || Occurs(s, "n") || EndsWithCI(s, "0")
  {
    if Occurs(s, "no") {
      OccursPrefix(s, "no", 1);
      assert "no"[..1] == "n";
    }
  }

  /** Every string the integer pattern accepts is accepted by the number
      pattern, with no fractional part. */
  lemma IntegerIsNumber(s: string)
    requires IntegerPattern(s)
    ensures NumberPattern(s) && LeadingDigits(Unsigned(s)) == |Unsigned(s)|
  {
    var b := Unsigned(s);
    assert b[..|b|] == b;
    assert NumberSplit(b, |b|);
    SplitIsLeading(b, |b|);
  }
}

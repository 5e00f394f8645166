/**
 * PHP 8's loose comparison `==` (and so `!=` and `switch`) on the scalars
 * the model carries, over the simplified `is_numeric` of `Syntax`.
 */
module Comparison {
  import opened Values
  import opened Syntax

  /**
   * `$a == $b`: a boolean operand compares truthiness; null equals the
   * empty string and the integer zero; two numeric strings, or an integer
   * and a numeric string, compare as numbers; an integer and any other
   * string compare as strings.
   */
  predicate LooseEquals(a: Value, b: Value) {
    match (a, b)
    case (Bool(x), _) => x == Truthy(b)
    case (_, Bool(y)) => Truthy(a) == y
    case (Null, Null) => true
    case (Null, Str(t)) => t == ""
    case (Str(s), Null) => s == ""
    case (Null, Int(j)) => j == 0
    case (Int(i), Null) => i == 0
    case (Int(i), Int(j)) => i == j
    case (Int(i), Str(t)) => if IsNumeric(t) then i == IntVal(t) else IntToDecimal(i) == t
    case (Str(s), Int(j)) => if IsNumeric(s) then IntVal(s) == j else s == IntToDecimal(j)
    case (Str(s), Str(t)) => if IsNumeric(s) && IsNumeric(t) then IntVal(s) == IntVal(t) else s == t
  }

  /** Identical values are loosely equal, and the comparison is symmetric. */
  lemma LooseEqualsIsSymmetric(a: Value, b: Value)
    ensures LooseEquals(a, a)
    ensures LooseEquals(a, b) <==> LooseEquals(b, a)
  {
  }

  /** Two strings of which one is not numeric are loosely equal only when identical. */
  lemma NonNumericStringsCompareExactly(s: string, t: string)
    requires !IsNumeric(s) || !IsNumeric(t)
    ensures LooseEquals(Str(s), Str(t)) <==> s == t
  {
  }

  /** A sign in front of the digits does not change a numeric string's loose value. */
  lemma SignedDigitsLooselyEqual(digits: string)
    requires digits != [] && AllDigits(digits)
    ensures LooseEquals(Str("+" + digits), Str(digits))
    ensures "+" + digits != digits
  {
    assert ("+" + digits)[0] == '+' && ("+" + digits)[1..] == digits;
    assert |"+" + digits| != |digits|;
  }
}

/**
 * The cryptographic primitives the module calls, modelled by their one
 * property that matters here.
 *
 * `sha1($text, true)` is modelled as a collision-free digest: the digest
 * determines its preimage. `password_hash` / `password_verify` are modelled
 * as a deterministic injective encoding and its check: verification accepts
 * exactly the plaintext the hash was made from.
 */
module Digests {

  /** A SHA-1 digest. Distinct texts have distinct digests. */
  datatype Hash = Sha1Of(preimage: string)

  function Sha1(text: string): Hash {
    Sha1Of(text)
  }

  /** Equal digests exactly for equal texts. */
  lemma Sha1Injective(a: string, b: string)
    ensures Sha1(a) == Sha1(b) <==> a == b
  {
  }

  /** The algorithm marker `password_hash` puts in front of its output. */
  const BcryptPrefix := "$2y$"

  /** `password_hash($plain, PASSWORD_DEFAULT)`, without the random salt. */
  function PasswordHash(plain: string): string {
    BcryptPrefix + plain
  }

  /** `password_verify($plain, $hash)`. */
  predicate PasswordVerify(plain: string, hash: string) {
    |hash| >= |BcryptPrefix| && hash[..|BcryptPrefix|] == BcryptPrefix && hash[|BcryptPrefix|..] == plain
  }

  /** A hash verifies its own plaintext and no other. */
  lemma VerifyHash(p: string, q: string)
    ensures PasswordVerify(q, PasswordHash(p)) <==> q == p
  {
    var h := PasswordHash(p);
    assert h[..|BcryptPrefix|] == BcryptPrefix;
    assert h[|BcryptPrefix|..] == p;
  }
}

/**
 * The two input checks PHP performs with `filter_var(FILTER_VALIDATE_EMAIL)`
 * and `is_numeric` / `intval`, in a simplified form.
 */
module Syntax {

  predicate IsDigit(c: char) {
    '0' <= c <= '9'
  }

  predicate AllDigits(s: string) {
    forall i :: 0 <= i < |s| ==> IsDigit(s[i])
  }

  /** `is_numeric` restricted to an optional sign followed by decimal digits. */
  predicate IsNumeric(s: string) {
    if |s| > 0 && (s[0] == '-' || s[0] == '+') then |s| > 1 && AllDigits(s[1..])
    else |s| > 0 && AllDigits(s)
  }

  /** The value of a string of decimal digits. */
  function DigitsValue(s: string): (n: nat)
    requires AllDigits(s)
    decreases |s|
  {
    if s == [] then 0 else DigitsValue(s[..|s| - 1]) * 10 + (s[|s| - 1] as int - '0' as int)
  }

  function Pow10(n: nat): (p: nat)
    ensures p >= 1
  {
    if n == 0 then 1 else 10 * Pow10(n - 1)
  }

  lemma {:induction false} Pow10Grows(m: nat, n: nat)
    requires m <= n
    ensures Pow10(m) <= Pow10(n)
    decreases n
  {
    if m < n {
      Pow10Grows(m, n - 1);
    }
  }

  /** Ten to the nineteenth, the first power of ten past `PHP_INT_MAX`. */
  lemma Pow10Of19()
    ensures Pow10(19) == 10_000_000_000_000_000_000
  {
    assert Pow10(1) == 10;
    assert Pow10(2) == 100;
    assert Pow10(3) == 1000;
    assert Pow10(4) == 10000;
    assert Pow10(5) == 100000;
    assert Pow10(6) == 1000000;
    assert Pow10(7) == 10000000;
    assert Pow10(8) == 100000000;
    assert Pow10(9) == 1000000000;
    assert Pow10(10) == 10000000000;
    assert Pow10(11) == 100000000000;
    assert Pow10(12) == 1000000000000;
    assert Pow10(13) == 10000000000000;
    assert Pow10(14) == 100000000000000;
    assert Pow10(15) == 1000000000000000;
    assert Pow10(16) == 10000000000000000;
    assert Pow10(17) == 100000000000000000;
    assert Pow10(18) == 1000000000000000000;
  }

  /** A digit string with no leading zero is at least ten to its length less one. */
  lemma {:induction false} DigitsValueAtLeast(s: string)
    requires |s| > 0 && AllDigits(s) && s[0] != '0'
    ensures DigitsValue(s) >= Pow10(|s| - 1)
    decreases |s|
  {
    if |s| > 1 {
      var t := s[..|s| - 1];
      assert t[0] == s[0];
      DigitsValueAtLeast(t);
    }
  }

  /** The integer a numeric string denotes, without PHP's 64-bit limit. */
  function IntVal(s: string): int
    requires IsNumeric(s)
  {
    if s[0] == '-' then 0 - DigitsValue(s[1..])
    else if s[0] == '+' then DigitsValue(s[1..])
    else DigitsValue(s)
  }

  /** `PHP_INT_MAX` and `PHP_INT_MIN` of a 64-bit build. */
  const PhpIntMax: int := 0x7fff_ffff_ffff_ffff
  const PhpIntMin: int := -0x8000_0000_0000_0000

  /**
   * `intval` of a numeric string: the value it denotes, saturated at the
   * bounds of a 64-bit PHP integer.
   */
  function Intval(s: string): (n: int)
    requires IsNumeric(s)
    ensures PhpIntMin <= n <= PhpIntMax
    ensures PhpIntMin <= IntVal(s) <= PhpIntMax ==> n == IntVal(s)
    ensures IntVal(s) > PhpIntMax ==> n == PhpIntMax
    ensures IntVal(s) < PhpIntMin ==> n == PhpIntMin
  {
    var v := IntVal(s);
    if v > PhpIntMax then PhpIntMax else if v < PhpIntMin then PhpIntMin else v
  }

  /** The zero-based position of the first occurrence of `c`, if any. */
  function IndexOf(s: string, c: char): (r: int)
    ensures -1 <= r < |s|
    ensures r >= 0 ==> s[r] == c && c !in s[..r]
    ensures r == -1 <==> c !in s
  {
    if s == [] then -1
    else if s[0] == c then 0
    else
      var k := IndexOf(s[1..], c);
      if k == -1 then -1 else k + 1
  }

  /**
   * A syntactically valid e-mail address: one '@' with a non-empty local part
   * before it, a domain after it that contains a dot and neither starts nor
   * ends with one, and no white space.
   */
  predicate IsEmail(s: string) {
    var at := IndexOf(s, '@');
    && at > 0
    && var domain := s[at + 1..];
    && '@' !in domain
    && |domain| >= 3
    && '.' in domain
    && domain[0] != '.'
    && domain[|domain| - 1] != '.'
    && ' ' !in s
  }

  /** An e-mail address is never numeric, so lookups by it go by username. */
  lemma EmailIsNotNumeric(s: string)
    requires IsEmail(s)
    ensures !IsNumeric(s)
  {
    var at := IndexOf(s, '@');
    assert s[at] == '@' && !IsDigit(s[at]);
    if |s| > 0 && (s[0] == '-' || s[0] == '+') {
      assert s[1..][at - 1] == s[at];
    }
  }
}


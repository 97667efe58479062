/**
 Decimal text of 64-bit integers, as `i64::to_string` prints and `str::parse` reads it,
 and the identifiers and lock keys built from text. A byte string is a sequence of
 characters, one character per byte.
 */
module Decimal {
  import opened Wrappers

  const I64_MIN := -0x8000_0000_0000_0000
  const I64_MAX := 0x7fff_ffff_ffff_ffff

  predicate IsI64(n: int) {
    I64_MIN <= n <= I64_MAX
  }

  predicate IsDigit(c: char) {
    '0' <= c <= '9'
  }

  predicate AllDigits(s: string) {
    forall i | 0 <= i < |s| :: IsDigit(s[i])
  }

  function Digits(n: nat): (s: string)
    ensures s != [] && AllDigits(s)
  {
    var last := '0' + (n % 10) as char;
    if n < 10 then [last] else Digits(n / 10) + [last]
  }

  function Print(n: int): string {
    if n < 0 then "-" + Digits(-n) else Digits(n)
  }

  function Value(s: string): nat
    requires AllDigits(s)
  {
    if s == [] then 0
    else 10 * Value(s[..|s| - 1]) + (s[|s| - 1] - '0') as int
  }

  /** An optional sign, at least one digit, and a value that fits. */
  function ParseI64(s: string): Option<int> {
    var negative := s != [] && s[0] == '-';
    var digits := if s != [] && (s[0] == '-' || s[0] == '+') then s[1..] else s;
    if digits == [] || !AllDigits(digits) then None
    else
      var n := if negative then 0 - Value(digits) else Value(digits) + 0;
      if IsI64(n) then Some(n) else None
  }

  lemma {:induction false} ValueOfDigits(n: nat)
    ensures Value(Digits(n)) == n
  {
    if n >= 10 {
      ValueOfDigits(n / 10);
      var s := Digits(n);
      assert s[..|s| - 1] == Digits(n / 10);
    }
  }

  /** Every 64-bit integer survives being stored as text. */
  lemma ParsePrint(n: int)
    requires IsI64(n)
    ensures ParseI64(Print(n)) == Some(n)
  {
    hide Digits, Value;
    if n < 0 {
      ValueOfDigits(-n);
      assert Print(n)[1..] == Digits(-n);
    } else {
      ValueOfDigits(n);
      assert IsDigit(Digits(n)[0]);
    }
  }

  /** `s` is the number `n`: an optional sign, then these digits. */
  predicate Spells(s: string, digits: string, n: int) {
    && digits != [] && AllDigits(digits)
    && if s == "-" + digits then n + Value(digits) == 0
       else n == Value(digits) && (s == digits || s == "+" + digits)
  }

  /** Only an optional sign followed by digits is a number, and its value is that of the digits. */
  lemma ParseIff(s: string, n: int)
    ensures ParseI64(s) == Some(n) <==> IsI64(n) && exists digits :: Spells(s, digits, n)
  {
    hide Value;
    if ParseI64(s) == Some(n) {
      var digits := if s[0] == '-' || s[0] == '+' then s[1..] else s;
      assert s == digits || s == "+" + digits || s == "-" + digits;
      assert Spells(s, digits, n);
    }
    if digits :| Spells(s, digits, n) {
      assert IsDigit(digits[0]);
      assert s == digits || s[1..] == digits;
    }
  }

  /** Leading zeros count for nothing. */
  lemma {:induction false} LeadingZero(digits: string)
    requires AllDigits(digits)
    ensures Value("0" + digits) == Value(digits)
  {
    var s := "0" + digits;
    if digits != [] {
      LeadingZero(digits[..|digits| - 1]);
      assert s[..|s| - 1] == "0" + digits[..|digits| - 1];
    }
  }

  lemma PrintHasNoColon(n: int)
    ensures ':' !in Print(n)
  {
  }

  lemma PrintInjective(m: int, n: int)
    requires Print(m) == Print(n)
    ensures m == n
  {
    hide Digits, Value;
    if m < 0 {
      ValueOfDigits(-m);
      assert Print(m)[0] == '-' && Print(m)[1..] == Digits(-m);
      assert !IsDigit(Print(n)[0]);
      ValueOfDigits(-n);
      assert Print(n)[1..] == Digits(-n);
    } else {
      ValueOfDigits(m);
      assert IsDigit(Print(m)[0]);
      ValueOfDigits(n);
    }
  }
}

/** Rust's casts between `usize` and `i64`, both 64 bits wide. */
module Casts {
  import opened Decimal

  const U64 := 0x1_0000_0000_0000_0000

  /** `n as i64`, and the result of an `i64` addition. */
  function AsI64(n: int): (r: int)
    ensures I64_MIN <= r <= I64_MAX
  {
    (n - I64_MIN) % U64 + I64_MIN
  }

  /** `n as usize`. */
  function AsUsize(n: int): nat {
    n % U64
  }

  lemma SmallCasts(n: int)
    requires 0 <= n <= I64_MAX
    ensures AsI64(n) == n && AsUsize(n) == n
  {
  }

  lemma ZeroCast(n: nat)
    requires n < U64
    ensures AsI64(n) == 0 <==> n == 0
  {
  }

  /** A negative limit wraps to a huge `usize`, and the extra row of the largest one to a negative LIMIT. */
  lemma CastsBack(size: int)
    requires I64_MIN <= size <= I64_MAX
    ensures AsI64(AsUsize(size)) == size && (size < 0 ==> AsUsize(size) == size + U64)
    ensures size == I64_MAX ==> AsI64(size + 1) == I64_MIN
    ensures size < 0 ==> AsI64(size + 1) == size + 1
    ensures size == 0 ==> AsI64(size + 1) == 1 && AsI64(0) == 0 && AsUsize(size) == 0
  {
  }
}

module Validation {
  import opened Wrappers
  import Decimal

  const MAX_IDENTIFIER_LEN := 128
  const MAX_CACHE_KEY_LEN := 1024

  predicate AsciiLetter(c: char) {
    'a' <= c <= 'z' || 'A' <= c <= 'Z'
  }

  predicate IdentifierRest(s: string) {
    forall i | 0 <= i < |s| :: AsciiLetter(s[i]) || Decimal.IsDigit(s[i]) || s[i] == '_' || s[i] == '-'
  }

  predicate ValidIdentifier(s: string) {
    0 < |s| <= MAX_IDENTIFIER_LEN && (AsciiLetter(s[0]) || s[0] == '_') && IdentifierRest(s[1..])
  }

  predicate ValidCacheKey(s: string) {
    0 < |s| <= MAX_CACHE_KEY_LEN
  }

  predicate ValidTtl(ttl: Option<int>) {
    ttl.Some? ==> 0 < ttl.value
  }

  /** The accepted identifiers, character by character. */
  lemma ValidIdentifierIff(s: string)
    ensures ValidIdentifier(s) <==>
            && 1 <= |s| <= 128
            && (forall c | c in s ::
                  'a' <= c <= 'z' || 'A' <= c <= 'Z' || '0' <= c <= '9' || c == '_' || c == '-')
            && !('0' <= s[0] <= '9') && s[0] != '-'
  {
    if ValidIdentifier(s) {
      assert s == [s[0]] + s[1..];
    } else if 1 <= |s| {
      assert s[0] in s && forall i | 0 <= i < |s| - 1 :: s[1..][i] in s;
    }
  }

  lemma IdentifierHasNoColon(s: string)
    requires ValidIdentifier(s)
    ensures ':' !in s
  {
  }

  /** The string that `lock_key_for_atomic_write` hashes into an advisory lock. */
  function LockKey(namespace: string, generation: int, keyHash: string): string {
    namespace + ":" + Decimal.Print(generation) + ":" + keyHash
  }

  /** Two colon-free prefixes of one string that are both followed by a colon are equal. */
  lemma ColonSplit(a: string, x: string, b: string, y: string)
    requires ':' !in a && ':' !in b
    requires a + ":" + x == b + ":" + y
    ensures a == b && x == y
  {
    var s := a + ":" + x;
    assert s[|a|] == ':' && s[|b|] == ':';
    assert forall i | 0 <= i < |a| :: s[i] == a[i];
    assert forall i | 0 <= i < |b| :: s[i] == b[i];
    assert |a| == |b|;
    assert a == s[..|a|] && b == s[..|a|];
    assert x == s[|a| + 1..] && y == s[|a| + 1..];
  }

  /** Transactions on different cache slots never wait for the same lock string. */
  lemma LockKeyInjective(ns: string, g: int, h: string, ns': string, g': int, h': string)
    requires ValidIdentifier(ns) && ValidIdentifier(ns')
    requires LockKey(ns, g, h) == LockKey(ns', g', h')
    ensures ns == ns' && g == g' && h == h'
  {
    hide Decimal.Print, ValidIdentifier;
    IdentifierHasNoColon(ns);
    IdentifierHasNoColon(ns');
    var x, x' := Decimal.Print(g) + ":" + h, Decimal.Print(g') + ":" + h';
    assert LockKey(ns, g, h) == ns + ":" + x && LockKey(ns', g', h') == ns' + ":" + x';
    ColonSplit(ns, x, ns', x');
    Decimal.PrintHasNoColon(g);
    Decimal.PrintHasNoColon(g');
    ColonSplit(Decimal.Print(g), h, Decimal.Print(g'), h');
    Decimal.PrintInjective(g, g');
  }
}

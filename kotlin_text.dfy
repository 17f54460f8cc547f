/**
 * The pieces of Kotlin's standard library that the protection-counter codec
 * leans on: 32-bit `Int` arithmetic, `String.replace`, `lastIndexOf`,
 * `substringAfterLast`, `String.toIntOrNull` and `Int.toString`.
 * A `char` here is a Unicode scalar value, not a JVM UTF-16 code unit; the
 * prefix tests, the `": "` split and the digit parse read only ASCII
 * characters, so the counter codec does not depend on the difference.
 */
module KotlinText {
  import opened Wrappers

  // ---------------------------------------------------------------------------
  // Kotlin `Int`: 32-bit two's complement, wrapping on overflow
  // ---------------------------------------------------------------------------

  const MinInt32: int := -0x8000_0000
  const MaxInt32: int := 0x7FFF_FFFF
  const Modulus32: int := 0x1_0000_0000

  type Int32 = x: int | MinInt32 <= x <= MaxInt32

  /** The `Int` that an unbounded result wraps to. */
  function Wrap32(x: int): (r: Int32)
    ensures MinInt32 <= x <= MaxInt32 ==> r == x
    ensures (r - x) % Modulus32 == 0
  {
    (x - MinInt32) % Modulus32 + MinInt32
  }

  /** `a + b` on Kotlin `Int`. */
  function Add32(a: Int32, b: Int32): Int32 {
    Wrap32(a + b)
  }

  /** `a - b` on Kotlin `Int`. */
  function Sub32(a: Int32, b: Int32): Int32 {
    Wrap32(a - b)
  }

  /** Two unbounded values that differ by a multiple of 2^32 wrap to the same `Int`. */
  lemma WrapCongruent(x: int, y: int)
    requires (x - y) % Modulus32 == 0
    ensures Wrap32(x) == Wrap32(y)
  {
    var k := (x - y) / Modulus32;
    assert x - MinInt32 == (y - MinInt32) + Modulus32 * k;
    ModShift(y - MinInt32, k);
  }

  lemma ModShift(a: int, k: int)
    ensures (a + Modulus32 * k) % Modulus32 == a % Modulus32
  {
    var q, r := a / Modulus32, a % Modulus32;
    assert a + Modulus32 * k == Modulus32 * (q + k) + r;
  }

  /**
   * Subtracting and then adding back the same `Int` is the identity, even when
   * the subtraction wraps around.
   */
  lemma SubThenAdd(a: Int32, b: Int32)
    ensures Add32(Sub32(a, b), b) == a
  {
    var d := Sub32(a, b);
    assert ((d + b) - a) % Modulus32 == (d - (a - b)) % Modulus32;
    WrapCongruent(d + b, a);
  }

  // ---------------------------------------------------------------------------
  // String.replace(oldValue, newValue): every non-overlapping occurrence, left to right
  // ---------------------------------------------------------------------------

  /** `s.replace(target, replacement)` for a non-empty `target`. */
  function Replace(s: string, target: string, replacement: string): (r: string)
    requires target != []
    ensures target[0] !in s ==> r == s
    ensures |replacement| <= |target| ==> |r| <= |s|
    decreases |s|
  {
    if target <= s then replacement + Replace(s[|target|..], target, replacement)
    else if s == [] then []
    else [s[0]] + Replace(s[1..], target, replacement)
  }

  /**
   * When the text before a single trailing occurrence of `target` cannot start
   * an occurrence (its first character is absent), replacing rewrites exactly
   * that occurrence.
   */
  lemma {:induction false} ReplaceTrailing(p: string, target: string, replacement: string)
    requires target != [] && target[0] !in p
    ensures Replace(p + target, target, replacement) == p + replacement
  {
    var s := p + target;
    if p == [] {
      assert s == target && target <= s;
      assert s[|target|..] == [];
      assert Replace(s, target, replacement) == replacement + Replace([], target, replacement);
    } else {
      assert s[0] == p[0] && p[0] in p;
      assert !(target <= s) by {
        assert s[0] != target[0];
      }
      assert Replace(s, target, replacement) == [s[0]] + Replace(s[1..], target, replacement);
      var rest := p[1..];
      assert s[1..] == rest + target;
      assert target[0] !in rest by {
        forall j | 0 <= j < |rest| ensures rest[j] != target[0] {
          assert rest[j] == p[j + 1] && p[j + 1] in p;
        }
      }
      ReplaceTrailing(rest, target, replacement);
      assert p == [p[0]] + rest;
    }
  }

  // ---------------------------------------------------------------------------
  // lastIndexOf / substringAfterLast
  // ---------------------------------------------------------------------------

  /** `delimiter` occurs in `s` at index `i`. */
  predicate OccursAt(s: string, delimiter: string, i: int) {
    0 <= i && i + |delimiter| <= |s| && delimiter <= s[i..]
  }

  /** The largest index not above `from` at which `delimiter` occurs, or -1. */
  function LastIndexFrom(s: string, delimiter: string, from: int): (r: int)
    requires from <= |s|
    ensures r == -1 || 0 <= r <= from
    ensures r >= 0 ==> OccursAt(s, delimiter, r)
    ensures forall i :: r < i <= from ==> !OccursAt(s, delimiter, i)
    decreases from + 1
  {
    if from < 0 then -1
    else if OccursAt(s, delimiter, from) then from
    else LastIndexFrom(s, delimiter, from - 1)
  }

  /** `s.lastIndexOf(delimiter)`: the last index where `delimiter` occurs, or -1. */
  function LastIndexOf(s: string, delimiter: string): (r: int)
    ensures r == -1 || OccursAt(s, delimiter, r)
    ensures forall i :: r < i ==> !OccursAt(s, delimiter, i)
  {
    LastIndexFrom(s, delimiter, |s| - |delimiter|)
  }

  /**
   * `s.substringAfterLast(delimiter)`: the text after the last occurrence, or
   * the whole of `s` when `delimiter` does not occur (Kotlin's default
   * `missingDelimiterValue`).
   */
  function SubstringAfterLast(s: string, delimiter: string): (r: string)
    ensures |r| <= |s| && r == s[|s| - |r|..]
    ensures delimiter != [] ==> forall j :: !OccursAt(r, delimiter, j)
  {
    var i := LastIndexOf(s, delimiter);
    if i == -1 then s
    else
      OccurrenceInSuffix(s, delimiter, i + |delimiter|);
      s[i + |delimiter|..]
  }

  /** An occurrence inside the suffix `s[k..]` is an occurrence in `s`, shifted by `k`. */
  lemma OccurrenceInSuffix(s: string, delimiter: string, k: int)
    requires 0 <= k <= |s|
    ensures forall j :: OccursAt(s[k..], delimiter, j) ==> OccursAt(s, delimiter, k + j)
  {
    forall j | OccursAt(s[k..], delimiter, j)
      ensures OccursAt(s, delimiter, k + j)
    {
      assert s[k..][j..] == s[k + j..];
    }
  }

  /**
   * A text that ends in a two-character delimiter and is followed by a tail
   * that holds no first character of the delimiter splits exactly there.
   */
  lemma AfterLastDelimiter(p: string, delimiter: string, tail: string)
    requires |delimiter| == 2 && |p| >= 2 && p[|p| - 2..] == delimiter
    requires delimiter[0] !in tail && delimiter[0] != delimiter[1]
    ensures SubstringAfterLast(p + tail, delimiter) == tail
  {
    var s := p + tail;
    var k := |p| - 2;
    assert s[k..][..2] == p[k..];
    assert OccursAt(s, delimiter, k);
    forall i | k < i
      ensures !OccursAt(s, delimiter, i)
    {
      if i + |delimiter| <= |s| {
        assert s[i..][0] == s[i];
        if i == k + 1 {
          assert s[i] == p[|p| - 1] == p[k..][1] == delimiter[1];
        } else {
          assert s[i] == tail[i - |p|] && tail[i - |p|] in tail;
        }
        assert s[i] != delimiter[0];
        assert !(delimiter <= s[i..]);
      }
    }
    assert LastIndexOf(s, delimiter) == k;
    assert s[k + 2..] == tail;
  }

  // ---------------------------------------------------------------------------
  // String.toIntOrNull() and Int.toString() in radix 10
  // ---------------------------------------------------------------------------

  predicate IsDigit(ch: char) {
    '0' <= ch <= '9'
  }

  predicate AllDigits(s: string) {
    forall i :: 0 <= i < |s| ==> IsDigit(s[i])
  }

  /** The value of a string of decimal digits, most significant first. */
  function DigitsValue(s: string): nat
    requires AllDigits(s)
  {
    if s == [] then 0
    else DigitsValue(s[..|s| - 1]) * 10 + (s[|s| - 1] as int - '0' as int)
  }

  /** A magnitude with a sign, or null when it lies outside the `Int` range. */
  function SignedInt(negative: bool, digits: string): (r: Option<Int32>)
    ensures r.Some? ==> AllDigits(digits)
  {
    if !AllDigits(digits) then None
    else
      var v: int := if negative then 0 - DigitsValue(digits) else DigitsValue(digits);
      if MinInt32 <= v <= MaxInt32 then Some(v) else None
  }

  /**
   * `s.toIntOrNull()`: an optional leading `-` or `+` followed by at least one
   * digit, whose value fits in an `Int`; null for anything else.
   */
  function ToIntOrNull(s: string): (r: Option<Int32>)
    ensures r.Some? ==> |s| >= 1 && IsDigit(s[|s| - 1])
    ensures r.Some? ==> IsDigit(s[0]) || s[0] == '-' || s[0] == '+'
    ensures r.Some? ==> forall i :: 0 < i < |s| ==> IsDigit(s[i])
  {
    if s == [] then None
    else if s[0] < '0' then
      if |s| == 1 then None
      else if s[0] == '-' then SignedInt(true, s[1..])
      else if s[0] == '+' then SignedInt(false, s[1..])
      else None
    else SignedInt(false, s)
  }

  /** Decimal digits of a natural number, without leading zeros. */
  function NatToString(n: nat): (s: string)
    ensures s != [] && AllDigits(s)
  {
    if n < 10 then [('0' as int + n) as char]
    else NatToString(n / 10) + [('0' as int + n % 10) as char]
  }

  /**
   * `n.toString()`: a `-` for negative values, then the decimal digits; the
   * text holds nothing but digits and that one leading minus sign.
   */
  function IntToString(n: int): (r: string)
    ensures r != [] && (r[0] == '-' <==> n < 0)
    ensures forall i :: 0 < i < |r| ==> IsDigit(r[i])
    ensures IsDigit(r[|r| - 1])
  {
    if n < 0 then
      var digits := NatToString(-n);
      assert forall i :: 0 < i < |digits| + 1 ==> ("-" + digits)[i] == digits[i - 1];
      "-" + digits
    else NatToString(n)
  }

  lemma {:induction false} NatToStringValue(n: nat)
    ensures DigitsValue(NatToString(n)) == n
  {
    if n >= 10 {
      var s := NatToString(n);
      assert s[..|s| - 1] == NatToString(n / 10);
      NatToStringValue(n / 10);
    }
  }

  /** What `toString` writes for an `Int`, `toIntOrNull` reads back. */
  lemma IntToStringRoundTrip(n: Int32)
    ensures ToIntOrNull(IntToString(n)) == Some(n)
  {
    var s := IntToString(n);
    if n < 0 {
      var m: nat := 0 - n as int;
      var digits := NatToString(m);
      NatToStringValue(m);
      assert s == "-" + digits && s[1..] == digits;
      assert s[0] == '-' && |s| >= 2;
      assert SignedInt(true, digits) == Some(n);
    } else {
      NatToStringValue(n);
      assert IsDigit(s[0]);
      assert SignedInt(false, s) == Some(n);
    }
  }
}

/**
 * The parts of Kotlin/JVM arithmetic and string formatting that the screenshot
 * manager relies on, written out on unbounded Dafny integers: the 64-bit `Long`
 * with its wrap-around on `++`, the 32-bit `Int` subtraction, the truncating
 * remainder `%`, and the decimal rendering a string template gives a `Long`.
 */
module KotlinSemantics {

  const LONG_MIN: int := -0x8000_0000_0000_0000
  const LONG_MAX: int := 0x7FFF_FFFF_FFFF_FFFF
  const INT_MIN: int := -0x8000_0000
  const INT_MAX: int := 0x7FFF_FFFF

  /** Kotlin's `Long`. */
  type Long = x: int | LONG_MIN <= x <= LONG_MAX

  /** Kotlin's `Int`. */
  type Int = x: int | INT_MIN <= x <= INT_MAX

  /** Kotlin's `Byte`, the (signed) element type of a `ByteArray`. */
  newtype Byte = x: int | -128 <= x < 128

  type Bytes = seq<Byte>

  /** `x++` on a `Long`: two's-complement wrap-around past the largest value. */
  function Inc(x: Long): (r: Long)
    ensures (r - x - 1) % 0x1_0000_0000_0000_0000 == 0
    ensures x < LONG_MAX ==> r == x + 1
  {
    if x == LONG_MAX then LONG_MIN else x + 1
  }

  /** `a - b` on two `Int`s: the difference reduced into the 32-bit range. */
  function IntMinus(a: Int, b: Int): (r: Int)
    ensures (r - (a - b)) % 0x1_0000_0000 == 0
    ensures INT_MIN <= a - b <= INT_MAX ==> r == a - b
  {
    var d := a - b;
    if d > INT_MAX then d - 0x1_0000_0000
    else if d < INT_MIN then d + 0x1_0000_0000
    else d
  }

  /**
   * Kotlin's `%` on integers (for a positive divisor `m`): the remainder of
   * division truncated toward zero, so it takes the sign of the dividend,
   * where Dafny's `%` is never negative.
   */
  function Rem(a: int, m: int): (r: int)
    requires m > 0
    ensures -m < r < m
    ensures r >= 0 ==> a - r == m * (a / m)
    ensures r < 0 ==> a - r == m * (a / m + 1)
    ensures r != 0 ==> (r < 0 <==> a < 0)
  {
    if a >= 0 || a % m == 0 then a % m else a % m - m
  }

  /** `++` on a `Long` always switches the parity Kotlin's `% 2` reports, even across the wrap. */
  lemma IncFlipsParity(x: Long)
    ensures (Rem(Inc(x), 2) == 0) <==> (Rem(x, 2) != 0)
  {
  }

  function DigitChar(d: int): (c: char)
    requires 0 <= d <= 9
    ensures '0' <= c <= '9'
  {
    ('0' as int + d) as char
  }

  function DigitValue(c: char): int { c as int - '0' as int }

  predicate IsDigits(s: string) { forall i :: 0 <= i < |s| ==> '0' <= s[i] <= '9' }

  /** The decimal digits of a natural number, without leading zeros. */
  function NatToString(n: nat): (s: string)
    ensures |s| >= 1 && IsDigits(s)
    ensures s[0] == '0' ==> n == 0
    decreases n
  {
    if n < 10 then [DigitChar(n)]
    else NatToString(n / 10) + [DigitChar(n % 10)]
  }

  /** Reads a string of decimal digits back as a number. */
  function ParseNat(s: string): int
  {
    if s == [] then 0 else ParseNat(s[..|s| - 1]) * 10 + DigitValue(s[|s| - 1])
  }

  lemma {:induction false} ParseNatToString(n: nat)
    ensures ParseNat(NatToString(n)) == n
    decreases n
  {
    var s := NatToString(n);
    if n >= 10 {
      ParseNatToString(n / 10);
      assert s[..|s| - 1] == NatToString(n / 10);
      assert DigitValue(s[|s| - 1]) == n % 10;
    }
  }

  /** A `Long` as a string template `"$x"` renders it. */
  function LongToString(x: Long): string
  {
    var n: int := x;
    if n < 0 then "-" + NatToString(-n) else NatToString(n)
  }

  function ParseLong(s: string): int
  {
    if |s| > 0 && s[0] == '-' then -ParseNat(s[1..]) else ParseNat(s)
  }

  /** The rendering of a `Long` loses nothing: reading it back gives the number. */
  lemma LongToStringRoundTrip(x: Long)
    ensures ParseLong(LongToString(x)) == x
  {
    var n: int := x;
    if n < 0 {
      var digits := NatToString(-n);
      assert LongToString(x) == "-" + digits;
      assert ("-" + digits)[1..] == digits;
      ParseNatToString(-n);
    } else {
      assert LongToString(x) == NatToString(n);
      ParseNatToString(n);
    }
  }
}

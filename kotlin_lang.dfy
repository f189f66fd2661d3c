/** The few pieces of Kotlin/JVM semantics the model depends on: 32-bit `Int`
    arithmetic, `Char.isWhitespace`/`String.isBlank`, `String.length` in UTF-16 code
    units, and the decimal rendering of a non-negative `Long` inside a string template. */
module KotlinLang {

  const INT32_MIN: int := -0x8000_0000
  const INT32_MAX: int := 0x7FFF_FFFF

  /** Kotlin's `Int`. */
  type Int32 = x: int | INT32_MIN <= x <= INT32_MAX

  /** The value a Kotlin `Int` expression whose mathematical value is `x` evaluates to:
      two's-complement wrap-around modulo 2^32. */
  function WrapInt32(x: int): (r: Int32)
    ensures (r - x) % 0x1_0000_0000 == 0
    ensures INT32_MIN <= x <= INT32_MAX ==> r == x
  {
    (x - INT32_MIN) % 0x1_0000_0000 + INT32_MIN
  }

  /** Kotlin's `Int + Int`. */
  function AddInt32(a: Int32, b: Int32): (r: Int32)
    ensures INT32_MIN <= a + b <= INT32_MAX ==> r == a + b
    ensures a + b > INT32_MAX ==> r == a + b - 0x1_0000_0000
    ensures a + b < INT32_MIN ==> r == a + b + 0x1_0000_0000
  {
    WrapInt32(a + b)
  }

  /** Kotlin's `Char.isWhitespace()` on the JVM: `Character.isWhitespace` or
      `Character.isSpaceChar`, i.e. the ASCII controls TAB..CR and FS..US, and every
      character of the Unicode categories Zs, Zl and Zp. */
  predicate IsWhitespace(c: char)
  {
    || '\U{0009}' <= c <= '\U{000D}'
    || '\U{001C}' <= c <= '\U{0020}'
    || c == '\U{00A0}' || c == '\U{1680}'
    || '\U{2000}' <= c <= '\U{200A}'
    || c == '\U{2028}' || c == '\U{2029}' || c == '\U{202F}' || c == '\U{205F}'
    || c == '\U{3000}'
  }

  /** Kotlin's `CharSequence.isBlank()`: empty or whitespace only. */
  predicate IsBlank(s: string)
  {
    forall i :: 0 <= i < |s| ==> IsWhitespace(s[i])
  }

  /** Kotlin's `String.length`: the number of UTF-16 code units, so a character
      outside the Basic Multilingual Plane counts twice. */
  function Utf16Length(s: string): (n: nat)
    ensures |s| <= n <= 2 * |s|
    ensures (forall i :: 0 <= i < |s| ==> s[i] <= '\U{FFFF}') ==> n == |s|
  {
    if s == [] then 0
    else (if s[0] <= '\U{FFFF}' then 1 else 2) + Utf16Length(s[1..])
  }

  function DigitChar(d: nat): (c: char)
    requires d < 10
    ensures '0' <= c <= '9'
  {
    "0123456789"[d]
  }

  function DigitValue(c: char): nat
    requires '0' <= c <= '9'
  {
    c as int - '0' as int
  }

  /** The value of a string of decimal digits. */
  function DecimalValue(s: string): nat
    requires forall i :: 0 <= i < |s| ==> '0' <= s[i] <= '9'
  {
    if s == [] then 0 else 10 * DecimalValue(s[..|s| - 1]) + DigitValue(s[|s| - 1])
  }

  /** How a non-negative `Long` is rendered inside a Kotlin string template. */
  function DecimalString(n: nat): (s: string)
    ensures |s| > 0
    ensures forall i :: 0 <= i < |s| ==> '0' <= s[i] <= '9'
  {
    if n < 10 then [DigitChar(n)] else DecimalString(n / 10) + [DigitChar(n % 10)]
  }

  /** Reading the rendered digits back gives the number. */
  lemma {:induction false} DecimalRoundTrip(n: nat)
    ensures DecimalValue(DecimalString(n)) == n
  {
    var s := DecimalString(n);
    if n >= 10 {
      DecimalRoundTrip(n / 10);
      assert s[..|s| - 1] == DecimalString(n / 10);
      assert DigitValue(DigitChar(n % 10)) == n % 10 by {
        assert "0123456789"[n % 10] as int == '0' as int + n % 10;
      }
    } else {
      assert "0123456789"[n] as int == '0' as int + n;
    }
  }

  /** Distinct numbers render differently, so ids built from distinct timestamps differ. */
  lemma DecimalStringInjective(a: nat, b: nat)
    requires a != b
    ensures DecimalString(a) != DecimalString(b)
  {
    DecimalRoundTrip(a);
    DecimalRoundTrip(b);
  }

  /** A fixed prefix followed by distinct numbers gives distinct strings. */
  lemma PrefixedDecimalInjective(prefix: string, a: nat, b: nat)
    requires a != b
    ensures prefix + DecimalString(a) != prefix + DecimalString(b)
  {
    DecimalStringInjective(a, b);
    assert (prefix + DecimalString(a))[|prefix|..] == DecimalString(a);
    assert (prefix + DecimalString(b))[|prefix|..] == DecimalString(b);
  }
}

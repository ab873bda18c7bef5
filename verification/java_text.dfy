/**
 * The few pieces of Java and Apache Commons string behaviour the parser relies on:
 * `Character.isWhitespace`, `StringUtils.isBlank`, `String.endsWith`,
 * `String.contains` and `Integer.parseInt` on unsigned decimal text.
 */
module JavaText {
  import opened Wrappers

  /** `Character.isWhitespace`: the Unicode space, line and paragraph separators other than
      the non-breaking ones, plus the ASCII controls TAB, LF, VT, FF, CR and FS..US. */
  predicate IsWhitespace(c: char) {
    var n := c as int;
    (0x09 <= n <= 0x0D) || (0x1C <= n <= 0x20)
    || n == 0x1680 || (0x2000 <= n <= 0x2006) || (0x2008 <= n <= 0x200A)
    || n == 0x2028 || n == 0x2029 || n == 0x205F || n == 0x3000
  }

  /** `StringUtils.isBlank`: empty or whitespace only (a Java `null` is modelled as ""). */
  predicate IsBlank(s: string) {
    forall i :: 0 <= i < |s| ==> IsWhitespace(s[i])
  }

  /** `String.endsWith`. */
  predicate EndsWith(s: string, suffix: string) {
    |suffix| <= |s| && s[|s| - |suffix|..] == suffix
  }

  /** `part` occurs in `s` starting at index `i`. */
  predicate OccursAt(s: string, part: string, i: int) {
    0 <= i <= |s| - |part| && s[i..i + |part|] == part
  }

  /** `String.contains`. */
  predicate Contains(s: string, part: string) {
    exists i :: 0 <= i <= |s| && OccursAt(s, part, i)
  }

  predicate IsDigit(c: char) {
    '0' <= c <= '9'
  }

  predicate AllDigits(s: string) {
    forall i :: 0 <= i < |s| ==> IsDigit(s[i])
  }

  /** The value of a string of decimal digits, read most significant digit first. */
  function DigitsValue(s: string): nat
    requires AllDigits(s)
  {
    if s == [] then 0 else DigitsValue(s[..|s| - 1]) * 10 + (s[|s| - 1] as int - '0' as int)
  }

  /** `Integer.MAX_VALUE`. */
  const MaxInt: int := 0x7FFF_FFFF

  /**
   * `Integer.parseInt` on text without a sign: `None` stands for the
   * NumberFormatException thrown for empty text, a non-digit or a value above
   * `Integer.MAX_VALUE`.
   */
  function ParseInt(s: string): Option<int> {
    if s == [] || !AllDigits(s) then None
    else if DigitsValue(s) > MaxInt then None
    else Some(DigitsValue(s))
  }

  /** The decimal rendering of a natural number, without leading zeros. */
  function Decimal(n: nat): string {
    if n < 10 then [('0' as int + n) as char]
    else Decimal(n / 10) + [('0' as int + n % 10) as char]
  }

  /** The decimal rendering is non-empty digit text whose value is the number. */
  lemma {:induction false} DecimalValue(n: nat)
    ensures |Decimal(n)| > 0 && AllDigits(Decimal(n)) && DigitsValue(Decimal(n)) == n
  {
    if n >= 10 {
      DecimalValue(n / 10);
      var s := Decimal(n);
      assert s[..|s| - 1] == Decimal(n / 10);
    }
  }

  /** `Integer.parseInt` reads back every int it could have printed, and rejects empty text. */
  lemma ParseIntDecimal(n: nat)
    requires n <= MaxInt
    ensures ParseInt(Decimal(n)) == Some(n)
    ensures ParseInt("") == None
  {
    DecimalValue(n);
  }
}

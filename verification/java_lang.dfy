/** The few pieces of Java's built-in semantics that the cell model depends on:
    32-bit `int` arithmetic and `String` as a sequence of UTF-16 code units. */
module JavaLang {
  import opened Wrappers

  const INT_MIN: int := -0x8000_0000
  const INT_MAX: int := 0x7FFF_FFFF
  const TWO_TO_32: int := 0x1_0000_0000

  predicate InInt32(x: int) {
    INT_MIN <= x <= INT_MAX
  }

  /** A Java `int`. */
  type Int32 = x: int | InInt32(x)

  /** Java's `a - b` on `int`: the mathematical difference, wrapped into the
      32-bit two's-complement range. */
  function Sub32(a: Int32, b: Int32): (r: Int32)
    ensures (a - b) - r in {0, TWO_TO_32, -TWO_TO_32}
    ensures InInt32(a - b) ==> r == a - b
  {
    assert InInt32(a) && InInt32(b);
    var d: int := a as int - b as int;
    if d < INT_MIN then d + TWO_TO_32
    else if d > INT_MAX then d - TWO_TO_32
    else d
  }

  /** A UTF-16 code unit (a Java `char`). */
  type CodeUnit = x: int | 0 <= x < 0x1_0000

  /** A non-null Java `String`. */
  type JString = seq<CodeUnit>

  const MIN_SUPPLEMENTARY_CODE_POINT: int := 0x1_0000
  const MAX_CODE_POINT: int := 0x10_FFFF
  const MIN_HIGH_SURROGATE: int := 0xD800
  const MIN_LOW_SURROGATE: int := 0xDC00

  predicate ValidCodePoint(cp: int) {
    0 <= cp <= MAX_CODE_POINT
  }

  /** The `IllegalArgumentException` of `Character.toChars`. */
  datatype CodePointError = InvalidCodePoint(codePoint: int)

  predicate IsHighSurrogate(u: CodeUnit) {
    MIN_HIGH_SURROGATE <= u < MIN_LOW_SURROGATE
  }

  predicate IsLowSurrogate(u: CodeUnit) {
    MIN_LOW_SURROGATE <= u < 0xE000
  }

  /** `Character.toChars`: the UTF-16 encoding of a code point; `None` where
      Java throws `IllegalArgumentException`. */
  function ToChars(cp: int): (r: Option<JString>)
    ensures r.Some? <==> ValidCodePoint(cp)
    ensures r.Some? ==> |r.value| == (if cp < MIN_SUPPLEMENTARY_CODE_POINT then 1 else 2)
  {
    if !ValidCodePoint(cp) then None
    else if cp < MIN_SUPPLEMENTARY_CODE_POINT then Some([cp as CodeUnit])
    else
      var offset := cp - MIN_SUPPLEMENTARY_CODE_POINT;
      Some([(MIN_HIGH_SURROGATE + offset / 0x400) as CodeUnit,
            (MIN_LOW_SURROGATE + offset % 0x400) as CodeUnit])
  }

  /** `Character.codePointAt(s, 0)`: the code point that starts `s`. */
  function CodePointAt(s: JString): int
    requires |s| > 0
  {
    if |s| >= 2 && IsHighSurrogate(s[0]) && IsLowSurrogate(s[1]) then
      (s[0] - MIN_HIGH_SURROGATE) * 0x400 + (s[1] - MIN_LOW_SURROGATE) + MIN_SUPPLEMENTARY_CODE_POINT
    else
      s[0]
  }

  /** Decoding the characters `ToChars` produced gives back the code point. */
  lemma ToCharsRoundTrip(cp: int)
    requires ValidCodePoint(cp)
    ensures ToChars(cp).Some? && CodePointAt(ToChars(cp).value) == cp
  {
  }
}

/** The pieces of Java's standard library whose exact behaviour the extension
    relies on: null-string concatenation, String.compareTo, ASCII upper-casing,
    truncating integer division, the saturating double-to-int cast and
    TextUtils.join. */
module JavaLang {

  datatype Option<+T> = None | Some(value: T)

  /** What `"" + s` yields in Java for a String reference that may be null. */
  function StringOf(s: Option<string>): string
  {
    if s.Some? then s.value else "null"
  }

  /** `s == null || s.isEmpty()` */
  predicate IsNullOrEmpty(s: Option<string>)
  {
    s.None? || s.value == ""
  }

  // ---------------------------------------------------------------------------
  // String.compareTo: the first differing character decides, otherwise length.

  function CompareTo(a: string, b: string): int
    decreases |a|
  {
    if a == [] || b == [] then |a| - |b|
    else if a[0] != b[0] then a[0] as int - b[0] as int
    else CompareTo(a[1..], b[1..])
  }

  /** The natural ordering of strings used by Collections.sort. */
  predicate StrLe(a: string, b: string)
  {
    CompareTo(a, b) <= 0
  }

  lemma {:induction false} CompareToZero(a: string, b: string)
    ensures CompareTo(a, b) == 0 <==> a == b
    decreases |a|
  {
    if a != [] && b != [] && a[0] == b[0] {
      CompareToZero(a[1..], b[1..]);
      assert a == [a[0]] + a[1..];
      assert b == [b[0]] + b[1..];
    }
  }

  lemma {:induction false} CompareToAntisymmetric(a: string, b: string)
    ensures CompareTo(a, b) == -CompareTo(b, a)
    decreases |a|
  {
    if a != [] && b != [] && a[0] == b[0] {
      CompareToAntisymmetric(a[1..], b[1..]);
    }
  }

  lemma {:induction false} CompareToTransitive(a: string, b: string, c: string)
    requires CompareTo(a, b) <= 0 && CompareTo(b, c) <= 0
    ensures CompareTo(a, c) <= 0
    decreases |a|
  {
    if a != [] && b != [] && c != [] && a[0] == b[0] && b[0] == c[0] {
      CompareToTransitive(a[1..], b[1..], c[1..]);
    }
  }

  // ---------------------------------------------------------------------------
  // Upper-casing (ASCII letters only).

  function UpperChar(c: char): char
  {
    if 'a' <= c <= 'z' then (c as int - 'a' as int + 'A' as int) as char else c
  }

  function ToUpperCase(s: string): string
  {
    seq(|s|, i requires 0 <= i < |s| => UpperChar(s[i]))
  }

  lemma UpperCaseAppend(a: string, b: string)
    ensures ToUpperCase(a + b) == ToUpperCase(a) + ToUpperCase(b)
  {
  }

  // ---------------------------------------------------------------------------
  // Integer arithmetic of the JVM.

  /** Java's `/` on integers truncates toward zero. */
  function JavaDiv(a: int, b: int): int
    requires b > 0
  {
    if a >= 0 then a / b else -((-a) / b)
  }

  /** Java's `%`: the remainder takes the sign of the dividend. */
  function JavaRem(a: int, b: int): int
    requires b > 0
  {
    a - b * JavaDiv(a, b)
  }

  /** `(int) d` for a double holding the integer `x`: saturates at the int range. */
  function IntCast(x: int): (r: int)
    ensures r < 0 <==> x < 0
    ensures r == 0 <==> x == 0
    ensures -0x8000_0000 <= r <= 0x7fff_ffff
  {
    if x > 0x7fff_ffff then 0x7fff_ffff
    else if x < -0x8000_0000 then -0x8000_0000
    else x
  }

  // ---------------------------------------------------------------------------
  // TextUtils.join

  function Join(parts: seq<string>, delimiter: string): string
  {
    if |parts| == 0 then ""
    else if |parts| == 1 then parts[0]
    else parts[0] + delimiter + Join(parts[1..], delimiter)
  }

  lemma {:induction false} JoinEmpty(parts: seq<string>, delimiter: string)
    requires forall k :: 0 <= k < |parts| ==> |parts[k]| > 0
    ensures Join(parts, delimiter) == "" <==> parts == []
    decreases |parts|
  {
    if |parts| > 1 {
      assert |Join(parts, delimiter)| >= |parts[0]|;
    }
  }
}

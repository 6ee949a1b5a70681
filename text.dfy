/**
 * JavaScript strings as sequences of UTF-16 code units, the few string
 * operations the photo diary uses on them, and the code-unit order in which
 * JavaScript's default `Array.prototype.sort` compares strings.
 */
module Text {

  /** One UTF-16 code unit: JavaScript strings, regular expressions without the
      `u` flag, `endsWith` and the default sort all work on these. */
  newtype CodeUnit = x: int | 0 <= x < 0x1_0000

  type Str = seq<CodeUnit>

  predicate IsAscii(s: string) {
    forall i | 0 <= i < |s| :: (s[i] as int) < 0x80
  }

  /** The code units of an ASCII literal. */
  function Ascii(s: string): (r: Str)
    requires IsAscii(s)
    ensures |r| == |s|
    ensures forall i | 0 <= i < |s| :: r[i] as int == s[i] as int
  {
    seq(|s|, i requires 0 <= i < |s| => s[i] as int as CodeUnit)
  }

  predicate IsUpper(c: CodeUnit) { 'A' as int as CodeUnit <= c <= 'Z' as int as CodeUnit }
  predicate IsLower(c: CodeUnit) { 'a' as int as CodeUnit <= c <= 'z' as int as CodeUnit }
  predicate IsDigit(c: CodeUnit) { '0' as int as CodeUnit <= c <= '9' as int as CodeUnit }

  /** ASCII lower-casing of one code unit; every other code unit is kept. */
  function LowerUnit(c: CodeUnit): (r: CodeUnit)
    ensures IsUpper(c) ==> IsLower(r) && r as int == c as int + 32
    ensures !IsUpper(c) ==> r == c
  {
    if IsUpper(c) then c + 32 else c
  }

  /** ASCII lower-casing of a string, code unit by code unit. */
  function Lower(s: Str): (r: Str)
    ensures |r| == |s|
    ensures forall i | 0 <= i < |s| :: r[i] == LowerUnit(s[i])
  {
    seq(|s|, i requires 0 <= i < |s| => LowerUnit(s[i]))
  }

  /** `s.endsWith(suffix)`. */
  predicate EndsWith(s: Str, suffix: Str) {
    |suffix| <= |s| && s[|s| - |suffix|..] == suffix
  }

  /** Code-unit lexicographic order: the order of JavaScript's `<` on strings
      and of `Array.prototype.sort` without a comparator. A proper prefix
      comes first. */
  predicate Le(a: Str, b: Str) {
    a == [] || (b != [] && (a[0] < b[0] || (a[0] == b[0] && Le(a[1..], b[1..]))))
  }

  predicate Lt(a: Str, b: Str) {
    Le(a, b) && a != b
  }

  lemma {:induction false} LeReflexive(a: Str)
    ensures Le(a, a)
  {
    if a != [] {
      LeReflexive(a[1..]);
    }
  }

  lemma {:induction false} LeAntisymmetric(a: Str, b: Str)
    requires Le(a, b) && Le(b, a)
    ensures a == b
  {
    if a != [] && b != [] {
      LeAntisymmetric(a[1..], b[1..]);
      assert a == [a[0]] + a[1..] && b == [b[0]] + b[1..];
    }
  }

  lemma {:induction false} LeTransitive(a: Str, b: Str, c: Str)
    requires Le(a, b) && Le(b, c)
    ensures Le(a, c)
  {
    if a != [] && b != [] && c != [] && a[0] == b[0] == c[0] {
      LeTransitive(a[1..], b[1..], c[1..]);
    }
  }

  lemma {:induction false} LeTotal(a: Str, b: Str)
    ensures Le(a, b) || Le(b, a)
  {
    if a != [] && b != [] && a[0] == b[0] {
      LeTotal(a[1..], b[1..]);
    }
  }
}

/**
 * The parts of JavaScript string semantics the core relies on: the UTF-16
 * code units a string is made of (which `Array.prototype.sort` compares),
 * `String.prototype.trim`, and the hexadecimal digit alphabets.
 *
 * Dafny's `char` is a Unicode scalar value, so a string here never holds a
 * lone surrogate; a character above U+FFFF is one `char` and two code units.
 */
module JsStrings {

  /** The UTF-16 code units of one character. */
  function CodeUnits(c: char): (u: seq<int>)
    ensures 1 <= |u| <= 2
    ensures forall i :: 0 <= i < |u| ==> 0 <= u[i] < 0x1_0000
    ensures |u| == 1 <==> c as int < 0x1_0000
    ensures |u| == 1 ==> u[0] == c as int
    ensures |u| == 2 ==> 0xD800 <= u[0] < 0xDC00 && 0xDC00 <= u[1] < 0xE000
    ensures |u| == 2 ==> c as int == 0x1_0000 + (u[0] - 0xD800) * 0x400 + (u[1] - 0xDC00)
  {
    var cp := c as int;
    if cp < 0x1_0000 then [cp]
    else [0xD800 + (cp - 0x1_0000) / 0x400, 0xDC00 + (cp - 0x1_0000) % 0x400]
  }

  /** A character is told apart by its code units; no unit sequence of one is a proper prefix of another's. */
  lemma CodeUnitsPrefixFree(c: char, d: char, r: seq<int>, t: seq<int>)
    requires CodeUnits(c) + r == CodeUnits(d) + t
    ensures c == d && r == t
  {
    var u, w := CodeUnits(c), CodeUnits(d);
    assert (u + r)[0] == u[0] && (w + t)[0] == w[0];
    if |u| == 2 {
      assert (u + r)[1] == u[1] && (w + t)[1] == w[1];
    }
    assert |u| == |w|;
    assert u == (u + r)[..|u|] && w == (w + t)[..|w|];
    assert r == (u + r)[|u|..] && t == (w + t)[|w|..];
  }

  /** The code units of a string, the sequence `charCodeAt` walks through. */
  function Utf16(s: string): (u: seq<int>)
    ensures |s| <= |u| <= 2 * |s|
  {
    if s == [] then [] else CodeUnits(s[0]) + Utf16(s[1..])
  }

  lemma {:induction false} Utf16Injective(s: string, t: string)
    requires Utf16(s) == Utf16(t)
    ensures s == t
  {
    if s != [] && t != [] {
      CodeUnitsPrefixFree(s[0], t[0], Utf16(s[1..]), Utf16(t[1..]));
      Utf16Injective(s[1..], t[1..]);
      assert s == [s[0]] + s[1..] && t == [t[0]] + t[1..];
    }
  }

  /** Lexicographic "at most" on code-unit sequences: a prefix comes first. */
  predicate UnitsLe(a: seq<int>, b: seq<int>)
  {
    a == [] || (b != [] && (a[0] < b[0] || (a[0] == b[0] && UnitsLe(a[1..], b[1..]))))
  }

  lemma {:induction false} UnitsLeTotal(a: seq<int>, b: seq<int>)
    ensures UnitsLe(a, b) || UnitsLe(b, a)
  {
    if a != [] && b != [] && a[0] == b[0] {
      UnitsLeTotal(a[1..], b[1..]);
    }
  }

  lemma {:induction false} UnitsLeTransitive(a: seq<int>, b: seq<int>, c: seq<int>)
    requires UnitsLe(a, b) && UnitsLe(b, c)
    ensures UnitsLe(a, c)
  {
    if a != [] && b != [] && c != [] && a[0] == b[0] == c[0] {
      UnitsLeTransitive(a[1..], b[1..], c[1..]);
    }
  }

  lemma {:induction false} UnitsLeAntisymmetric(a: seq<int>, b: seq<int>)
    requires UnitsLe(a, b) && UnitsLe(b, a)
    ensures a == b
  {
    if a != [] && b != [] {
      UnitsLeAntisymmetric(a[1..], b[1..]);
      assert a == [a[0]] + a[1..] && b == [b[0]] + b[1..];
    }
  }

  /**
   * The order in which `Array.prototype.sort` with no comparator puts two
   * strings: `x` may come before `y` when `y < x` is false in JavaScript,
   * that is, when the code units of `x` are lexicographically at most those of `y`.
   */
  predicate CodeUnitLe(x: string, y: string)
  {
    UnitsLe(Utf16(x), Utf16(y))
  }

  /** The default sort order is a total order on strings: distinct strings are strictly ordered one way. */
  lemma CodeUnitOrderIsTotal(x: string, y: string, z: string)
    ensures CodeUnitLe(x, y) || CodeUnitLe(y, x)
    ensures CodeUnitLe(x, y) && CodeUnitLe(y, z) ==> CodeUnitLe(x, z)
    ensures CodeUnitLe(x, y) && CodeUnitLe(y, x) ==> x == y
  {
    UnitsLeTotal(Utf16(x), Utf16(y));
    if CodeUnitLe(x, y) && CodeUnitLe(y, z) {
      UnitsLeTransitive(Utf16(x), Utf16(y), Utf16(z));
    }
    if CodeUnitLe(x, y) && CodeUnitLe(y, x) {
      UnitsLeAntisymmetric(Utf16(x), Utf16(y));
      Utf16Injective(x, y);
    }
  }

  /** WhiteSpace and LineTerminator code points, the characters `String.prototype.trim` removes. */
  predicate IsJsWhitespace(c: char)
  {
    var n := c as int;
    n == 0x09 || n == 0x0A || n == 0x0B || n == 0x0C || n == 0x0D || n == 0x20
    || n == 0xA0 || n == 0x1680 || (0x2000 <= n <= 0x200A) || n == 0x2028 || n == 0x2029
    || n == 0x202F || n == 0x205F || n == 0x3000 || n == 0xFEFF
  }

  /** The end of the run of whitespace that starts at `i`. */
  function WhitespaceFrom(s: string, i: nat): (j: nat)
    requires i <= |s|
    ensures i <= j <= |s|
    ensures forall k :: i <= k < j ==> IsJsWhitespace(s[k])
    ensures j < |s| ==> !IsJsWhitespace(s[j])
    decreases |s| - i
  {
    if i < |s| && IsJsWhitespace(s[i]) then WhitespaceFrom(s, i + 1) else i
  }

  /** The start of the run of whitespace that ends just before `j`. */
  function WhitespaceBefore(s: string, j: nat): (i: nat)
    requires j <= |s|
    ensures i <= j
    ensures forall k :: i <= k < j ==> IsJsWhitespace(s[k])
    ensures 0 < i ==> !IsJsWhitespace(s[i - 1])
  {
    if 0 < j && IsJsWhitespace(s[j - 1]) then WhitespaceBefore(s, j - 1) else j
  }

  /** `String.prototype.trim`: leading, then trailing whitespace removed. */
  function Trim(s: string): string
  {
    var t := s[WhitespaceFrom(s, 0)..];
    t[..WhitespaceBefore(t, |t|)]
  }

  /** `Trim(s)` is a slice of `s` surrounded by whitespace only. */
  lemma TrimIsInnerSlice(s: string)
    ensures exists i, j ::
              && 0 <= i <= j <= |s| && Trim(s) == s[i..j]
              && (forall k :: 0 <= k < i ==> IsJsWhitespace(s[k]))
              && (forall k :: j <= k < |s| ==> IsJsWhitespace(s[k]))
  {
    var i := WhitespaceFrom(s, 0);
    var t := s[i..];
    var j := i + WhitespaceBefore(t, |t|);
    assert Trim(s) == s[i..j];
    forall k | j <= k < |s| ensures IsJsWhitespace(s[k]) {
      assert s[k] == t[k - i];
    }
  }

  /** The trimmed string neither starts nor ends with whitespace, so trimming it again changes nothing. */
  lemma TrimIsIdempotent(s: string)
    ensures Trim(s) != [] ==> !IsJsWhitespace(Trim(s)[0]) && !IsJsWhitespace(Trim(s)[|Trim(s)| - 1])
    ensures Trim(Trim(s)) == Trim(s)
  {
  }

  const HexDigitsLower: string := "0123456789abcdef"
  const HexDigitsUpper: string := "0123456789ABCDEF"
}

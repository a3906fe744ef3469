/**
 * JavaScript's relational operators on two strings. A JavaScript string is a
 * sequence of UTF-16 code units, and `<` compares those code unit by code
 * unit, a proper prefix being smaller than the longer string. Dafny's `char`
 * is a Unicode scalar value, so a string is first encoded into its code
 * units. The encoding matters for order: a character above the Basic
 * Multilingual Plane begins with a surrogate (U+D800 to U+DBFF) and therefore
 * sorts before a character in U+E000 to U+FFFF, although its scalar value is
 * larger.
 */
module JsString {

  /** The UTF-16 code units of one character: itself below U+10000, a surrogate pair above. */
  function Units(c: char): (u: seq<int>)
    ensures 1 <= |u| <= 2
    ensures |u| == 1 <==> c as int < 0x1_0000
    ensures |u| == 1 ==> u[0] == c as int && !(0xD800 <= u[0] < 0xE000)
    ensures |u| == 2 ==> 0xD800 <= u[0] < 0xDC00 && 0xDC00 <= u[1] < 0xE000
    ensures |u| == 2 ==> 0x1_0000 + (u[0] - 0xD800) * 0x400 + (u[1] - 0xDC00) == c as int
  {
    if c as int < 0x1_0000 then [c as int]
    else
      var v := c as int - 0x1_0000;
      [0xD800 + v / 0x400, 0xDC00 + v % 0x400]
  }

  /** The code units of a whole string. */
  function Utf16(s: string): (u: seq<int>)
    ensures |s| <= |u| <= 2 * |s|
    decreases |s|
  {
    if |s| == 0 then [] else Units(s[0]) + Utf16(s[1..])
  }

  /** Lexicographic order on code-unit sequences; a proper prefix is smaller. This is how JavaScript orders strings. */
  predicate UnitsLess(a: seq<int>, b: seq<int>)
    decreases |a|
  {
    if |a| == 0 then |b| > 0
    else if |b| == 0 then false
    else if a[0] != b[0] then a[0] < b[0]
    else UnitsLess(a[1..], b[1..])
  }

  /**
   * A character's place in code-unit order. Characters below the surrogates
   * keep their value, characters above U+FFFF follow them (their first unit is
   * a surrogate), and U+E000 to U+FFFF come last.
   */
  function UnitRank(c: char): int {
    if c as int < 0xD800 then c as int
    else if c as int < 0x1_0000 then c as int + 0x10_0000
    else c as int - 0x1_0000 + 0xD800
  }

  /**
   * `a < b` for two JavaScript strings, character by character in code-unit
   * order; `LessIsCodeUnitOrder` proves it agrees with comparing the UTF-16
   * encodings.
   */
  predicate Less(a: string, b: string)
    decreases |a|
  {
    if |a| == 0 then |b| > 0
    else if |b| == 0 then false
    else if a[0] != b[0] then UnitRank(a[0]) < UnitRank(b[0])
    else Less(a[1..], b[1..])
  }

  // ---------------------------------------------------------------------------
  // The encoding is a prefix code, hence injective

  /** Distinct characters have code units that differ at a position both strings reach. */
  lemma UnitsDiffer(c: char, d: char, x: seq<int>, y: seq<int>)
    requires c != d
    ensures Units(c) + x != Units(d) + y
  {
    var p, q := Units(c), Units(d);
    if |p| == |q| {
      if |p| == 1 {
        assert (p + x)[0] != (q + y)[0];
      } else if p[0] != q[0] {
        assert (p + x)[0] != (q + y)[0];
      } else {
        assert (p + x)[1] != (q + y)[1];
      }
    } else {
      assert (p + x)[0] != (q + y)[0];
    }
  }

  lemma {:induction false} Utf16Injective(a: string, b: string)
    ensures Utf16(a) == Utf16(b) ==> a == b
    decreases |a|
  {
    if |a| > 0 && |b| > 0 && Utf16(a) == Utf16(b) {
      if a[0] != b[0] {
        UnitsDiffer(a[0], b[0], Utf16(a[1..]), Utf16(b[1..]));
      } else {
        var p := Units(a[0]);
        assert Utf16(a[1..]) == Utf16(a)[|p|..];
        assert Utf16(b[1..]) == Utf16(b)[|p|..];
        Utf16Injective(a[1..], b[1..]);
        assert a == [a[0]] + a[1..] && b == [b[0]] + b[1..];
      }
    }
  }

  // ---------------------------------------------------------------------------
  // Agreement with the UTF-16 encoding

  /** A common prefix does not decide the order. */
  lemma {:induction false} UnitsLessCommonPrefix(p: seq<int>, x: seq<int>, y: seq<int>)
    ensures UnitsLess(p + x, p + y) <==> UnitsLess(x, y)
    decreases |p|
  {
    if |p| > 0 {
      assert (p + x)[1..] == p[1..] + x && (p + y)[1..] == p[1..] + y;
      UnitsLessCommonPrefix(p[1..], x, y);
    } else {
      assert p + x == x && p + y == y;
    }
  }

  /** Two distinct characters are ordered by their code units exactly as by their rank. */
  lemma UnitsOrderOfChars(c: char, d: char, x: seq<int>, y: seq<int>)
    requires c != d
    ensures UnitsLess(Units(c) + x, Units(d) + y) <==> UnitRank(c) < UnitRank(d)
  {
    var p, q := Units(c), Units(d);
    if |p| == 2 && |q| == 2 && p[0] == q[0] {
      assert (p + x)[1..] == [p[1]] + x && (q + y)[1..] == [q[1]] + y;
    }
  }

  lemma {:induction false} LessIsCodeUnitOrder(a: string, b: string)
    ensures Less(a, b) <==> UnitsLess(Utf16(a), Utf16(b))
    decreases |a|
  {
    if |a| > 0 && |b| > 0 {
      if a[0] != b[0] {
        UnitsOrderOfChars(a[0], b[0], Utf16(a[1..]), Utf16(b[1..]));
      } else {
        UnitsLessCommonPrefix(Units(a[0]), Utf16(a[1..]), Utf16(b[1..]));
        LessIsCodeUnitOrder(a[1..], b[1..]);
      }
    }
  }

  // ---------------------------------------------------------------------------
  // Order laws on strings

  lemma {:induction false} LessIrreflexive(a: string)
    ensures !Less(a, a)
    decreases |a|
  {
    if |a| > 0 {
      LessIrreflexive(a[1..]);
    }
  }

  lemma {:induction false} LessAsymmetric(a: string, b: string)
    ensures Less(a, b) ==> !Less(b, a)
    decreases |a|
  {
    if |a| > 0 && |b| > 0 && a[0] == b[0] {
      LessAsymmetric(a[1..], b[1..]);
    }
  }

  /** Any two distinct strings are ordered one way or the other. */
  lemma {:induction false} LessTrichotomy(a: string, b: string)
    ensures a == b || Less(a, b) || Less(b, a)
    decreases |a|
  {
    if |a| > 0 && |b| > 0 && a[0] == b[0] {
      LessTrichotomy(a[1..], b[1..]);
      if a[1..] == b[1..] {
        assert a == [a[0]] + a[1..] && b == [b[0]] + b[1..];
      }
    }
  }

  lemma {:induction false} LessTransitive(a: string, b: string, c: string)
    ensures Less(a, b) && Less(b, c) ==> Less(a, c)
    decreases |a|
  {
    if |a| > 0 && |b| > 0 && |c| > 0 && a[0] == b[0] && b[0] == c[0] {
      LessTransitive(a[1..], b[1..], c[1..]);
    }
  }

  /**
   * An emoji (U+1F600) sorts before a fullwidth parenthesis (U+FF08), although
   * its scalar value is larger: its first code unit is the surrogate U+D83D.
   */
  lemma SupplementaryBeforeFullwidth()
    ensures '\U{FF08}' < '\U{1F600}'
    ensures Utf16("\U{1F600}")[0] == 0xD83D < 0xFF08 == Utf16("\U{FF08}")[0]
    ensures Less("\U{1F600}", "\U{FF08}") && !Less("\U{FF08}", "\U{1F600}")
  {
    assert Utf16("\U{1F600}")[0] == Units('\U{1F600}')[0];
    assert Utf16("\U{FF08}")[0] == Units('\U{FF08}')[0];
  }
}

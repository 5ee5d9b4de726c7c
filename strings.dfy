/**
 * The two string built-ins the core depends on: the default ordering used by
 * `Array.prototype.sort()` without a comparator, and `String.prototype.trim`.
 */
module Strings {

  /**
   * The UTF-16 code units of one character: the character itself below
   * U+10000, otherwise its surrogate pair.
   */
  function CharUnits(c: char): (u: seq<int>)
    ensures |u| == 1 || |u| == 2
  {
    var x := c as int;
    if x < 0x1_0000 then [x]
    else [0xD800 + (x - 0x1_0000) / 0x400, 0xDC00 + (x - 0x1_0000) % 0x400]
  }

  /** The UTF-16 encoding of a string: what JavaScript compares. */
  function CodeUnits(s: string): seq<int>
  {
    if |s| == 0 then [] else CharUnits(s[0]) + CodeUnits(s[1..])
  }

  /**
   * Strict lexicographic order on code-unit sequences, a proper prefix
   * sorting first. (Dafny's own `<` on sequences means proper prefix.)
   */
  predicate UnitsLess(a: seq<int>, b: seq<int>)
  {
    if |a| == 0 then |b| > 0
    else if |b| == 0 then false
    else if a[0] != b[0] then a[0] < b[0]
    else UnitsLess(a[1..], b[1..])
  }

  /** The order `Array.prototype.sort()` uses without a comparator: UTF-16 code units, compared one by one. */
  predicate LexLess(a: string, b: string)
  {
    UnitsLess(CodeUnits(a), CodeUnits(b))
  }

  lemma {:induction false} UnitsIrreflexive(a: seq<int>)
    ensures !UnitsLess(a, a)
  {
    if |a| > 0 {
      UnitsIrreflexive(a[1..]);
    }
  }

  lemma {:induction false} UnitsTransitive(a: seq<int>, b: seq<int>, c: seq<int>)
    requires UnitsLess(a, b) && UnitsLess(b, c)
    ensures UnitsLess(a, c)
  {
    if |a| > 0 && |b| > 0 && |c| > 0 && a[0] == b[0] && b[0] == c[0] {
      UnitsTransitive(a[1..], b[1..], c[1..]);
    }
  }

  lemma {:induction false} UnitsTotal(a: seq<int>, b: seq<int>)
    requires a != b
    ensures UnitsLess(a, b) || UnitsLess(b, a)
  {
    if |a| > 0 && |b| > 0 && a[0] == b[0] {
      assert a == [a[0]] + a[1..] && b == [b[0]] + b[1..];
      UnitsTotal(a[1..], b[1..]);
    }
  }

  /**
   * The first code unit tells a lone unit from a surrogate pair, so two
   * encodings that agree start with the same character.
   */
  lemma CharUnitsPrefixFree(c: char, d: char, s: seq<int>, t: seq<int>)
    requires CharUnits(c) + s == CharUnits(d) + t
    ensures c == d && s == t
  {
    var x, y := c as int, d as int;
    var u, w := CharUnits(c) + s, CharUnits(d) + t;
    assert u[0] == CharUnits(c)[0] && w[0] == CharUnits(d)[0];
    if x < 0x1_0000 && y < 0x1_0000 {
      assert x == y;
      assert s == u[1..] && t == w[1..];
    } else if x >= 0x1_0000 && y >= 0x1_0000 {
      assert u[1] == CharUnits(c)[1] && w[1] == CharUnits(d)[1];
      var q, r := (x - 0x1_0000) / 0x400, (x - 0x1_0000) % 0x400;
      assert x == 0x1_0000 + q * 0x400 + r;
      assert y == 0x1_0000 + q * 0x400 + r;
      assert s == u[2..] && t == w[2..];
    }
  }

  /** Different strings have different encodings. */
  lemma {:induction false} CodeUnitsInjective(a: string, b: string)
    requires CodeUnits(a) == CodeUnits(b)
    ensures a == b
  {
    if |a| > 0 && |b| > 0 {
      CharUnitsPrefixFree(a[0], b[0], CodeUnits(a[1..]), CodeUnits(b[1..]));
      CodeUnitsInjective(a[1..], b[1..]);
      assert a == [a[0]] + a[1..] && b == [b[0]] + b[1..];
    }
  }

  lemma LexIrreflexive(a: string)
    ensures !LexLess(a, a)
  {
    UnitsIrreflexive(CodeUnits(a));
  }

  lemma LexTransitive(a: string, b: string, c: string)
    requires LexLess(a, b) && LexLess(b, c)
    ensures LexLess(a, c)
  {
    UnitsTransitive(CodeUnits(a), CodeUnits(b), CodeUnits(c));
  }

  /** Any two different labels are ordered one way or the other. */
  lemma LexTotal(a: string, b: string)
    requires a != b
    ensures LexLess(a, b) || LexLess(b, a)
  {
    if CodeUnits(a) == CodeUnits(b) {
      CodeUnitsInjective(a, b);
    } else {
      UnitsTotal(CodeUnits(a), CodeUnits(b));
    }
  }

  /**
   * Code-unit order is not code-point order: U+1F600 is encoded from the high
   * surrogate 0xD83D, so it sorts before U+FF61 although its code point is larger.
   */
  lemma AstralSortsBeforeHighPlane()
    ensures LexLess("\U{1F600}", "\U{FF61}")
    ensures '\U{1F600}' as int > '\U{FF61}' as int
  {
    assert CharUnits('\U{1F600}') == [0xD83D, 0xDE00];
    assert CodeUnits("\U{1F600}") == [0xD83D, 0xDE00];
    assert CodeUnits("\U{FF61}") == [0xFF61];
  }

  /**
   * `labels.sort()[0]`: the label that an ascending sort puts first. Only the
   * first element of the sorted copy is ever used, so the sort is modelled by
   * the minimum it yields.
   */
  function LexMin(labels: seq<string>): string
    requires |labels| > 0
  {
    if |labels| == 1 then labels[0]
    else
      var rest := LexMin(labels[1..]);
      if LexLess(labels[0], rest) then labels[0] else rest
  }

  /** The label `LexMin` picks is one of the labels and sorts before every other one. */
  lemma {:induction false} LexMinIsLeast(labels: seq<string>)
    requires |labels| > 0
    ensures LexMin(labels) in labels
    ensures forall x :: x in labels && x != LexMin(labels) ==> LexLess(LexMin(labels), x)
  {
    if |labels| > 1 {
      var tail := labels[1..];
      LexMinIsLeast(tail);
      var rest := LexMin(tail);
      var m := LexMin(labels);
      forall x | x in labels && x != m
        ensures LexLess(m, x)
      {
        if LexLess(labels[0], rest) {
          assert x in tail;
          if x != rest {
            LexTransitive(labels[0], rest, x);
          }
        } else if x == labels[0] {
          LexTotal(labels[0], rest);
        } else {
          assert x in tail;
        }
      }
    }
  }

  /**
   * The characters `String.prototype.trim` removes: the ECMAScript WhiteSpace
   * code points (tab, vertical tab, form feed, space, no-break space, the
   * byte-order mark and the space separators) and the LineTerminator ones.
   */
  predicate IsSpace(c: char)
  {
    || ('\U{0009}' <= c <= '\U{000D}')
    || c == '\U{0020}' || c == '\U{00A0}' || c == '\U{1680}'
    || ('\U{2000}' <= c <= '\U{200A}')
    || c == '\U{2028}' || c == '\U{2029}' || c == '\U{202F}' || c == '\U{205F}'
    || c == '\U{3000}' || c == '\U{FEFF}'
  }

  function TrimStart(s: string): (r: string)
    ensures |r| <= |s| && r == s[|s| - |r|..]
    ensures forall k :: 0 <= k < |s| - |r| ==> IsSpace(s[k])
    ensures r == [] || !IsSpace(r[0])
  {
    if |s| > 0 && IsSpace(s[0]) then TrimStart(s[1..]) else s
  }

  function TrimEnd(s: string): (r: string)
    ensures |r| <= |s| && r == s[..|r|]
    ensures forall k :: |r| <= k < |s| ==> IsSpace(s[k])
    ensures r == [] || !IsSpace(r[|r| - 1])
  {
    if |s| > 0 && IsSpace(s[|s| - 1]) then TrimEnd(s[..|s| - 1]) else s
  }

  /** `s.trim()`: `s` without its leading and trailing white space. */
  function Trim(s: string): (r: string)
    ensures r == [] || (!IsSpace(r[0]) && !IsSpace(r[|r| - 1]))
    ensures (forall k :: 0 <= k < |s| ==> IsSpace(s[k])) <==> r == []
  {
    var t := TrimStart(s);
    assert t != [] ==> !IsSpace(s[|s| - |t|]);
    assert t != [] ==> TrimEnd(t) != [] && TrimEnd(t)[0] == t[0];
    TrimEnd(t)
  }
}

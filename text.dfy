/**
 * Text comparisons as the game database performs them: the BINARY collation
 * that `ORDER BY` and `=` use on text columns, and the pattern `LIKE '%q%'`,
 * which by default ignores the case of the 26 ASCII letters and nothing else.
 */
module Text {

  /** `a` sorts no later than `b`: code point by code point, a proper prefix first. */
  predicate LessEq(a: string, b: string)
  {
    a == [] || (b != [] && (a[0] < b[0] || (a[0] == b[0] && LessEq(a[1..], b[1..]))))
  }

  /** `a` sorts strictly before `b`. */
  predicate Less(a: string, b: string)
  {
    LessEq(a, b) && a != b
  }

  lemma {:induction false} LessEqReflexive(a: string)
    ensures LessEq(a, a)
  {
    if a != [] {
      LessEqReflexive(a[1..]);
    }
  }

  lemma {:induction false} LessEqTotal(a: string, b: string)
    ensures LessEq(a, b) || LessEq(b, a)
  {
    if a != [] && b != [] && a[0] == b[0] {
      LessEqTotal(a[1..], b[1..]);
    }
  }

  lemma {:induction false} LessEqAntisymmetric(a: string, b: string)
    requires LessEq(a, b) && LessEq(b, a)
    ensures a == b
  {
    if a != [] && b != [] {
      LessEqAntisymmetric(a[1..], b[1..]);
      assert a == [a[0]] + a[1..] && b == [b[0]] + b[1..];
    }
  }

  lemma {:induction false} LessEqTransitive(a: string, b: string, c: string)
    requires LessEq(a, b) && LessEq(b, c)
    ensures LessEq(a, c)
  {
    if a != [] && b != [] && c != [] && a[0] == b[0] && b[0] == c[0] {
      LessEqTransitive(a[1..], b[1..], c[1..]);
    }
  }

  /** The case folding of `LIKE`: only 'A'..'Z' are mapped, to 'a'..'z'. */
  function FoldChar(c: char): char
  {
    if 'A' <= c <= 'Z' then (c as int + 32) as char else c
  }

  function Fold(s: string): (r: string)
    ensures |r| == |s|
    ensures forall i :: 0 <= i < |s| ==> r[i] == FoldChar(s[i])
  {
    seq(|s|, i requires 0 <= i < |s| => FoldChar(s[i]))
  }

  /** `s LIKE '%q%'` for a `q` free of the wildcards `%` and `_`: some stretch
      of `s` equals `q` once both are case-folded. */
  ghost predicate Like(s: string, q: string)
  {
    exists i, j :: 0 <= i <= j <= |s| && Fold(s)[i..j] == Fold(q)
  }

  /** `q` contains neither of LIKE's wildcards, so it matches only itself. */
  predicate NoWildcards(q: string)
  {
    '%' !in q && '_' !in q
  }

  /** `p` occurs somewhere in `s`, tried from the left. */
  function Occurs(s: string, p: string): (b: bool)
    ensures b <==> exists i, j :: 0 <= i <= j <= |s| && s[i..j] == p
    decreases |s|
  {
    if |p| <= |s| && s[..|p|] == p then
      assert s[0..|p|] == p;
      true
    else if s == [] then
      false
    else
      OccursShift(s, p);
      Occurs(s[1..], p)
  }

  /** Past the first position, the occurrences of `p` in `s` are those in `s[1..]`. */
  lemma OccursShift(s: string, p: string)
    requires s != [] && !(|p| <= |s| && s[..|p|] == p)
    ensures (exists i, j :: 0 <= i <= j <= |s| && s[i..j] == p)
        <==> (exists i, j :: 0 <= i <= j <= |s[1..]| && s[1..][i..j] == p)
  {
    forall i, j | 0 <= i <= j <= |s| && s[i..j] == p
      ensures 0 <= i - 1 <= j - 1 <= |s[1..]| && s[1..][i - 1..j - 1] == p
    {
    }
    forall i, j | 0 <= i <= j <= |s[1..]| && s[1..][i..j] == p
      ensures 0 <= i + 1 <= j + 1 <= |s| && s[i + 1..j + 1] == p
    {
      assert s[1..][i..j] == s[i + 1..j + 1];
    }
  }

  /** The test `column LIKE '%q%'` performs. */
  function LikeContains(s: string, q: string): (b: bool)
    ensures b <==> Like(s, q)
  {
    Occurs(Fold(s), Fold(q))
  }

  /** The pattern `'%%'`, built from an empty query, matches every value. */
  lemma LikeEmpty(s: string)
    ensures LikeContains(s, "")
  {
    assert Fold(s)[0..0] == Fold("");
  }
}

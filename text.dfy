/** The two operations on text columns the repositories' statements use:
    `LIKE '%v%'` (SQLite's default, case-insensitive for ASCII letters only)
    and `ORDER BY` under the default BINARY collation (code-point order). */
module Text {

  /** `sub` occurs in `s` starting at position `i`. */
  predicate OccursAt(s: string, sub: string, i: int) {
    0 <= i <= |s| - |sub| && s[i..i + |sub|] == sub
  }

  /** `sub` occurs in `s` as a contiguous piece. */
  predicate Contains(s: string, sub: string) {
    exists i :: 0 <= i <= |s| && OccursAt(s, sub, i)
  }

  /** The characters LIKE treats as wildcards inside a pattern. */
  predicate NoWildcards(v: string) {
    '%' !in v && '_' !in v
  }

  /** The ASCII lower-case of one character; every other character is kept. */
  function LowerAscii(c: char): (d: char)
    ensures 'A' <= c <= 'Z' ==> 'a' <= d <= 'z' && d as int - c as int == 32
    ensures !('A' <= c <= 'Z') ==> d == c
  {
    if 'A' <= c <= 'Z' then (c as int + 32) as char else c
  }

  /** The ASCII lower-case of a string, character by character. */
  function FoldAscii(s: string): (r: string)
    ensures |r| == |s|
    ensures forall i :: 0 <= i < |s| ==> r[i] == LowerAscii(s[i])
  {
    seq(|s|, i requires 0 <= i < |s| => LowerAscii(s[i]))
  }

  /** An occurrence survives folding both strings. */
  lemma FoldKeepsOccurrence(s: string, v: string, i: int)
    requires OccursAt(s, v, i)
    ensures OccursAt(FoldAscii(s), FoldAscii(v), i)
  {
    var fs, fv := FoldAscii(s), FoldAscii(v);
    forall k | 0 <= k < |v| ensures fs[i..i + |v|][k] == fv[k] {
      assert s[i..i + |v|][k] == s[i + k];
    }
  }

  /** Containment survives folding both strings. */
  lemma FoldKeepsContainment(s: string, v: string)
    ensures Contains(s, v) ==> Contains(FoldAscii(s), FoldAscii(v))
  {
    if Contains(s, v) {
      var i :| 0 <= i <= |s| && OccursAt(s, v, i);
      FoldKeepsOccurrence(s, v, i);
    }
  }

  /** `s LIKE '%' || v || '%'` for a pattern body `v` without wildcards:
      `v` occurs in `s` when ASCII letters are compared without case. An
      exact occurrence is a match, and a match needs a term no longer than
      the text. */
  predicate Like(s: string, v: string)
    requires NoWildcards(v)
    ensures Contains(s, v) ==> Like(s, v)
    ensures Like(s, v) ==> |v| <= |s|
  {
    FoldKeepsContainment(s, v);
    Contains(FoldAscii(s), FoldAscii(v))
  }

  /** Folding commutes with concatenation. */
  lemma FoldConcat(a: string, b: string)
    ensures FoldAscii(a + b) == FoldAscii(a) + FoldAscii(b)
  {
    var l, r := FoldAscii(a + b), FoldAscii(a) + FoldAscii(b);
    forall i | 0 <= i < |l| ensures l[i] == r[i] {
      if i < |a| { assert (a + b)[i] == a[i]; } else { assert (a + b)[i] == b[i - |a|]; }
    }
  }

  /** The empty pattern body matches every string (`LIKE '%%'`). */
  lemma LikeEmpty(s: string)
    ensures Like(s, "")
  {
    assert OccursAt(FoldAscii(s), FoldAscii(""), 0);
  }

  /** Folding twice folds no further: a folded string holds no ASCII capital. */
  lemma FoldIdempotent(s: string)
    ensures FoldAscii(FoldAscii(s)) == FoldAscii(s)
  {
    var f := FoldAscii(s);
    forall i | 0 <= i < |s| ensures FoldAscii(f)[i] == f[i] {
      assert !('A' <= f[i] <= 'Z');
    }
  }

  /** LIKE ignores the case of ASCII letters on both sides: folding the term
      or the text does not change the verdict, and folding keeps a term free
      of wildcards. */
  lemma LikeIgnoresAsciiCase(s: string, v: string)
    requires NoWildcards(v)
    ensures NoWildcards(FoldAscii(v))
    ensures Like(s, v) <==> Like(s, FoldAscii(v))
    ensures Like(s, v) <==> Like(FoldAscii(s), v)
  {
    var fv := FoldAscii(v);
    forall i | 0 <= i < |v| ensures fv[i] != '%' && fv[i] != '_' {
      assert v[i] in v;
    }
    FoldIdempotent(s);
    FoldIdempotent(v);
  }

  /** A string equal to the wrapped pattern `'%' + v + '%'` matches `v`:
      the wrapped string contains `v` at position 1. */
  lemma WrappedPatternMatches(v: string)
    requires NoWildcards(v)
    ensures Like("%" + v + "%", v)
  {
    FoldConcat("%", v + "%");
    FoldConcat(v, "%");
    assert "%" + v + "%" == "%" + (v + "%");
    var f := FoldAscii("%" + v + "%");
    assert f == FoldAscii("%") + (FoldAscii(v) + FoldAscii("%"));
    assert f[1..1 + |v|] == FoldAscii(v);
    assert OccursAt(f, FoldAscii(v), 1);
  }

  /** `a <= b` under the BINARY collation: lexicographic by code point, a
      proper prefix first. */
  predicate TextLe(a: string, b: string)
    ensures a <= b ==> TextLe(a, b)
    ensures b < a ==> !TextLe(a, b)
    decreases |a|
  {
    if a == [] then true
    else if b == [] then false
    else if a[0] != b[0] then a[0] < b[0]
    else
      assert a <= b ==> a[1..] <= b[1..];
      assert b < a ==> b[1..] < a[1..];
      TextLe(a[1..], b[1..])
  }

  /** Any two strings are ordered one way or the other. */
  lemma {:induction false} TextLeTotal(a: string, b: string)
    ensures TextLe(a, b) || TextLe(b, a)
    decreases |a|
  {
    if a != [] && b != [] && a[0] == b[0] {
      TextLeTotal(a[1..], b[1..]);
    }
  }

  /** The order is transitive. */
  lemma {:induction false} TextLeTransitive(a: string, b: string, c: string)
    requires TextLe(a, b) && TextLe(b, c)
    ensures TextLe(a, c)
    decreases |a|
  {
    if a != [] && b != [] && c != [] && a[0] == b[0] && b[0] == c[0] {
      TextLeTransitive(a[1..], b[1..], c[1..]);
    }
  }
}

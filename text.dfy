/** The Python `str` operations the reference detector relies on: substring
    containment (`in`), ASCII lower-casing (`lower()`), `replace(" ", "+")`
    and `rsplit('/', 1)[-1]`. */
module Text {

  /** Python's `p in s` on strings: `p` occurs as a contiguous piece of `s`. */
  predicate Occurs(p: string, s: string)
  {
    exists i | 0 <= i <= |s| :: p <= s[i..]
  }

  lemma OccursAt(p: string, s: string, i: nat)
    requires i + |p| <= |s| && s[i..i + |p|] == p
    ensures Occurs(p, s)
  {
    assert p <= s[i..];
  }

  /** A piece is never longer than the string it occurs in. */
  lemma OccursLength(p: string, s: string)
    requires Occurs(p, s)
    ensures |p| <= |s|
  {
    var i :| 0 <= i <= |s| && p <= s[i..];
  }

  /** The only string that occurs in the empty string is the empty string. */
  lemma OccursInEmpty(p: string)
    ensures Occurs(p, "") <==> p == ""
  {
    if p == "" {
      assert p <= ""[0..];
    } else if Occurs(p, "") {
      OccursLength(p, "");
    }
  }

  /** Containment is transitive: a piece of a piece is a piece. */
  lemma OccursTransitive(a: string, b: string, c: string)
    requires Occurs(a, b) && Occurs(b, c)
    ensures Occurs(a, c)
  {
    var i :| 0 <= i <= |b| && a <= b[i..];
    var j :| 0 <= j <= |c| && b <= c[j..];
    assert j + i + |a| <= |c|;
    forall k | 0 <= k < |a|
      ensures c[j + i + k] == a[k]
    {
      assert a[k] == b[i + k];
      assert b[i + k] == c[j + i + k];
    }
    assert c[j + i..j + i + |a|] == a;
    OccursAt(a, c, j + i);
  }

  /** A string occurs in anything built around it. */
  lemma OccursInside(p: string, before: string, after: string)
    ensures Occurs(p, before + p + after)
  {
    var s := before + p + after;
    assert s[|before|..|before| + |p|] == p;
    OccursAt(p, s, |before|);
  }

  /** ASCII lower-casing of one character (Python's `lower()` restricted to ASCII). */
  function LowerChar(c: char): (d: char)
    ensures 'A' <= c <= 'Z' ==> d as int == c as int + 32
    ensures !('A' <= c <= 'Z') ==> d == c
    ensures !('A' <= d <= 'Z')
  {
    if 'A' <= c <= 'Z' then (c as int + 32) as char else c
  }

  /** ASCII lower-casing of a string, character by character. */
  function Lower(s: string): (r: string)
    ensures |r| == |s|
    ensures forall i :: 0 <= i < |s| ==> r[i] == LowerChar(s[i])
  {
    seq(|s|, i requires 0 <= i < |s| => LowerChar(s[i]))
  }

  /** Lower-casing twice is lower-casing once. */
  lemma LowerIdempotent(s: string)
    ensures Lower(Lower(s)) == Lower(s)
  {
  }

  /** Lower-casing commutes with containment: a piece of `s` lower-cases to a
      piece of the lower-cased `s`. */
  lemma LowerOccurs(p: string, s: string)
    requires Occurs(p, s)
    ensures Occurs(Lower(p), Lower(s))
  {
    var i :| 0 <= i <= |s| && p <= s[i..];
    var ls := Lower(s);
    assert ls[i..i + |p|] == Lower(p);
    OccursAt(Lower(p), ls, i);
  }

  /** Python's `s.replace(" ", "+")`. */
  function SpacesToPlus(s: string): (r: string)
    ensures |r| == |s|
    ensures forall i :: 0 <= i < |s| ==> r[i] == (if s[i] == ' ' then '+' else s[i])
  {
    seq(|s|, i requires 0 <= i < |s| => if s[i] == ' ' then '+' else s[i])
  }

  /** Python's `s.rsplit('/', 1)[-1]`: everything after the last `/`, or the
      whole string when it has none. */
  function AfterLastSlash(s: string): (r: string)
    ensures |r| <= |s| && r == s[|s| - |r|..]
    ensures '/' !in r
    ensures |r| < |s| ==> s[|s| - |r| - 1] == '/'
  {
    if s == [] then []
    else if s[|s| - 1] == '/' then []
    else AfterLastSlash(s[..|s| - 1]) + [s[|s| - 1]]
  }
}

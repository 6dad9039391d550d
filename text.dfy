/**
 * The string tests the pipeline relies on: Python's `str.upper`, the `in`
 * operator on strings (and pandas `str.contains` with an all-letter pattern,
 * which is the same test) and `str.endswith`.
 */
module Text {

  /** Upper-casing of one character; only the ASCII letters a-z change. */
  function UpperChar(c: char): (u: char)
    ensures 'a' <= c <= 'z' ==> 'A' <= u <= 'Z' && u as int == c as int - 32
    ensures !('a' <= c <= 'z') ==> u == c
  {
    if 'a' <= c <= 'z' then (c as int - 32) as char else c
  }

  function Upper(s: string): (u: string)
    ensures |u| == |s|
    ensures forall i | 0 <= i < |s| :: u[i] == UpperChar(s[i])
  {
    seq(|s|, i requires 0 <= i < |s| => UpperChar(s[i]))
  }

  /** Upper-casing leaves no ASCII lower-case letter and is idempotent. */
  lemma UpperIsUpper(s: string)
    ensures forall i | 0 <= i < |Upper(s)| :: !('a' <= Upper(s)[i] <= 'z')
    ensures Upper(Upper(s)) == Upper(s)
  {
    var u := Upper(s);
    forall i | 0 <= i < |u| ensures Upper(u)[i] == u[i] {
      assert u[i] == UpperChar(s[i]);
    }
  }

  /** `p in s`: p occurs in s as a contiguous substring (the empty string occurs everywhere). */
  predicate Contains(s: string, p: string)
    decreases |s|
  {
    p <= s || (|s| > 0 && Contains(s[1..], p))
  }

  /** `s.endswith(suffix)` */
  predicate EndsWith(s: string, suffix: string)
  {
    |suffix| <= |s| && s[|s| - |suffix|..] == suffix
  }

  /** The positional reading of substring containment, independent of the recursion in Contains. */
  predicate OccursAt(s: string, p: string, i: int)
  {
    0 <= i && i + |p| <= |s| && s[i..i + |p|] == p
  }

  /** Every containment has a position. */
  lemma {:induction false} ContainsPosition(s: string, p: string) returns (i: nat)
    requires Contains(s, p)
    ensures OccursAt(s, p, i)
    decreases |s|
  {
    if p <= s {
      i := 0;
    } else {
      var k := ContainsPosition(s[1..], p);
      assert s[k + 1..k + 1 + |p|] == s[1..][k..k + |p|];
      i := k + 1;
    }
  }

  /** Every position is a containment. */
  lemma {:induction false} OccursContains(s: string, p: string, i: int)
    requires OccursAt(s, p, i)
    ensures Contains(s, p)
    decreases |s|
  {
    if i > 0 {
      assert s[1..][i - 1..i - 1 + |p|] == s[i..i + |p|];
      OccursContains(s[1..], p, i - 1);
    } else {
      assert p <= s;
    }
  }

  /** Containment is transitive: whatever occurs in q occurs in every string q occurs in. */
  lemma ContainsTransitive(s: string, q: string, p: string)
    requires Contains(s, q) && Contains(q, p)
    ensures Contains(s, p)
  {
    var i := ContainsPosition(s, q);
    var j := ContainsPosition(q, p);
    forall k | 0 <= k < |p| ensures s[i + j + k] == p[k] {
      assert s[i + j + k] == s[i..i + |q|][j + k] == q[j + k];
    }
    assert s[i + j..i + j + |p|] == p;
    OccursContains(s, p, i + j);
  }

  /** A string that sits at no position is not contained. */
  lemma NoPositionNoContainment(s: string, p: string)
    requires forall i :: !OccursAt(s, p, i)
    ensures !Contains(s, p)
  {
    if Contains(s, p) {
      var i := ContainsPosition(s, p);
    }
  }
}

/** The string test behind `Series.str.contains(pattern, case=False)`, for ASCII text. */
module Text {

  /** ASCII lower-casing of one character. */
  function LowerChar(c: char): char {
    if 'A' <= c <= 'Z' then (c as int + 32) as char else c
  }

  /** ASCII lower-casing of a string, character by character. */
  function Lower(s: string): (t: string)
    ensures |t| == |s|
  {
    seq(|s|, i requires 0 <= i < |s| => LowerChar(s[i]))
  }

  /** p occurs in s starting at position i. */
  predicate OccursAt(s: string, p: string, i: int) {
    0 <= i && i + |p| <= |s| && s[i..i + |p|] == p
  }

  /** Substring search: does p occur anywhere in s? */
  function Contains(s: string, p: string): (b: bool)
    ensures b <==> exists i :: OccursAt(s, p, i)
    decreases |s|
  {
    if |p| <= |s| && s[..|p|] == p then
      assert OccursAt(s, p, 0);
      true
    else if |s| == 0 then
      assert forall i :: !OccursAt(s, p, i);
      false
    else
      OccursInTail(s, p);
      Contains(s[1..], p)
  }

  /** When p is not a prefix of s, p occurs in s exactly when it occurs in s[1..]. */
  lemma OccursInTail(s: string, p: string)
    requires |s| > 0
    requires !(|p| <= |s| && s[..|p|] == p)
    ensures (exists i :: OccursAt(s, p, i)) <==> (exists i :: OccursAt(s[1..], p, i))
  {
    forall i | OccursAt(s, p, i)
      ensures OccursAt(s[1..], p, i - 1)
    {
      assert i != 0;
      assert s[1..][i - 1..i - 1 + |p|] == s[i..i + |p|];
    }
    forall i | OccursAt(s[1..], p, i)
      ensures OccursAt(s, p, i + 1)
    {
      assert s[1..][i..i + |p|] == s[i + 1..i + 1 + |p|];
    }
  }

  /** p occurs in s at position i when both are compared without regard to ASCII case. */
  predicate OccursAtIgnoringCase(s: string, p: string, i: int) {
    0 <= i && i + |p| <= |s| && forall j :: 0 <= j < |p| ==> LowerChar(s[i + j]) == LowerChar(p[j])
  }

  /** Case-insensitive containment: lower-case both strings, then search. */
  function ContainsIgnoringCase(s: string, p: string): (b: bool)
    ensures b <==> exists i :: OccursAtIgnoringCase(s, p, i)
  {
    FoldedOccurrence(s, p);
    Contains(Lower(s), Lower(p))
  }

  /** An occurrence in the lower-cased strings is a case-blind occurrence in the originals. */
  lemma FoldedOccurrence(s: string, p: string)
    ensures forall i :: OccursAt(Lower(s), Lower(p), i) <==> OccursAtIgnoringCase(s, p, i)
  {
    forall i | OccursAt(Lower(s), Lower(p), i)
      ensures OccursAtIgnoringCase(s, p, i)
    {
      forall j | 0 <= j < |p|
        ensures LowerChar(s[i + j]) == LowerChar(p[j])
      {
        assert Lower(s)[i..i + |p|][j] == Lower(p)[j];
      }
    }
    forall i | OccursAtIgnoringCase(s, p, i)
      ensures OccursAt(Lower(s), Lower(p), i)
    {
      assert Lower(s)[i..i + |p|] == Lower(p);
    }
  }
}

/**
 * Character-level helpers behind the repository's case-insensitive substring search.
 * Case folding is ASCII only: letters 'A'..'Z' become 'a'..'z', every other character is kept.
 */
module Text {

  /** ASCII lower-casing of one character. */
  function LowerChar(c: char): (r: char)
    ensures !('A' <= r <= 'Z')
    ensures 'a' <= r <= 'z' ==> 'a' <= c <= 'z' || 'A' <= c <= 'Z'
  {
    if 'A' <= c <= 'Z' then (c as int + 32) as char else c
  }

  /** Lower-casing of a string, character by character. */
  function Lower(s: string): (r: string)
    ensures |r| == |s|
  {
    seq(|s|, i requires 0 <= i < |s| => LowerChar(s[i]))
  }

  /** An ASCII letter, upper or lower case. */
  predicate IsLetter(c: char) {
    'A' <= c <= 'Z' || 'a' <= c <= 'z'
  }

  /** The same character, or the upper- and lower-case forms of one letter (32 apart in ASCII). */
  predicate SameLetterIgnoringCase(c: char, d: char) {
    c == d || (IsLetter(c) && IsLetter(d) && (c as int - d as int == 32 || d as int - c as int == 32))
  }

  /** Two strings of the same length that differ at most in the case of letters. */
  predicate SameIgnoringCase(s: string, t: string) {
    |s| == |t| && forall i | 0 <= i < |s| :: SameLetterIgnoringCase(s[i], t[i])
  }

  /** Lower-casing identifies exactly the strings that differ at most in the case of letters. */
  lemma LowerOfSameIgnoringCase(s: string, t: string)
    ensures SameIgnoringCase(s, t) <==> Lower(s) == Lower(t)
  {
    if SameIgnoringCase(s, t) {
      assert forall i | 0 <= i < |s| :: Lower(s)[i] == Lower(t)[i];
    }
    if Lower(s) == Lower(t) {
      forall i | 0 <= i < |s| ensures SameLetterIgnoringCase(s[i], t[i]) {
        assert Lower(s)[i] == Lower(t)[i];
      }
    }
  }

  predicate IsPrefix(p: string, s: string) {
    |p| <= |s| && s[..|p|] == p
  }

  /** Whether sub occurs in s as a contiguous run of characters (the empty string occurs everywhere). */
  predicate Contains(s: string, sub: string)
    decreases |s|
  {
    IsPrefix(sub, s) || (|s| > 0 && Contains(s[1..], sub))
  }

  /** Reference definition of an occurrence: sub starts at index i of s. */
  ghost predicate OccursAt(s: string, sub: string, i: int) {
    0 <= i && i + |sub| <= |s| && s[i..i + |sub|] == sub
  }

  lemma {:induction false} ContainsHasOccurrence(s: string, sub: string) returns (i: int)
    requires Contains(s, sub)
    ensures OccursAt(s, sub, i)
    decreases |s|
  {
    if IsPrefix(sub, s) {
      i := 0;
    } else {
      var j := ContainsHasOccurrence(s[1..], sub);
      assert s[1..][j..j + |sub|] == s[j + 1..j + 1 + |sub|];
      i := j + 1;
    }
  }

  lemma {:induction false} OccurrenceIsContained(s: string, sub: string, i: int)
    requires OccursAt(s, sub, i)
    ensures Contains(s, sub)
    decreases i
  {
    if i > 0 {
      assert s[1..][i - 1..i - 1 + |sub|] == s[i..i + |sub|];
      OccurrenceIsContained(s[1..], sub, i - 1);
    }
  }

  /** Contains agrees with the index-based reference definition, in both directions. */
  lemma ContainsIffOccurs(s: string, sub: string)
    ensures Contains(s, sub) <==> exists i :: OccursAt(s, sub, i)
  {
    if Contains(s, sub) {
      var i := ContainsHasOccurrence(s, sub);
    }
    forall i | OccursAt(s, sub, i) ensures Contains(s, sub) {
      OccurrenceIsContained(s, sub, i);
    }
  }

  /** Every character of a contained string occurs in the containing one. */
  lemma ContainedCharsOccur(s: string, sub: string)
    requires Contains(s, sub)
    ensures forall k | 0 <= k < |sub| :: sub[k] in s
  {
    var i := ContainsHasOccurrence(s, sub);
    forall k | 0 <= k < |sub| ensures sub[k] in s {
      assert s[i..i + |sub|][k] == s[i + k];
    }
  }

  /** The empty string is contained in every string. */
  lemma ContainsEmpty(s: string)
    ensures Contains(s, "")
  {
  }

  /** A substring of a substring is a substring. */
  lemma ContainsTransitive(a: string, b: string, c: string)
    requires Contains(a, b) && Contains(b, c)
    ensures Contains(a, c)
  {
    var i := ContainsHasOccurrence(a, b);
    var j := ContainsHasOccurrence(b, c);
    var inA, inB := a[i + j..i + j + |c|], b[j..j + |c|];
    assert inA == inB by {
      assert a[i..i + |b|] == b;
      forall k | 0 <= k < |c| ensures inA[k] == inB[k] {
        assert a[i..i + |b|][j + k] == a[i + j + k];
      }
    }
    OccurrenceIsContained(a, c, i + j);
  }

  /** Lower-casing keeps every occurrence in place. */
  lemma LowerKeepsContains(s: string, sub: string)
    requires Contains(s, sub)
    ensures Contains(Lower(s), Lower(sub))
  {
    var i := ContainsHasOccurrence(s, sub);
    assert Lower(s)[i..i + |sub|] == Lower(sub) by {
      forall k | 0 <= k < |sub| ensures Lower(s)[i..i + |sub|][k] == Lower(sub)[k] {
        assert s[i..i + |sub|][k] == s[i + k];
      }
    }
    OccurrenceIsContained(Lower(s), Lower(sub), i);
  }
}

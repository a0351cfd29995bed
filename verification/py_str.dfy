/** Python's `str.replace(old, new)` (no count argument) on strings. */
module PyStr {

  /** `pat` occurs in `s` starting at index `i`. */
  predicate OccursAt(s: string, pat: string, i: nat) {
    i + |pat| <= |s| && s[i..i + |pat|] == pat
  }

  /** `pat in s`, Python's substring test. */
  predicate Contains(s: string, pat: string) {
    exists i: nat | i <= |s| :: OccursAt(s, pat, i)
  }

  /** With an empty pattern Python inserts `rep` before every character and at the end. */
  function InsertEverywhere(s: string, rep: string): string
    decreases |s|
  {
    if |s| == 0 then rep else rep + [s[0]] + InsertEverywhere(s[1..], rep)
  }

  /** `s.replace(pat, rep)`: scan left to right; at each position where `pat`
      starts, emit `rep` and skip past the match; the output is never rescanned. */
  function Replace(s: string, pat: string, rep: string): string
    decreases |s|
  {
    if |pat| == 0 then InsertEverywhere(s, rep)
    else if |s| == 0 then ""
    else if OccursAt(s, pat, 0) then rep + Replace(s[|pat|..], pat, rep)
    else [s[0]] + Replace(s[1..], pat, rep)
  }

  /** Number of matches `Replace` substitutes: non-overlapping, left to right. */
  function Count(s: string, pat: string): nat
    requires |pat| > 0
    decreases |s|
  {
    if |s| == 0 then 0
    else if OccursAt(s, pat, 0) then 1 + Count(s[|pat|..], pat)
    else Count(s[1..], pat)
  }

  lemma OccursInTail(s: string, pat: string, i: nat)
    requires |s| > 0
    requires OccursAt(s[1..], pat, i)
    ensures OccursAt(s, pat, i + 1)
  {
    assert s[1..][i..i + |pat|] == s[i + 1..i + 1 + |pat|];
  }

  lemma MulSucc(c: int, d: int)
    ensures (1 + c) * d == d + c * d
  {
  }

  lemma MulNeg(c: int, n: int)
    ensures c * (0 - n) == -(c * n)
  {
  }

  /** Each substitution removes `|pat|` characters and inserts `|rep|`. */
  lemma {:induction false} ReplaceLength(s: string, pat: string, rep: string)
    requires |pat| > 0
    ensures |Replace(s, pat, rep)| == |s| + Count(s, pat) * (|rep| - |pat|)
    decreases |s|
  {
    if |s| == 0 {
    } else if OccursAt(s, pat, 0) {
      var rest := s[|pat|..];
      ReplaceLength(rest, pat, rep);
      var c, d := Count(rest, pat), |rep| - |pat|;
      assert |Replace(s, pat, rep)| == |rep| + |Replace(rest, pat, rep)|;
      assert Count(s, pat) == 1 + c;
      MulSucc(c, d);
    } else {
      ReplaceLength(s[1..], pat, rep);
      assert |Replace(s, pat, rep)| == 1 + |Replace(s[1..], pat, rep)|;
    }
  }

  /** Replace makes at least one substitution exactly when the pattern occurs. */
  lemma {:induction false} CountPositiveIffContains(s: string, pat: string)
    requires |pat| > 0
    ensures Count(s, pat) > 0 <==> Contains(s, pat)
    decreases |s|
  {
    if |s| == 0 {
      assert !OccursAt(s, pat, 0);
    } else if !OccursAt(s, pat, 0) {
      CountPositiveIffContains(s[1..], pat);
      ContainsTail(s, pat);
    }
  }

  /** A string in which the pattern never occurs comes back unchanged. */
  lemma {:induction false} ReplaceAbsent(s: string, pat: string, rep: string)
    requires |pat| > 0
    requires !Contains(s, pat)
    ensures Replace(s, pat, rep) == s
    decreases |s|
  {
    if |s| > 0 {
      assert !OccursAt(s, pat, 0);
      ContainsTail(s, pat);
      ReplaceAbsent(s[1..], pat, rep);
      assert s == [s[0]] + s[1..];
    }
  }

  /** A string shorter than the pattern cannot contain it. */
  lemma ShortDoesNotContain(s: string, pat: string)
    requires |s| < |pat|
    ensures !Contains(s, pat)
  {
  }

  /** Deleting a pattern that heads the string, then a tail free of it, yields the tail. */
  lemma StripLeadingOccurrence(pat: string, t: string)
    requires |pat| > 0
    requires !Contains(t, pat)
    ensures Replace(pat + t, pat, "") == t
  {
    var s := pat + t;
    assert OccursAt(s, pat, 0);
    assert s[|pat|..] == t;
    ReplaceAbsent(t, pat, "");
  }

  /** Replacing one character by one character is a pointwise map. */
  lemma {:induction false} ReplaceCharPointwise(s: string, a: char, b: char)
    ensures |Replace(s, [a], [b])| == |s|
    ensures forall i :: 0 <= i < |s| ==>
              Replace(s, [a], [b])[i] == (if s[i] == a then b else s[i])
    decreases |s|
  {
    if |s| > 0 {
      ReplaceCharPointwise(s[1..], a, b);
      var r := Replace(s, [a], [b]);
      var tail := Replace(s[1..], [a], [b]);
      assert OccursAt(s, [a], 0) <==> s[0] == a by {
        assert s[0..1] == [s[0]];
      }
      assert r == [if s[0] == a then b else s[0]] + tail;
      forall i | 0 <= i < |s|
        ensures r[i] == (if s[i] == a then b else s[i])
      {
        if i > 0 {
          assert r[i] == tail[i - 1];
          assert s[i] == s[1..][i - 1];
        }
      }
    }
  }

  /** Replacing one character by another yields exactly the pointwise image. */
  lemma ReplaceCharIs(s: string, a: char, b: char, t: string)
    requires |s| == |t|
    requires forall i :: 0 <= i < |s| ==> t[i] == (if s[i] == a then b else s[i])
    ensures Replace(s, [a], [b]) == t
  {
    ReplaceCharPointwise(s, a, b);
  }

  /** A one-character pattern does not occur in a string without that character. */
  lemma CharNotContained(s: string, c: char)
    requires c !in s
    ensures !Contains(s, [c])
  {
    forall i: nat | i <= |s| && i + 1 <= |s|
      ensures !OccursAt(s, [c], i)
    {
      assert s[i..i + 1] == [s[i]];
    }
  }

  /** Deleting every match shortens the string by exactly the matched
      characters, and some match is deleted iff the pattern occurs. */
  lemma DeleteLength(s: string, pat: string)
    requires |pat| > 0
    ensures |Replace(s, pat, "")| + Count(s, pat) * |pat| == |s|
    ensures Count(s, pat) > 0 <==> Contains(s, pat)
  {
    ReplaceLength(s, pat, "");
    CountPositiveIffContains(s, pat);
    MulNeg(Count(s, pat), |pat|);
  }

  /** An occurrence not at the head is an occurrence in the tail. */
  lemma ContainsTail(s: string, pat: string)
    requires |s| > 0
    requires !OccursAt(s, pat, 0)
    ensures Contains(s, pat) <==> Contains(s[1..], pat)
  {
    if Contains(s[1..], pat) {
      var i: nat :| i <= |s[1..]| && OccursAt(s[1..], pat, i);
      OccursInTail(s, pat, i);
    }
    if Contains(s, pat) {
      var i: nat :| i <= |s| && OccursAt(s, pat, i);
      assert OccursAt(s[1..], pat, i - 1) by {
        assert s[1..][i - 1..i - 1 + |pat|] == s[i..i + |pat|];
      }
    }
  }

  /** Deleting every match shrinks the string exactly when the pattern occurs. */
  lemma {:induction false} DeleteShrinks(s: string, pat: string)
    requires |pat| > 0
    ensures |Replace(s, pat, "")| <= |s|
    ensures |Replace(s, pat, "")| < |s| <==> Contains(s, pat)
    decreases |s|
  {
    if |s| == 0 {
      assert !OccursAt(s, pat, 0);
    } else if OccursAt(s, pat, 0) {
      DeleteShrinks(s[|pat|..], pat);
    } else {
      DeleteShrinks(s[1..], pat);
      ContainsTail(s, pat);
    }
  }
}

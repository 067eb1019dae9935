/**
 Substring search over strings: the `includes`, `endsWith` and `indexOf`
 operations of JavaScript strings, with the facts about occurrences that the
 replacement proofs rely on.
 */
module Text {
  import opened Wrappers

  /** `pat` occurs in `s` starting at index `i`. */
  predicate OccursAt(s: string, pat: string, i: int) {
    0 <= i && i + |pat| <= |s| && s[i..i + |pat|] == pat
  }

  /** A non-empty slice is its first character followed by the rest. */
  lemma SliceHead(s: string, i: nat, next: nat, j: nat)
    requires i < j <= |s| && next == i + 1
    ensures s[i..j] == [s[i]] + s[next..j]
    ensures j == |s| ==> s[i..] == [s[i]] + s[next..]
  {
  }

  /** `s.includes(pat)`. */
  predicate Contains(s: string, pat: string) {
    exists i | 0 <= i <= |s| :: OccursAt(s, pat, i)
  }

  /** `s.endsWith(suffix)`. */
  predicate EndsWith(s: string, suffix: string) {
    |suffix| <= |s| && s[|s| - |suffix|..] == suffix
  }

  /** `s.indexOf(pat, from)`: the first occurrence at or after `from`, `None` for -1. */
  function IndexOf(s: string, pat: string, from: nat): (r: Option<nat>)
    requires from <= |s|
    ensures r.Some? ==> from <= r.value && OccursAt(s, pat, r.value)
    ensures forall k :: from <= k && (r.None? || k < r.value) ==> !OccursAt(s, pat, k)
    decreases |s| - from
  {
    if from + |pat| > |s| then None
    else if s[from..from + |pat|] == pat then Some(from)
    else IndexOf(s, pat, from + 1)
  }

  /** `includes` and `indexOf` agree: `s.includes(pat)` iff `s.indexOf(pat) !== -1`. */
  lemma IndexOfFindsContained(s: string, pat: string)
    ensures Contains(s, pat) <==> IndexOf(s, pat, 0).Some?
  {
    if IndexOf(s, pat, 0).Some? {
      assert OccursAt(s, pat, IndexOf(s, pat, 0).value);
    }
  }

  /** An occurrence in `s[1..]` is an occurrence in `s` one position later, and back. */
  lemma OccursAtTail(s: string, pat: string, i: int)
    requires |s| > 0 && 0 <= i
    ensures OccursAt(s[1..], pat, i) <==> OccursAt(s, pat, i + 1)
  {
    if 0 <= i && i + |pat| <= |s| - 1 {
      assert s[1..][i..i + |pat|] == s[i + 1..i + 1 + |pat|];
    }
  }

  /** `s` contains `pat` iff `pat` is at its start or somewhere in its tail. */
  lemma ContainsStep(s: string, pat: string)
    requires |s| > 0
    ensures Contains(s, pat) <==> OccursAt(s, pat, 0) || Contains(s[1..], pat)
  {
    if Contains(s, pat) && !OccursAt(s, pat, 0) {
      var i :| 0 <= i <= |s| && OccursAt(s, pat, i);
      OccursAtTail(s, pat, i - 1);
    }
    if Contains(s[1..], pat) {
      var i :| 0 <= i <= |s[1..]| && OccursAt(s[1..], pat, i);
      OccursAtTail(s, pat, i);
    }
  }

  /** No occurrence of `pat` can cover a position holding a character that `pat` lacks. */
  lemma ForeignCharBlocks(s: string, pat: string, k: int, i: int)
    requires 0 <= k < |s| && s[k] !in pat
    requires i <= k < i + |pat|
    ensures !OccursAt(s, pat, i)
  {
  }

  /**
   When the characters on either side of the seam between `x` and `y` do not
   occur in `pat`, an occurrence in `x + y` lies wholly in `x` or wholly in `y`.
   */
  lemma ContainsConcat(x: string, y: string, pat: string)
    requires (|x| > 0 && x[|x| - 1] !in pat) || (|y| > 0 && y[0] !in pat)
    ensures Contains(x + y, pat) <==> Contains(x, pat) || Contains(y, pat)
  {
    var s := x + y;
    if Contains(s, pat) {
      var i :| 0 <= i <= |s| && OccursAt(s, pat, i);
      if i + |pat| <= |x| {
        assert s[i..i + |pat|] == x[i..i + |pat|];
        assert OccursAt(x, pat, i);
      } else if i >= |x| {
        assert s[i..i + |pat|] == y[i - |x|..i - |x| + |pat|];
        assert OccursAt(y, pat, i - |x|);
      } else if |x| > 0 && x[|x| - 1] !in pat {
        ForeignCharBlocks(s, pat, |x| - 1, i);
      } else {
        ForeignCharBlocks(s, pat, |x|, i);
      }
    }
    if Contains(x, pat) {
      var i :| 0 <= i <= |x| && OccursAt(x, pat, i);
      assert s[i..i + |pat|] == x[i..i + |pat|];
      assert OccursAt(s, pat, i);
    }
    if Contains(y, pat) {
      var i :| 0 <= i <= |y| && OccursAt(y, pat, i);
      assert s[|x| + i..|x| + i + |pat|] == y[i..i + |pat|];
      assert OccursAt(s, pat, |x| + i);
    }
  }
}

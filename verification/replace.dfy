/**
 Global replacement of a non-empty literal pattern, as performed by
 `String.prototype.replaceAll(pattern, replacement)` and by
 `String.prototype.replace(/pattern/g, replacement)` when the regular
 expression is a literal without capture groups: matches are found left to
 right, do not overlap, and each is replaced by the replacement template after
 `$`-expansion (GetSubstitution, section 22.1.3.19.1 of ECMAScript 2024).

 `ReplaceAll` is the literal substitution; `StringReplaceAll` is what the
 engine computes. They coincide when the template has no `$`.
 */
module Replace {
  import opened Wrappers
  import opened Text

  /** Literal, leftmost, non-overlapping replacement of every `pat` in `s` by `rep`. */
  function ReplaceAll(s: string, pat: string, rep: string): string
    requires |pat| > 0
    decreases |s|
  {
    if |s| < |pat| then s
    else if s[..|pat|] == pat then rep + ReplaceAll(s[|pat|..], pat, rep)
    else [s[0]] + ReplaceAll(s[1..], pat, rep)
  }

  /**
   GetSubstitution for a match without capture groups: `$$` is `$`, `$&` the
   matched text, `` $` `` the text before the match, `$'` the text after it;
   every other `$` (including `$1`..`$99` and `$<`) stands for itself.
   */
  function Expand(template: string, matched: string, before: string, after: string): (x: string)
    ensures '$' !in template ==> x == template
    ensures |template| > 0 && template[0] != '$' ==> |x| > 0 && x[0] == template[0]
    decreases |template|
  {
    if |template| == 0 then ""
    else if template[0] == '$' && |template| >= 2 && template[1] == '$' then
      "$" + Expand(template[2..], matched, before, after)
    else if template[0] == '$' && |template| >= 2 && template[1] == '&' then
      matched + Expand(template[2..], matched, before, after)
    else if template[0] == '$' && |template| >= 2 && template[1] == '`' then
      before + Expand(template[2..], matched, before, after)
    else if template[0] == '$' && |template| >= 2 && template[1] == '\'' then
      after + Expand(template[2..], matched, before, after)
    else
      assert '$' !in template ==> '$' !in template[1..] by {
        if '$' in template[1..] {
          var k :| 0 <= k < |template[1..]| && template[1..][k] == '$';
          assert template[k + 1] == '$';
        }
      }
      [template[0]] + Expand(template[1..], matched, before, after)
  }

  /** A `$`-free head of a template is copied through expansion unchanged. */
  lemma {:induction false} ExpandLiteralHead(head: string, rest: string, matched: string, before: string, after: string)
    requires '$' !in head
    ensures Expand(head + rest, matched, before, after) == head + Expand(rest, matched, before, after)
    decreases |head|
  {
    if |head| > 0 {
      var t := head + rest;
      assert t[0] == head[0] && t[1..] == head[1..] + rest;
      ExpandLiteralHead(head[1..], rest, matched, before, after);
      assert head == [head[0]] + head[1..];
    } else {
      assert head + rest == rest;
    }
  }

  /** The engine's replacement from index `i` of `s` on; `s[..i]` is only read by `` $` ``. */
  function StringReplaceFrom(s: string, i: nat, pat: string, template: string): string
    requires |pat| > 0 && i <= |s|
    decreases |s| - i
  {
    if i + |pat| > |s| then s[i..]
    else if s[i..i + |pat|] == pat then
      Expand(template, pat, s[..i], s[i + |pat|..]) + StringReplaceFrom(s, i + |pat|, pat, template)
    else [s[i]] + StringReplaceFrom(s, i + 1, pat, template)
  }

  /** `s.replaceAll(pat, template)`, equally `s.replace(/pat/g, template)`. */
  function StringReplaceAll(s: string, pat: string, template: string): string
    requires |pat| > 0
  {
    StringReplaceFrom(s, 0, pat, template)
  }

  /** One unfolding of the engine's replacement at a match. */
  lemma StepAtMatch(s: string, i: nat, j: nat, pat: string, template: string)
    requires |pat| > 0 && OccursAt(s, pat, i) && j == i + |pat|
    ensures StringReplaceFrom(s, i, pat, template)
         == Expand(template, pat, s[..i], s[j..]) + StringReplaceFrom(s, j, pat, template)
  {
  }

  /** The same unfolding for a `$`-free template, which expands to itself. */
  lemma LiteralStepAtMatch(s: string, i: nat, j: nat, pat: string, template: string)
    requires |pat| > 0 && OccursAt(s, pat, i) && j == i + |pat| && '$' !in template
    ensures StringReplaceFrom(s, i, pat, template) == template + StringReplaceFrom(s, j, pat, template)
  {
    StepAtMatch(s, i, j, pat, template);
  }

  /** One unfolding of the engine's replacement where no match starts. */
  lemma StepPastMismatch(s: string, i: nat, j: nat, pat: string, template: string)
    requires |pat| > 0 && i + |pat| <= |s| && !OccursAt(s, pat, i) && j == i + 1
    ensures StringReplaceFrom(s, i, pat, template) == [s[i]] + StringReplaceFrom(s, j, pat, template)
  {
  }

  /** A tail shorter than the pattern is copied by both replacements. */
  lemma ShortTail(s: string, i: nat, pat: string, template: string)
    requires |pat| > 0 && i <= |s| < i + |pat|
    ensures StringReplaceFrom(s, i, pat, template) == s[i..] == ReplaceAll(s[i..], pat, template)
  {
  }

  /** One unfolding of the literal replacement of `s[i..]` at a match. */
  lemma LiteralAtMatch(s: string, i: nat, j: nat, pat: string, rep: string)
    requires |pat| > 0 && OccursAt(s, pat, i) && j == i + |pat|
    ensures ReplaceAll(s[i..], pat, rep) == rep + ReplaceAll(s[j..], pat, rep)
  {
    var t := s[i..];
    assert t[..|pat|] == pat;
    assert t[|pat|..] == s[j..];
  }

  /** One unfolding of the literal replacement of `s[i..]` where no match starts. */
  lemma LiteralPastMismatch(s: string, i: nat, j: nat, pat: string, rep: string)
    requires |pat| > 0 && i + |pat| <= |s| && !OccursAt(s, pat, i) && j == i + 1
    ensures ReplaceAll(s[i..], pat, rep) == [s[i]] + ReplaceAll(s[j..], pat, rep)
  {
    var t := s[i..];
    assert t[..|pat|] == s[i..i + |pat|];
    assert t[0] == s[i] && t[1..] == s[j..];
  }

  /** Without `$` in the template the engine's replacement is the literal one. */
  lemma {:induction false} StringReplaceFromIsLiteral(s: string, i: nat, pat: string, template: string)
    requires |pat| > 0 && i <= |s| && '$' !in template
    ensures StringReplaceFrom(s, i, pat, template) == ReplaceAll(s[i..], pat, template)
    decreases |s| - i, 1
  {
    if i + |pat| > |s| {
      ShortTail(s, i, pat, template);
    } else if OccursAt(s, pat, i) {
      IsLiteralAtMatch(s, i, pat, template);
    } else {
      IsLiteralPastMismatch(s, i, pat, template);
    }
  }

  /** The inductive step of `StringReplaceFromIsLiteral` at a match. */
  lemma {:induction false} IsLiteralAtMatch(s: string, i: nat, pat: string, template: string)
    requires |pat| > 0 && OccursAt(s, pat, i) && '$' !in template
    ensures StringReplaceFrom(s, i, pat, template) == ReplaceAll(s[i..], pat, template)
    decreases |s| - i, 0
  {
    var j := i + |pat|;
    StringReplaceFromIsLiteral(s, j, pat, template);
    LiteralStepAtMatch(s, i, j, pat, template);
    LiteralAtMatch(s, i, j, pat, template);
  }

  /** The inductive step of `StringReplaceFromIsLiteral` where no match starts. */
  lemma {:induction false} IsLiteralPastMismatch(s: string, i: nat, pat: string, template: string)
    requires |pat| > 0 && i + |pat| <= |s| && !OccursAt(s, pat, i) && '$' !in template
    ensures StringReplaceFrom(s, i, pat, template) == ReplaceAll(s[i..], pat, template)
    decreases |s| - i, 0
  {
    var j := i + 1;
    StringReplaceFromIsLiteral(s, j, pat, template);
    StepPastMismatch(s, i, j, pat, template);
    LiteralPastMismatch(s, i, j, pat, template);
  }

  /** The same for the whole string. */
  lemma StringReplaceAllIsLiteral(s: string, pat: string, template: string)
    requires |pat| > 0 && '$' !in template
    ensures StringReplaceAll(s, pat, template) == ReplaceAll(s, pat, template)
  {
    StringReplaceFromIsLiteral(s, 0, pat, template);
  }

  /** Past the last match the engine copies the rest of the string unchanged. */
  lemma {:induction false} NoMatchKeepsRest(s: string, i: nat, pat: string, template: string)
    requires |pat| > 0 && i <= |s|
    requires forall k :: i <= k ==> !OccursAt(s, pat, k)
    ensures StringReplaceFrom(s, i, pat, template) == s[i..]
    decreases |s| - i
  {
    if i + |pat| > |s| {
    } else {
      var j := i + 1;
      assert !OccursAt(s, pat, i);
      StepPastMismatch(s, i, j, pat, template);
      NoMatchKeepsRest(s, j, pat, template);
      SliceHead(s, i, j, |s|);
    }
  }

  /** Up to the first match at `p` the text is copied unchanged. */
  lemma {:induction false} CopiedUntil(s: string, i: nat, p: nat, pat: string, template: string)
    requires |pat| > 0 && i <= p && p + |pat| <= |s|
    requires forall k :: i <= k < p ==> !OccursAt(s, pat, k)
    ensures StringReplaceFrom(s, i, pat, template) == s[i..p] + StringReplaceFrom(s, p, pat, template)
    decreases p - i
  {
    if i == p {
      assert s[i..p] == [];
    } else {
      var j := i + 1;
      assert !OccursAt(s, pat, i);
      StepPastMismatch(s, i, j, pat, template);
      CopiedUntil(s, j, p, pat, template);
      SliceHead(s, i, j, p);
      Regroup3(StringReplaceFrom(s, i, pat, template), [s[i]], s[j..p], StringReplaceFrom(s, p, pat, template), s[i..p]);
    }
  }

  /** Up to the first match at `p` the text is copied; the match is then replaced. */
  lemma FirstMatchReplaced(s: string, i: nat, p: nat, q: nat, pat: string, template: string)
    requires |pat| > 0 && i <= p && OccursAt(s, pat, p) && q == p + |pat|
    requires forall k :: i <= k < p ==> !OccursAt(s, pat, k)
    ensures StringReplaceFrom(s, i, pat, template)
         == s[i..p] + Expand(template, pat, s[..p], s[q..]) + StringReplaceFrom(s, q, pat, template)
  {
    CopiedUntil(s, i, p, pat, template);
    StepAtMatch(s, p, q, pat, template);
    var e, rest := Expand(template, pat, s[..p], s[q..]), StringReplaceFrom(s, q, pat, template);
    assert s[i..p] + (e + rest) == s[i..p] + e + rest;
  }

  /** A string without the pattern is returned unchanged. */
  lemma StringReplaceAllNoMatch(s: string, pat: string, template: string)
    requires |pat| > 0 && !Contains(s, pat)
    ensures StringReplaceAll(s, pat, template) == s
  {
    NoMatchKeepsRest(s, 0, pat, template);
  }

  /**
   With a template whose first character is neither `$` nor the pattern's
   first character, any match makes the result differ from the input: the
   first match position then holds a different character.
   */
  lemma StringReplaceAllChanges(s: string, pat: string, template: string)
    requires |pat| > 0 && |template| > 0 && template[0] != '$' && template[0] != pat[0]
    requires Contains(s, pat)
    ensures StringReplaceAll(s, pat, template) != s
  {
    IndexOfFindsContained(s, pat);
    var p := IndexOf(s, pat, 0).value;
    var q := p + |pat|;
    FirstMatchReplaced(s, 0, p, q, pat, template);
    var e := Expand(template, pat, s[..p], s[q..]);
    var r := StringReplaceAll(s, pat, template);
    assert r == s[..p] + e + StringReplaceFrom(s, q, pat, template);
    assert r[p] == e[0] == template[0];
    assert s[p] == s[p..p + |pat|][0] == pat[0];
  }

  /** The two directions together: the result differs from the input iff the input holds the pattern. */
  lemma StringReplaceAllChangesIff(s: string, pat: string, template: string)
    requires |pat| > 0 && |template| > 0 && template[0] != '$' && template[0] != pat[0]
    ensures StringReplaceAll(s, pat, template) != s <==> Contains(s, pat)
  {
    if Contains(s, pat) {
      StringReplaceAllChanges(s, pat, template);
    } else {
      StringReplaceAllNoMatch(s, pat, template);
    }
  }

  /**
   A prefix `u` of a replaced string either holds the replacement's first
   character or was copied verbatim from the input, i.e. is a prefix of `t`.
   */
  lemma {:induction false} UnreplacedPrefix(t: string, pat: string, rep: string, u: string)
    requires |pat| > 0 && |rep| > 0
    requires u <= ReplaceAll(t, pat, rep)
    ensures u <= t || rep[0] in u
    decreases |t|
  {
    if |t| < |pat| || |u| == 0 {
    } else if t[..|pat|] == pat {
      assert u[0] == (rep + ReplaceAll(t[|pat|..], pat, rep))[0] == rep[0];
    } else {
      var r := ReplaceAll(t[1..], pat, rep);
      assert ReplaceAll(t, pat, rep) == [t[0]] + r;
      assert u[1..] <= r;
      UnreplacedPrefix(t[1..], pat, rep, u[1..]);
      if rep[0] in u[1..] {
        var k :| 0 <= k < |u[1..]| && u[1..][k] == rep[0];
        assert u[k + 1] == rep[0];
      } else {
        assert u == [t[0]] + u[1..];
      }
    }
  }

  /**
   No occurrence of `pat` survives or is created by the replacement, provided
   the replacement does not contain `pat` and both its first and its last
   character are foreign to `pat` (so no occurrence can straddle a seam).
   */
  lemma {:induction false} NoResidual(s: string, pat: string, rep: string)
    requires |pat| > 0 && |rep| > 0
    requires rep[0] !in pat && rep[|rep| - 1] !in pat && !Contains(rep, pat)
    ensures !Contains(ReplaceAll(s, pat, rep), pat)
    decreases |s|
  {
    var r := ReplaceAll(s, pat, rep);
    if |s| < |pat| {
      assert r == s;
    } else if s[..|pat|] == pat {
      NoResidual(s[|pat|..], pat, rep);
      ContainsConcat(rep, ReplaceAll(s[|pat|..], pat, rep), pat);
    } else {
      var tail := ReplaceAll(s[1..], pat, rep);
      NoResidual(s[1..], pat, rep);
      assert r == [s[0]] + tail;
      assert r[1..] == tail;
      ContainsStep(r, pat);
      if OccursAt(r, pat, 0) {
        var u := pat[1..];
        assert u <= tail by {
          assert r[..|pat|] == pat;
          assert tail[..|u|] == r[1..|pat|] == u;
        }
        UnreplacedPrefix(s[1..], pat, rep, u);
      }
    }
  }

  /** One round of the engine's loop: the gap before the next match and its expansion are final. */
  lemma ScanStep(s: string, last: nat, p: nat, end: nat, pat: string, template: string, done: string, next: string, target: string)
    requires |pat| > 0 && last <= |s| && IndexOf(s, pat, last) == Some(p) && end == p + |pat|
    requires done + StringReplaceFrom(s, last, pat, template) == target
    requires end <= |s| && next == done + s[last..p] + Expand(template, pat, s[..p], s[end..])
    ensures next + StringReplaceFrom(s, end, pat, template) == target
  {
    FirstMatchReplaced(s, last, p, end, pat, template);
    var gap, e, rest := s[last..p], Expand(template, pat, s[..p], s[end..]), StringReplaceFrom(s, end, pat, template);
    Regroup(done, gap, e, rest);
  }

  /**
   Regrouping the loop's accumulated output around the next match. A lemma of
   its own: the same step asserted inside `ScanStep`, among the unfoldings of
   `StringReplaceFrom`, runs the solver out of resource.
   */
  lemma Regroup(a: string, b: string, c: string, d: string)
    ensures a + (b + c + d) == (a + b + c) + d
  {
  }

  /**
   Regrouping after one copied character: `x = a + (b + c)` and `ab = a + b`
   give `x = ab + c`. Kept apart from `CopiedUntil` for the same reason as
   `Regroup`.
   */
  lemma Regroup3(x: string, a: string, b: string, c: string, ab: string)
    requires x == a + (b + c) && ab == a + b
    ensures x == ab + c
  {
  }

  /** One round of the loop: append the gap and the expanded match found at `p`, continue after it. */
  method ScanRound(s: string, pat: string, template: string, last: nat, p: nat, done: string, ghost target: string)
    returns (next: string, end: nat)
    requires |pat| > 0 && last <= |s| && IndexOf(s, pat, last) == Some(p)
    requires done + StringReplaceFrom(s, last, pat, template) == target
    ensures last < end <= |s|
    ensures next + StringReplaceFrom(s, end, pat, template) == target
  {
    end := p + |pat|;
    next := done + s[last..p] + Expand(template, pat, s[..p], s[end..]);
    ScanStep(s, last, p, end, pat, template, done, next, target);
  }

  /** The last round: without a further match the rest of the string is copied. */
  lemma ScanEnd(s: string, last: nat, pat: string, template: string, done: string, target: string)
    requires |pat| > 0 && last <= |s| && IndexOf(s, pat, last) == None
    requires done + StringReplaceFrom(s, last, pat, template) == target
    ensures done + s[last..] == target
  {
    NoMatchKeepsRest(s, last, pat, template);
  }

  /**
   The engine's algorithm for `replaceAll` (section 22.1.3.20 of ECMAScript
   2024): search with `indexOf` from the end of the previous match, copy the
   text in between, append the expanded template.
   */
  method StringReplaceAllScan(s: string, pat: string, template: string) returns (r: string)
    requires |pat| > 0
    ensures r == StringReplaceAll(s, pat, template)
  {
    ghost var target := StringReplaceAll(s, pat, template);
    r := "";
    var endOfLastMatch := 0;
    var position := IndexOf(s, pat, 0);
    assert r + StringReplaceFrom(s, 0, pat, template) == target;
    while position.Some?
      invariant endOfLastMatch <= |s|
      invariant position == IndexOf(s, pat, endOfLastMatch)
      invariant r + StringReplaceFrom(s, endOfLastMatch, pat, template) == target
      decreases |s| - endOfLastMatch
    {
      r, endOfLastMatch := ScanRound(s, pat, template, endOfLastMatch, position.value, r, target);
      position := IndexOf(s, pat, endOfLastMatch);
    }
    ScanEnd(s, endOfLastMatch, pat, template, r, target);
    r := r + s[endOfLastMatch..];
  }
}

/**
 `s.split(sep)` for a one-character separator, its inverse `join`, and the
 last segment `s.split("/").pop()` that names the client output subdirectory.
 */
module Paths {

  /** `parts.join([sep])`. */
  function Join(parts: seq<string>, sep: char): string
    requires |parts| > 0
  {
    if |parts| == 1 then parts[0] else parts[0] + [sep] + Join(parts[1..], sep)
  }

  /** `s.split(sep)`: the maximal separator-free pieces, always at least one. */
  function Split(s: string, sep: char): (parts: seq<string>)
    ensures |parts| > 0
    ensures forall i :: 0 <= i < |parts| ==> sep !in parts[i]
    ensures Join(parts, sep) == s
    decreases |s|
  {
    if |s| == 0 then [""]
    else if s[0] == sep then [""] + Split(s[1..], sep)
    else
      var rest := Split(s[1..], sep);
      assert sep !in [s[0]] + rest[0];
      assert Join([[s[0]] + rest[0]] + rest[1..], sep) == [s[0]] + Join(rest, sep) by {
        if |rest| > 1 {
          assert ([[s[0]] + rest[0]] + rest[1..])[1..] == rest[1..];
        }
      }
      [[s[0]] + rest[0]] + rest[1..]
  }

  /** Splitting a join of separator-free pieces gives the pieces back. */
  lemma {:induction false} SplitJoin(parts: seq<string>, sep: char)
    requires |parts| > 0
    requires forall i :: 0 <= i < |parts| ==> sep !in parts[i]
    ensures Split(Join(parts, sep), sep) == parts
    decreases |parts|, |parts[0]|
  {
    var head := parts[0];
    if |head| == 0 {
      if |parts| > 1 {
        var tail := parts[1..];
        assert Join(parts, sep) == [sep] + Join(tail, sep);
        assert ([sep] + Join(tail, sep))[1..] == Join(tail, sep);
        SplitJoin(tail, sep);
        assert parts == [""] + tail;
      }
    } else {
      var shorter := [head[1..]] + parts[1..];
      assert forall i :: 0 <= i < |shorter| ==> sep !in shorter[i] by {
        forall i | 0 <= i < |shorter|
          ensures sep !in shorter[i]
        {
          if i > 0 {
            assert shorter[i] == parts[i];
          }
        }
      }
      var j := Join(parts, sep);
      assert j == [head[0]] + Join(shorter, sep) by {
        if |parts| > 1 {
          assert shorter[1..] == parts[1..];
        }
      }
      assert j[0] == head[0] && j[1..] == Join(shorter, sep);
      SplitJoin(shorter, sep);
      assert head == [head[0]] + head[1..];
      assert parts == [[head[0]] + shorter[0]] + shorter[1..];
    }
  }

  /** `s.split("/").pop()`: the text after the last `/`, or all of `s`. */
  function LastSegment(s: string): (r: string)
    ensures '/' !in r
    ensures |r| <= |s| && s[|s| - |r|..] == r
    ensures |r| == |s| || s[|s| - |r| - 1] == '/'
  {
    var parts := Split(s, '/');
    JoinEndsWithLast(parts, '/');
    parts[|parts| - 1]
  }

  /** A join ends with its last piece, right after a separator when there are several. */
  lemma {:induction false} JoinEndsWithLast(parts: seq<string>, sep: char)
    requires |parts| > 0
    ensures var j, last := Join(parts, sep), parts[|parts| - 1];
      |last| <= |j| && j[|j| - |last|..] == last && (|parts| == 1 || (|last| < |j| && j[|j| - |last| - 1] == sep))
    decreases |parts|
  {
    if |parts| > 1 {
      var tail := parts[1..];
      JoinEndsWithLast(tail, sep);
      var jt := Join(tail, sep);
      var j := Join(parts, sep);
      var last := parts[|parts| - 1];
      assert last == tail[|tail| - 1];
      assert j == (parts[0] + [sep]) + jt;
      assert j[|j| - |jt|..] == jt;
      assert j[|j| - |last|..] == jt[|jt| - |last|..];
      if |tail| == 1 {
        assert j[|j| - |last| - 1] == sep;
      } else {
        assert j[|j| - |last| - 1] == jt[|jt| - |last| - 1];
      }
    }
  }

  /** The last segment is the unique separator-free suffix preceded by `/` or by nothing. */
  lemma LastSegmentUnique(s: string, r: string)
    requires '/' !in r
    requires |r| <= |s| && s[|s| - |r|..] == r
    requires |r| == |s| || s[|s| - |r| - 1] == '/'
    ensures LastSegment(s) == r
  {
  }
}

/** The JavaScript string operations the download handler relies on:
    `startsWith`, `indexOf`, `replace` with a string pattern (first
    occurrence only), and `split` on a one-character separator. */
module Strings {

  predicate StartsWith(s: string, p: string) {
    |p| <= |s| && s[..|p|] == p
  }

  /** `p` occurs in `s` starting at index `i`. */
  predicate OccursAt(s: string, p: string, i: int) {
    0 <= i && i + |p| <= |s| && s[i..i + |p|] == p
  }

  /** `s.indexOf(p, from)`: the first index at or after `from` where `p`
      occurs, or -1 when there is none. */
  function IndexOf(s: string, p: string, from: nat): (r: int)
    requires from <= |s|
    ensures r == -1 || (from <= r && OccursAt(s, p, r))
    ensures r == -1 ==> forall i :: from <= i ==> !OccursAt(s, p, i)
    ensures 0 <= r ==> forall i :: from <= i < r ==> !OccursAt(s, p, i)
    decreases |s| - from
  {
    if from + |p| > |s| then -1
    else if s[from..from + |p|] == p then from
    else IndexOf(s, p, from + 1)
  }

  /** `s.replace(p, q)` with a string pattern: only the first occurrence of
      `p` is replaced; without an occurrence `s` is returned unchanged. */
  function ReplaceFirst(s: string, p: string, q: string): (r: string)
    ensures StartsWith(s, p) ==> r == q + s[|p|..]
  {
    var i := IndexOf(s, p, 0);
    assert StartsWith(s, p) ==> OccursAt(s, p, 0);
    if i < 0 then s else s[..i] + q + s[i + |p|..]
  }

  /** `replace` rewrites the first occurrence, and nothing when there is none. */
  lemma ReplaceFirstOccurrence(s: string, p: string, q: string, i: int)
    requires OccursAt(s, p, i) && forall j :: 0 <= j < i ==> !OccursAt(s, p, j)
    ensures ReplaceFirst(s, p, q) == s[..i] + q + s[i + |p|..]
  {
    var k := IndexOf(s, p, 0);
    assert k == i;
  }

  lemma ReplaceFirstAbsent(s: string, p: string, q: string)
    requires forall i :: !OccursAt(s, p, i)
    ensures ReplaceFirst(s, p, q) == s
  {
  }

  /** `s.split(c)` for a one-character separator: the maximal runs of
      characters other than `c`, in order, always at least one of them. */
  function Split(s: string, c: char): (r: seq<string>)
    ensures |r| >= 1
    ensures forall k :: 0 <= k < |r| ==> c !in r[k]
    ensures c !in s ==> r == [s]
    ensures c in s ==> |r| >= 2
    decreases |s|
  {
    if |s| == 0 then [""]
    else
      var rest := Split(s[1..], c);
      assert s == [s[0]] + s[1..];
      if s[0] == c then [""] + rest
      else [[s[0]] + rest[0]] + rest[1..]
  }

  /** `segs.join(c)`, the inverse of `Split`. */
  function Join(segs: seq<string>, c: char): string
    requires |segs| >= 1
  {
    if |segs| == 1 then segs[0] else segs[0] + [c] + Join(segs[1..], c)
  }

  /** Joining the pieces of a split gives back the original string. */
  lemma {:induction false} JoinSplit(s: string, c: char)
    ensures Join(Split(s, c), c) == s
    decreases |s|
  {
    if |s| > 0 {
      var rest := Split(s[1..], c);
      JoinSplit(s[1..], c);
      if s[0] == c {
        assert Split(s, c) == [""] + rest;
        assert ([""] + rest)[1..] == rest;
      } else {
        var segs := [[s[0]] + rest[0]] + rest[1..];
        assert Split(s, c) == segs;
        if |rest| == 1 {
          assert rest == [rest[0]];
        } else {
          assert segs[1..] == rest[1..];
          assert Join(rest, c) == rest[0] + [c] + Join(rest[1..], c);
          assert s == [s[0]] + s[1..];
        }
      }
    }
  }

  /** The last piece of `s.split(c)`, as `.split(c).pop()` returns it. */
  function LastSegment(s: string, c: char): (r: string)
    ensures c !in r
  {
    var segs := Split(s, c);
    segs[|segs| - 1]
  }

  /** How the last piece of a non-empty string relates to the last piece
      of its tail: it is that piece when a separator occurs anywhere in the
      string, and the whole string otherwise. */
  lemma LastSegmentStep(s: string, c: char)
    requires |s| > 0
    ensures s[0] == c || c in s[1..] ==> LastSegment(s, c) == LastSegment(s[1..], c)
    ensures s[0] != c && c !in s[1..] ==> LastSegment(s, c) == s
  {
    var rest := Split(s[1..], c);
    assert s == [s[0]] + s[1..];
    if s[0] == c {
      assert Split(s, c) == [""] + rest;
    } else if c in s[1..] {
      assert Split(s, c) == [[s[0]] + rest[0]] + rest[1..];
    } else {
      assert rest == [s[1..]];
      assert Split(s, c) == [s];
    }
  }

  /** A suffix of a string's tail is the same suffix of the string. */
  lemma TailSuffix(s: string, k: nat)
    requires 0 < |s| && k < |s|
    ensures s[1..][|s| - 1 - k..] == s[|s| - k..]
    ensures k < |s| - 1 ==> s[1..][|s| - 1 - k - 1] == s[|s| - k - 1]
  {
  }

  /** The last piece is the part of `s` after its last separator: a suffix
      of `s` that is either all of `s` or preceded by `c`. */
  lemma {:induction false} LastSegmentIsTail(s: string, c: char)
    ensures |LastSegment(s, c)| <= |s|
    ensures s[|s| - |LastSegment(s, c)|..] == LastSegment(s, c)
    ensures |LastSegment(s, c)| < |s| ==> s[|s| - |LastSegment(s, c)| - 1] == c
    decreases |s|
  {
    if |s| > 0 {
      LastSegmentStep(s, c);
      if s[0] == c || c in s[1..] {
        var last := LastSegment(s[1..], c);
        LastSegmentIsTail(s[1..], c);
        TailSuffix(s, |last|);
        if |last| == |s| - 1 {
          assert c !in last;
          assert last == s[1..];
          assert s[|s| - |last| - 1] == s[0];
        }
      }
    }
  }

}

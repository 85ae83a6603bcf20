/**
 * `filepath.Base` as Go computes it on a system whose only path separator
 * is `/`: trailing separators are dropped, then everything up to the last
 * separator; an empty path gives "." and a path of separators only gives "/".
 *
 * The functions carry small contracts so that unfolding a base name stays
 * cheap wherever names are compared; what they compute is stated by the
 * lemmas below them.
 */
module Paths {
  import opened Text

  const Separator: char := '/'

  /** Every element of `s` is a separator. */
  predicate AllSeparators(s: string) {
    forall k | 0 <= k < |s| :: s[k] == Separator
  }

  /** No element of `s` is a separator. */
  predicate NoSeparator(s: string) {
    forall k | 0 <= k < |s| :: s[k] != Separator
  }

  /** The length of `path` once all its trailing separators are removed. */
  function TrimmedLength(path: string, k: nat): (n: nat)
    requires k <= |path|
    ensures n <= k
  {
    if k > 0 && path[k - 1] == Separator then TrimmedLength(path, k - 1) else k
  }

  /** Where the segment ending at `k` starts: just after the last separator before `k`. */
  function SegmentStart(path: string, k: nat): (i: nat)
    requires k <= |path|
    ensures i <= k
  {
    if k == 0 || path[k - 1] == Separator then k else SegmentStart(path, k - 1)
  }

  /** `filepath.Base(path)`. */
  function BaseName(path: string): (r: string)
    ensures path == [] ==> r == "."
  {
    if path == [] then "."
    else
      var n := TrimmedLength(path, |path|);
      if n == 0 then [Separator] else path[SegmentStart(path, n)..n]
  }

  /** Trimming stops at the last non-separator; everything after it is separators. */
  lemma {:induction false} TrimmedLengthSpec(path: string, k: nat)
    requires k <= |path|
    ensures var n := TrimmedLength(path, k);
      (n == 0 || path[n - 1] != Separator) && AllSeparators(path[n..k])
    decreases k
  {
    if k > 0 && path[k - 1] == Separator {
      TrimmedLengthSpec(path, k - 1);
      var n := TrimmedLength(path, k);
      assert path[n..k] == path[n..k - 1] + [Separator];
    }
  }

  /** The segment found holds no separator and is preceded by one (or starts the path). */
  lemma {:induction false} SegmentStartSpec(path: string, k: nat)
    requires k <= |path|
    ensures var i := SegmentStart(path, k);
      NoSeparator(path[i..k]) && (i == 0 || path[i - 1] == Separator)
    decreases k
  {
    if !(k == 0 || path[k - 1] == Separator) {
      SegmentStartSpec(path, k - 1);
      var i := SegmentStart(path, k);
      assert path[i..k] == path[i..k - 1] + [path[k - 1]];
    }
  }

  /**
   * The base name is never empty; it is "/" exactly for a non-empty path of
   * separators only, and otherwise a separator-free segment of the path that
   * is followed only by separators and preceded by a separator or nothing.
   */
  lemma BaseNameSpec(path: string)
    ensures BaseName(path) != []
    ensures BaseName(path) == [Separator] <==> path != [] && AllSeparators(path)
    ensures BaseName(path) != [Separator] ==> NoSeparator(BaseName(path))
    ensures path != [] && !AllSeparators(path) ==>
      exists i, n :: 0 <= i < n <= |path| && BaseName(path) == path[i..n]
        && (i == 0 || path[i - 1] == Separator) && AllSeparators(path[n..])
  {
    if path != [] {
      var n := TrimmedLength(path, |path|);
      TrimmedLengthSpec(path, |path|);
      if n == 0 {
        assert path == path[0..|path|];
      } else {
        var i := SegmentStart(path, n);
        SegmentStartSpec(path, n);
        assert i < n;
        assert path[n - 1] != Separator;
        assert !AllSeparators(path);
        var r := BaseName(path);
        assert r == path[i..n];
        assert r[|r| - 1] == path[n - 1];
      }
    }
  }

  /** Trimming from `k` stops at `end` when only separators lie between them. */
  lemma {:induction false} TrimmedLengthAt(path: string, k: nat, end: nat)
    requires end <= k <= |path|
    requires end == 0 || path[end - 1] != Separator
    requires forall j | end <= j < k :: path[j] == Separator
    ensures TrimmedLength(path, k) == end
    decreases k
  {
    if k > end {
      TrimmedLengthAt(path, k - 1, end);
    }
  }

  /** The segment ending at `k` starts at `start` when it is separator-free and bounded by one. */
  lemma {:induction false} SegmentStartAt(path: string, k: nat, start: nat)
    requires start <= k <= |path|
    requires start == 0 || path[start - 1] == Separator
    requires forall j | start <= j < k :: path[j] != Separator
    ensures SegmentStart(path, k) == start
    decreases k
  {
    if k > start {
      SegmentStartAt(path, k - 1, start);
    }
  }

  /**
   * The base name of a path written as a directory part ending in a
   * separator (or empty), a non-empty separator-free file name, and any
   * trailing separators, is that file name: the directory is never kept.
   */
  lemma BaseNameOfJoin(dir: string, file: string, trail: string)
    requires dir == [] || dir[|dir| - 1] == Separator
    requires file != [] && NoSeparator(file)
    requires AllSeparators(trail)
    ensures BaseName(dir + file + trail) == file
  {
    var path := dir + file + trail;
    var end := |dir| + |file|;
    forall j | end <= j < |path| ensures path[j] == Separator {
      assert path[j] == trail[j - end];
    }
    forall j | |dir| <= j < end ensures path[j] != Separator {
      assert path[j] == file[j - |dir|];
    }
    assert dir != [] ==> path[|dir| - 1] == dir[|dir| - 1];
    TrimmedLengthAt(path, |path|, end);
    SegmentStartAt(path, end, |dir|);
    assert path[|dir|..end] == file;
  }
}

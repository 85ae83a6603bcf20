/**
 * The parts of Go's `strings` package the program relies on, over sequences.
 * A Go string is a sequence of bytes; here it is a `seq` whose elements stand
 * for those bytes, so every search and comparison is element-wise, as in Go.
 */
module Text {
  import opened Wrappers

  /** `strings.HasPrefix(s, prefix)`. */
  predicate HasPrefix<T(==)>(s: seq<T>, prefix: seq<T>) {
    |prefix| <= |s| && s[..|prefix|] == prefix
  }

  /** `strings.HasSuffix(s, suffix)`. */
  predicate HasSuffix<T(==)>(s: seq<T>, suffix: seq<T>) {
    |suffix| <= |s| && s[|s| - |suffix|..] == suffix
  }

  /** `strings.TrimSuffix(s, suffix)`: drops one trailing `suffix` if present. */
  function TrimSuffix<T(==)>(s: seq<T>, suffix: seq<T>): (r: seq<T>)
    ensures HasSuffix(s, suffix) ==> r + suffix == s
    ensures !HasSuffix(s, suffix) ==> r == s
  {
    if HasSuffix(s, suffix) then s[..|s| - |suffix|] else s
  }

  /** `pat` occurs in `s` starting at position `k`. */
  predicate OccursAt<T(==)>(s: seq<T>, pat: seq<T>, k: int) {
    0 <= k && k + |pat| <= |s| && s[k..k + |pat|] == pat
  }

  /** `strings.Contains(s, pat)`. */
  predicate Contains<T(==)>(s: seq<T>, pat: seq<T>) {
    exists k | 0 <= k <= |s| - |pat| :: OccursAt(s, pat, k)
  }

  /** `k` is the position of the first occurrence of `pat` in `s`. */
  predicate FirstAt<T(==)>(s: seq<T>, pat: seq<T>, k: int) {
    OccursAt(s, pat, k) && forall j :: 0 <= j < k ==> !OccursAt(s, pat, j)
  }

  /** Searches for `pat` in `s` at positions `k`, `k + 1`, ... */
  function IndexFrom<T(==)>(s: seq<T>, pat: seq<T>, k: nat): (r: Option<nat>)
    ensures r.Some? ==> k <= r.value && OccursAt(s, pat, r.value)
    ensures r.Some? ==> forall j :: k <= j < r.value ==> !OccursAt(s, pat, j)
    ensures r.None? ==> forall j :: k <= j ==> !OccursAt(s, pat, j)
    decreases |s| - k
  {
    if k + |pat| > |s| then None
    else if s[k..k + |pat|] == pat then Some(k)
    else IndexFrom(s, pat, k + 1)
  }

  /** `strings.Index(s, pat)`: the position of the first occurrence, if any. */
  function IndexOf<T(==)>(s: seq<T>, pat: seq<T>): (r: Option<nat>)
    ensures r.Some? ==> FirstAt(s, pat, r.value)
    ensures r.None? <==> !Contains(s, pat)
  {
    IndexFrom(s, pat, 0)
  }

  /** There is at most one first occurrence. */
  lemma FirstAtUnique<T>(s: seq<T>, pat: seq<T>, i: int, j: int)
    requires FirstAt(s, pat, i) && FirstAt(s, pat, j)
    ensures i == j
  {
  }

  /** `strings.Index` finds exactly the first occurrence: both directions. */
  lemma IndexOfIsFirst<T>(s: seq<T>, pat: seq<T>, i: nat)
    ensures IndexOf(s, pat) == Some(i) <==> FirstAt(s, pat, i)
  {
    if FirstAt(s, pat, i) {
      assert Contains(s, pat);
      FirstAtUnique(s, pat, i, IndexOf(s, pat).value);
    }
  }

  /**
   * `strings.Replace(s, pat, rep, 1)`: the first occurrence of `pat` is
   * replaced by `rep`; without an occurrence, `s` comes back unchanged.
   */
  function ReplaceFirst<T(==)>(s: seq<T>, pat: seq<T>, rep: seq<T>): (r: seq<T>)
    ensures !Contains(s, pat) ==> r == s
    ensures forall i {:trigger FirstAt(s, pat, i)} :: FirstAt(s, pat, i) ==> r == s[..i] + rep + s[i + |pat|..]
    ensures Contains(s, pat) ==> |r| == |s| - |pat| + |rep|
  {
    match IndexOf(s, pat)
    case None => s
    case Some(i) =>
      assert forall j {:trigger FirstAt(s, pat, j)} :: FirstAt(s, pat, j) ==> j == i by {
        forall j | FirstAt(s, pat, j) ensures j == i {
          FirstAtUnique(s, pat, i, j);
        }
      }
      s[..i] + rep + s[i + |pat|..]
  }

  /**
   * Inserting `ins` just before the first occurrence of `pat` moves that
   * occurrence right behind `ins`, and it stays the first one as long as no
   * occurrence starts inside or straddles the inserted part.
   */
  lemma FirstAtAfterInsert<T>(s: seq<T>, pat: seq<T>, ins: seq<T>, i: int)
    requires pat != [] && FirstAt(s, pat, i)
    requires forall j | i - |pat| < j < i + |ins| :: !OccursAt(s[..i] + ins + s[i..], pat, j)
    ensures FirstAt(s[..i] + ins + s[i..], pat, i + |ins|)
  {
    var r := s[..i] + ins + s[i..];
    var n := |pat|;
    assert r[i + |ins|..i + |ins| + n] == s[i..i + n];
    forall j | 0 <= j <= i - n
      ensures !OccursAt(r, pat, j)
    {
      assert r[..i] == s[..i];
      SliceOfPrefix(r, i, j, j + n);
      SliceOfPrefix(s, i, j, j + n);
      assert !OccursAt(s, pat, j);
    }
  }

  /** A slice inside a prefix is the same slice of the whole sequence. */
  lemma SliceOfPrefix<T>(s: seq<T>, i: int, j: int, m: int)
    requires 0 <= j <= m <= i <= |s|
    ensures s[..i][j..m] == s[j..m]
  {
    assert forall t | 0 <= t < m - j :: s[..i][j..m][t] == s[j + t] == s[j..m][t];
  }
}

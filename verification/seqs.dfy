/**
 * The two loop shapes of the program over a sequence: a `for ... range` loop
 * that breaks on the first hit, and one that handles every element in order
 * and returns at the first error.
 */
module Seqs {
  import opened Wrappers

  /** Position `k` satisfies `p` and no earlier position does. */
  predicate IsFirst<T>(s: seq<T>, p: T -> bool, k: int) {
    0 <= k < |s| && p(s[k]) && forall j | 0 <= j < k :: !p(s[j])
  }

  /** Some element satisfies `p`. */
  predicate Exists<T>(s: seq<T>, p: T -> bool) {
    exists k | 0 <= k < |s| :: p(s[k])
  }

  /** Scans positions `k`, `k + 1`, ... and stops at the first that satisfies `p`. */
  function FirstFrom<T>(s: seq<T>, p: T -> bool, k: nat): (r: Option<nat>)
    ensures r.Some? ==> k <= r.value < |s| && p(s[r.value])
    ensures r.Some? ==> forall j | k <= j < r.value :: !p(s[j])
    ensures r.None? ==> forall j | k <= j < |s| :: !p(s[j])
    decreases |s| - k
  {
    if k >= |s| then None
    else if p(s[k]) then Some(k)
    else FirstFrom(s, p, k + 1)
  }

  /** The first position whose element satisfies `p`, if there is one. */
  function First<T>(s: seq<T>, p: T -> bool): (r: Option<nat>)
    ensures r.Some? ==> IsFirst(s, p, r.value)
    ensures r.None? <==> !Exists(s, p)
  {
    FirstFrom(s, p, 0)
  }

  /** Appending elements never changes a first match that already exists. */
  lemma FirstIgnoresLater<T>(s: seq<T>, more: seq<T>, p: T -> bool)
    requires Exists(s, p)
    ensures First(s + more, p) == First(s, p)
  {
    var k := First(s, p).value;
    assert IsFirst(s + more, p, k);
    var k' := First(s + more, p).value;
    assert k' <= k;
    assert (s + more)[k'] == s[k'];
  }

  /** A sequence is the part before position `k`, the element there, and the rest. */
  lemma SplitAt<T>(s: seq<T>, k: int)
    requires 0 <= k < |s|
    ensures s == s[..k] + ([s[k]] + s[k + 1..])
  {
  }

  /**
   * Applies `f` to every element in order and collects the results, stopping
   * at the first element for which `f` fails and returning that failure.
   */
  function MapAll<T, U, E>(s: seq<T>, f: T -> Result<U, E>): (r: Result<seq<U>, E>)
    ensures r.Ok? <==> forall k | 0 <= k < |s| :: f(s[k]).Ok?
    ensures r.Ok? ==> |r.value| == |s| && forall k | 0 <= k < |s| :: f(s[k]) == Ok(r.value[k])
    ensures r.Err? ==> exists k | 0 <= k < |s| ::
      f(s[k]) == Err(r.error) && forall j | 0 <= j < k :: f(s[j]).Ok?
  {
    if s == [] then Ok([])
    else
      match f(s[0])
      case Err(e) => Err(e)
      case Ok(head) =>
        match MapAll(s[1..], f)
        case Err(e) =>
          ghost var k :| 0 <= k < |s[1..]| && f(s[1..][k]) == Err(e)
            && forall j | 0 <= j < k :: f(s[1..][j]).Ok?;
          assert f(s[k + 1]) == Err(e);
          Err(e)
        case Ok(tail) => Ok([head] + tail)
  }
}

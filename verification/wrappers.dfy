/**
  Failure-compatible wrappers shared by every module of the model, and the one
  search primitive both row stores are built on.

  `Option` stands for JavaScript's `null`/`undefined` result of a lookup,
  `Result` for a call that either returns a value or throws.
 */
module Wrappers {

  datatype Option<+T> = None | Some(value: T)

  datatype Result<+R, +E> = Success(value: R) | Failure(error: E)

  /** The first element of `s` satisfying `p`, as `.find(p)` or `SELECT … LIMIT 1`
      in insertion order would return it. */
  function FindFirst<T>(s: seq<T>, p: T -> bool): (r: Option<T>)
    ensures r.None? <==> forall i :: 0 <= i < |s| ==> !p(s[i])
    ensures r.Some? ==> exists i :: 0 <= i < |s| && s[i] == r.value && p(s[i])
                                    && forall j :: 0 <= j < i ==> !p(s[j])
  {
    if |s| == 0 then None
    else if p(s[0]) then Some(s[0])
    else
      var rest := FindFirst(s[1..], p);
      assert forall j :: 0 < j < |s| ==> s[j] == s[1..][j - 1];
      rest
  }

  /** When at most one element satisfies `p`, the first one is the only one. */
  lemma {:induction false} FindFirstUnique<T>(s: seq<T>, p: T -> bool, i: nat)
    requires i < |s| && p(s[i])
    requires forall j, k :: 0 <= j < |s| && 0 <= k < |s| && p(s[j]) && p(s[k]) ==> j == k
    ensures FindFirst(s, p) == Some(s[i])
  {
    var r := FindFirst(s, p);
    assert r.Some?;
    var k :| 0 <= k < |s| && s[k] == r.value && p(s[k]) && forall j :: 0 <= j < k ==> !p(s[j]);
    assert k == i;
  }
}

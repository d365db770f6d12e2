/** Filtering and mapping, as array methods of the host language do them. */
module Lists {

  function Filter<T>(s: seq<T>, keep: T -> bool): seq<T> {
    if s == [] then []
    else Filter(s[..|s| - 1], keep) + if keep(s[|s| - 1]) then [s[|s| - 1]] else []
  }

  function Map<T, U>(s: seq<T>, f: T -> U): seq<U> {
    seq(|s|, i requires 0 <= i < |s| => f(s[i]))
  }

  lemma {:induction false} FilterKeeps<T>(s: seq<T>, keep: T -> bool)
    ensures forall x :: x in Filter(s, keep) <==> x in s && keep(x)
  {
    if s != [] {
      var init := s[..|s| - 1];
      FilterKeeps(init, keep);
      assert s == init + [s[|s| - 1]];
    }
  }

  lemma {:induction false} MapHolds<T, U>(s: seq<T>, f: T -> U)
    ensures forall x | x in s :: f(x) in Map(s, f)
    ensures forall y | y in Map(s, f) :: exists x | x in s :: y == f(x)
  {
    forall x | x in s
      ensures f(x) in Map(s, f)
    {
      var i :| 0 <= i < |s| && s[i] == x;
      assert Map(s, f)[i] == f(x);
    }
    forall y | y in Map(s, f)
      ensures exists x | x in s :: y == f(x)
    {
      var i :| 0 <= i < |s| && Map(s, f)[i] == y;
      assert s[i] in s;
    }
  }

  ghost predicate Ascends(at: seq<nat>) {
    forall k, l | 0 <= k < l < |at| :: at[k] < at[l]
  }

  /** at are the places among the first n at which keep holds, in order, and kept is what stands there. */
  ghost predicate Places<T>(s: seq<T>, n: nat, keep: T -> bool, at: seq<nat>, kept: seq<T>) {
    && n <= |s| && |at| == |kept| && Ascends(at)
    && (forall k | 0 <= k < |at| :: at[k] < n && keep(s[at[k]]) && kept[k] == s[at[k]])
    && forall i: nat | i < n && keep(s[i]) :: i in at
  }

  /** The filtered list is read off at ascending indices, which are all the indices kept. */
  lemma {:induction false} FilterPlaces<T>(s: seq<T>, keep: T -> bool) returns (at: seq<nat>)
    ensures |at| == |Filter(s, keep)| && Ascends(at)
    ensures forall k | 0 <= k < |at| :: at[k] < |s| && keep(s[at[k]]) && Filter(s, keep)[k] == s[at[k]]
    ensures forall i: nat | i < |s| && keep(s[i]) :: i in at
  {
    at := [];
    assert s[..0] == [];
    for n := 0 to |s|
      invariant Places(s, n, keep, at, Filter(s[..n], keep))
    {
      FilterGrows(s, n, keep);
      NextPlace(s, n, keep, at, Filter(s[..n], keep));
      at := if keep(s[n]) then at + [n] else at;
    }
    assert s[..|s|] == s;
  }

  lemma {:induction false} FilterGrows<T>(s: seq<T>, n: nat, keep: T -> bool)
    requires n < |s|
    ensures Filter(s[..n + 1], keep) == if keep(s[n]) then Filter(s[..n], keep) + [s[n]] else Filter(s[..n], keep)
  {
    assert s[..n + 1][..n] == s[..n] && s[..n + 1][n] == s[n];
  }

  lemma {:induction false} NextPlace<T>(s: seq<T>, n: nat, keep: T -> bool, at: seq<nat>, kept: seq<T>)
    requires n < |s| && Places(s, n, keep, at, kept)
    ensures if keep(s[n]) then Places(s, n + 1, keep, at + [n], kept + [s[n]]) else Places(s, n + 1, keep, at, kept)
  {
  }
}

/** Searches over ranges of positions, and flattening of nested sequences. */
module Seqs {
  import opened Wrappers

  /** The least position k with lo <= k < hi at which f holds, if there is one. */
  function First(lo: nat, hi: nat, f: nat -> bool): (r: Option<nat>)
    ensures r.Some? ==> lo <= r.value < hi && f(r.value)
    ensures r.Some? ==> forall k :: lo <= k < r.value ==> !f(k)
    ensures r.None? ==> forall k :: lo <= k < hi ==> !f(k)
    decreases hi - lo
  {
    if hi <= lo then None
    else if f(lo) then Some(lo)
    else First(lo + 1, hi, f)
  }

  /** The greatest position k with lo <= k < hi at which f holds, if there is one. */
  function Last(lo: nat, hi: nat, f: nat -> bool): (r: Option<nat>)
    ensures r.Some? ==> lo <= r.value < hi && f(r.value)
    ensures r.Some? ==> forall k :: r.value < k < hi ==> !f(k)
    ensures r.None? ==> forall k :: lo <= k < hi ==> !f(k)
    decreases hi
  {
    if hi <= lo then None
    else if f(hi - 1) then Some(hi - 1)
    else Last(lo, hi - 1, f)
  }

  /** Last finds p when f holds at p and nowhere after it below hi. */
  lemma LastAt(lo: nat, hi: nat, f: nat -> bool, p: nat)
    requires lo <= p < hi && f(p)
    requires forall k :: p < k < hi ==> !f(k)
    ensures Last(lo, hi, f) == Some(p)
  {
  }

  /** The concatenation of the sequences in ss, in order. */
  function Flatten<T>(ss: seq<seq<T>>): seq<T>
  {
    if ss == [] then [] else ss[0] + Flatten(ss[1..])
  }

  lemma {:induction false} FlattenSnoc<T>(ss: seq<seq<T>>, s: seq<T>)
    ensures Flatten(ss + [s]) == Flatten(ss) + s
    decreases |ss|
  {
    if ss == [] {
      assert ss + [s] == [s];
    } else {
      assert (ss + [s])[1..] == ss[1..] + [s];
      FlattenSnoc(ss[1..], s);
    }
  }
}

/** Sequences laid end to end, and how many of them lie before a cut. */
module Sequences {
  function Concat<T>(parts: seq<seq<T>>): seq<T> {
    if parts == [] then [] else parts[0] + Concat(parts[1..])
  }

  lemma {:induction false} ConcatSnoc<T>(parts: seq<seq<T>>, p: seq<T>)
    ensures Concat(parts + [p]) == Concat(parts) + p
  {
    if parts == [] {
      assert Concat([p]) == p + Concat([p][1..]);
    } else {
      ConcatSnoc(parts[1..], p);
      assert (parts + [p])[1..] == parts[1..] + [p];
    }
  }

  lemma ConcatTake<T>(parts: seq<seq<T>>, k: nat)
    requires 0 < k <= |parts|
    ensures Concat(parts[..k]) == parts[0] + Concat(parts[1..][..k - 1])
  {
    assert parts[..k][1..] == parts[1..][..k - 1];
  }

  lemma {:induction false} ConcatSplit<T>(parts: seq<seq<T>>, k: nat)
    requires k <= |parts|
    ensures Concat(parts) == Concat(parts[..k]) + Concat(parts[k..])
    decreases k
  {
    if k == 0 {
      assert parts[0..] == parts && parts[..0] == [];
    } else {
      ConcatSplit(parts[1..], k - 1);
      ConcatTake(parts, k);
      assert parts[1..][k - 1..] == parts[k..];
    }
  }

  /** Part j lies right behind the parts before it. */
  lemma {:induction false} PartAt<T>(parts: seq<seq<T>>, j: nat)
    requires j < |parts|
    ensures Concat(parts[..j + 1]) == Concat(parts[..j]) + parts[j] <= Concat(parts)
  {
    assert parts[..j + 1] == parts[..j] + [parts[j]];
    ConcatSnoc(parts[..j], parts[j]);
    ConcatSplit(parts, j + 1);
  }

  /** How many parts lie wholly within the first c elements. */
  function Whole<T>(parts: seq<seq<T>>, c: nat): (k: nat)
    ensures k <= |parts|
  {
    if parts == [] || c < |parts[0]| then 0 else 1 + Whole(parts[1..], c - |parts[0]|)
  }
}

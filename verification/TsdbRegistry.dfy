/** The stream registry of logregator-tsdb: which stream carries which labels, the inverse map
    that writes use, and the label index that reads use. */
module TsdbRegistry {
  import opened Bytes
  import opened TsdbLabel

  type ByStream = map<u64, Labels>
  type ByLabels = map<Labels, u64>
  type Index = map<Label, set<u64>>

  /** The streams that the index lists under a label. */
  function Listed(ix: Index, l: Label): set<u64> {
    if l in ix then ix[l] else {}
  }

  ghost predicate Carries(bs: ByStream, id: u64, l: Label) {
    id in bs && l in bs[id]
  }

  /** The index lists exactly the streams that a scan of all label maps finds. */
  ghost predicate Indexed(bs: ByStream, ix: Index) {
    && (forall id, l :: id in Listed(ix, l) <==> Carries(bs, id, l))
    && (forall l :: l in ix ==> ix[l] != {})
  }

  /** The two maps are inverse to each other; so no two streams share their labels. */
  ghost predicate Inverse(bs: ByStream, bl: ByLabels) {
    && (forall id :: id in bs ==> bs[id] in bl && bl[bs[id]] == id)
    && (forall m :: m in bl ==> bl[m] in bs && bs[bl[m]] == m)
  }

  /** The index after entering a stream under every one of its labels. */
  ghost predicate Entered(old_: Index, ix: Index, m: seq<Label>, id: u64) {
    && (forall l :: l in ix <==> l in old_ || l in m)
    && (forall l :: l in ix ==> ix[l] == Listed(old_, l) + (if l in m then {id} else {}))
  }

  /** Entering a stream keeps the index exact if and only if the stream is new or loses none of
      its labels: stale entries are never removed. */
  lemma IndexExactIff(bs: ByStream, ix: Index, m: Labels, id: u64, ix': Index)
    requires Indexed(bs, ix) && Entered(ix, ix', m, id)
    ensures Indexed(bs[id := m], ix') <==> (id in bs ==> forall l :: l in bs[id] ==> l in m)
  {
    var bs' := bs[id := m];
    if id in bs {
      forall l | l in bs[id] && l !in m
        ensures !Indexed(bs', ix')
      {
        assert Carries(bs, id, l);
        assert id in Listed(ix', l) && !Carries(bs', id, l);
      }
    }
    if id in bs ==> forall l :: l in bs[id] ==> l in m {
      forall k, l
        ensures k in Listed(ix', l) <==> Carries(bs', k, l)
      {
        assert k in Listed(ix, l) <==> Carries(bs, k, l);
      }
    }
  }

  /** The two maps stay inverse if and only if neither the stream had other labels nor the
      labels another stream. */
  lemma InverseKeptIff(bs: ByStream, bl: ByLabels, m: Labels, id: u64)
    requires Inverse(bs, bl)
    ensures Inverse(bs[id := m], bl[m := id]) <==> (id in bs ==> bs[id] == m) && (m in bl ==> bl[m] == id)
  {
    var bs', bl' := bs[id := m], bl[m := id];
    if id in bs && bs[id] != m {
      assert bl'[bs[id]] == id;
    }
    if m in bl && bl[m] != id {
      assert bs'[bl[m]] == m;
    }
  }

  /** The index is a function of the stream map. */
  lemma IndexUnique(bs: ByStream, a: Index, b: Index)
    requires Indexed(bs, a) && Indexed(bs, b)
    ensures a == b
  {
    forall l
      ensures Listed(a, l) == Listed(b, l)
    {
      forall id
        ensures id in Listed(a, l) <==> id in Listed(b, l)
      {
        assert id in Listed(a, l) <==> Carries(bs, id, l);
        assert id in Listed(b, l) <==> Carries(bs, id, l);
      }
    }
    forall l
      ensures l in a <==> l in b
    {
      assert Listed(a, l) == Listed(b, l);
    }
    forall l | l in a
      ensures a[l] == b[l]
    {
      assert Listed(a, l) == Listed(b, l);
    }
  }

  lemma InverseUnique(bs: ByStream, a: ByLabels, b: ByLabels)
    requires Inverse(bs, a) && Inverse(bs, b)
    ensures a == b
  {
    assert forall m :: m in a ==> m in b && a[m] == b[m];
    assert forall m :: m in b ==> m in a;
  }

  ghost predicate Injective(bs: ByStream) {
    forall i, j :: i in bs && j in bs && bs[i] == bs[j] ==> i == j
  }

  class StreamRegistry {
    var byStream: ByStream
    var byLabels: ByLabels
    var index: Index

    ghost predicate Valid()
      reads this
    {
      Indexed(byStream, index) && Inverse(byStream, byLabels)
    }

    constructor ()
      ensures Valid() && byStream == map[]
    {
      byStream, byLabels, index := map[], map[], map[];
    }

    method Enter(m: Labels, id: u64)
      modifies this`index
      ensures Entered(old(index), index, m, id)
    {
      for i := 0 to |m|
        invariant Entered(old(index), index, m[..i], id)
      {
        assert m[..i + 1] == m[..i] + [m[i]];
        if m[i] in index {
          index := index[m[i] := index[m[i]] + {id}];
        } else {
          index := index[m[i] := {id}];
        }
      }
      assert m[..|m|] == m;
    }

    /** The three maps stay consistent whenever the stream and its labels are new. */
    method Insert(id: u64, m: Labels)
      modifies this
      ensures byStream == old(byStream)[id := m] && byLabels == old(byLabels)[m := id]
      ensures Entered(old(index), index, m, id)
      ensures old(Valid()) && id !in old(byStream) && m !in old(byLabels) ==> Valid()
    {
      byStream := byStream[id := m];
      byLabels := byLabels[m := id];
      Enter(m, id);
      if old(Indexed(byStream, index)) {
        IndexExactIff(old(byStream), old(index), m, id, index);
      }
      if old(Inverse(byStream, byLabels)) {
        InverseKeptIff(old(byStream), old(byLabels), m, id);
      }
    }

    /** Rebuilds the derived maps from the stored one, streams in any order. The result is
        consistent if and only if no two streams share their labels; the index always is. */
    constructor From(bs: ByStream)
      ensures byStream == bs && Indexed(bs, index)
      ensures Valid() <==> Injective(bs)
    {
      byStream, byLabels, index := bs, map[], map[];
      new;
      var todo := bs.Keys;
      ghost var done: ByStream := map[];
      while todo != {}
        invariant byStream == bs && Indexed(done, index)
        invariant todo <= bs.Keys && done.Keys == bs.Keys - todo
        invariant forall id :: id in done ==> done[id] == bs[id]
        invariant forall id :: id in done ==> done[id] in byLabels
        invariant forall m :: m in byLabels ==> byLabels[m] in done && done[byLabels[m]] == m
      {
        var id :| id in todo;
        ghost var before := index;
        byLabels := byLabels[bs[id] := id];
        Enter(bs[id], id);
        IndexExactIff(done, before, bs[id], id, index);
        done := done[id := bs[id]];
        todo := todo - {id};
      }
      assert done == bs;
    }

    /** The streams that carry every known label of the query; none when no label is known. */
    method LabelIntersection(labels: seq<Label>) returns (r: set<u64>)
      requires Indexed(byStream, index)
      ensures r == Answer(byStream, index, labels)
    {
      var sets := KnownSets(labels);
      AnswerIsMeet(byStream, index, labels);
      if |sets| == 0 {
        return {};
      }
      if |sets| == 1 {
        assert forall x :: InAll(sets, x) <==> x in sets[0];
        return sets[0];
      }
      var sorted := SortBySize(sets);
      SameMeet(sets, sorted);
      r := Meet(sorted);
    }

    method KnownSets(labels: seq<Label>) returns (sets: seq<set<u64>>)
      ensures sets == Known(index, labels)
    {
      sets := [];
      for i := 0 to |labels|
        invariant sets == Known(index, labels[..i])
      {
        assert labels[..i + 1][..i] == labels[..i];
        if labels[i] in index {
          sets := sets + [index[labels[i]]];
        }
      }
      assert labels[..|labels|] == labels;
    }
  }

  /** The running intersection, which stops when nothing is left. */
  method Meet(sets: seq<set<u64>>) returns (acc: set<u64>)
    requires sets != []
    ensures forall x :: x in acc <==> InAll(sets, x)
  {
    acc := sets[0];
    var i := 1;
    while i < |sets|
      invariant 1 <= i <= |sets|
      invariant forall x :: x in acc <==> InAll(sets[..i], x)
    {
      assert sets[..i + 1] == sets[..i] + [sets[i]];
      acc := acc * sets[i];
      i := i + 1;
      if acc == {} {
        break;
      }
    }
    EarlyExit(sets, i, acc);
  }

  // ---- Label queries

  ghost predicate InAll(sets: seq<set<u64>>, x: u64) {
    forall s :: s in sets ==> x in s
  }

  lemma SameMeet(a: seq<set<u64>>, b: seq<set<u64>>)
    requires multiset(a) == multiset(b)
    ensures forall x :: InAll(a, x) <==> InAll(b, x)
  {
    forall s
      ensures s in a <==> s in b
    {
      assert s in a <==> s in multiset(a);
      assert s in b <==> s in multiset(b);
    }
  }

  lemma EarlyExit(sets: seq<set<u64>>, i: nat, acc: set<u64>)
    requires 0 < i <= |sets| && (forall x :: x in acc <==> InAll(sets[..i], x))
    requires i == |sets| || acc == {}
    ensures forall x :: x in acc <==> InAll(sets, x)
  {
    if i == |sets| {
      assert sets[..i] == sets;
    } else {
      forall x
        ensures !InAll(sets, x)
      {
        assert x !in acc;
      }
    }
  }

  /** The listed sets of the labels that the index knows. */
  function Known(ix: Index, labels: seq<Label>): seq<set<u64>> {
    if labels == [] then []
    else
      var n := |labels| - 1;
      Known(ix, labels[..n]) + (if labels[n] in ix then [ix[labels[n]]] else [])
  }

  lemma {:induction false} KnownMembers(ix: Index, labels: seq<Label>)
    ensures forall l :: l in labels && l in ix ==> ix[l] in Known(ix, labels)
    ensures forall s :: s in Known(ix, labels) ==> exists l :: l in labels && l in ix && ix[l] == s
  {
    if labels != [] {
      var n := |labels| - 1;
      KnownMembers(ix, labels[..n]);
      assert labels == labels[..n] + [labels[n]];
    }
  }

  ghost function Answer(bs: ByStream, ix: Index, labels: seq<Label>): set<u64> {
    if forall l :: l in labels ==> l !in ix then {}
    else set id | id in bs && forall l :: l in labels && l in ix ==> l in bs[id]
  }

  lemma AnswerIsMeet(bs: ByStream, ix: Index, labels: seq<Label>)
    requires Indexed(bs, ix)
    ensures Known(ix, labels) == [] ==> Answer(bs, ix, labels) == {}
    ensures Known(ix, labels) != [] ==>
      forall x :: x in Answer(bs, ix, labels) <==> InAll(Known(ix, labels), x)
  {
    var ks := Known(ix, labels);
    KnownMembers(ix, labels);
    if ks != [] {
      assert ks[0] in ks;
      forall x
        ensures x in Answer(bs, ix, labels) <==> InAll(ks, x)
      {
        MeetsIff(bs, ix, labels, x);
      }
    }
  }

  lemma MeetsIff(bs: ByStream, ix: Index, labels: seq<Label>, x: u64)
    requires Indexed(bs, ix) && Known(ix, labels) != []
    ensures InAll(Known(ix, labels), x) <==> x in bs && forall l :: l in labels && l in ix ==> l in bs[x]
  {
    var ks := Known(ix, labels);
    KnownMembers(ix, labels);
    assert forall l :: l in ix ==> (x in ix[l] <==> Carries(bs, x, l)) by {
      assert forall l :: l in ix ==> ix[l] == Listed(ix, l);
    }
    if InAll(ks, x) {
      assert ks[0] in ks;
    }
  }

  /** The streams that carry all labels of a query. */
  ghost function AllOf(bs: ByStream, labels: seq<Label>): set<u64> {
    set id | id in bs && forall l :: l in labels ==> l in bs[id]
  }

  /** Some stream carries every label of the query that the index knows. */
  ghost predicate KnownCarried(bs: ByStream, ix: Index, labels: seq<Label>) {
    exists id :: id in bs && forall l :: l in labels && l in ix ==> l in bs[id]
  }

  /** A query is answered with the streams that carry all its labels if and only if the index
      knows all of its labels, or none, or no stream carries all the known ones. The query
      without labels is answered with no stream, and so rightly only when there is none. */
  lemma IntersectionExactIff(bs: ByStream, ix: Index, labels: seq<Label>)
    requires Indexed(bs, ix)
    ensures Answer(bs, ix, labels) == AllOf(bs, labels) <==>
      if labels == [] then bs == map[]
      else (forall l :: l in labels ==> l in ix) || (forall l :: l in labels ==> l !in ix) || !KnownCarried(bs, ix, labels)
  {
    if labels == [] {
      EmptyQuery(bs, ix);
    } else if l :| l in labels && l !in ix {
      UnknownLabel(bs, ix, labels, l);
      if m :| m in labels && m in ix {
        assert Answer(bs, ix, labels) == {} <==> !KnownCarried(bs, ix, labels) by {
          if id :| id in bs && forall l :: l in labels && l in ix ==> l in bs[id] {
            assert id in Answer(bs, ix, labels);
          }
        }
      }
    } else {
      assert labels[0] in labels;
    }
  }

  lemma EmptyQuery(bs: ByStream, ix: Index)
    ensures Answer(bs, ix, []) == {} && (AllOf(bs, []) == {} <==> bs == map[])
  {
    if id :| id in bs {
      assert id in AllOf(bs, []);
    }
  }

  /** No stream carries a label that the index does not know. */
  lemma UnknownLabel(bs: ByStream, ix: Index, labels: seq<Label>, l: Label)
    requires Indexed(bs, ix) && l in labels && l !in ix
    ensures AllOf(bs, labels) == {}
  {
    forall id
      ensures id !in AllOf(bs, labels)
    {
      assert id !in Listed(ix, l);
      assert !Carries(bs, id, l);
    }
  }

  /** One stream with one label: a query for that label and an unknown one finds the stream. */
  lemma UnknownLabelIsIgnored(a: Label, b: Label, bs: ByStream, ix: Index)
    requires a != b && bs == map[7 := [a]] && ix == map[a := {7}]
    ensures Indexed(bs, ix) && Answer(bs, ix, [a, b]) == {7} && AllOf(bs, [a, b]) == {}
  {
    assert a in [a, b] && b in [a, b];
    assert Indexed(bs, ix) by {
      forall id, l
        ensures id in Listed(ix, l) <==> Carries(bs, id, l)
      {
      }
    }
    assert 7 in Answer(bs, ix, [a, b]);
  }

  ghost predicate BySize(sets: seq<set<u64>>) {
    forall i, j :: 0 <= i < j < |sets| ==> |sets[i]| <= |sets[j]|
  }

  /** A sort by size; any order of equal sizes will do. */
  method SortBySize(sets: seq<set<u64>>) returns (r: seq<set<u64>>)
    ensures BySize(r) && multiset(r) == multiset(sets) && |r| == |sets|
  {
    r := [];
    for i := 0 to |sets|
      invariant BySize(r) && multiset(r) == multiset(sets[..i]) && |r| == i
    {
      assert sets[..i + 1] == sets[..i] + [sets[i]];
      PlaceSorts(r, sets[i]);
      PlacePermutes(r, sets[i]);
      r := Place(r, sets[i]);
    }
    assert sets[..|sets|] == sets;
  }

  function Place(r: seq<set<u64>>, s: set<u64>): seq<set<u64>> {
    if r == [] || |s| < |r[0]| then [s] + r else [r[0]] + Place(r[1..], s)
  }

  lemma {:induction false} PlaceSorts(r: seq<set<u64>>, s: set<u64>)
    requires BySize(r)
    ensures BySize(Place(r, s)) && Place(r, s) != []
    ensures r != [] ==> Place(r, s)[0] == (if |s| < |r[0]| then s else r[0])
  {
    if r == [] || |s| < |r[0]| {
      SmallestFirst(s, r);
    } else {
      PlaceSorts(r[1..], s);
      SmallestFirst(r[0], Place(r[1..], s));
    }
  }

  lemma SmallestFirst(s: set<u64>, r: seq<set<u64>>)
    requires BySize(r) && (r != [] ==> |s| <= |r[0]|)
    ensures BySize([s] + r)
  {
    forall j | 0 <= j < |r|
      ensures |s| <= |r[j]|
    {
      assert |r[0]| <= |r[j]|;
    }
  }

  lemma {:induction false} PlacePermutes(r: seq<set<u64>>, s: set<u64>)
    ensures multiset(Place(r, s)) == multiset(r) + multiset{s} && |Place(r, s)| == |r| + 1
  {
    if r != [] {
      assert r == [r[0]] + r[1..];
      PlacePermutes(r[1..], s);
    }
  }
}

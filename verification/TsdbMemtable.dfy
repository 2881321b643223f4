/** The memtable of logregator-tsdb. */
module TsdbMemtable {
  import opened Bytes
  import opened TsdbRecord

  // The size of a record without its payload: four words of key, and a reference with a length.
  const RECORD_SIZE := 48

  function SizeOf(r: Record): nat {
    RECORD_SIZE + |r.payload|
  }

  function Total(rs: seq<Record>): (n: nat)
    ensures n == 0 <==> rs == []
  {
    if rs == [] then 0 else Total(rs[..|rs| - 1]) + SizeOf(rs[|rs| - 1])
  }

  lemma TotalSnoc(rs: seq<Record>, r: Record)
    ensures Total(rs + [r]) == Total(rs) + SizeOf(r)
  {
    assert (rs + [r])[..|rs|] == rs;
  }

  predicate HasKey(rs: set<Record>, k: Key) {
    exists r :: r in rs && r.key == k
  }

  /** What a set ordered by key keeps of a row of insertions: the first record of each key. */
  function Kept(rs: seq<Record>): set<Record> {
    if rs == [] then {}
    else
      var front, r := Kept(rs[..|rs| - 1]), rs[|rs| - 1];
      if HasKey(front, r.key) then front else front + {r}
  }

  ghost predicate DistinctKeys(rs: seq<Record>) {
    forall i, j :: 0 <= i < j < |rs| ==> rs[i].key != rs[j].key
  }

  function Elems(rs: seq<Record>): set<Record> {
    set r | r in rs
  }

  lemma {:induction false} KeptAll(rs: seq<Record>)
    requires DistinctKeys(rs)
    ensures Kept(rs) == Elems(rs)
  {
    if rs != [] {
      var front := rs[..|rs| - 1];
      KeptAll(front);
      assert rs == front + [rs[|rs| - 1]];
    }
  }

  datatype Frozen = Frozen(id: nat, recs: set<Record>, size: nat, first: Option<Key>, last: Option<Key>)

  /** A memtable after a row of insertions. */
  ghost predicate Holds(f: Frozen, rs: seq<Record>) {
    && f.recs == Kept(rs) && f.size == Total(rs)
    && f.first == (if rs == [] then None else Some(rs[0].key))
    && f.last == (if rs == [] then None else Some(rs[|rs| - 1].key))
  }

  lemma HoldsSnoc(f: Frozen, rs: seq<Record>, r: Record)
    requires Holds(f, rs)
    ensures Total(rs + [r]) == f.size + SizeOf(r)
    ensures Holds(Frozen(f.id, if HasKey(f.recs, r.key) then f.recs else f.recs + {r}, f.size + SizeOf(r),
                         if f.first.None? then Some(r.key) else f.first, Some(r.key)), rs + [r])
  {
    TotalSnoc(rs, r);
    assert (rs + [r])[..|rs|] == rs;
  }

  datatype AppendOutput = Fits | Full(rejected: Option<Record>)

  class MutMemtable {
    const limit: nat
    var id: nat
    var recs: set<Record>
    var size: nat
    var first: Option<Key>
    var last: Option<Key>
    ghost var arrivals: seq<Record>

    ghost predicate Valid()
      reads this
    {
      && Holds(Frozen(id, recs, size, first, last), arrivals)
      && (Total(arrivals) <= limit || |arrivals| <= 1)
    }

    constructor (id: nat, limit: nat)
      ensures Valid() && arrivals == [] && this.id == id && this.limit == limit
    {
      this.id, this.limit := id, limit;
      recs, size, first, last, arrivals := {}, 0, None, None, [];
    }

    /** Only a memtable that holds something rejects a record. */
    method Append(rec: Record) returns (out: AppendOutput)
      requires Valid()
      modifies this
      ensures Valid() && id == old(id)
      ensures out.Full? && out.rejected.Some? <==> old(arrivals) != [] && Total(old(arrivals)) + SizeOf(rec) > limit
      ensures out.Full? && out.rejected.Some? ==> out.rejected.value == rec && arrivals == old(arrivals)
      ensures out.Fits? || out.rejected.None? ==> arrivals == old(arrivals) + [rec]
      ensures out.Fits? ==> Total(arrivals) < limit
      ensures out.Full? && out.rejected.None? ==> Total(arrivals) >= limit
    {
      if size + SizeOf(rec) > limit && size != 0 {
        return Full(Some(rec));
      }
      Insert(rec);
      out := if size >= limit then Full(None) else Fits;
    }

    method Insert(rec: Record)
      requires Valid() && (arrivals == [] || Total(arrivals) + SizeOf(rec) <= limit)
      modifies this
      ensures Valid() && id == old(id) && arrivals == old(arrivals) + [rec]
    {
      HoldsSnoc(Frozen(id, recs, size, first, last), arrivals, rec);
      if first.None? {
        first := Some(rec.key);
      }
      last := Some(rec.key);
      size := size + SizeOf(rec);
      if !HasKey(recs, rec.key) {
        recs := recs + {rec};
      }
      arrivals := arrivals + [rec];
    }

    method Freeze(newId: nat) returns (f: Frozen)
      requires Valid()
      modifies this
      ensures f.id == old(id) && Holds(f, old(arrivals))
      ensures Valid() && id == newId && arrivals == []
    {
      f := Frozen(id, recs, size, first, last);
      id, recs, size, first, last := newId, {}, 0, None, None;
      arrivals := [];
    }
  }

  lemma {:induction false} FirstIsKept(rs: seq<Record>)
    requires rs != []
    ensures rs[0] in Kept(rs)
  {
    if |rs| > 1 {
      FirstIsKept(rs[..|rs| - 1]);
    }
  }

  lemma {:induction false} KeptAreInserted(rs: seq<Record>, r: Record)
    requires r in Kept(rs)
    ensures r in rs
  {
    var front := rs[..|rs| - 1];
    if r in Kept(front) {
      KeptAreInserted(front, r);
    }
  }

  /** The set has one record for each key. */
  lemma {:induction false} KeptHasDistinctKeys(rs: seq<Record>, a: Record, b: Record)
    requires a in Kept(rs) && b in Kept(rs) && a.key == b.key
    ensures a == b
  {
    var front := Kept(rs[..|rs| - 1]);
    if a in front && b in front {
      KeptHasDistinctKeys(rs[..|rs| - 1], a, b);
    }
  }
}

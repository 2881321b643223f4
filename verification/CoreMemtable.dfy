/** The in-memory table of logregator-core: an ordered set of records with a size counter. */
module CoreMemtable {
  import opened Bytes
  import opened CoreRecord

  /** `BTreeSet::insert`: a record whose rank is already present is not added. */
  function Insert(s: seq<Record>, r: Record): (t: seq<Record>) {
    if s == [] then [r]
    else if RankOf(s[0]) == RankOf(r) then s
    else if Before(r, s[0]) then [r] + s
    else [s[0]] + Insert(s[1..], r)
  }

  function InsertAll(s: seq<Record>, rs: seq<Record>): seq<Record>
    decreases |rs|
  {
    if rs == [] then s else InsertAll(Insert(s, rs[0]), rs[1..])
  }

  /** Nothing is removed, at most r is added, and r's rank is then present. */
  lemma {:induction false} InsertElements(s: seq<Record>, r: Record)
    ensures forall x :: x in s ==> x in Insert(s, r)
    ensures forall x :: x in Insert(s, r) ==> x in s || x == r
    ensures exists x :: x in Insert(s, r) && RankOf(x) == RankOf(r)
  {
    var t := Insert(s, r);
    if s == [] {
      assert r in t;
    } else if RankOf(s[0]) == RankOf(r) {
      assert s[0] in t;
    } else if Before(r, s[0]) {
      assert r in t;
    } else {
      InsertElements(s[1..], r);
      var x :| x in Insert(s[1..], r) && RankOf(x) == RankOf(r);
      assert x in t;
    }
  }

  lemma {:induction false} InsertKeepsOrder(s: seq<Record>, r: Record)
    requires Sorted(s)
    ensures Sorted(Insert(s, r))
  {
    if s == [] || RankOf(s[0]) == RankOf(r) {
    } else if Before(r, s[0]) {
      SortedCons(r, s);
    } else {
      InsertKeepsOrder(s[1..], r);
      InsertElements(s[1..], r);
      BelowTotal(RankOf(s[0]), RankOf(r));
      assert forall x :: x in s[1..] ==> Before(s[0], x);
      assert forall x :: x in Insert(s[1..], r) ==> Before(s[0], x);
    }
  }

  lemma SortedCons(r: Record, s: seq<Record>)
    requires Sorted(s) && s != [] && Before(r, s[0])
    ensures Sorted([r] + s)
  {
    forall j | 0 < j < |s|
      ensures Before(r, s[j])
    {
      BelowTransitive(RankOf(r), RankOf(s[0]), RankOf(s[j]));
    }
  }

  lemma InsertedWhenConsistent(s: seq<Record>, r: Record, known: set<Record>)
    requires Consistent(known) && Elems(s) <= known && r in known
    ensures Elems(Insert(s, r)) == Elems(s) + {r}
  {
    InsertElements(s, r);
    var x :| x in Insert(s, r) && RankOf(x) == RankOf(r);
    assert x in known;
  }

  /** Inserting many: sorted, nothing lost, nothing foreign, and when ranks identify records
      the elements are exactly the union. */
  lemma {:induction false} InsertAllKeepsOrder(s: seq<Record>, rs: seq<Record>)
    requires Sorted(s)
    ensures Sorted(InsertAll(s, rs))
    ensures Elems(s) <= Elems(InsertAll(s, rs)) <= Elems(s) + Elems(rs)
    ensures Consistent(Elems(s) + Elems(rs)) ==> Elems(InsertAll(s, rs)) == Elems(s) + Elems(rs)
    decreases |rs|
  {
    if rs != [] {
      var t := Insert(s, rs[0]);
      InsertKeepsOrder(s, rs[0]);
      InsertElements(s, rs[0]);
      InsertAllKeepsOrder(t, rs[1..]);
      assert Elems(rs) == {rs[0]} + Elems(rs[1..]);
      assert Elems(s) <= Elems(t) <= Elems(s) + {rs[0]};
      if Consistent(Elems(s) + Elems(rs)) {
        InsertedWhenConsistent(s, rs[0], Elems(s) + Elems(rs));
        assert Elems(t) + Elems(rs[1..]) == Elems(s) + Elems(rs);
      }
    }
  }

  /** `BTreeSet::range(lo..hi)`. */
  function Slice(s: seq<Record>, lo: Record, hi: Record): (t: seq<Record>) {
    if s == [] then []
    else if !Before(s[0], lo) && Before(s[0], hi) then [s[0]] + Slice(s[1..], lo, hi)
    else Slice(s[1..], lo, hi)
  }

  lemma {:induction false} SliceIsWindow(s: seq<Record>, source: i64, start: i64, end: i64)
    requires Sorted(s) && 0 <= start <= end
    ensures var t := Slice(s, Bound(source, start, []), Bound(source, end, []));
      && Sorted(t)
      && (forall r :: r in t <==> r in s && InWindow(r, source, start, end))
  {
    if s != [] {
      var t := Slice(s[1..], Bound(source, start, []), Bound(source, end, []));
      SliceIsWindow(s[1..], source, start, end);
      MemtableBoundsCutWindow(s[0], source, start, end);
      assert forall r :: r in s <==> r == s[0] || r in s[1..];
      assert forall r :: r in t ==> Before(s[0], r);
    }
  }

  /** `sz` counts the bytes of every record handed to `insert`. */
  class MemTable {
    var bset: seq<Record>
    var sz: nat
    const limit: nat

    ghost predicate Valid()
      reads this
    {
      Sorted(bset)
    }

    constructor (limit: nat)
      ensures Valid() && bset == [] && sz == 0 && this.limit == limit
    {
      bset, sz, this.limit := [], 0, limit;
    }

    /** True when the table has outgrown its limit and should be flushed. */
    method Put(r: Record) returns (full: bool)
      requires Valid()
      modifies this
      ensures Valid()
      ensures bset == Insert(old(bset), r) && sz == old(sz) + |Encode(r)|
      ensures full <==> sz > limit
    {
      InsertKeepsOrder(bset, r);
      bset := Insert(bset, r);
      sz := sz + |Encode(r)|;
      full := sz > limit;
    }

    method CloneRange(source: i64, start: i64, end: i64) returns (t: seq<Record>)
      requires Valid() && 0 <= start <= end
      ensures Sorted(t)
      ensures forall r :: r in t <==> r in bset && InWindow(r, source, start, end)
    {
      SliceIsWindow(bset, source, start, end);
      t := Slice(bset, Bound(source, start, []), Bound(source, end, []));
    }

    method Freeze() returns (frozen: seq<Record>)
      requires Valid()
      modifies this
      ensures Valid() && frozen == old(bset) && bset == [] && sz == 0
    {
      frozen := bset;
      bset, sz := [], 0;
    }
  }
}

/** The record iterators of logregator-core: the filtered scans over a memtable copy and
    over a table file, and the heap merge that deduplicates them. */
module CoreIter {
  import opened Bytes
  import opened CoreRecord

  datatype Query = Query(source: i64, key: Str, start: i64, end: i64, filter: Str)

  predicate OccursAt(s: seq<byte>, part: seq<byte>, i: nat) {
    i + |part| <= |s| && s[i..i + |part|] == part
  }

  predicate Contains(s: seq<byte>, part: seq<byte>) {
    exists i | 0 <= i <= |s| :: OccursAt(s, part, i)
  }

  predicate Matches(r: Record, q: Query) {
    InWindow(r, q.source, q.start, q.end) && r.key == q.key
    && (q.filter == [] || Contains(r.value, q.filter))
  }

  /** An iterator as a value: the records not yet read, and what it does with them. */
  datatype Cursor =
    | Memory(recs: seq<Record>, q: Query)
    | Filtered(recs: seq<Record>, q: Query)
    | Unfiltered(recs: seq<Record>)

  ghost predicate ValidCursor(c: Cursor) {
    Sorted(c.recs) && (c.Filtered? ==> 0 <= c.q.start <= c.q.end)
  }

  ghost predicate Selects(c: Cursor, r: Record) {
    c.Unfiltered? || Matches(r, c.q)
  }

  /** Everything the iterator has still to yield, in order. */
  ghost function Rest(c: Cursor): (s: seq<Record>)
    decreases |c.recs|
  {
    if c.recs == [] then []
    else if Selects(c, c.recs[0]) then [c.recs[0]] + Rest(c.(recs := c.recs[1..]))
    else Rest(c.(recs := c.recs[1..]))
  }

  lemma {:induction false} RestIsFilter(c: Cursor)
    requires Sorted(c.recs)
    ensures Sorted(Rest(c))
    ensures forall r :: r in Rest(c) <==> r in c.recs && Selects(c, r)
    decreases |c.recs|
  {
    if c.recs != [] {
      var d := c.(recs := c.recs[1..]);
      RestIsFilter(d);
      assert forall r :: r in c.recs <==> r == c.recs[0] || r in d.recs;
      assert forall r :: Selects(c, r) == Selects(d, r);
      forall r | r in Rest(d)
        ensures Before(c.recs[0], r)
      {
        var j :| 0 <= j < |d.recs| && d.recs[j] == r;
        assert r == c.recs[j + 1];
      }
    }
  }

  /** A table scan stops at the first record not below its end bound; none after it matches. */
  lemma NothingMatchesAfterEnd(c: Cursor, r: Record)
    requires ValidCursor(c) && c.Filtered? && c.recs != []
    requires !Before(c.recs[0], Bound(c.q.source, c.q.end, c.q.key))
    requires r in c.recs
    ensures !Selects(c, r)
  {
    var end := RankOf(Bound(c.q.source, c.q.end, c.q.key));
    var i :| 0 <= i < |c.recs| && c.recs[i] == r;
    if Matches(r, c.q) {
      TableBoundsCutWindow(r, c.q.source, c.q.start, c.q.end);
      assert Below(RankOf(r), end);
      if i > 0 {
        BelowTransitive(RankOf(c.recs[0]), RankOf(r), end);
      }
      assert false;
    }
  }

  lemma NonEmptyHasElement(s: seq<Record>)
    ensures s != [] ==> exists r :: r in s
  {
    if s != [] {
      assert s[0] in s;
    }
  }

  lemma NothingLeftAfterEnd(c: Cursor)
    requires ValidCursor(c) && c.Filtered? && c.recs != []
    requires !Before(c.recs[0], Bound(c.q.source, c.q.end, c.q.key))
    ensures Rest(c) == Rest(Filtered(c.recs[1..], c.q)) == []
  {
    var d := Filtered(c.recs[1..], c.q);
    RestIsFilter(c);
    RestIsFilter(d);
    forall y | y in c.recs
      ensures !Selects(c, y)
    {
      NothingMatchesAfterEnd(c, y);
    }
    NonEmptyHasElement(Rest(c));
    assert forall y :: y in d.recs ==> y in c.recs && Selects(d, y) == Selects(c, y);
    NonEmptyHasElement(Rest(d));
  }

  /** One `next` of any of the three iterators. The table scan tests the byte-order bounds
      instead of the timestamp, and ends at the first record past the end bound. */
  method Advance(c: Cursor) returns (r: Option<Record>, rest: Cursor)
    requires ValidCursor(c)
    ensures ValidCursor(rest)
    ensures r.None? ==> Rest(c) == Rest(rest) == []
    ensures r.Some? ==> Rest(c) == [r.value] + Rest(rest)
  {
    rest := c;
    while rest.recs != []
      invariant ValidCursor(rest) && Rest(rest) == Rest(c)
      decreases |rest.recs|
    {
      var x := rest.recs[0];
      var tail := rest.(recs := rest.recs[1..]);
      match rest {
        case Memory(_, q) =>
          if Matches(x, q) {
            return Some(x), tail;
          }
        case Filtered(_, q) =>
          if !Before(x, Bound(q.source, q.start, q.key)) {
            if !Before(x, Bound(q.source, q.end, q.key)) {
              NothingLeftAfterEnd(rest);
              return None, tail;
            }
            if x.key == q.key && (q.filter == [] || Contains(x.value, q.filter)) {
              TableBoundsCutWindow(x, q.source, q.start, q.end);
              return Some(x), tail;
            }
          } else if x.key == q.key {
            TableBoundsCutWindow(x, q.source, q.start, q.end);
          }
        case Unfiltered(_) =>
          return Some(x), tail;
      }
      rest := tail;
    }
    r := None;
  }

  /** A heap entry: a record and the iterator it came from, 0 being the memtable. */
  datatype HeapItem = HeapItem(record: Record, idx: nat)

  ghost predicate Minimal(item: HeapItem, heap: set<HeapItem>) {
    item in heap && forall o :: o in heap ==> !Before(o.record, item.record)
  }

  lemma {:induction false} MinimalExists(heap: set<HeapItem>)
    requires heap != {}
    ensures exists item :: Minimal(item, heap)
  {
    var x :| x in heap;
    if heap == {x} {
      BelowTotal(RankOf(x.record), RankOf(x.record));
      assert Minimal(x, heap);
    } else {
      MinimalExists(heap - {x});
      var m :| Minimal(m, heap - {x});
      BelowTotal(RankOf(x.record), RankOf(m.record));
      if Before(x.record, m.record) {
        forall o | o in heap
          ensures !Before(o.record, x.record)
        {
          BelowTotal(RankOf(x.record), RankOf(x.record));
          if Before(o.record, x.record) && o != x {
            BelowTransitive(RankOf(o.record), RankOf(x.record), RankOf(m.record));
          }
        }
        assert Minimal(x, heap);
      } else {
        assert Minimal(m, heap);
      }
    }
  }

  /** `BinaryHeap::pop` picks some minimal entry. */
  method Least(heap: set<HeapItem>) returns (item: HeapItem)
    requires heap != {}
    ensures Minimal(item, heap)
  {
    MinimalExists(heap);
    assert exists i :: i in heap && forall o :: o in heap ==> !Before(o.record, i.record) by {
      var m :| Minimal(m, heap);
    }
    item :| item in heap && forall o :: o in heap ==> !Before(o.record, item.record);
  }

  // ---- The state of a merge as a value: heap, remaining output of each source, last output.

  ghost predicate Pending(m: Merge, r: Record) {
    (exists h :: h in m.heap && h.record == r) || (exists i :: 0 <= i < |m.rests| && r in m.rests[i])
  }

  datatype Merge = Merge(heap: set<HeapItem>, rests: seq<seq<Record>>, last: Option<Record>)

  /** Each source has its least unread record in the heap. */
  ghost predicate Primed(m: Merge) {
    && (forall h :: h in m.heap ==> h.idx < |m.rests|)
    && (forall g, h :: g in m.heap && h in m.heap && g.idx == h.idx ==> g == h)
    && (forall i :: 0 <= i < |m.rests| ==> Sorted(m.rests[i]))
    && (forall h, r :: h in m.heap && r in m.rests[h.idx] ==> Before(h.record, r))
    && (forall i :: 0 <= i < |m.rests| && m.rests[i] != [] ==> exists h :: h in m.heap && h.idx == i)
  }

  /** Nothing pending lies before the last output. */
  ghost predicate Ahead(m: Merge) {
    m.last.Some? ==> forall r :: Pending(m, r) ==> !Before(r, m.last.value)
  }

  ghost predicate HoldsRank(m: Merge, k: Rank) {
    exists r :: Pending(m, r) && RankOf(r) == k
  }

  /** Ranks still to be output: pending and not equal to the last one output. */
  ghost predicate Unseen(m: Merge, k: Rank) {
    HoldsRank(m, k) && (m.last.Some? ==> k != RankOf(m.last.value))
  }

  lemma PopIsLeastPending(m: Merge, item: HeapItem, r: Record)
    requires Primed(m) && Minimal(item, m.heap) && Pending(m, r)
    ensures !Before(r, item.record)
  {
    if !exists h :: h in m.heap && h.record == r {
      var i :| 0 <= i < |m.rests| && r in m.rests[i];
      var h :| h in m.heap && h.idx == i;
      assert Before(h.record, r);
      if Before(r, item.record) {
        BelowTransitive(RankOf(h.record), RankOf(r), RankOf(item.record));
      }
    }
  }

  /** Source i gives its next record to the heap, if it has one. */
  ghost function Filled(m: Merge, i: nat): Merge
    requires i < |m.rests|
  {
    var s := m.rests[i];
    if s == [] then m else m.(heap := m.heap + {HeapItem(s[0], i)}, rests := m.rests[i := s[1..]])
  }

  /** The heap gives up `item`, and its source refills it. */
  ghost function Popped(m: Merge, item: HeapItem): Merge
    requires item.idx < |m.rests|
  {
    Filled(m.(heap := m.heap - {item}), item.idx)
  }

  lemma PopKeepsPrimed(m: Merge, item: HeapItem, last: Option<Record>)
    requires Primed(m) && item in m.heap
    ensures Primed(Popped(m, item).(last := last))
  {
    var p := Popped(m, item).(last := last);
    var s := m.rests[item.idx];
    assert forall h :: h in p.heap <==> (h in m.heap && h != item) || (s != [] && h == HeapItem(s[0], item.idx));
    if s != [] {
      assert p.rests == m.rests[item.idx := s[1..]];
      assert Sorted(s[1..]) && forall r :: r in s[1..] ==> Before(s[0], r);
      assert HeapItem(s[0], item.idx) in p.heap;
    }
    forall i | 0 <= i < |p.rests| && p.rests[i] != []
      ensures exists h :: h in p.heap && h.idx == i
    {
      if i != item.idx {
        var h :| h in m.heap && h.idx == i;
        assert h in p.heap;
      }
    }
  }

  /** Popping removes one entry and nothing else. */
  lemma PopPending(m: Merge, item: HeapItem, r: Record)
    requires Primed(m) && item in m.heap
    ensures Pending(Popped(m, item), r) ==> Pending(m, r)
    ensures Pending(m, r) ==> r == item.record || Pending(Popped(m, item), r)
  {
    var p := Popped(m, item);
    var s := m.rests[item.idx];
    if Pending(p, r) {
      if h :| h in p.heap && h.record == r {
        if h !in m.heap { assert r in m.rests[item.idx]; }
      } else {
        var i :| 0 <= i < |p.rests| && r in p.rests[i];
        assert r in m.rests[i];
      }
    }
    if Pending(m, r) && r != item.record {
      if h :| h in m.heap && h.record == r {
        assert h in p.heap;
      } else {
        var i :| 0 <= i < |m.rests| && r in m.rests[i];
        if i == item.idx && r == s[0] {
          assert HeapItem(s[0], i) in p.heap;
        } else {
          assert r in p.rests[i];
        }
      }
    }
  }

  ghost function Total(rests: seq<seq<Record>>): nat {
    if rests == [] then 0 else |rests[0]| + Total(rests[1..])
  }

  lemma {:induction false} TotalUpdate(rests: seq<seq<Record>>, i: nat, s: seq<Record>)
    requires i < |rests|
    ensures Total(rests[i := s]) == Total(rests) - |rests[i]| + |s|
  {
    if i > 0 {
      TotalUpdate(rests[1..], i - 1, s);
      assert rests[i := s][1..] == rests[1..][i - 1 := s];
    }
  }

  ghost function Size(m: Merge): nat {
    Total(m.rests) + |m.heap|
  }

  lemma PopShrinks(m: Merge, item: HeapItem)
    requires Primed(m) && item in m.heap
    ensures Size(Popped(m, item)) < Size(m)
  {
    var s := m.rests[item.idx];
    if s != [] {
      TotalUpdate(m.rests, item.idx, s[1..]);
    }
  }

  /** A pop whose record repeats the last output changes nothing that is still to come. */
  lemma SkipDuplicate(m: Merge, item: HeapItem)
    requires Primed(m) && Ahead(m) && Minimal(item, m.heap)
    requires m.last.Some? && RankOf(m.last.value) == RankOf(item.record)
    ensures Primed(Popped(m, item)) && Ahead(Popped(m, item))
    ensures forall k :: Unseen(Popped(m, item), k) <==> Unseen(m, k)
    ensures forall r :: Pending(Popped(m, item), r) ==> Pending(m, r)
  {
    PopKeepsPrimed(m, item, m.last);
    forall r
      ensures Pending(Popped(m, item), r) ==> Pending(m, r)
      ensures Pending(m, r) ==> r == item.record || Pending(Popped(m, item), r)
    {
      PopPending(m, item, r);
    }
  }

  /** A pop with a new record outputs the least unseen rank, and exactly that rank leaves. */
  lemma EmitLeast(m: Merge, item: HeapItem)
    requires Primed(m) && Ahead(m) && Minimal(item, m.heap)
    requires m.last.Some? ==> RankOf(m.last.value) != RankOf(item.record)
    ensures var p := Popped(m, item).(last := Some(item.record));
      && Primed(p) && Ahead(p) && Emits(m, p, item.record)
      && (forall r :: Pending(p, r) ==> Pending(m, r))
  {
    var p := Popped(m, item).(last := Some(item.record));
    PopKeepsPrimed(m, item, p.last);
    assert Pending(m, item.record);
    if m.last.Some? {
      BelowTotal(RankOf(m.last.value), RankOf(item.record));
    }
    forall r
      ensures Pending(p, r) <==> Pending(Popped(m, item), r)
      ensures Pending(p, r) ==> Pending(m, r)
      ensures Pending(m, r) ==> r == item.record || Pending(p, r)
      ensures Pending(p, r) ==> !Before(r, item.record)
    {
      PopPending(m, item, r);
      if Pending(p, r) {
        PopIsLeastPending(m, item, r);
      }
    }
    forall k | Unseen(m, k) && k != RankOf(item.record)
      ensures Below(RankOf(item.record), k)
    {
      BelowTotal(RankOf(item.record), k);
    }
  }

  /** From m to p, r was output: a pending record whose rank was the least unseen one, and
      whose rank is all that left. */
  ghost predicate Emits(m: Merge, p: Merge, r: Record) {
    && Unseen(m, RankOf(r)) && Pending(m, r)
    && p.last == Some(r)
    && (m.last.Some? ==> Before(m.last.value, r))
    && (forall k :: Unseen(m, k) && k != RankOf(r) ==> Below(RankOf(r), k))
    && (forall k :: Unseen(p, k) <==> Unseen(m, k) && k != RankOf(r))
  }

  lemma EmptyHeapMeansDone(m: Merge)
    requires Primed(m) && m.heap == {}
    ensures forall k :: !Unseen(m, k)
  {
    assert forall i :: 0 <= i < |m.rests| ==> m.rests[i] == [];
  }

  lemma SortedSnoc(s: seq<Record>, r: Record)
    requires Sorted(s) && (s != [] ==> Before(s[|s| - 1], r))
    ensures Sorted(s + [r])
  {
    forall i, j | 0 <= i < j < |s| + 1
      ensures Before((s + [r])[i], (s + [r])[j])
    {
      if j == |s| && i < |s| - 1 {
        BelowTransitive(RankOf(s[i]), RankOf(s[|s| - 1]), RankOf(r));
      }
    }
  }

  /** Sources below n have given their first record to the heap; the others are untouched. */
  ghost predicate PrimedBelow(all: seq<seq<Record>>, m: Merge, n: nat) {
    && |m.rests| == |all|
    && (forall h :: h in m.heap ==> h.idx < n && h.idx < |all| && all[h.idx] != [] && h.record == all[h.idx][0])
    && (forall i :: 0 <= i < |all| ==>
          if i < n && all[i] != [] then m.rests[i] == all[i][1..] && HeapItem(all[i][0], i) in m.heap
          else m.rests[i] == all[i])
  }

  lemma PrimedInTheEnd(all: seq<seq<Record>>, m: Merge)
    requires PrimedBelow(all, m, |all|)
    requires forall i :: 0 <= i < |all| ==> Sorted(all[i])
    ensures Primed(m)
    ensures forall r :: Pending(m, r) <==> exists i :: 0 <= i < |all| && r in all[i]
  {
    forall i | 0 <= i < |m.rests|
      ensures Sorted(m.rests[i])
    {
      assert Sorted(all[i]);
    }
    forall h, r | h in m.heap && r in m.rests[h.idx]
      ensures Before(h.record, r)
    {
      assert Sorted(all[h.idx]);
    }
    forall g, h | g in m.heap && h in m.heap && g.idx == h.idx
      ensures g == h
    {
    }
    forall i, r | 0 <= i < |all| && r in all[i]
      ensures Pending(m, r)
    {
      if r == all[i][0] {
        assert HeapItem(r, i) in m.heap;
      } else {
        assert r in m.rests[i];
      }
    }
    forall r | Pending(m, r)
      ensures exists i :: 0 <= i < |all| && r in all[i]
    {
      if h :| h in m.heap && h.record == r {
        assert r in all[h.idx];
      } else {
        var i :| 0 <= i < |m.rests| && r in m.rests[i];
        assert r in all[i];
      }
    }
  }

  lemma PrimeStep(all: seq<seq<Record>>, m: Merge, n: nat)
    requires n < |all| && PrimedBelow(all, m, n)
    ensures PrimedBelow(all, Filled(m, n), n + 1)
  {
  }

  ghost function Outputs(memtable: Option<Cursor>, tables: seq<Cursor>): (s: seq<seq<Record>>)
    ensures |s| == |tables| + 1
  {
    [if memtable.Some? then Rest(memtable.value) else []]
    + seq(|tables|, i requires 0 <= i < |tables| => Rest(tables[i]))
  }

  ghost predicate ValidSources(memtable: Option<Cursor>, tables: seq<Cursor>) {
    && (memtable.Some? ==> ValidCursor(memtable.value))
    && (forall i :: 0 <= i < |tables| ==> ValidCursor(tables[i]))
  }

  lemma OutputsSorted(memtable: Option<Cursor>, tables: seq<Cursor>)
    requires ValidSources(memtable, tables)
    ensures forall i :: 0 <= i < |tables| + 1 ==> Sorted(Outputs(memtable, tables)[i])
  {
    forall i | 0 <= i < |tables| + 1
      ensures Sorted(Outputs(memtable, tables)[i])
    {
      if i > 0 {
        RestIsFilter(tables[i - 1]);
      } else if memtable.Some? {
        RestIsFilter(memtable.value);
      }
    }
  }

  ghost predicate HasRank(s: seq<Record>, k: Rank) {
    exists r :: r in s && RankOf(r) == k
  }

  /** The k-way merge. `heap` is the binary heap, popped at any minimal entry; `last` is the
      record output last, against which duplicates are dropped. */
  class MergeIter {
    var heap: set<HeapItem>
    var memtable: Option<Cursor>
    var tables: seq<Cursor>
    var last: Option<Record>

    ghost function View(): Merge
      reads this
    {
      Merge(heap, Outputs(memtable, tables), last)
    }

    /** An entry of source 0 exists only with a memtable, so `refil` never computes 0 - 1. */
    ghost predicate Valid()
      reads this
    {
      && ValidSources(memtable, tables)
      && (forall h :: h in heap && h.idx == 0 ==> memtable.Some?)
      && Primed(View()) && Ahead(View())
    }

    constructor (memtable: Option<Cursor>, tables: seq<Cursor>)
      requires ValidSources(memtable, tables)
      ensures Valid() && last.None?
      ensures forall r :: Pending(View(), r) <==>
        exists i :: 0 <= i < |tables| + 1 && r in Outputs(memtable, tables)[i]
    {
      this.heap, this.memtable, this.tables, this.last := {}, memtable, tables, None;
      new;
      ghost var all := Outputs(memtable, tables);
      OutputsSorted(memtable, tables);
      for i := 0 to |tables| + 1
        invariant ValidSources(this.memtable, this.tables)
        invariant |this.tables| == |tables|
        invariant this.memtable.Some? == memtable.Some?
        invariant PrimedBelow(all, View(), i) && this.last.None?
      {
        PrimeStep(all, View(), i);
        Fill(i);
      }
      PrimedInTheEnd(all, View());
    }

    /** Pulls the next record of source n into the heap, if it has one: `refil`, and the
        priming of `new`. */
    method Fill(n: nat)
      requires n <= |tables| && ValidSources(memtable, tables)
      modifies this
      ensures ValidSources(memtable, tables)
      ensures memtable.Some? == old(memtable.Some?) && |tables| == old(|tables|)
      ensures View() == Filled(old(View()), n)
    {
      if n > 0 {
        FillFromTable(n - 1);
      } else if memtable.Some? {
        FillFromMemtable();
      }
    }

    method FillFromMemtable()
      requires memtable.Some? && ValidCursor(memtable.value)
      modifies this`heap, this`memtable
      ensures memtable.Some? && ValidCursor(memtable.value)
      ensures View() == Filled(old(View()), 0)
    {
      ghost var before := View();
      var r, c := Advance(memtable.value);
      memtable := Some(c);
      if r.Some? {
        heap := heap + {HeapItem(r.value, 0)};
        assert before.rests[0][1..] == Rest(c);
      }
      assert View().rests == Filled(before, 0).rests;
    }

    method FillFromTable(i: nat)
      requires i < |tables| && ValidCursor(tables[i])
      modifies this`heap, this`tables
      ensures |tables| == old(|tables|) && ValidCursor(tables[i])
      ensures forall j :: 0 <= j < |tables| && j != i ==> tables[j] == old(tables[j])
      ensures View() == Filled(old(View()), i + 1)
    {
      ghost var before := View();
      var r, c := Advance(tables[i]);
      assert before.rests[i + 1] == Rest(tables[i]);
      tables := tables[i := c];
      if r.Some? {
        heap := heap + {HeapItem(r.value, i + 1)};
        assert before.rests[i + 1][1..] == Rest(c);
      }
      assert View().rests == Filled(before, i + 1).rests;
    }

    method Pop() returns (item: HeapItem)
      requires Valid() && heap != {}
      modifies this
      ensures Minimal(item, old(heap))
      ensures old(Primed(View())) && View() == Popped(old(View()), item)
      ensures ValidSources(memtable, tables)
      ensures forall h :: h in heap && h.idx == 0 ==> memtable.Some?
    {
      item := Least(heap);
      heap := heap - {item};
      Fill(item.idx);
    }

    /** One turn of the loop of `next`: a fresh record is output, a repeated one dropped. */
    method Turn() returns (record: Record, isNew: bool)
      requires Valid() && heap != {}
      modifies this
      ensures Valid() && Size(View()) < Size(old(View()))
      ensures forall x :: Pending(View(), x) ==> Pending(old(View()), x)
      ensures isNew ==> Emits(old(View()), View(), record)
      ensures !isNew ==> last == old(last) && forall k :: Unseen(View(), k) <==> Unseen(old(View()), k)
    {
      ghost var m := View();
      var item := Pop();
      record := item.record;
      PopShrinks(m, item);
      isNew := !(last.Some? && RankOf(last.value) == RankOf(record));
      if isNew {
        Output(m, item);
      } else {
        SkipDuplicate(m, item);
      }
    }

    method Output(ghost m: Merge, item: HeapItem)
      requires Primed(m) && Ahead(m) && Minimal(item, m.heap) && View() == Popped(m, item)
      requires m.last.Some? ==> RankOf(m.last.value) != RankOf(item.record)
      modifies this`last
      ensures View() == Popped(m, item).(last := Some(item.record))
      ensures Primed(View()) && Ahead(View()) && Emits(m, View(), item.record)
      ensures forall x :: Pending(View(), x) ==> Pending(m, x)
    {
      EmitLeast(m, item);
      last := Some(item.record);
      assert View() == Popped(m, item).(last := Some(item.record));
    }

    /** Yields the least rank not yet output and removes exactly that rank; ends only when
        none is left. */
    method Next() returns (r: Option<Record>)
      requires Valid()
      modifies this
      ensures Valid()
      ensures r.None? ==> last == old(last) && forall k :: !Unseen(old(View()), k) && !Unseen(View(), k)
      ensures r.Some? ==> Emits(old(View()), View(), r.value) && Size(View()) < Size(old(View()))
      ensures forall x :: Pending(View(), x) ==> Pending(old(View()), x)
    {
      while heap != {}
        invariant Valid()
        invariant last == old(last)
        invariant forall k :: Unseen(View(), k) <==> Unseen(old(View()), k)
        invariant forall x :: Pending(View(), x) ==> Pending(old(View()), x)
        invariant Size(View()) <= Size(old(View()))
        decreases Size(View())
      {
        var record, isNew := Turn();
        if isNew {
          return Some(record);
        }
      }
      EmptyHeapMeansDone(View());
      r := None;
    }

    /** Draining a fresh merge: strictly sorted, every record from a source, and every rank of
        every source present. The loop terminates because each step consumes an entry. */
    method Drain() returns (out: seq<Record>)
      requires Valid() && last.None?
      modifies this
      ensures Sorted(out)
      ensures forall r :: r in out ==> Pending(old(View()), r)
      ensures forall k :: HasRank(out, k) <==> HoldsRank(old(View()), k)
    {
      out := [];
      var more := true;
      while more
        invariant Valid() && Drained(old(View()), View(), out)
        invariant !more ==> forall k :: !Unseen(View(), k)
        decreases more, Size(View())
      {
        out, more := Pull(out, old(View()));
      }
    }

    /** One turn of the draining loop. */
    method Pull(done: seq<Record>, ghost start: Merge) returns (out: seq<Record>, more: bool)
      requires Valid() && Drained(start, View(), done)
      modifies this
      ensures Valid() && Drained(start, View(), out)
      ensures more ==> Size(View()) < Size(old(View()))
      ensures !more ==> forall k :: !Unseen(View(), k)
    {
      out := done;
      var r := Next();
      more := r.Some?;
      if more {
        SortedSnoc(done, r.value);
        HasRankSnoc(done, r.value);
        out := done + [r.value];
      }
    }
  }

  /** What a drain has put out, and what is still to come, make up what there was at the start. */
  ghost predicate Drained(start: Merge, m: Merge, out: seq<Record>) {
    && Sorted(out) && m.last == (if out == [] then None else Some(out[|out| - 1]))
    && (forall r :: r in out ==> Pending(start, r))
    && (forall k :: HoldsRank(start, k) <==> Unseen(m, k) || HasRank(out, k))
    && (forall x :: Pending(m, x) ==> Pending(start, x))
  }

  lemma HasRankSnoc(s: seq<Record>, r: Record)
    ensures forall k :: HasRank(s + [r], k) <==> HasRank(s, k) || k == RankOf(r)
  {
    forall k
      ensures HasRank(s + [r], k) <==> HasRank(s, k) || k == RankOf(r)
    {
      if HasRank(s, k) {
        var x :| x in s && RankOf(x) == k;
        assert x in s + [r];
      }
      assert r in s + [r];
    }
  }
}

/** The engine and its log as objects that update their fields in place, and the range query
    over memtables and table files. */
module CoreEngine {
  import opened Bytes
  import opened CoreRecord
  import opened CoreMemtable
  import opened CoreIter
  import Sy = CoreSystem

  datatype Result<+T> = Ok(value: T) | Err

  /** `SSTableMeta`: the table's records and its file size. */
  datatype Meta = Meta(recs: seq<Record>, size: nat)

  function Tables(m: map<nat, Meta>): map<nat, seq<Record>> {
    map id | id in m :: m[id].recs
  }

  /** The files of the data directory; `active` is the log file the writer has open. */
  class Disk {
    var active: seq<Record>
    var wals: map<nat, seq<Record>>
    var files: map<nat, seq<Record>>
  }

  /** Which step of a rotation fails, if any: the flush of the buffer, the rename of the file,
      the opening of the next one, or the second handle for it. */
  datatype RotateIo = NoFailure | FlushFails | RenameFails | ReopenFails | CloneFails

  class Wal {
    const disk: Disk
    var buf: seq<Record>
    var renamedTo: Option<nat>
    var spare: bool

    constructor (disk: Disk)
      ensures this.disk == disk && buf == [] && renamedTo == None && !spare
    {
      this.disk, buf, renamedTo, spare := disk, [], None, false;
    }

    method Write(recs: seq<Record>)
      modifies this`buf
      ensures buf == old(buf) + recs
    {
      buf := buf + recs;
    }

    method FlushBuffer()
      modifies this`buf, disk`active
      ensures buf == [] && disk.active == old(disk.active + buf)
    {
      disk.active := disk.active + buf;
      buf := [];
    }

    /** Renames the log that stands in the active place to number id and opens a new one. After
        a failure behind the rename the writer stays on the file it has open. Then the active
        place is empty, and a rename must fail, unless the new file had been created. */
    method Rotate(id: nat, io: RotateIo) returns (ok: bool)
      requires renamedTo.Some? && !spare ==> io.FlushFails? || io.RenameFails?
      modifies this, disk
      ensures ok <==> io.NoFailure?
      ensures disk.files == old(disk.files)
      ensures io.NoFailure? ==> buf == [] && disk.active == [] && renamedTo == None && !spare
      ensures io.NoFailure? && old(renamedTo).None? ==> disk.wals == old(disk.wals)[id := old(disk.active + buf)]
      ensures io.NoFailure? && old(renamedTo).Some? ==>
        disk.wals == old(disk.wals)[old(renamedTo).value := old(disk.active + buf)][id := []]
      ensures io.FlushFails? ==> buf == old(buf) && disk.active == old(disk.active)
      ensures !io.NoFailure? && !io.FlushFails? ==> buf == [] && disk.active == old(disk.active + buf)
      ensures io.FlushFails? || io.RenameFails? ==>
        disk.wals == old(disk.wals) && renamedTo == old(renamedTo) && spare == old(spare)
      ensures io.ReopenFails? || io.CloneFails? ==>
        && renamedTo == (if old(renamedTo).None? then Some(id) else old(renamedTo)) && spare == io.CloneFails?
        && disk.wals == if old(renamedTo).None? then old(disk.wals) - {id} else old(disk.wals)[id := []]
    {
      if io.FlushFails? {
        return false;
      }
      FlushBuffer();
      if io.RenameFails? {
        return false;
      }
      ok, spare := io.NoFailure?, io.CloneFails?;
      if renamedTo.Some? {
        if ok {
          disk.wals := disk.wals[renamedTo.value := disk.active];
          renamedTo := None;
        }
        disk.wals := disk.wals[id := []];
      } else if ok {
        disk.wals := disk.wals[id := disk.active];
      } else {
        disk.wals := disk.wals - {id};
        renamedTo := Some(id);
      }
      if ok {
        disk.active := [];
      }
    }
  }

  /** A Bloom filter never denies a source and key that the table holds. */
  ghost predicate BloomSound(tables: map<nat, Meta>, bloom: (nat, i64, Str) -> bool) {
    forall id, r :: id in tables && r in tables[id].recs ==> bloom(id, r.source, r.key)
  }

  /** The index lands on a record no later than the first one at or above the start bound. */
  ghost predicate SeekSound(tables: map<nat, Meta>, seek: (nat, Record) -> nat) {
    forall id, b :: id in tables ==>
      seek(id, b) <= |tables[id].recs| && forall i :: 0 <= i < seek(id, b) ==> Before(tables[id].recs[i], b)
  }

  class Engine {
    const memtable: MemTable
    const wal: Wal
    var frozen: map<nat, seq<Record>>
    var ssts: map<nat, Meta>
    var compacting: set<nat>
    var sstCounter: nat
    var seqCounter: nat

    ghost predicate Valid()
      reads this, memtable
    {
      && Sorted(memtable.bset)
      && (forall id :: id in frozen ==> Sorted(frozen[id]))
      && (forall id :: id in ssts ==> Sorted(ssts[id].recs))
    }

    ghost predicate Sees(r: Record)
      reads this, memtable
    {
      Sy.Sees(memtable.bset, frozen, Tables(ssts), r)
    }

    /** The window of every in-memory table, as one ordered set. */
    method MemoryWindow(source: i64, start: i64, end: i64, ghost known: set<Record>) returns (recs: seq<Record>)
      requires Valid() && 0 <= start <= end
      requires Consistent(known) && forall r :: r in memtable.bset || Sy.InMap(frozen, r) ==> r in known
      ensures Sorted(recs)
      ensures forall r :: r in recs <==>
        InWindow(r, source, start, end) && (r in memtable.bset || Sy.InMap(frozen, r))
    {
      recs := memtable.CloneRange(source, start, end);
      var ids := frozen.Keys;
      while ids != {}
        invariant Sorted(recs) && ids <= frozen.Keys
        invariant forall r :: r in recs <==>
          InWindow(r, source, start, end) && (r in memtable.bset || Sy.InMap(frozen - ids, r))
        decreases |ids|
      {
        var id := Sy.Min(ids);
        SliceIsWindow(frozen[id], source, start, end);
        var part := Slice(frozen[id], Bound(source, start, []), Bound(source, end, []));
        OneMoreTable(frozen, ids, id);
        assert forall r :: r in part ==> Sy.InMap(frozen, r);
        assert Elems(recs) + Elems(part) <= known by {
          assert forall r :: Sy.InMap(frozen - ids, r) ==> Sy.InMap(frozen, r);
        }
        InsertAllKeepsOrder(recs, part);
        ghost var before := recs;
        recs := InsertAll(recs, part);
        ids := ids - {id};
        assert forall r :: r in recs <==> r in Elems(recs);
        assert forall r :: r in recs <==> r in before || r in part;
      }
      assert frozen - {} == frozen;
    }

    /** The scan of one table, unless the Bloom filter rules it out or it does not open. */
    method ScanTable(scans: seq<Cursor>, id: nat, q: Query, bloom: (nat, i64, Str) -> bool,
                     seek: (nat, Record) -> nat, opens: set<nat>)
      returns (more: seq<Cursor>)
      requires Valid() && 0 <= q.start <= q.end && id in ssts
      requires BloomSound(ssts, bloom) && SeekSound(ssts, seek)
      requires forall i :: 0 <= i < |scans| ==> ValidCursor(scans[i])
      ensures forall i :: 0 <= i < |more| ==> ValidCursor(more[i])
      ensures forall r :: InScans(more, r) <==>
        InScans(scans, r) || (id in opens && Matches(r, q) && r in ssts[id].recs)
    {
      if !bloom(id, q.source, q.key) || id !in opens {
        return scans;
      }
      var at := seek(id, Bound(q.source, q.start, q.key));
      var c := Filtered(ssts[id].recs[at..], q);
      SeekLosesNothing(ssts[id].recs, at, q);
      ScansSnoc(scans, c);
      more := scans + [c];
    }

    /** The scans of the tables that the Bloom filter does not rule out and that open. */
    method TableScans(q: Query, bloom: (nat, i64, Str) -> bool, seek: (nat, Record) -> nat, opens: set<nat>)
      returns (scans: seq<Cursor>)
      requires Valid() && 0 <= q.start <= q.end
      requires BloomSound(ssts, bloom) && SeekSound(ssts, seek)
      ensures forall i :: 0 <= i < |scans| ==> ValidCursor(scans[i])
      ensures forall r :: InScans(scans, r) <==> Matches(r, q) && InTables(ssts, ssts.Keys * opens, r)
    {
      scans := [];
      var ids := ssts.Keys;
      while ids != {}
        invariant ids <= ssts.Keys
        invariant forall i :: 0 <= i < |scans| ==> ValidCursor(scans[i])
        invariant forall r :: InScans(scans, r) <==> Matches(r, q) && InTables(ssts, (ssts.Keys - ids) * opens, r)
        decreases |ids|
      {
        var id := Sy.Min(ids);
        OneMoreScanned(ssts, ids, id, opens);
        scans := ScanTable(scans, id, q, bloom, seek, opens);
        ids := ids - {id};
      }
      assert (ssts.Keys - {}) * opens == ssts.Keys * opens;
    }

    /** A range query over every tier: strictly sorted, no duplicates, and exactly the
        readable records that match. Only tables whose file opens are readable. */
    method Range(q: Query, bloom: (nat, i64, Str) -> bool, seek: (nat, Record) -> nat, opens: set<nat>,
                 ghost known: set<Record>)
      returns (res: Result<seq<Record>>)
      requires Valid() && BloomSound(ssts, bloom) && SeekSound(ssts, seek)
      requires Consistent(known) && forall r :: Sees(r) ==> r in known
      ensures res.Err? <==> q.start > q.end || q.start < 0
      ensures res.Ok? ==> Sorted(res.value)
      ensures res.Ok? ==> forall r :: r in res.value <==>
        Matches(r, q) && (r in memtable.bset || Sy.InMap(frozen, r) || InTables(ssts, ssts.Keys * opens, r))
      ensures res.Ok? && ssts.Keys <= opens ==> forall r :: r in res.value <==> Matches(r, q) && Sees(r)
    {
      if q.start > q.end || q.start < 0 {
        return Err;
      }
      TablesAreSeen(ssts, opens);
      var memory := MemoryWindow(q.source, q.start, q.end, known);
      var scans := TableScans(q, bloom, seek, opens);
      var c := Memory(memory, q);
      var merge := new MergeIter(Some(c), scans);
      ghost var m := merge.View();
      forall r
        ensures Pending(m, r) <==>
          Matches(r, q) && (r in memtable.bset || Sy.InMap(frozen, r) || InTables(ssts, ssts.Keys * opens, r))
      {
        RestIsFilter(c);
        SourcesOfMerge(c, scans, r);
      }
      var out := merge.Drain();
      DrainedIsPending(m, out, known);
      res := Ok(out);
    }

    /** `prepare_flush`: the memtable becomes the frozen table of a new id. */
    method PrepareFlush() returns (recs: seq<Record>, id: nat)
      requires Valid()
      modifies this, memtable
      ensures Valid()
      ensures recs == old(memtable.bset) && id == old(sstCounter) && sstCounter == id + 1
      ensures memtable.bset == [] && frozen == old(frozen)[id := recs]
      ensures ssts == old(ssts) && compacting == old(compacting) && seqCounter == old(seqCounter)
    {
      id := sstCounter;
      sstCounter := sstCounter + 1;
      recs := memtable.Freeze();
      frozen := frozen[id := recs];
    }

    /** Numbers the records, logs them, then inserts them; true when a flush is due. */
    method BatchInsert(items: seq<Sy.Item>) returns (needsFlush: bool)
      requires Valid() && seqCounter + |items| <= 0xFFFF_FFFF_FFFF_FFFF
      modifies this`seqCounter, memtable, wal`buf
      ensures Valid()
      ensures var recs := Sy.Number(items, old(seqCounter));
        memtable.bset == InsertAll(old(memtable.bset), recs) && wal.buf == old(wal.buf) + recs
      ensures seqCounter == old(seqCounter) + |items|
      ensures needsFlush <==> items != [] && memtable.sz > memtable.limit
    {
      ghost var all := Sy.Number(items, seqCounter);
      var recs := [];
      for i := 0 to |items|
        modifies this`seqCounter
        invariant |recs| == i && recs == all[..i] && seqCounter == old(seqCounter) + i
      {
        recs := recs + [Record(items[i].source, items[i].ts, seqCounter, items[i].key, items[i].value)];
        seqCounter := seqCounter + 1;
      }
      assert recs == all;
      wal.Write(recs);
      needsFlush := false;
      for i := 0 to |recs|
        modifies memtable
        invariant Valid()
        invariant InsertAll(memtable.bset, recs[i..]) == InsertAll(old(memtable.bset), recs)
        invariant needsFlush <==> i > 0 && memtable.sz > memtable.limit
      {
        assert recs[i..][1..] == recs[i + 1..];
        var full := memtable.Put(recs[i]);
        if full {
          needsFlush := true;
        }
      }
    }

    /** The n oldest tables that no compaction is working on. */
    method OldestIds(n: nat) returns (ids: seq<nat>)
      ensures ids == Sy.Oldest(ssts.Keys - compacting, n)
    {
      ids := [];
      var left := ssts.Keys;
      while left != {} && |ids| < n
        invariant left <= ssts.Keys && |ids| <= n
        invariant ids + Sy.Oldest(left - compacting, n - |ids|) == Sy.Oldest(ssts.Keys - compacting, n)
        decreases |left|
      {
        var id := Sy.Min(left);
        OldestOfRest(left, compacting, n - |ids|);
        if id !in compacting {
          ids := ids + [id];
        }
        left := left - {id};
      }
      assert left - compacting == {} || |ids| == n;
    }

    method TotalSize() returns (total: nat)
      ensures total == SizeOf(ssts)
    {
      total := 0;
      var left := ssts;
      while left != map[]
        invariant total + SizeOf(left) == SizeOf(ssts)
        decreases |left|
      {
        var id := Sy.Min(left.Keys);
        total := total + left[id].size;
        left := left - {id};
      }
    }

    constructor (disk: Disk, limit: nat)
      ensures Valid() && memtable.bset == [] && memtable.limit == limit && wal.disk == disk
      ensures wal.buf == [] && wal.renamedTo == None && !wal.spare
      ensures frozen == map[] && ssts == map[] && compacting == {} && sstCounter == 1 && seqCounter == 1
    {
      memtable := new MemTable(limit);
      wal := new Wal(disk);
      frozen, ssts, compacting, sstCounter, seqCounter := map[], map[], {}, 1, 1;
    }
  }

  function SizeOf(m: map<nat, Meta>): nat
    decreases |m|
  {
    if m == map[] then 0
    else
      var id := Sy.Min(m.Keys);
      assert (m - {id}).Keys == m.Keys - {id};
      m[id].size + SizeOf(m - {id})
  }

  lemma OldestOfRest(left: set<nat>, out: set<nat>, n: nat)
    requires left != {} && n > 0
    ensures var id := Sy.Min(left);
      Sy.Oldest(left - out, n) ==
        if id in out then Sy.Oldest((left - {id}) - out, n) else [id] + Sy.Oldest((left - {id}) - out, n - 1)
  {
    var id := Sy.Min(left);
    if id in out {
      assert (left - {id}) - out == left - out;
    } else {
      assert id in left - out && Sy.Min(left - out) == id;
      assert (left - {id}) - out == (left - out) - {id};
    }
  }

  lemma TablesAreSeen(m: map<nat, Meta>, opens: set<nat>)
    ensures forall r :: InTables(m, m.Keys * opens, r) ==> Sy.InMap(Tables(m), r)
    ensures m.Keys <= opens ==> forall r :: InTables(m, m.Keys * opens, r) <==> Sy.InMap(Tables(m), r)
  {
    var t := Tables(m);
    forall r
      ensures InTables(m, m.Keys * opens, r) ==> Sy.InMap(t, r)
    {
      if InTables(m, m.Keys * opens, r) {
        var id :| id in m && id in m.Keys * opens && r in m[id].recs;
        assert id in t && r in t[id];
      }
    }
    if m.Keys <= opens {
      forall r | Sy.InMap(t, r)
        ensures InTables(m, m.Keys * opens, r)
      {
        var id :| id in t && r in t[id];
        assert id in m && id in m.Keys * opens && r in m[id].recs;
      }
    }
  }

  lemma SourcesOfMerge(c: Cursor, scans: seq<Cursor>, r: Record)
    ensures (exists i :: 0 <= i < |scans| + 1 && r in Outputs(Some(c), scans)[i]) <==> r in Rest(c) || InScans(scans, r)
  {
    var o := Outputs(Some(c), scans);
    if r in Rest(c) { assert r in o[0]; }
    if InScans(scans, r) {
      var i :| 0 <= i < |scans| && r in Rest(scans[i]);
      assert r in o[i + 1];
    }
    if i :| 0 <= i < |scans| + 1 && r in o[i] {
      if i > 0 { assert r in Rest(scans[i - 1]); }
    }
  }

  /** When ranks identify records, draining a merge yields exactly what was pending. */
  lemma DrainedIsPending(m: CoreIter.Merge, out: seq<Record>, known: set<Record>)
    requires Consistent(known) && forall r :: Pending(m, r) ==> r in known
    requires forall r :: r in out ==> Pending(m, r)
    requires forall k :: HasRank(out, k) <==> HoldsRank(m, k)
    ensures forall r :: r in out <==> Pending(m, r)
  {
    forall r | Pending(m, r)
      ensures r in out
    {
      assert HoldsRank(m, RankOf(r));
      var x :| x in out && RankOf(x) == RankOf(r);
    }
  }

  ghost predicate InScans(scans: seq<Cursor>, r: Record) {
    exists i :: 0 <= i < |scans| && r in Rest(scans[i])
  }

  ghost predicate InTables(m: map<nat, Meta>, ids: set<nat>, r: Record) {
    exists id :: id in m && id in ids && r in m[id].recs
  }

  lemma ScansSnoc(scans: seq<Cursor>, c: Cursor)
    ensures forall r :: InScans(scans + [c], r) <==> InScans(scans, r) || r in Rest(c)
  {
    var t := scans + [c];
    forall r
      ensures InScans(t, r) <==> InScans(scans, r) || r in Rest(c)
    {
      if InScans(scans, r) {
        var i :| 0 <= i < |scans| && r in Rest(scans[i]);
        assert t[i] == scans[i];
      }
      if r in Rest(c) { assert t[|scans|] == c; }
    }
  }

  lemma OneMoreScanned(tables: map<nat, Meta>, ids: set<nat>, id: nat, opens: set<nat>)
    requires ids <= tables.Keys && id in ids
    ensures forall r :: InTables(tables, (tables.Keys - (ids - {id})) * opens, r) <==>
      InTables(tables, (tables.Keys - ids) * opens, r) || (id in opens && r in tables[id].recs)
  {
    var done := (tables.Keys - ids) * opens;
    if id in opens {
      assert (tables.Keys - (ids - {id})) * opens == done + {id};
      TablesPlus(tables, done, id);
    } else {
      assert (tables.Keys - (ids - {id})) * opens == done;
    }
  }

  lemma TablesPlus(m: map<nat, Meta>, ids: set<nat>, id: nat)
    requires id in m
    ensures forall r :: InTables(m, ids + {id}, r) <==> InTables(m, ids, r) || r in m[id].recs
  {
  }

  lemma OneMoreTable(m: map<nat, seq<Record>>, ids: set<nat>, id: nat)
    requires id in ids && ids <= m.Keys
    ensures forall r :: Sy.InMap(m - (ids - {id}), r) <==> Sy.InMap(m - ids, r) || r in m[id]
  {
    var a, b := m - ids, m - (ids - {id});
    forall r
      ensures Sy.InMap(b, r) <==> Sy.InMap(a, r) || r in m[id]
    {
      if r in m[id] { assert id in b && r in b[id]; }
      if Sy.InMap(a, r) {
        var i :| i in a && r in a[i];
        assert i in b && r in b[i];
      }
      if Sy.InMap(b, r) {
        var i :| i in b && r in b[i];
        assert i != id ==> i in a && r in a[i];
      }
    }
  }

  /** What the index skips lies below the start bound, so a scan from there misses nothing. */
  lemma SeekLosesNothing(recs: seq<Record>, at: nat, q: Query)
    requires Sorted(recs) && at <= |recs| && 0 <= q.start <= q.end
    requires forall i :: 0 <= i < at ==> Before(recs[i], Bound(q.source, q.start, q.key))
    ensures Sorted(recs[at..])
    ensures forall r :: r in Rest(Filtered(recs[at..], q)) <==> r in recs && Matches(r, q)
  {
    RestIsFilter(Filtered(recs[at..], q));
    forall r | r in recs && Matches(r, q)
      ensures r in recs[at..]
    {
      var i :| 0 <= i < |recs| && recs[i] == r;
      TableBoundsCutWindow(r, q.source, q.start, q.end);
      assert i >= at;
      assert recs[at..][i - at] == r;
    }
  }
}

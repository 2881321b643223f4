/** The storage protocol of logregator-core as a step system: one backend thread, an I/O
    worker whose jobs finish in any order or never, and the files they leave on disk. */
module CoreSystem {
  import opened Bytes
  import opened CoreRecord
  import opened CoreMemtable

  datatype Item = Item(source: i64, ts: i64, key: Str, value: Str)

  /** A background job; once `done`, its table file is written and its result is queued. */
  datatype Flush = Flush(recs: seq<Record>, done: bool)
  datatype Merge = Merge(inputs: seq<nat>, done: bool)

  /** How `Wal::rotate` ends: renamed and reopened; failed at the flush of the buffer or, with
      the buffer flushed, at the rename; or failed after it, which leaves the writer on the file
      it has open. In the last case the next log file may have been created all the same. */
  datatype Rotation = Rotated(sent: bool) | FailedEarly(flushed: bool) | FailedLate(created: bool)

  datatype Sys = Sys(
    // Engine
    mem: seq<Record>,
    frozen: map<nat, seq<Record>>,
    ssts: map<nat, seq<Record>>,
    compacting: set<nat>,
    sstCounter: nat,
    seqCounter: nat,
    // Backend
    stale: set<nat>,
    applied: set<nat>,
    nextDel: nat,
    // WAL writer: unwritten buffer, the file it writes to, that file's number if renamed, and
    // whether an empty log file then stands in the place of the active one
    buf: seq<Record>,
    active: seq<Record>,
    activeName: Option<nat>,
    spare: bool,
    // Files on disk
    wals: map<nat, seq<Record>>,
    files: map<nat, seq<Record>>,
    // I/O worker
    flushes: map<nat, Flush>,
    merges: map<nat, Merge>,
    // History, used only to state properties
    inserted: set<Record>,   // recovered at start-up or inserted since
    synced: set<Record>,     // whose log bytes have reached a file, in any life of the system
    flushIds: set<nat>,
    mergeIds: set<nat>,
    rotated: set<nat>,
    base: nat,               // sstCounter at start-up
    clobbered: bool          // some rotation renamed over an existing log
  )

  datatype Action =
    | Insert(items: seq<Item>)
    | Sync
    | IssueFlush(rotation: Rotation)
    | WriteFlush(id: nat)
    | ApplyFlush(id: nat)
    | LoseFlush(id: nat)
    | IssueMerge(count: nat, sent: bool)
    | WriteMerge(id: nat, out: seq<Record>)
    | ApplyMerge(id: nat)
    | LoseMerge(id: nat)
    | Crash(written: nat, recovered: seq<Record>)

  ghost predicate InMap(m: map<nat, seq<Record>>, r: Record) {
    exists id :: id in m && r in m[id]
  }

  ghost predicate Sees(mem: seq<Record>, frozen: map<nat, seq<Record>>, ssts: map<nat, seq<Record>>, r: Record) {
    r in mem || InMap(frozen, r) || InMap(ssts, r)
  }

  ghost predicate Stored(active: seq<Record>, wals: map<nat, seq<Record>>, files: map<nat, seq<Record>>, r: Record) {
    r in active || InMap(wals, r) || InMap(files, r)
  }

  /** What a range query can see. */
  ghost predicate Visible(s: Sys, r: Record) {
    Sees(s.mem, s.frozen, s.ssts, r)
  }

  /** What some log or table file holds. */
  ghost predicate OnDisk(s: Sys, r: Record) {
    Stored(s.active, s.wals, s.files, r)
  }

  function Number(items: seq<Item>, sn: nat): seq<Record>
    requires sn + |items| <= 0xFFFF_FFFF_FFFF_FFFF
  {
    seq(|items|, i requires 0 <= i < |items| =>
      Record(items[i].source, items[i].ts, sn + i, items[i].key, items[i].value))
  }

  function Min(s: set<nat>): (m: nat)
    requires s != {}
    ensures m in s && forall x :: x in s ==> m <= x
  {
    MinExists(s);
    var m :| m in s && forall x :: x in s ==> m <= x;
    m
  }

  lemma {:induction false} MinExists(s: set<nat>)
    requires s != {}
    ensures exists m :: m in s && forall x :: x in s ==> m <= x
  {
    var x :| x in s;
    var rest := s - {x};
    var k := x;
    if rest != {} {
      MinExists(rest);
      var m :| m in rest && forall y :: y in rest ==> m <= y;
      k := if x <= m then x else m;
    }
    forall y | y in s
      ensures k <= y
    {
      assert y == x || y in rest;
    }
    assert k in s;
  }

  /** The n least ids, in ascending order: `get_oldest_metas` over a BTreeMap. */
  function Oldest(ids: set<nat>, n: nat): (s: seq<nat>)
    ensures forall i :: i in s ==> i in ids
  {
    if n == 0 || ids == {} then [] else [Min(ids)] + Oldest(ids - {Min(ids)}, n - 1)
  }

  function MaxId(ids: set<nat>): (m: nat)
    ensures forall x :: x in ids ==> x <= m
    ensures ids != {} ==> m in ids
    ensures ids == {} ==> m == 0
  {
    if ids == {} then 0
    else
      MaxExists(ids);
      var m :| m in ids && forall x :: x in ids ==> x <= m;
      m
  }

  lemma {:induction false} MaxExists(s: set<nat>)
    requires s != {}
    ensures exists m :: m in s && forall x :: x in s ==> x <= m
  {
    var x :| x in s;
    var rest := s - {x};
    var k := x;
    if rest != {} {
      MaxExists(rest);
      var m :| m in rest && forall y :: y in rest ==> y <= m;
      k := if x >= m then x else m;
    }
    forall y | y in s
      ensures y <= k
    {
      assert y == x || y in rest;
    }
    assert k in s;
  }

  /** The deletion loop of `apply_flush_result`: it steps past n while n and n + 1 are both
      applied flushes. */
  function Advance(applied: set<nat>, n: nat): (m: nat)
    ensures n <= m
    ensures !(m in applied && m + 1 in applied)
    ensures n < m ==> forall k :: n <= k <= m ==> k in applied
    decreases MaxId(applied) + 1 - n
  {
    if n in applied && n + 1 in applied then Advance(applied, n + 1) else n
  }

  ghost predicate InInputs(inputs: seq<nat>, files: map<nat, seq<Record>>, r: Record) {
    exists i :: i in inputs && i in files && r in files[i]
  }

  ghost predicate IsMergeOf(out: seq<Record>, inputs: seq<nat>, files: map<nat, seq<Record>>) {
    Sorted(out) && forall r :: r in out <==> InInputs(inputs, files, r)
  }

  /** All records in the log files after a crash that let k buffered records through. */
  ghost predicate InLogs(s: Sys, k: nat, r: Record)
    requires k <= |s.buf|
  {
    r in s.active || r in s.buf[..k] || InMap(s.wals, r)
  }

  ghost predicate Enabled(s: Sys, a: Action) {
    match a
    case Insert(items) => s.seqCounter + |items| <= 0xFFFF_FFFF_FFFF_FFFF
    case Sync => true
    case IssueFlush(rotation) => s.mem != [] && (s.activeName.Some? && !s.spare ==> rotation.FailedEarly?)
    case WriteFlush(id) => id in s.flushes && !s.flushes[id].done
    case ApplyFlush(id) => id in s.flushes && s.flushes[id].done
    case LoseFlush(id) => id in s.flushes
    case IssueMerge(count, sent) => |Oldest(s.ssts.Keys - s.compacting, count)| >= 2
    case WriteMerge(id, out) => id in s.merges && !s.merges[id].done && IsMergeOf(out, s.merges[id].inputs, s.files)
    case ApplyMerge(id) => id in s.merges && s.merges[id].done && id in s.files
    case LoseMerge(id) => id in s.merges
    case Crash(k, recovered) =>
      k <= |s.buf| && Sorted(recovered) && forall r :: r in recovered <==> InLogs(s, k, r)
  }

  ghost function Apply(s: Sys, a: Action): Sys
    requires Enabled(s, a)
  {
    match a
    case Insert(items) => AfterInsert(s, Number(items, s.seqCounter))
    case Sync => AfterSync(s)
    case IssueFlush(rotation) => AfterRotation(AfterFreeze(s), s.sstCounter, s.mem, rotation)
    case WriteFlush(id) => AfterWriteFlush(s, id, s.flushes[id].recs)
    case ApplyFlush(id) => AfterFlush(s, id, s.flushes[id].recs)
    case LoseFlush(id) => AfterLoseFlush(s, id)
    case IssueMerge(count, sent) => AfterIssueMerge(s, Oldest(s.ssts.Keys - s.compacting, count), sent)
    case WriteMerge(id, out) => AfterWriteMerge(s, id, s.merges[id].inputs, out)
    case ApplyMerge(id) => AfterMerge(s, id, s.merges[id].inputs, s.files[id])
    case LoseMerge(id) => AfterLoseMerge(s, id)
    case Crash(k, recovered) => Reopened(s, k, recovered)
  }

  function AfterInsert(s: Sys, recs: seq<Record>): Sys {
    s.(mem := InsertAll(s.mem, recs), buf := s.buf + recs, seqCounter := s.seqCounter + |recs|,
       inserted := s.inserted + Elems(recs))
  }

  /** `flush_wal_buffer`. */
  function AfterSync(s: Sys): Sys {
    s.(active := s.active + s.buf, buf := [], synced := s.synced + Elems(s.buf))
  }

  /** `handle_flush` has written the table file and queued its result. */
  function AfterWriteFlush(s: Sys, id: nat, recs: seq<Record>): Sys {
    s.(files := s.files[id := recs], flushes := s.flushes[id := Flush(recs, true)])
  }

  function AfterLoseFlush(s: Sys, id: nat): Sys {
    s.(flushes := s.flushes - {id})
  }

  /** `handle_compaction` has written the merged table file and queued its result. */
  function AfterWriteMerge(s: Sys, id: nat, inputs: seq<nat>, out: seq<Record>): Sys {
    s.(files := s.files[id := out], merges := s.merges[id := Merge(inputs, true)])
  }

  function AfterLoseMerge(s: Sys, id: nat): Sys {
    s.(merges := s.merges - {id})
  }

  /** `prepare_flush`. */
  function AfterFreeze(s: Sys): Sys {
    s.(mem := [], frozen := s.frozen[s.sstCounter := s.mem], sstCounter := s.sstCounter + 1,
       flushIds := s.flushIds + {s.sstCounter})
  }

  /** `rotate_wal`, from the flushed buffer on, and what `send_flush_cmd` does with its result. */
  function AfterRotation(s: Sys, id: nat, recs: seq<Record>, rotation: Rotation): Sys {
    match rotation
    case FailedEarly(flushed) => if flushed then AfterSync(s) else s
    case FailedLate(created) => LeftOpen(AfterSync(s), id, created)
    case Rotated(sent) => Replaced(AfterSync(s), id, recs, sent)
  }

  /** The file in the active place is now log id: the writer's own file, or the spare one, which
      is empty. The writer stays on the file it has open. */
  function LeftOpen(s: Sys, id: nat, created: bool): Sys {
    s.(activeName := if s.activeName.None? then Some(id) else s.activeName, spare := created,
       wals := if s.activeName.None? then s.wals - {id} else s.wals[id := []],
       clobbered := s.clobbered || id in s.wals)
  }

  /** The log files when the writer has left its file, which had a name or is named id now. */
  function RotatedLogs(wals: map<nat, seq<Record>>, log: seq<Record>, id: nat, name: Option<nat>): map<nat, seq<Record>> {
    if name.None? then wals[id := log] else wals[name.value := log][id := []]
  }

  function Replaced(s: Sys, id: nat, recs: seq<Record>, sent: bool): Sys {
    s.(active := [], activeName := None, spare := false,
       wals := RotatedLogs(s.wals, s.active, id, s.activeName), clobbered := s.clobbered || id in s.wals,
       stale := s.stale + {id}, rotated := s.rotated + {id},
       flushes := if sent then s.flushes[id := Flush(recs, false)] else s.flushes)
  }

  /** `apply_flush_result`. */
  function AfterFlush(s: Sys, id: nat, recs: seq<Record>): Sys {
    var applied := s.applied + {id};
    var next := Advance(applied, s.nextDel);
    var deleted := set n | n in s.stale && s.nextDel <= n < next;
    s.(frozen := s.frozen - {id}, applied := applied, nextDel := next,
       stale := s.stale - deleted, wals := s.wals - deleted,
       ssts := s.ssts[id := recs], flushes := s.flushes - {id})
  }

  function IdSet(ids: seq<nat>): set<nat> {
    set i | i in ids
  }

  /** `send_compaction_cmd`; when the worker is gone the marks are taken back. */
  function AfterIssueMerge(s: Sys, ids: seq<nat>, sent: bool): Sys {
    var t := s.(sstCounter := s.sstCounter + 1, mergeIds := s.mergeIds + {s.sstCounter});
    if sent then
      t.(compacting := s.compacting + IdSet(ids), merges := s.merges[s.sstCounter := Merge(ids, false)])
    else t
  }

  /** `apply_compaction_result`. */
  function AfterMerge(s: Sys, id: nat, inputs: seq<nat>, recs: seq<Record>): Sys {
    var gone := IdSet(inputs);
    s.(ssts := (s.ssts - gone)[id := recs], files := s.files - gone, compacting := s.compacting - gone,
       merges := s.merges - {id})
  }

  ghost function NextSeq(s: Sys, r: seq<Record>): (n: nat)
    ensures forall x :: x in r || InMap(s.files, x) ==> x.sn < n
  {
    var sns := (set x | x in r :: x.sn as nat) + (set id, x | id in s.files && x in s.files[id] :: x.sn as nat);
    assert forall x :: x in r || InMap(s.files, x) ==> x.sn as nat in sns;
    MaxId(sns) + 1
  }

  /** A crash followed by `Engine::open` and `Backend::new`: every log is read into the
      memtable, the id counter comes from the table files alone. */
  ghost function Reopened(s: Sys, k: nat, recovered: seq<Record>): Sys
    requires k <= |s.buf|
  {
    var log := s.active + s.buf[..k];
    Sys(recovered, map[], s.files, {}, MaxId(s.files.Keys) + 1, NextSeq(s, recovered),
        {}, {}, 1,
        [], if s.activeName.None? then log else [], None, false,
        if s.activeName.None? then s.wals else s.wals[s.activeName.value := log], s.files,
        map[], map[],
        Elems(recovered) + (set id, r | id in s.files && r in s.files[id] :: r),
        s.synced + Elems(s.buf[..k]), {}, {}, {}, MaxId(s.files.Keys) + 1, s.clobbered)
  }

  /** An empty data directory. */
  function Empty(): Sys {
    Sys([], map[], map[], {}, 1, 1, {}, {}, 1, [], [], None, false, map[], map[], map[], map[],
        {}, {}, {}, {}, {}, 1, false)
  }

  ghost predicate Step(s: Sys, t: Sys) {
    exists a :: Enabled(s, a) && t == Apply(s, a)
  }

  /** A run from an empty directory: any interleaving, any number of crashes. */
  ghost predicate Run(run: seq<Sys>) {
    |run| > 0 && run[0] == Empty() && forall i :: 0 <= i < |run| - 1 ==> Step(run[i], run[i + 1])
  }
}

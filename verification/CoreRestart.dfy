/** Restart and partial compaction: when the storage protocol does lose records, exactly. */
module CoreRestart {
  import opened Bytes
  import opened CoreRecord
  import opened CoreMemtable
  import opened CoreSystem
  import opened CoreSafety
  import W = CoreWal

  ghost predicate At(m: map<nat, seq<Record>>, i: nat, r: Record) {
    i in m && r in m[i]
  }

  /** Each record has one log copy. */
  ghost predicate LogsApart(active: seq<Record>, buf: seq<Record>, wals: map<nat, seq<Record>>) {
    && (forall i, j, r :: At(wals, i, r) && At(wals, j, r) ==> i == j)
    && (forall i, r :: At(wals, i, r) ==> r !in active && r !in buf)
    && (forall r :: r in active ==> r !in buf)
  }

  /** A record in a table file has left the active log, and if its rotated log still exists
      some table file is at least as new as that log. */
  ghost predicate TablesTrailLogs(files: map<nat, seq<Record>>, active: seq<Record>, buf: seq<Record>,
                                  wals: map<nat, seq<Record>>) {
    && (forall f, r :: At(files, f, r) ==> r !in active && r !in buf)
    && (forall f: nat, j: nat, r :: At(files, f, r) && At(wals, j, r) ==> exists g :: g in files && j <= g)
  }

  /** The same of a table about to be written. */
  ghost predicate FlushesTrailLogs(flushes: map<nat, Flush>, active: seq<Record>, buf: seq<Record>,
                                   wals: map<nat, seq<Record>>) {
    && (forall id, r :: id in flushes && r in flushes[id].recs ==> r !in active && r !in buf)
    && (forall id: nat, j: nat, r :: id in flushes && r in flushes[id].recs && At(wals, j, r) ==> j <= id)
  }

  /** In memory, too, each record is in one place, and no table is empty. */
  ghost predicate TiersApart(mem: seq<Record>, frozen: map<nat, seq<Record>>, ssts: map<nat, seq<Record>>) {
    && (forall i, r :: At(frozen, i, r) || At(ssts, i, r) ==> r !in mem)
    && (forall i, j, r :: At(frozen, i, r) && At(frozen, j, r) ==> i == j)
    && (forall i, j, r :: At(ssts, i, r) && At(ssts, j, r) ==> i == j)
    && (forall i, j, r :: At(frozen, i, r) ==> !At(ssts, j, r))
    && (forall i :: i in frozen ==> frozen[i] != [])
    && (forall i :: i in ssts ==> ssts[i] != [])
  }

  ghost predicate LogsInOrder(files: map<nat, seq<Record>>, flushes: map<nat, Flush>, active: seq<Record>,
                              buf: seq<Record>, wals: map<nat, seq<Record>>) {
    && LogsApart(active, buf, wals)
    && TablesTrailLogs(files, active, buf, wals)
    && FlushesTrailLogs(flushes, active, buf, wals)
  }

  /** What the first life keeps besides; a log file holds nothing of the memtable. */
  ghost predicate Fresh(s: Sys) {
    && FirstLife(s)
    && LogsInOrder(s.files, s.flushes, s.active, s.buf, s.wals)
    && TiersApart(s.mem, s.frozen, s.ssts)
    && (forall n, r :: At(s.wals, n, r) ==> r !in s.mem)
  }

  lemma KnownRecords(s: Sys, r: Record)
    requires Inv(s)
    ensures r in s.buf || r in s.active || (exists i :: At(s.wals, i, r) || At(s.files, i, r)) ==> r in s.inserted
    ensures r in s.mem || (exists i :: At(s.frozen, i, r) || At(s.ssts, i, r)) ==> r in s.inserted
  {
    assert Stored(s.active, s.wals, s.files, r) || r in s.buf ==> r in s.inserted;
    assert Sees(s.mem, s.frozen, s.ssts, r) ==> r in s.inserted;
  }

  lemma AllKnown(s: Sys)
    requires Inv(s)
    ensures forall r ::
      r in s.buf || r in s.active || (exists i :: At(s.wals, i, r) || At(s.files, i, r)) ==> r in s.inserted
    ensures forall r :: r in s.mem || (exists i :: At(s.frozen, i, r) || At(s.ssts, i, r)) ==> r in s.inserted
    ensures Elems(s.mem) <= s.inserted
  {
    forall r
      ensures r in s.buf || r in s.active || (exists i :: At(s.wals, i, r) || At(s.files, i, r)) ==> r in s.inserted
      ensures r in s.mem || (exists i :: At(s.frozen, i, r) || At(s.ssts, i, r)) ==> r in s.inserted
    {
      KnownRecords(s, r);
    }
  }

  ghost predicate AllNew(recs: seq<Record>, known: set<Record>) {
    forall r :: r in recs ==> r !in known
  }

  lemma FreshInsert(s: Sys, items: seq<Item>)
    requires Fresh(s) && Enabled(s, Insert(items)) && FirstLife(Apply(s, Insert(items)))
    ensures Fresh(Apply(s, Insert(items)))
  {
    var recs := Number(items, s.seqCounter);
    AllKnown(s);
    InsertedRecords(s, recs);
    assert AllNew(recs, s.inserted);
    NewRecordsInOrder(s, recs);
    NewRecordsApart(s, recs);
  }

  lemma NewRecordsInOrder(s: Sys, recs: seq<Record>)
    requires Fresh(s) && AllNew(recs, s.inserted)
    ensures LogsInOrder(s.files, s.flushes, s.active, s.buf + recs, s.wals)
  {
    AllKnown(s);
    forall id, r | id in s.flushes && r in s.flushes[id].recs
      ensures r in s.inserted
    {
      assert At(s.frozen, id, r);
    }
  }

  lemma NewRecordsApart(s: Sys, recs: seq<Record>)
    requires Fresh(s) && AllNew(recs, s.inserted)
    requires forall r :: r in InsertAll(s.mem, recs) <==> r in s.mem || r in recs
    ensures TiersApart(InsertAll(s.mem, recs), s.frozen, s.ssts)
    ensures forall n, r :: At(s.wals, n, r) ==> r !in InsertAll(s.mem, recs)
  {
    AllKnown(s);
  }

  /** In the first life the active log holds the whole memtable. */
  lemma MemtableIsInActiveLog(s: Sys, r: Record)
    requires Fresh(s) && r in s.mem
    ensures r in s.active + s.buf
  {
    forall j | j in s.wals
      ensures r !in s.wals[j]
    {
      assert At(s.wals, j, r) ==> r !in s.mem;
    }
    assert Logged(s.active, s.buf, s.wals, s.stale, s.sstCounter, r);
  }

  lemma FreshIssueFlush(s: Sys, rotation: Rotation)
    requires Fresh(s) && Enabled(s, IssueFlush(rotation)) && FirstLife(Apply(s, IssueFlush(rotation)))
    ensures Fresh(Apply(s, IssueFlush(rotation)))
  {
    var t := AfterRotation(AfterFreeze(s), s.sstCounter, s.mem, rotation);
    RotationLeavesMemory(AfterFreeze(s), s.sstCounter, s.mem, rotation);
    FreezeKeepsTiersApart(s);
    RotationKeepsLogsApart(s, rotation);
  }

  lemma FreezeKeepsTiersApart(s: Sys)
    requires Fresh(s) && s.mem != []
    ensures TiersApart([], s.frozen[s.sstCounter := s.mem], s.ssts)
  {
    var f := s.frozen[s.sstCounter := s.mem];
    assert s.sstCounter !in s.frozen;
    forall i, r
      ensures At(f, i, r) <==> At(s.frozen, i, r) || (i == s.sstCounter && r in s.mem)
    {
    }
  }

  lemma RotationKeepsLogsApart(s: Sys, rotation: Rotation)
    requires Fresh(s) && Enabled(s, IssueFlush(rotation))
    ensures var t := AfterRotation(AfterFreeze(s), s.sstCounter, s.mem, rotation);
      LogsInOrder(t.files, t.flushes, t.active, t.buf, t.wals)
  {
    forall r | r in s.mem
      ensures r in s.active || r in s.buf
    {
      MemtableIsInActiveLog(s, r);
    }
    RotationInOrder(AfterFreeze(s), s.sstCounter, s.mem, rotation);
  }

  lemma RotationInOrder(s: Sys, id: nat, recs: seq<Record>, rotation: Rotation)
    requires LogsInOrder(s.files, s.flushes, s.active, s.buf, s.wals) && id !in s.wals
    requires s.activeName.Some? ==> s.activeName.value !in s.wals && s.activeName.value < id
    requires forall r :: r in recs ==> r in s.active || r in s.buf
    ensures var t := AfterRotation(s, id, recs, rotation);
      LogsInOrder(t.files, t.flushes, t.active, t.buf, t.wals)
  {
    var n := if s.activeName.None? then id else s.activeName.value;
    NewLogInOrder(s.files, s.flushes, s.active, s.buf, s.wals, n, id, recs);
    assert s.wals - {n} == s.wals;
    if s.activeName.Some? {
      SpareLogInOrder(s.files, s.flushes, s.active, s.buf, s.wals, n, id, recs);
    }
    match rotation
    case FailedEarly(_) =>
    case FailedLate(_) =>
    case Rotated(_) =>
  }

  /** The writer's file becomes log n, or stays the writer's, with or without a flush job. */
  lemma NewLogInOrder(files: map<nat, seq<Record>>, flushes: map<nat, Flush>, active: seq<Record>,
                      buf: seq<Record>, wals: map<nat, seq<Record>>, n: nat, id: nat, mem: seq<Record>)
    requires LogsInOrder(files, flushes, active, buf, wals) && n !in wals && n <= id
    requires forall r :: r in mem ==> r in active || r in buf
    ensures LogsInOrder(files, flushes, [], [], wals[n := active + buf])
    ensures LogsInOrder(files, flushes[id := Flush(mem, false)], [], [], wals[n := active + buf])
    ensures LogsInOrder(files, flushes, active + buf, [], wals - {n})
  {
    NewLogApart(active, buf, wals, n);
    NewLogBehindTables(files, active, buf, wals, n);
    NewLogBehindFlushes(flushes, active, buf, wals, n, id, mem);
  }

  /** The same when an empty log takes number id as well. */
  lemma SpareLogInOrder(files: map<nat, seq<Record>>, flushes: map<nat, Flush>, active: seq<Record>,
                        buf: seq<Record>, wals: map<nat, seq<Record>>, n: nat, id: nat, mem: seq<Record>)
    requires LogsInOrder(files, flushes, active, buf, wals) && n !in wals && id !in wals && n < id
    requires forall r :: r in mem ==> r in active || r in buf
    ensures LogsInOrder(files, flushes, [], [], wals[n := active + buf][id := []])
    ensures LogsInOrder(files, flushes[id := Flush(mem, false)], [], [], wals[n := active + buf][id := []])
    ensures LogsInOrder(files, flushes, active + buf, [], wals[id := []])
  {
    var w := wals[n := active + buf];
    NewLogInOrder(files, flushes, active, buf, wals, n, id, mem);
    EmptyLogInOrder(files, flushes, [], [], w, id);
    EmptyLogInOrder(files, flushes[id := Flush(mem, false)], [], [], w, id);
    assert wals - {n} == wals;
    EmptyLogInOrder(files, flushes, active + buf, [], wals, id);
  }

  lemma EmptyLogInOrder(files: map<nat, seq<Record>>, flushes: map<nat, Flush>, active: seq<Record>,
                        buf: seq<Record>, wals: map<nat, seq<Record>>, id: nat)
    requires LogsInOrder(files, flushes, active, buf, wals) && id !in wals
    ensures LogsInOrder(files, flushes, active, buf, wals[id := []])
  {
    var w := wals[id := []];
    assert forall i, r :: At(w, i, r) <==> At(wals, i, r);
    assert LogsApart(active, buf, w);
    assert TablesTrailLogs(files, active, buf, w);
    assert FlushesTrailLogs(flushes, active, buf, w);
  }

  lemma NewLogApart(active: seq<Record>, buf: seq<Record>, wals: map<nat, seq<Record>>, id: nat)
    requires LogsApart(active, buf, wals) && id !in wals
    ensures LogsApart([], [], wals[id := active + buf]) && LogsApart(active + buf, [], wals - {id})
  {
    var w := wals[id := active + buf];
    assert forall i, r :: At(w, i, r) <==> At(wals, i, r) || (i == id && (r in active || r in buf));
    assert wals - {id} == wals;
  }

  lemma NewLogBehindTables(files: map<nat, seq<Record>>, active: seq<Record>, buf: seq<Record>,
                           wals: map<nat, seq<Record>>, id: nat)
    requires TablesTrailLogs(files, active, buf, wals) && id !in wals
    ensures TablesTrailLogs(files, [], [], wals[id := active + buf])
    ensures TablesTrailLogs(files, active + buf, [], wals - {id})
  {
    var w := wals[id := active + buf];
    assert forall i, r :: At(w, i, r) <==> At(wals, i, r) || (i == id && (r in active || r in buf));
    assert wals - {id} == wals;
  }

  lemma NewLogBehindFlushes(flushes: map<nat, Flush>, active: seq<Record>, buf: seq<Record>,
                            wals: map<nat, seq<Record>>, n: nat, id: nat, mem: seq<Record>)
    requires FlushesTrailLogs(flushes, active, buf, wals) && LogsApart(active, buf, wals) && n !in wals && n <= id
    requires forall r :: r in mem ==> r in active || r in buf
    ensures FlushesTrailLogs(flushes, [], [], wals[n := active + buf])
    ensures FlushesTrailLogs(flushes[id := Flush(mem, false)], [], [], wals[n := active + buf])
    ensures FlushesTrailLogs(flushes, active + buf, [], wals - {n})
  {
    var w := wals[n := active + buf];
    assert forall i, r :: At(w, i, r) <==> At(wals, i, r) || (i == n && (r in active || r in buf));
    assert wals - {n} == wals;
  }

  lemma FreshApplyFlush(s: Sys, id: nat)
    requires Fresh(s) && Enabled(s, ApplyFlush(id)) && FirstLife(Apply(s, ApplyFlush(id)))
    ensures Fresh(Apply(s, ApplyFlush(id)))
  {
    var t := AfterFlush(s, id, s.flushes[id].recs);
    assert forall i, r :: At(t.wals, i, r) ==> At(s.wals, i, r);
    FlushKeepsTiersApart(s, id);
  }

  lemma FlushKeepsTiersApart(s: Sys, id: nat)
    requires Fresh(s) && id in s.frozen
    ensures TiersApart(s.mem, s.frozen - {id}, s.ssts[id := s.frozen[id]])
  {
    var f, t := s.frozen - {id}, s.ssts[id := s.frozen[id]];
    assert id !in s.ssts;
    forall i, r
      ensures At(f, i, r) <==> At(s.frozen, i, r) && i != id
      ensures At(t, i, r) <==> At(s.ssts, i, r) || (i == id && At(s.frozen, id, r))
    {
    }
  }

  lemma FreshWriteFlush(s: Sys, id: nat)
    requires Fresh(s) && Enabled(s, WriteFlush(id)) && FirstLife(Apply(s, WriteFlush(id)))
    ensures Fresh(Apply(s, WriteFlush(id)))
  {
    var t := AfterWriteFlush(s, id, s.flushes[id].recs);
    forall f: nat, j: nat, r | At(t.files, f, r) && At(t.wals, j, r)
      ensures exists g :: g in t.files && j <= g
    {
      if f == id {
        assert j <= id;
      } else {
        assert At(s.files, f, r);
        var g :| g in s.files && j <= g;
        assert g in t.files;
      }
    }
    assert forall f, r :: At(t.files, f, r) ==> At(s.files, f, r) || r in s.flushes[id].recs;
  }

  lemma FreshWriteMerge(s: Sys, id: nat, out: seq<Record>)
    requires Fresh(s) && Enabled(s, WriteMerge(id, out)) && FirstLife(Apply(s, WriteMerge(id, out)))
    ensures Fresh(Apply(s, WriteMerge(id, out)))
  {
    var t := AfterWriteMerge(s, id, s.merges[id].inputs, out);
    forall f, r | At(t.files, f, r)
      ensures exists h :: At(s.files, h, r)
    {
      if f == id {
        assert InInputs(s.merges[id].inputs, s.files, r);
        var h :| h in s.merges[id].inputs && h in s.files && r in s.files[h];
        assert At(s.files, h, r);
      } else {
        assert At(s.files, f, r);
      }
    }
    forall f: nat, j: nat, r | At(t.files, f, r) && At(t.wals, j, r)
      ensures exists g :: g in t.files && j <= g
    {
      var h :| At(s.files, h, r);
      var g :| g in s.files && j <= g;
      assert g in t.files;
    }
  }

  lemma FreshApplyMerge(s: Sys, id: nat)
    requires Fresh(s) && Enabled(s, ApplyMerge(id)) && FirstLife(Apply(s, ApplyMerge(id)))
    ensures Fresh(Apply(s, ApplyMerge(id)))
  {
    var inputs := s.merges[id].inputs;
    var t := AfterMerge(s, id, inputs, s.files[id]);
    MergeFreesInputs(s, id);
    assert id !in inputs && id in t.files;
    assert forall i, r :: At(t.files, i, r) ==> At(s.files, i, r);
    forall f: nat, j: nat, r | At(t.files, f, r) && At(t.wals, j, r)
      ensures exists g :: g in t.files && j <= g
    {
      assert At(s.files, f, r);
      var g :| g in s.files && j <= g;
      assert g in t.files || id >= g;
    }
    MergeKeepsTiersApart(s, id, inputs, s.files[id]);
  }

  /** Replacing some tables by the merge of them keeps tiers apart. */
  lemma MergeKeepsTiersApart(s: Sys, id: nat, inputs: seq<nat>, out: seq<Record>)
    requires Fresh(s) && id in s.merges && inputs == s.merges[id].inputs && IsMergeOf(out, inputs, s.files)
    ensures TiersApart(s.mem, s.frozen, (s.ssts - IdSet(inputs))[id := out])
  {
    var t := (s.ssts - IdSet(inputs))[id := out];
    assert id !in s.frozen && id !in s.ssts;
    forall i | i in inputs
      ensures i in s.ssts && s.files[i] == s.ssts[i]
    {
      assert Uses(s.merges, id, i);
    }
    forall i, r
      ensures At(t, i, r) <==>
        if i == id then exists h :: h in inputs && At(s.ssts, h, r) else i !in inputs && At(s.ssts, i, r)
    {
      if i == id && r in out {
        assert InInputs(inputs, s.files, r);
        var h :| h in inputs && h in s.files && r in s.files[h];
        assert At(s.ssts, h, r);
      }
      if h :| i == id && h in inputs && At(s.ssts, h, r) {
        assert InInputs(inputs, s.files, r);
      }
    }
    var r := s.ssts[inputs[0]][0];
    assert inputs[0] in inputs && InInputs(inputs, s.files, r);
    assert r in out;
  }

  lemma FreshSync(s: Sys)
    requires Fresh(s) && FirstLife(Apply(s, Sync))
    ensures Fresh(Apply(s, Sync))
  {
    var t := AfterSync(s);
    assert LogsApart(t.active, t.buf, t.wals);
  }

  /** Losing a job or issuing a compaction moves no record. */
  lemma FreshUnmoved(s: Sys, t: Sys)
    requires Fresh(s) && FirstLife(t)
    requires t.mem == s.mem && t.frozen == s.frozen && t.ssts == s.ssts
    requires t.active == s.active && t.activeName == s.activeName && t.buf == s.buf
    requires t.wals == s.wals && t.files == s.files && t.rotated == s.rotated
    requires forall id :: id in t.flushes ==> id in s.flushes && t.flushes[id] == s.flushes[id]
    ensures Fresh(t)
  {
  }

  lemma FreshLoseFlush(s: Sys, id: nat)
    requires Fresh(s) && Enabled(s, LoseFlush(id)) && FirstLife(Apply(s, LoseFlush(id)))
    ensures Fresh(Apply(s, LoseFlush(id)))
  {
    FreshUnmoved(s, AfterLoseFlush(s, id));
  }

  lemma FreshIssueMerge(s: Sys, count: nat, sent: bool)
    requires Fresh(s) && Enabled(s, IssueMerge(count, sent)) && FirstLife(Apply(s, IssueMerge(count, sent)))
    ensures Fresh(Apply(s, IssueMerge(count, sent)))
  {
    FreshUnmoved(s, AfterIssueMerge(s, Oldest(s.ssts.Keys - s.compacting, count), sent));
  }

  lemma FreshLoseMerge(s: Sys, id: nat)
    requires Fresh(s) && Enabled(s, LoseMerge(id)) && FirstLife(Apply(s, LoseMerge(id)))
    ensures Fresh(Apply(s, LoseMerge(id)))
  {
    FreshUnmoved(s, AfterLoseMerge(s, id));
  }

  lemma FreshAction(s: Sys, a: Action)
    requires Fresh(s) && Enabled(s, a) && !a.Crash? && FirstLife(Apply(s, a))
    ensures Fresh(Apply(s, a))
  {
    match a
    case Insert(items) => FreshInsert(s, items);
    case Sync => FreshSync(s);
    case IssueFlush(rotation) => FreshIssueFlush(s, rotation);
    case WriteFlush(id) => FreshWriteFlush(s, id);
    case ApplyFlush(id) => FreshApplyFlush(s, id);
    case LoseFlush(id) => FreshLoseFlush(s, id);
    case IssueMerge(count, sent) => FreshIssueMerge(s, count, sent);
    case WriteMerge(id, out) => FreshWriteMerge(s, id, out);
    case ApplyMerge(id) => FreshApplyMerge(s, id);
    case LoseMerge(id) => FreshLoseMerge(s, id);
  }

  lemma FreshStep(s: Sys, t: Sys)
    requires Fresh(s) && StepWithoutCrash(s, t)
    ensures Fresh(t)
  {
    FirstLifeStep(s, t);
    var a :| Enabled(s, a) && t == Apply(s, a) && !a.Crash?;
    FreshAction(s, a);
  }

  lemma {:induction false} FirstLifeIsFresh(run: seq<Sys>, i: nat)
    requires Run(run) && CrashFree(run) && i < |run|
    ensures Fresh(run[i])
  {
    if i > 0 {
      FirstLifeIsFresh(run, i - 1);
      assert StepWithoutCrash(run[i - 1], run[i - 1 + 1]);
      FreshStep(run[i - 1], run[i]);
    } else {
      RunKeepsInv(run, 0);
    }
  }

  lemma InMapAt(m: map<nat, seq<Record>>, r: Record)
    ensures InMap(m, r) <==> exists i :: At(m, i, r)
  {
    if InMap(m, r) {
      var i :| i in m && r in m[i];
      assert At(m, i, r);
    }
  }

  /** The record has a copy besides the log file of this number. */
  ghost predicate Elsewhere(t: Sys, id: nat, r: Record) {
    r in t.active || r in t.buf || (exists j :: j != id && At(t.wals, j, r)) || InMap(t.files, r)
  }

  lemma InRotatedLogs(wals: map<nat, seq<Record>>, log: seq<Record>, id: nat, name: Option<nat>, r: Record)
    requires name.Some? ==> name.value !in wals && name.value != id
    ensures InMap(RotatedLogs(wals, log, id, name), r) <==> r in log || exists j :: j != id && At(wals, j, r)
  {
    var n, w := if name.None? then id else name.value, RotatedLogs(wals, log, id, name);
    InMapAt(w, r);
    assert forall j :: At(w, j, r) <==> (j == n && r in log) || (j != id && At(wals, j, r));
    assert r in log ==> At(w, n, r);
  }

  lemma FilesAfterRotation(t: Sys, sent: bool)
    requires Enabled(t, IssueFlush(Rotated(sent)))
    ensures var u := Apply(t, IssueFlush(Rotated(sent)));
      && u.active == [] && u.files == t.files
      && u.wals == RotatedLogs(t.wals, t.active + t.buf, t.sstCounter, t.activeName)
  {
  }

  lemma OnDiskAfterRotation(t: Sys, sent: bool, r: Record)
    requires Inv(t) && Enabled(t, IssueFlush(Rotated(sent)))
    ensures OnDisk(Apply(t, IssueFlush(Rotated(sent))), r) <==> Elsewhere(t, t.sstCounter, r)
  {
    FilesAfterRotation(t, sent);
    InRotatedLogs(t.wals, t.active + t.buf, t.sstCounter, t.activeName, r);
  }

  /** At any rotation of any run: it keeps every record on disk if and only if every record of
      a log that already has its number is also in another log, in the buffer or in a table. */
  lemma RotationKeepsDiskIff(t: Sys, sent: bool)
    requires Inv(t) && Enabled(t, IssueFlush(Rotated(sent)))
    ensures var u := Apply(t, IssueFlush(Rotated(sent)));
      (forall r :: OnDisk(t, r) ==> OnDisk(u, r)) <==>
      (forall r :: At(t.wals, t.sstCounter, r) ==> Elsewhere(t, t.sstCounter, r))
  {
    var u := Apply(t, IssueFlush(Rotated(sent)));
    forall r
      ensures OnDisk(u, r) <==> Elsewhere(t, t.sstCounter, r)
      ensures OnDisk(t, r) ==> At(t.wals, t.sstCounter, r) || Elsewhere(t, t.sstCounter, r)
      ensures At(t.wals, t.sstCounter, r) ==> OnDisk(t, r)
    {
      OnDiskAfterRotation(t, sent, r);
      InMapAt(t.wals, r);
    }
  }

  /** The first flush after the first restart takes the id after the newest table file. Its
      rotation keeps every record on disk if and only if no log with records has that number:
      such a log is always the only copy. */
  lemma RestartKeepsLogsIff(run: seq<Sys>, i: nat, k: nat, recovered: seq<Record>, sent: bool)
    requires Run(run) && CrashFree(run) && i < |run|
    requires Enabled(run[i], Crash(k, recovered)) && recovered != []
    ensures var t := Apply(run[i], Crash(k, recovered));
      && Enabled(t, IssueFlush(Rotated(sent)))
      && var u := Apply(t, IssueFlush(Rotated(sent)));
         (forall r :: OnDisk(t, r) ==> OnDisk(u, r)) <==> t.sstCounter !in t.wals || t.wals[t.sstCounter] == []
  {
    FirstLifeIsFresh(run, i);
    CrashStep(run[i], k, recovered);
    var t := Reopened(run[i], k, recovered);
    RotationKeepsDiskIff(t, sent);
    if t.sstCounter in t.wals && t.wals[t.sstCounter] != [] {
      var r := t.wals[t.sstCounter][0];
      assert At(t.wals, t.sstCounter, r);
      LogOfNewestIdIsOnlyCopy(run[i], k, recovered, r);
    }
  }

  lemma LogOfNewestIdIsOnlyCopy(s: Sys, k: nat, recovered: seq<Record>, r: Record)
    requires Fresh(s) && Enabled(s, Crash(k, recovered))
    requires var t := Reopened(s, k, recovered); At(t.wals, t.sstCounter, r)
    ensures var t := Reopened(s, k, recovered); !Elsewhere(t, t.sstCounter, r)
  {
    var t := Reopened(s, k, recovered);
    var log, id := s.active + s.buf[..k], t.sstCounter;
    assert At(s.wals, id, r) || r in log;
    forall j: nat | At(t.wals, j, r)
      ensures j == id
    {
      assert At(s.wals, j, r) || (s.activeName == Some(j) && r in log);
    }
    InMapAt(t.files, r);
    forall f: nat
      ensures !At(t.files, f, r)
    {
      assert At(s.files, f, r) && At(s.wals, id, r) ==> exists g :: g in s.files && id <= g;
    }
  }

  // ---- A crash at any byte

  /** The blobs of the active log once everything buffered has been written. */
  function LogBlobs(s: Sys): seq<W.Blob> {
    W.Blobs(s.active + s.buf)
  }

  /** A crash cuts the active log at byte c, behind what had been written before. */
  ghost predicate CutsAt(s: Sys, c: nat) {
    |W.FileOf(LogBlobs(s)[..|s.active|])| <= c <= |W.FileOf(LogBlobs(s))|
  }

  /** The restart from the cut log and from all other files knows the record. */
  ghost predicate KnownAfterCut(s: Sys, c: nat, r: Record)
    requires CutsAt(s, c)
  {
    || (var taken := W.RecordsIn(W.FileOf(LogBlobs(s))[..c]); taken.Some? && r in taken.value)
    || InMap(s.wals, r) || InMap(s.files, r)
  }

  /** How many buffered records got through. */
  ghost function Through(s: Sys, c: nat): int {
    W.WholeIn(LogBlobs(s), c) - |s.active|
  }

  /** After a good cut the restart knows what it knows after a crash step, and otherwise what is
      in the other files. */
  lemma CutIsCrash(s: Sys, c: nat, r: Record)
    requires CutsAt(s, c)
    ensures var k := Through(s, c);
      && 0 <= k <= |s.buf|
      && (KnownAfterCut(s, c, r) <==>
          (W.GoodCut(LogBlobs(s), c) && r in s.active + s.buf[..k]) || InMap(s.wals, r) || InMap(s.files, r))
  {
    var recs, k := s.active + s.buf, Through(s, c);
    W.CutLog(recs, |s.active|, c);
    assert recs[..k + |s.active|] == s.active + s.buf[..k];
  }

  lemma CutStepKnows(s: Sys, c: nat, recovered: seq<Record>, r: Record)
    requires Inv(s) && CutsAt(s, c) && W.GoodCut(LogBlobs(s), c)
    requires 0 <= Through(s, c) <= |s.buf| && Enabled(s, Crash(Through(s, c), recovered))
    ensures KnownAfterCut(s, c, r) <==> r in Apply(s, Crash(Through(s, c), recovered)).inserted
  {
    CutIsCrash(s, c, r);
    CrashKeepsIff(s, Through(s, c), recovered, r);
  }

  /** In every reachable state of every run without a log renamed over, what was synced survives
      a crash at byte c if and only if the cut is good or it is in a file besides the active log. */
  lemma SyncedSurvivesCutIff(run: seq<Sys>, i: nat, c: nat, r: Record)
    requires Run(run) && i < |run| && !run[i].clobbered && r in run[i].synced && CutsAt(run[i], c)
    ensures KnownAfterCut(run[i], c, r) <==>
      W.GoodCut(LogBlobs(run[i]), c) || InMap(run[i].wals, r) || InMap(run[i].files, r)
  {
    SyncedIsDurable(run, i, r);
    CutIsCrash(run[i], c, r);
  }

  lemma OneRecordFlushIssued(item: Item) returns (run: seq<Sys>, r: Record)
    ensures |run| == 4 && Run(run)
    ensures r == Record(item.source, item.ts, 1, item.key, item.value)
    ensures r in run[2].synced && r in run[2].active
    ensures run[3].wals == map[1 := [r]] && run[3].active == [] && run[3].buf == [] && run[3].files == map[]
    ensures run[3].activeName.None? && run[3].synced == {r}
  {
    r := Record(item.source, item.ts, 1, item.key, item.value);
    var s0 := Empty();
    assert Number([item], 1) == [r];
    assert InsertAll([], [r]) == [r] by {
      assert CoreMemtable.Insert([], r) == [r];
      assert InsertAll([r], [r][1..]) == [r];
    }
    var s1 := AfterInsert(s0, [r]);
    var s2 := AfterSync(s1);
    assert s1.buf == [r] && s2.active == [r];
    var s3 := AfterRotation(AfterFreeze(s2), 1, [r], Rotated(true));
    assert s2.active + s2.buf == [r];
    run := [s0, s1, s2, s3];
    assert Step(s0, s1) by { assert s1 == Apply(s0, Insert([item])); }
    assert Step(s1, s2) by { assert s2 == Apply(s1, Sync); }
    assert Step(s2, s3) by { assert s3 == Apply(s2, IssueFlush(Rotated(true))); }
  }

  lemma ReuseOfTheName(s: Sys, r: Record) returns (t: Sys, u: Sys, v: Sys)
    requires s.wals == map[1 := [r]] && s.active == [] && s.buf == [] && s.files == map[] && s.activeName.None?
    ensures Step(s, t) && Step(t, u) && Step(u, v)
    ensures Visible(u, r) && !OnDisk(v, r) && !Visible(v, r) && v.synced == s.synced
  {
    t := ReopenedFromLog(s, r);
    u := AfterRotation(AfterFreeze(t), 1, [r], Rotated(true));
    assert u == Apply(t, IssueFlush(Rotated(true)));
    assert u.wals == map[1 := []] && u.active == [] && u.files == map[];
    assert 1 in u.frozen && r in u.frozen[1];
    v := ReopenedEmpty(u, r);
  }

  lemma ReopenedFromLog(s: Sys, r: Record) returns (t: Sys)
    requires s.wals == map[1 := [r]] && s.active == [] && s.buf == [] && s.files == map[] && s.activeName.None?
    ensures t == Reopened(s, 0, [r]) && Step(s, t)
    ensures t.mem == [r] && t.sstCounter == 1 && t.wals == map[1 := [r]] && t.active == [] && t.buf == []
    ensures t.files == map[] && t.synced == s.synced && t.activeName.None?
  {
    assert forall x :: InMap(s.wals, x) <==> x == r by {
      assert 1 in s.wals && r in s.wals[1];
    }
    t := Reopened(s, 0, [r]);
    assert t == Apply(s, Crash(0, [r]));
  }

  lemma ReopenedEmpty(u: Sys, r: Record) returns (v: Sys)
    requires u.wals == map[1 := []] && u.active == [] && u.buf == [] && u.files == map[] && u.activeName.None?
    ensures Step(u, v) && !OnDisk(v, r) && !Visible(v, r) && v.synced == u.synced
  {
    assert forall x :: !InMap(u.wals, x) && !InMap(u.files, x);
    v := Reopened(u, 0, []);
    assert v == Apply(u, Crash(0, []));
  }

  /** Two crashes can lose any record: the second life reuses the number of its log. */
  lemma TwoCrashesLoseARecord(item: Item) returns (run: seq<Sys>, r: Record)
    ensures Run(run) && |run| == 7
    ensures r == Record(item.source, item.ts, 1, item.key, item.value)
    ensures r in run[2].synced && OnDisk(run[2], r) && Visible(run[5], r)
    ensures r in run[6].synced && !OnDisk(run[6], r) && !Visible(run[6], r)
  {
    var first;
    first, r := OneRecordFlushIssued(item);
    var t, u, v := ReuseOfTheName(first[3], r);
    run := first + [t, u, v];
    forall i | 0 <= i < |run| - 1
      ensures Step(run[i], run[i + 1])
    {
      assert i < 3 ==> Step(first[i], first[i + 1]);
    }
  }

  /** `handle_compaction` drops an input it cannot open but still removes it. In the first
      life that keeps the visible records if and only if every input was opened. */
  lemma SkippedInputLosesRecordsIff(run: seq<Sys>, i: nat, id: nat, scanned: seq<nat>, out: seq<Record>)
    requires Run(run) && CrashFree(run) && i < |run| && id in run[i].merges && !run[i].merges[id].done
    requires forall x :: x in scanned ==> x in run[i].merges[id].inputs
    requires IsMergeOf(out, scanned, run[i].files)
    ensures var s := run[i];
      var inputs := s.merges[id].inputs;
      var t := AfterMerge(AfterWriteMerge(s, id, inputs, out), id, inputs, out);
      (forall r :: Visible(t, r) <==> Visible(s, r)) <==> (forall x :: x in inputs ==> x in scanned)
  {
    var s := run[i];
    var inputs := s.merges[id].inputs;
    var t := AfterMerge(AfterWriteMerge(s, id, inputs, out), id, inputs, out);
    FirstLifeIsFresh(run, i);
    forall x | x in inputs
      ensures x in s.ssts && s.files[x] == s.ssts[x]
    {
      assert Uses(s.merges, id, x);
    }
    if x :| x in inputs && x !in scanned {
      SkippedRecordIsGone(s, id, scanned, out, x, s.ssts[x][0]);
    } else {
      SameTables(s, id, scanned, out);
    }
  }

  lemma SkippedRecordIsGone(s: Sys, id: nat, scanned: seq<nat>, out: seq<Record>, x: nat, r: Record)
    requires Fresh(s) && id in s.merges && id !in s.ssts && IsMergeOf(out, scanned, s.files)
    requires forall y :: y in s.merges[id].inputs ==> y in s.ssts && y in s.files && s.files[y] == s.ssts[y]
    requires forall y :: y in scanned ==> y in s.merges[id].inputs
    requires x in s.merges[id].inputs && x !in scanned && At(s.ssts, x, r)
    ensures Visible(s, r)
    ensures !Sees(s.mem, s.frozen, (s.ssts - IdSet(s.merges[id].inputs))[id := out], r)
  {
    var t := (s.ssts - IdSet(s.merges[id].inputs))[id := out];
    InMapAt(s.ssts, r);
    InMapAt(t, r);
    InMapAt(s.frozen, r);
    assert r !in out by {
      if r in out {
        assert InInputs(scanned, s.files, r);
        var h :| h in scanned && h in s.files && r in s.files[h];
        assert At(s.ssts, h, r);
      }
    }
    forall y
      ensures !At(t, y, r)
    {
      assert At(t, y, r) && y != id ==> At(s.ssts, y, r);
    }
  }

  lemma SameTables(s: Sys, id: nat, scanned: seq<nat>, out: seq<Record>)
    requires Inv(s) && id in s.merges && !s.merges[id].done && IsMergeOf(out, scanned, s.files)
    requires forall x :: x in scanned <==> x in s.merges[id].inputs
    ensures var inputs := s.merges[id].inputs;
      forall r :: InMap((s.ssts - IdSet(inputs))[id := out], r) <==> InMap(s.ssts, r)
  {
    var inputs := s.merges[id].inputs;
    assert forall r :: InInputs(scanned, s.files, r) <==> InInputs(inputs, s.files, r);
    assert IsMergeOf(out, inputs, s.files);
    WriteMergeStep(s, id, out);
    MergeKeepsView(AfterWriteMerge(s, id, inputs, out), id);
  }
}

/** The I/O worker and the backend loop. `View` is the whole protocol state; every method is
    shown to take exactly the step of the same name. */
module CoreBackend {
  import opened Bytes
  import opened CoreRecord
  import opened CoreMemtable
  import opened CoreIter
  import opened CoreEngine
  import opened CoreSafety
  import Sy = CoreSystem

  /** Jobs in flight; a finished one waits here until the backend takes its result. */
  class IoWorker {
    const disk: Disk
    var flushes: map<nat, Sy.Flush>
    var merges: map<nat, Sy.Merge>

    constructor (disk: Disk)
      ensures this.disk == disk && flushes == map[] && merges == map[]
    {
      this.disk, flushes, merges := disk, map[], map[];
    }

    /** `handle_flush`: writes the frozen table to its file. */
    method HandleFlush(id: nat)
      requires id in flushes && !flushes[id].done
      modifies this`flushes, disk`files
      ensures disk.files == old(disk.files)[id := old(flushes)[id].recs]
      ensures flushes == old(flushes)[id := Sy.Flush(old(flushes)[id].recs, true)]
    {
      disk.files := disk.files[id := flushes[id].recs];
      flushes := flushes[id := Sy.Flush(flushes[id].recs, true)];
    }

    /** `handle_compaction`: merges the inputs that open and writes the result. An input that
        does not open is left out. */
    method HandleCompaction(id: nat, opens: set<nat>, ghost known: set<Record>)
      returns (ghost scanned: seq<nat>)
      requires id in merges && !merges[id].done
      requires forall i :: i in disk.files ==> Sorted(disk.files[i])
      requires Consistent(known) && forall r :: Sy.InMap(disk.files, r) ==> r in known
      modifies this`merges, disk`files
      ensures forall i :: i in scanned <==> i in old(merges)[id].inputs && i in opens && i in old(disk.files)
      ensures id in disk.files && disk.files == old(disk.files)[id := disk.files[id]]
      ensures Sy.IsMergeOf(disk.files[id], scanned, old(disk.files))
      ensures merges == old(merges)[id := Sy.Merge(old(merges)[id].inputs, true)]
    {
      var out;
      out, scanned := MergeFiles(merges[id].inputs, disk.files, opens, known);
      disk.files := disk.files[id := out];
      merges := merges[id := Sy.Merge(merges[id].inputs, true)];
    }
  }

  method MergeFiles(inputs: seq<nat>, files: map<nat, seq<Record>>, opens: set<nat>, ghost known: set<Record>)
    returns (out: seq<Record>, ghost scanned: seq<nat>)
    requires forall i :: i in files ==> Sorted(files[i])
    requires Consistent(known) && forall r :: Sy.InMap(files, r) ==> r in known
    ensures forall i :: i in scanned <==> i in inputs && i in opens && i in files
    ensures Sy.IsMergeOf(out, scanned, files)
    ensures Sorted(out)
    ensures forall r :: r in out <==> exists i :: i in inputs && i in opens && i in files && r in files[i]
  {
    var scans := [];
    scanned := [];
    for i := 0 to |inputs|
      invariant forall k :: 0 <= k < |scans| ==> ValidCursor(scans[k])
      invariant forall x :: x in scanned <==> x in inputs[..i] && x in opens && x in files
      invariant forall r :: InScans(scans, r) <==> Sy.InInputs(scanned, files, r)
    {
      if inputs[i] in opens && inputs[i] in files {
        var c := Unfiltered(files[inputs[i]]);
        RestIsFilter(c);
        ScansSnoc(scans, c);
        InputsSnoc(scanned, inputs[i], files);
        scans := scans + [c];
        scanned := scanned + [inputs[i]];
      }
    }
    assert inputs[..|inputs|] == inputs;
    var merge := new MergeIter(None, scans);
    ghost var m := merge.View();
    forall r
      ensures Pending(m, r) <==> Sy.InInputs(scanned, files, r)
      ensures Pending(m, r) ==> r in known
    {
      SourcesWithoutMemtable(scans, r);
      assert Sy.InInputs(scanned, files, r) ==> Sy.InMap(files, r);
    }
    out := merge.Drain();
    DrainedIsPending(m, out, known);
  }

  lemma InputsSnoc(inputs: seq<nat>, i: nat, files: map<nat, seq<Record>>)
    requires i in files
    ensures forall r :: Sy.InInputs(inputs + [i], files, r) <==> Sy.InInputs(inputs, files, r) || r in files[i]
  {
    forall r
      ensures Sy.InInputs(inputs + [i], files, r) <==> Sy.InInputs(inputs, files, r) || r in files[i]
    {
      if r in files[i] { assert i in inputs + [i]; }
      if Sy.InInputs(inputs, files, r) {
        var j :| j in inputs && j in files && r in files[j];
        assert j in inputs + [i];
      }
    }
  }

  lemma SourcesWithoutMemtable(scans: seq<Cursor>, r: Record)
    ensures (exists i :: 0 <= i < |scans| + 1 && r in Outputs(None, scans)[i]) <==> InScans(scans, r)
  {
    var o := Outputs(None, scans);
    if InScans(scans, r) {
      var i :| 0 <= i < |scans| && r in Rest(scans[i]);
      assert r in o[i + 1];
    }
    if i :| 0 <= i < |scans| + 1 && r in o[i] {
      assert i > 0 && r in Rest(scans[i - 1]);
    }
  }

  class Backend {
    const engine: Engine
    const worker: IoWorker
    const disk: Disk
    var stale: set<nat>
    var applied: set<nat>
    var nextDel: nat

    // History of the run.
    ghost var inserted: set<Record>
    ghost var synced: set<Record>
    ghost var flushIds: set<nat>
    ghost var mergeIds: set<nat>
    ghost var rotated: set<nat>
    ghost var base: nat
    ghost var clobbered: bool

    ghost predicate Linked()
      reads this, engine
    {
      engine.wal.disk == disk && worker.disk == disk
    }

    ghost function View(): Sy.Sys
      reads this, engine, engine.memtable, engine.wal, worker, disk
    {
      Sy.Sys(engine.memtable.bset, engine.frozen, Tables(engine.ssts), engine.compacting,
             engine.sstCounter, engine.seqCounter, stale, applied, nextDel,
             engine.wal.buf, disk.active, engine.wal.renamedTo, engine.wal.spare, disk.wals, disk.files,
             worker.flushes, worker.merges,
             inserted, synced, flushIds, mergeIds, rotated, base, clobbered)
    }

    constructor (disk: Disk, limit: nat)
      requires disk.active == [] && disk.wals == map[] && disk.files == map[]
      ensures Linked() && View() == Sy.Empty() && this.disk == disk
    {
      this.disk := disk;
      engine := new Engine(disk, limit);
      worker := new IoWorker(disk);
      stale, applied, nextDel := {}, {}, 1;
      inserted, synced, flushIds, mergeIds, rotated, base, clobbered := {}, {}, {}, {}, {}, 1, false;
    }

    ghost method Remember(s: Sy.Sys)
      modifies this`inserted, this`synced, this`flushIds, this`mergeIds, this`rotated, this`clobbered
      ensures inserted == s.inserted && synced == s.synced && flushIds == s.flushIds && mergeIds == s.mergeIds
      ensures rotated == s.rotated && clobbered == s.clobbered
    {
      inserted, synced, flushIds, mergeIds := s.inserted, s.synced, s.flushIds, s.mergeIds;
      rotated, clobbered := s.rotated, s.clobbered;
    }

    /** `handle_insert` and `handle_batch_insert`. */
    method HandleInsert(items: seq<Sy.Item>) returns (needsFlush: bool)
      requires Linked() && engine.Valid() && Sy.Enabled(View(), Sy.Insert(items))
      modifies this, engine, engine.memtable, engine.wal
      ensures Linked() && View() == Sy.Apply(old(View()), Sy.Insert(items))
    {
      ghost var next := Sy.Apply(View(), Sy.Insert(items));
      needsFlush := engine.BatchInsert(items);
      Remember(next);
    }

    /** `handle_range`: exactly the records inserted so far that match. */
    method HandleRange(q: Query, bloom: (nat, i64, Str) -> bool, seek: (nat, Record) -> nat)
      returns (res: Result<seq<Record>>)
      requires Linked() && Inv(View())
      requires BloomSound(engine.ssts, bloom) && SeekSound(engine.ssts, seek)
      ensures res.Err? <==> q.start > q.end || q.start < 0
      ensures res.Ok? ==> Sorted(res.value)
      ensures res.Ok? ==> forall r :: r in res.value <==> r in inserted && Matches(r, q)
    {
      InvSortsEngine();
      res := engine.Range(q, bloom, seek, engine.ssts.Keys, inserted);
    }

    /** `send_wal_sync_cmd`. */
    method SyncWal()
      requires Linked()
      modifies this, engine.wal, disk
      ensures Linked() && View() == Sy.Apply(old(View()), Sy.Sync)
    {
      ghost var next := Sy.Apply(View(), Sy.Sync);
      engine.wal.FlushBuffer();
      Remember(next);
    }

    /** `send_flush_cmd`: freeze, rotate the log, hand the table to the worker. */
    method SendFlush(io: RotateIo, workerAlive: bool) returns (ok: bool)
      requires Linked() && engine.Valid()
      requires engine.wal.renamedTo.Some? && !engine.wal.spare ==> io.FlushFails? || io.RenameFails?
      modifies this, engine, engine.memtable, engine.wal, worker, disk
      ensures Linked()
      ensures View() == if old(engine.memtable.bset) == [] then old(View())
                        else Sy.Apply(old(View()), Sy.IssueFlush(RotationOf(io, workerAlive)))
    {
      if engine.memtable.bset == [] {
        return true;
      }
      var recs, id := Freeze();
      ok := RotateLog(id, recs, io, workerAlive);
    }

    method Freeze() returns (recs: seq<Record>, id: nat)
      requires Linked() && engine.Valid()
      modifies this, engine, engine.memtable
      ensures Linked() && View() == Sy.AfterFreeze(old(View()))
      ensures recs == old(engine.memtable.bset) && id == old(engine.sstCounter)
    {
      ghost var next := Sy.AfterFreeze(View());
      recs, id := engine.PrepareFlush();
      Remember(next);
    }

    method RotateLog(id: nat, recs: seq<Record>, io: RotateIo, workerAlive: bool) returns (ok: bool)
      requires Linked()
      requires engine.wal.renamedTo.Some? && !engine.wal.spare ==> io.FlushFails? || io.RenameFails?
      modifies this, engine.wal, worker, disk
      ensures Linked() && View() == Sy.AfterRotation(old(View()), id, recs, RotationOf(io, workerAlive))
    {
      ghost var next := Sy.AfterRotation(View(), id, recs, RotationOf(io, workerAlive));
      ok := engine.wal.Rotate(id, io);
      if ok {
        stale := stale + {id};
        if workerAlive {
          worker.flushes := worker.flushes[id := Sy.Flush(recs, false)];
        }
      }
      Remember(next);
    }

    /** The worker finishes a flush. */
    method FinishFlush(id: nat)
      requires Linked() && Sy.Enabled(View(), Sy.WriteFlush(id))
      modifies worker, disk
      ensures Linked() && View() == Sy.Apply(old(View()), Sy.WriteFlush(id))
    {
      worker.HandleFlush(id);
    }

    /** The worker finishes a compaction. It is the step of the system when every input opens;
        otherwise the same with what did open. */
    method FinishCompaction(id: nat, opens: set<nat>)
      requires Linked() && Inv(View()) && id in worker.merges && !worker.merges[id].done
      modifies worker, disk
      ensures Linked() && id in disk.files
      ensures View() == Sy.AfterWriteMerge(old(View()), id, old(worker.merges)[id].inputs, disk.files[id])
      ensures (forall i :: i in old(worker.merges)[id].inputs ==> i in opens) ==>
        && Sy.Enabled(old(View()), Sy.WriteMerge(id, disk.files[id]))
        && View() == Sy.Apply(old(View()), Sy.WriteMerge(id, disk.files[id]))
    {
      ghost var s := View();
      MergeIsReady(s, id);
      ghost var scanned := worker.HandleCompaction(id, opens, inserted);
      if forall i :: i in s.merges[id].inputs ==> i in opens {
        SameMerge(disk.files[id], scanned, s.merges[id].inputs, s.files);
      }
    }

    /** `apply_flush_result`. */
    method ApplyFlushResult(id: nat, size: nat)
      requires Linked() && Sy.Enabled(View(), Sy.ApplyFlush(id))
      modifies this, engine, worker, disk
      ensures Linked() && View() == Sy.Apply(old(View()), Sy.ApplyFlush(id))
    {
      var recs := worker.flushes[id].recs;
      LetGo(id, recs);
      AddTable(id, Meta(recs, size));
    }

    /** Drops the frozen memtable and the logs that may go. */
    method LetGo(id: nat, ghost recs: seq<Record>)
      requires Linked()
      modifies this, engine`frozen, worker`flushes, disk
      ensures Linked()
      ensures View() == Sy.AfterFlush(old(View()), id, recs).(ssts := old(View()).ssts)
    {
      worker.flushes := worker.flushes - {id};
      engine.frozen := engine.frozen - {id};
      applied := applied + {id};
      DeleteLogs();
    }

    method AddTable(id: nat, meta: Meta)
      requires Linked()
      modifies engine`ssts
      ensures Linked() && View() == old(View()).(ssts := old(View()).ssts[id := meta.recs])
    {
      ghost var tables := Tables(engine.ssts);
      engine.ssts := engine.ssts[id := meta];
      assert Tables(engine.ssts) == tables[id := meta.recs];
    }

    /** Its loop over the logs that may go. */
    method DeleteLogs()
      modifies this`stale, this`nextDel, disk`wals
      ensures nextDel == Sy.Advance(applied, old(nextDel))
      ensures stale == old(stale) - Passed(old(stale), old(nextDel), nextDel)
      ensures disk.wals == old(disk.wals) - Passed(old(stale), old(nextDel), nextDel)
    {
      ghost var stale0, from, wals0 := stale, nextDel, disk.wals;
      while nextDel in applied && nextDel + 1 in applied
        invariant from <= nextDel
        invariant Sy.Advance(applied, nextDel) == Sy.Advance(applied, from)
        invariant stale == stale0 - Passed(stale0, from, nextDel)
        invariant disk.wals == wals0 - Passed(stale0, from, nextDel)
        decreases Sy.MaxId(applied) + 1 - nextDel
      {
        PassedOne(stale0, from, nextDel);
        DropLog(nextDel);
        nextDel := nextDel + 1;
      }
    }

    method DropLog(n: nat)
      modifies this`stale, disk`wals
      ensures stale == old(stale) - {n}
      ensures disk.wals == old(disk.wals) - (if n in old(stale) then {n} else {})
    {
      if n in stale {
        stale := stale - {n};
        disk.wals := disk.wals - {n};
      }
    }

    /** `send_compaction_cmd`: nothing below the size threshold or with fewer than two idle
        tables; otherwise marks the oldest ones and hands them to the worker. */
    method SendCompaction(maxCount: nat, workerAlive: bool) returns (issued: bool)
      requires Linked()
      modifies this, engine, worker
      ensures Linked()
      ensures issued <==> SizeOf(old(engine.ssts)) >= 8 * engine.memtable.limit
                          && Sy.Enabled(old(View()), Sy.IssueMerge(Share(maxCount), workerAlive))
      ensures !issued ==> View() == old(View())
      ensures issued ==> View() == Sy.Apply(old(View()), Sy.IssueMerge(Share(maxCount), workerAlive))
    {
      var total := engine.TotalSize();
      if total < 8 * engine.memtable.limit {
        return false;
      }
      var ids := engine.OldestIds(Share(maxCount));
      assert Tables(engine.ssts).Keys == engine.ssts.Keys;
      if |ids| < 2 {
        return false;
      }
      assert forall i :: i in ids ==> i !in engine.compacting;
      IssueMerge(ids, workerAlive);
      issued := true;
    }

    method IssueMerge(ids: seq<nat>, workerAlive: bool)
      requires Linked() && forall i :: i in ids ==> i !in engine.compacting
      modifies this, engine, worker
      ensures Linked() && View() == Sy.AfterIssueMerge(old(View()), ids, workerAlive)
    {
      ghost var next := Sy.AfterIssueMerge(View(), ids, workerAlive);
      var marks := Sy.IdSet(ids);
      engine.compacting := engine.compacting + marks;
      var c := engine.sstCounter;
      engine.sstCounter := engine.sstCounter + 1;
      if workerAlive {
        worker.merges := worker.merges[c := Sy.Merge(ids, false)];
      } else {
        engine.compacting := engine.compacting - marks;
      }
      Remember(next);
    }

    /** `apply_compaction_result`. */
    method ApplyCompactionResult(id: nat, size: nat)
      requires Linked() && Sy.Enabled(View(), Sy.ApplyMerge(id))
      modifies this, engine, worker, disk
      ensures Linked() && View() == Sy.Apply(old(View()), Sy.ApplyMerge(id))
    {
      var inputs := worker.merges[id].inputs;
      var recs := disk.files[id];
      ghost var tables := Tables(engine.ssts);
      worker.merges := worker.merges - {id};
      RemoveTables(inputs);
      engine.compacting := engine.compacting - Sy.IdSet(inputs);
      assert Tables(engine.ssts) == tables - Sy.IdSet(inputs);
      AddTable(id, Meta(recs, size));
    }

    method RemoveTables(inputs: seq<nat>)
      modifies engine`ssts, disk`files
      ensures engine.ssts == old(engine.ssts) - Sy.IdSet(inputs)
      ensures disk.files == old(disk.files) - Sy.IdSet(inputs)
    {
      assert Sy.IdSet(inputs[..0]) == {};
      for i := 0 to |inputs|
        invariant engine.ssts == old(engine.ssts) - Sy.IdSet(inputs[..i])
        invariant disk.files == old(disk.files) - Sy.IdSet(inputs[..i])
      {
        assert inputs[..i + 1] == inputs[..i] + [inputs[i]];
        assert Sy.IdSet(inputs[..i + 1]) == Sy.IdSet(inputs[..i]) + {inputs[i]};
        engine.ssts := engine.ssts - {inputs[i]};
        disk.files := disk.files - {inputs[i]};
      }
      assert inputs[..|inputs|] == inputs;
    }

    lemma InvSortsEngine()
      requires Inv(View())
      ensures engine.Valid() && Consistent(inserted)
      ensures forall r :: engine.Sees(r) <==> r in inserted
    {
      var s := View();
      forall id | id in engine.ssts
        ensures Sorted(engine.ssts[id].recs)
      {
        assert id in s.ssts && s.files[id] == s.ssts[id];
      }
    }
  }

  /** What the worker may rely on when it merges: sorted files of known records, all inputs there. */
  lemma MergeIsReady(s: Sy.Sys, id: nat)
    requires Inv(s) && id in s.merges
    ensures (forall i :: i in s.files ==> Sorted(s.files[i])) && Consistent(s.inserted)
    ensures forall r :: Sy.InMap(s.files, r) ==> r in s.inserted
    ensures forall i :: i in s.merges[id].inputs ==> i in s.files
  {
    forall r | Sy.InMap(s.files, r)
      ensures r in s.inserted
    {
      assert Sy.Stored(s.active, s.wals, s.files, r);
    }
    forall i | i in s.merges[id].inputs
      ensures i in s.files
    {
      assert Uses(s.merges, id, i);
    }
  }

  lemma SameMerge(out: seq<Record>, a: seq<nat>, b: seq<nat>, files: map<nat, seq<Record>>)
    requires Sy.IsMergeOf(out, a, files) && forall i :: i in a <==> i in b
    ensures Sy.IsMergeOf(out, b, files)
  {
    assert forall r :: Sy.InInputs(a, files, r) <==> Sy.InInputs(b, files, r);
  }

  function RotationOf(io: RotateIo, workerAlive: bool): Sy.Rotation {
    match io
    case NoFailure => Sy.Rotated(workerAlive)
    case FlushFails => Sy.FailedEarly(false)
    case RenameFails => Sy.FailedEarly(true)
    case ReopenFails => Sy.FailedLate(false)
    case CloneFails => Sy.FailedLate(true)
  }

  /** Half the configured table count, and at least two. */
  function Share(maxCount: nat): nat {
    if maxCount / 2 < 2 then 2 else maxCount / 2
  }

  /** The logs that the deletion loop removes on its way from one id to another. */
  function Passed(stale: set<nat>, from: nat, to: nat): set<nat> {
    set n | n in stale && from <= n < to
  }

  lemma PassedOne(stale: set<nat>, from: nat, to: nat)
    requires from <= to
    ensures Passed(stale, from, to + 1) == Passed(stale, from, to) + (if to in stale then {to} else {})
    ensures to !in Passed(stale, from, to)
  {
  }
}

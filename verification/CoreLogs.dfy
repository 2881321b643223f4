/** Which log holds which memtable: as long as every rotation succeeds, the log of number N is
    the log of frozen memtable N and of nothing else. */
module CoreLogs {
  import opened Bytes
  import opened CoreRecord
  import opened CoreMemtable
  import opened CoreSystem
  import opened CoreSafety

  ghost predicate SameRecords(a: seq<Record>, b: seq<Record>) {
    forall r :: r in a <==> r in b
  }

  /** The active log and its buffer hold the memtable, and each frozen memtable has its log. */
  ghost predicate Mirrors(s: Sys) {
    && s.activeName.None? && SameRecords(s.active + s.buf, s.mem)
    && forall id :: id in s.frozen ==> id in s.rotated && id in s.wals && SameRecords(s.wals[id], s.frozen[id])
  }

  lemma MirrorsInsert(s: Sys, items: seq<Item>)
    requires FirstLife(s) && Mirrors(s) && Enabled(s, Insert(items))
    ensures Mirrors(Apply(s, Insert(items)))
  {
    var recs := Number(items, s.seqCounter);
    assert Elems(s.mem) <= s.inserted by {
      assert forall r :: r in s.mem ==> Sees(s.mem, s.frozen, s.ssts, r);
    }
    InsertedRecords(s, recs);
    var t := AfterInsert(s, recs);
    assert forall r :: r in t.active + t.buf <==> r in s.active + s.buf || r in recs;
  }

  lemma MirrorsSync(s: Sys)
    requires Mirrors(s)
    ensures Mirrors(AfterSync(s))
  {
    assert s.active + s.buf + [] == s.active + s.buf;
  }

  /** A rotation keeps logs and memtables in step if and only if it succeeds. */
  lemma RotationMirrorsIff(s: Sys, rotation: Rotation)
    requires FirstLife(s) && Mirrors(s) && Enabled(s, IssueFlush(rotation))
    ensures Mirrors(Apply(s, IssueFlush(rotation))) <==> rotation.Rotated?
  {
    var t := AfterRotation(AfterFreeze(s), s.sstCounter, s.mem, rotation);
    RotationLeavesMemory(AfterFreeze(s), s.sstCounter, s.mem, rotation);
    assert s.sstCounter !in s.frozen;
    assert s.mem[0] in s.active + s.buf;
    match rotation
    case FailedEarly(_) => assert s.mem[0] in t.active + t.buf;
    case FailedLate(_) => assert s.mem[0] in t.active + t.buf;
    case Rotated(_) => assert t.active + t.buf == [];
  }

  /** The deletion loop never reaches the log of a frozen memtable. */
  lemma MirrorsApplyFlush(s: Sys, id: nat)
    requires FirstLife(s) && Mirrors(s) && Enabled(s, ApplyFlush(id))
    ensures Mirrors(Apply(s, ApplyFlush(id)))
  {
    var t := AfterFlush(s, id, s.flushes[id].recs);
    ApplyFlushStep(s, id);
    forall j | j in t.frozen
      ensures j in t.wals && t.wals[j] == s.wals[j]
    {
      assert j !in t.applied && j in t.rotated;
    }
  }

  lemma MirrorsStep(s: Sys, a: Action)
    requires FirstLife(s) && Mirrors(s) && Enabled(s, a) && !a.Crash?
    requires a.IssueFlush? ==> a.rotation.Rotated?
    ensures Mirrors(Apply(s, a))
  {
    match a
    case Insert(items) => MirrorsInsert(s, items);
    case Sync => MirrorsSync(s);
    case IssueFlush(rotation) => RotationMirrorsIff(s, rotation);
    case ApplyFlush(id) => MirrorsApplyFlush(s, id);
    case WriteFlush(_) =>
    case LoseFlush(_) =>
    case _ => CompactionsLeaveLogs(s, a);
  }

  ghost predicate SmoothStep(s: Sys, t: Sys) {
    exists a :: Enabled(s, a) && t == Apply(s, a) && !a.Crash? && (a.IssueFlush? ==> a.rotation.Rotated?)
  }

  ghost predicate Smooth(run: seq<Sys>) {
    forall i :: 0 <= i < |run| - 1 ==> SmoothStep(run[i], run[i + 1])
  }

  lemma {:induction false} SmoothRunMirrors(run: seq<Sys>, i: nat)
    requires Run(run) && Smooth(run) && i < |run|
    ensures FirstLife(run[i]) && Mirrors(run[i])
  {
    if i == 0 {
      RunKeepsInv(run, 0);
    } else {
      SmoothRunMirrors(run, i - 1);
      var s := run[i - 1];
      assert SmoothStep(run[i - 1], run[i - 1 + 1]);
      var a :| Enabled(s, a) && run[i] == Apply(s, a) && !a.Crash? && (a.IssueFlush? ==> a.rotation.Rotated?);
      MirrorsStep(s, a);
      FirstLifeStep(s, run[i]);
    }
  }

  /** In every run without a crash or a failed rotation, a frozen memtable still has its log,
      with exactly its records, and the active log has exactly those of the memtable. */
  lemma LogHoldsItsMemtable(run: seq<Sys>, i: nat, id: nat, r: Record)
    requires Run(run) && Smooth(run) && i < |run|
    ensures id in run[i].frozen ==> id in run[i].wals && (r in run[i].wals[id] <==> r in run[i].frozen[id])
    ensures r in run[i].mem <==> r in run[i].active || r in run[i].buf
  {
    SmoothRunMirrors(run, i);
    assert r in run[i].active + run[i].buf <==> r in run[i].mem;
  }
}

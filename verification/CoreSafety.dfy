/** What every reachable state of the storage protocol keeps, and the safety theorems that
    follow for whole runs. */
module CoreSafety {
  import opened Bytes
  import opened CoreRecord
  import opened CoreMemtable
  import opened CoreSystem

  /** Ids: handed out once, in order, to a flush or to a compaction, never to both. */
  ghost predicate Ids(s: Sys) {
    && 1 <= s.base <= s.sstCounter
    && s.flushIds !! s.mergeIds
    && (forall id :: id in s.flushIds || id in s.mergeIds <==> s.base <= id < s.sstCounter)
    && s.applied <= s.flushIds && s.rotated <= s.flushIds
    && (forall id :: id in s.frozen ==> id in s.flushIds && id !in s.applied && id !in s.ssts)
    && (forall id :: id in s.flushes ==> id in s.frozen)
    && (forall id :: id in s.merges ==> id in s.mergeIds && id !in s.ssts)
    && (forall id :: id in s.ssts || id in s.files ==> id < s.sstCounter)
  }

  /** A flush job works on the frozen table of its id; a finished one has written it. */
  ghost predicate FlushJobs(flushes: map<nat, Flush>, frozen: map<nat, seq<Record>>, files: map<nat, seq<Record>>) {
    forall id :: id in flushes ==>
      && id in frozen && flushes[id].recs == frozen[id]
      && (flushes[id].done ==> id in files && files[id] == frozen[id])
  }

  ghost predicate Uses(merges: map<nat, Merge>, c: nat, i: nat) {
    c in merges && i in merges[c].inputs
  }

  /** Compaction inputs are live, marked, older than the output, and shared by no two jobs. */
  ghost predicate MergeJobs(merges: map<nat, Merge>, compacting: set<nat>, ssts: map<nat, seq<Record>>) {
    && compacting <= ssts.Keys
    && (forall c :: c in merges ==> |merges[c].inputs| >= 2)
    && (forall c, i :: Uses(merges, c, i) ==> i in compacting && i < c)
    && (forall c, d, i :: Uses(merges, c, i) && Uses(merges, d, i) ==> c == d)
  }

  /** A finished compaction has written the merge of its inputs. */
  ghost predicate MergesWritten(merges: map<nat, Merge>, files: map<nat, seq<Record>>) {
    forall c :: c in merges && merges[c].done ==> c in files && IsMergeOf(files[c], merges[c].inputs, files)
  }

  /** Every live table is its file, unchanged. */
  ghost predicate TablesOnDisk(ssts: map<nat, seq<Record>>, files: map<nat, seq<Record>>) {
    forall id :: id in ssts ==> id in files && files[id] == ssts[id]
  }

  ghost predicate Ordered(mem: seq<Record>, frozen: map<nat, seq<Record>>, files: map<nat, seq<Record>>) {
    && Sorted(mem)
    && (forall id :: id in frozen ==> Sorted(frozen[id]))
    && (forall id :: id in files ==> Sorted(files[id]))
  }

  /** Sequence numbers identify records, and the next one is new. */
  ghost predicate Numbered(inserted: set<Record>, seqCounter: nat) {
    && (forall r :: r in inserted ==> r.sn < seqCounter)
    && (forall q, r :: q in inserted && r in inserted && q.sn == r.sn ==> q == r)
  }

  /** Files and the log buffer hold nothing that was not inserted. */
  ghost predicate NothingForeign(buf: seq<Record>, active: seq<Record>, wals: map<nat, seq<Record>>,
                                 files: map<nat, seq<Record>>, inserted: set<Record>) {
    forall r :: Stored(active, wals, files, r) || r in buf ==> r in inserted
  }

  ghost predicate NothingLost(mem: seq<Record>, frozen: map<nat, seq<Record>>, ssts: map<nat, seq<Record>>,
                              inserted: set<Record>) {
    forall r :: Sees(mem, frozen, ssts, r) <==> r in inserted
  }

  /** Where the log copy of an unflushed record may be: the file being written, a rotated log
      that the deletion loop has not reached, or a log it does not know about. */
  ghost predicate Logged(active: seq<Record>, buf: seq<Record>, wals: map<nat, seq<Record>>, stale: set<nat>,
                         id: nat, r: Record) {
    r in active || r in buf || exists j :: j in wals && (j !in stale || id <= j) && r in wals[j]
  }

  ghost predicate Covered(mem: seq<Record>, frozen: map<nat, seq<Record>>, sstCounter: nat,
                          active: seq<Record>, buf: seq<Record>, wals: map<nat, seq<Record>>, stale: set<nat>) {
    && (forall r :: r in mem ==> Logged(active, buf, wals, stale, sstCounter, r))
    && (forall id, r :: id in frozen && r in frozen[id] ==> Logged(active, buf, wals, stale, id, r))
  }

  /** What has reached a log file is visible, and is not only in the buffer. */
  ghost predicate SyncedKept(synced: set<Record>, inserted: set<Record>, buf: seq<Record>) {
    forall r :: r in synced ==> r in inserted && r !in buf
  }

  /** The deletion loop has passed exactly the ids below `nextDel`. */
  ghost predicate Deletion(nextDel: nat, applied: set<nat>, rotated: set<nat>, stale: set<nat>, logs: set<nat>) {
    && 1 <= nextDel
    && !(nextDel in applied && nextDel + 1 in applied)
    && (nextDel > 1 ==> forall k :: 1 <= k <= nextDel ==> k in applied)
    && (forall n :: n in stale <==> n in rotated && nextDel <= n)
    && (forall n :: n in rotated ==> (n in logs <==> n in stale))
  }

  /** The number of a renamed file that is still open belongs to no other log. */
  ghost predicate NameFree(name: Option<nat>, logs: set<nat>, rotated: set<nat>, sstCounter: nat) {
    name.Some? ==> name.value !in logs && name.value !in rotated && name.value < sstCounter
  }

  ghost predicate Inv(s: Sys) {
    && Ids(s)
    && FlushJobs(s.flushes, s.frozen, s.files)
    && MergeJobs(s.merges, s.compacting, s.ssts)
    && MergesWritten(s.merges, s.files)
    && TablesOnDisk(s.ssts, s.files)
    && Ordered(s.mem, s.frozen, s.files)
    && Numbered(s.inserted, s.seqCounter)
    && NothingForeign(s.buf, s.active, s.wals, s.files, s.inserted)
    && NothingLost(s.mem, s.frozen, s.ssts, s.inserted)
    && Deletion(s.nextDel, s.applied, s.rotated, s.stale, s.wals.Keys)
    && NameFree(s.activeName, s.wals.Keys, s.rotated, s.sstCounter)
    && (!s.clobbered ==>
        Covered(s.mem, s.frozen, s.sstCounter, s.active, s.buf, s.wals, s.stale)
        && SyncedKept(s.synced, s.inserted, s.buf))
  }

  // ---- One lemma per action; each shows only what the action disturbs.

  lemma InsertStep(s: Sys, items: seq<Item>)
    requires Inv(s) && Enabled(s, Insert(items))
    ensures Inv(Apply(s, Insert(items)))
  {
    var recs := Number(items, s.seqCounter);
    var t := Apply(s, Insert(items));
    assert Elems(s.mem) <= s.inserted by {
      forall r | r in s.mem
        ensures r in s.inserted
      {
        assert Sees(s.mem, s.frozen, s.ssts, r);
      }
    }
    InsertedRecords(s, recs);
    forall r
      ensures Sees(t.mem, t.frozen, t.ssts, r) <==> r in t.inserted
    {
      assert Sees(t.mem, t.frozen, t.ssts, r) <==> Sees(s.mem, s.frozen, s.ssts, r) || r in recs;
    }
    forall r
      ensures Stored(t.active, t.wals, t.files, r) || r in t.buf ==> r in t.inserted
    {
      assert Stored(s.active, s.wals, s.files, r) ==> r in s.inserted;
    }
    if !t.clobbered {
      MoreInBuffer(s.active, s.buf, t.buf, s.wals, s.stale);
      assert Covered(t.mem, t.frozen, t.sstCounter, t.active, t.buf, t.wals, t.stale);
    }
  }

  lemma InsertedRecords(s: Sys, recs: seq<Record>)
    requires Elems(s.mem) <= s.inserted && Sorted(s.mem) && Numbered(s.inserted, s.seqCounter)
    requires forall i :: 0 <= i < |recs| ==> recs[i].sn == s.seqCounter + i
    ensures Sorted(InsertAll(s.mem, recs))
    ensures forall r :: r in InsertAll(s.mem, recs) <==> r in s.mem || r in recs
    ensures Numbered(s.inserted + Elems(recs), s.seqCounter + |recs|)
    ensures forall r :: r in recs ==> r !in s.inserted
  {
    NewNumbers(s.inserted, s.seqCounter, recs);
    assert Elems(s.mem) + Elems(recs) <= s.inserted + Elems(recs);
    InsertAllKeepsOrder(s.mem, recs);
    var t := InsertAll(s.mem, recs);
    assert forall r :: r in t <==> r in Elems(t);
  }

  lemma NewNumbers(known: set<Record>, n: nat, recs: seq<Record>)
    requires Numbered(known, n)
    requires forall i :: 0 <= i < |recs| ==> recs[i].sn == n + i
    ensures Numbered(known + Elems(recs), n + |recs|)
    ensures Consistent(known + Elems(recs))
    ensures forall r :: r in recs ==> r !in known
  {
    forall q, r | q in known + Elems(recs) && r in known + Elems(recs) && q.sn == r.sn
      ensures q == r
    {
      if q in recs {
        var i :| 0 <= i < |recs| && recs[i] == q;
        assert r !in known;
        var j :| 0 <= j < |recs| && recs[j] == r;
        assert i == j;
      }
    }
  }

  lemma MoreInBuffer(active: seq<Record>, buf: seq<Record>, buf': seq<Record>, wals: map<nat, seq<Record>>, stale: set<nat>)
    requires forall r :: r in buf ==> r in buf'
    ensures forall id, r :: Logged(active, buf, wals, stale, id, r) ==> Logged(active, buf', wals, stale, id, r)
  {
  }

  lemma SyncStep(s: Sys)
    requires Inv(s)
    ensures Inv(Apply(s, Sync))
  {
  }

  lemma IssueFlushStep(s: Sys, rotation: Rotation)
    requires Inv(s) && Enabled(s, IssueFlush(rotation))
    ensures Inv(Apply(s, IssueFlush(rotation)))
  {
    var id, f := s.sstCounter, AfterFreeze(s);
    FreezeStep(s);
    FlushedStep(f, id);
    match rotation
    case FailedEarly(_) =>
    case FailedLate(created) => LeftOpenStep(AfterSync(f), id, created);
    case Rotated(sent) => ReplacedStep(AfterSync(f), id, sent);
  }

  /** The memtable has become the frozen table of the newest id, and its log is not rotated yet. */
  ghost predicate JustFrozen(s: Sys, id: nat) {
    && Inv(s) && s.mem == [] && id + 1 == s.sstCounter && id in s.frozen && id !in s.rotated
    && (s.activeName.Some? ==> s.activeName.value < id)
  }

  lemma FreezeStep(s: Sys)
    requires Inv(s)
    ensures JustFrozen(AfterFreeze(s), s.sstCounter)
  {
    var t := AfterFreeze(s);
    assert s.sstCounter !in s.flushIds && s.sstCounter !in s.mergeIds;
    FreezeKeepsView(s);
    assert NothingLost(t.mem, t.frozen, t.ssts, t.inserted);
    forall i, r | !s.clobbered && i in t.frozen && r in t.frozen[i]
      ensures Logged(t.active, t.buf, t.wals, t.stale, i, r)
    {
      assert Logged(s.active, s.buf, s.wals, s.stale, i, r);
    }
  }

  lemma FreezeKeepsView(s: Sys)
    requires s.sstCounter !in s.frozen
    ensures forall r :: Sees(s.mem, s.frozen, s.ssts, r) <==> Sees([], s.frozen[s.sstCounter := s.mem], s.ssts, r)
  {
    var f := s.frozen[s.sstCounter := s.mem];
    forall r
      ensures InMap(f, r) <==> InMap(s.frozen, r) || r in s.mem
    {
      if r in s.mem { assert s.sstCounter in f && r in f[s.sstCounter]; }
      if InMap(s.frozen, r) {
        var i :| i in s.frozen && r in s.frozen[i];
        assert i in f && r in f[i];
      }
    }
  }

  lemma FlushedStep(s: Sys, id: nat)
    requires JustFrozen(s, id)
    ensures JustFrozen(AfterSync(s), id)
  {
    SyncStep(s);
  }

  /** Where the records of the logs and of the open file are after a rotation. */
  lemma MovedLogs(wals: map<nat, seq<Record>>, active: seq<Record>, id: nat, name: Option<nat>, r: Record)
    requires name.Some? ==> name.value !in wals && name.value != id
    ensures (InMap(RotatedLogs(wals, active, id, name), r) ==> InMap(wals, r) || r in active)
      && (InMap(wals[id := []], r) ==> InMap(wals, r)) && (InMap(wals - {id}, r) ==> InMap(wals, r))
  {
  }

  lemma LeftOpenStep(s: Sys, id: nat, created: bool)
    requires JustFrozen(s, id) && s.buf == []
    ensures Inv(LeftOpen(s, id, created))
  {
    var t := LeftOpen(s, id, created);
    forall r | Stored(t.active, t.wals, t.files, r)
      ensures r in t.inserted
    {
      MovedLogs(s.wals, s.active, id, s.activeName, r);
      assert Stored(s.active, s.wals, s.files, r);
    }
    forall i: nat, r | !t.clobbered && Logged(s.active, s.buf, s.wals, s.stale, i, r)
      ensures Logged(t.active, t.buf, t.wals, t.stale, i, r)
    {
      if r !in s.active {
        var j :| j in s.wals && (j !in s.stale || i <= j) && r in s.wals[j];
        assert j in t.wals && r in t.wals[j];
      }
    }
  }

  lemma ReplacedStep(s: Sys, id: nat, sent: bool)
    requires JustFrozen(s, id) && s.buf == []
    ensures Inv(Replaced(s, id, s.frozen[id], sent))
  {
    var t := Replaced(s, id, s.frozen[id], sent);
    assert s.nextDel <= id;
    forall r | Stored(t.active, t.wals, t.files, r)
      ensures r in t.inserted
    {
      MovedLogs(s.wals, s.active, id, s.activeName, r);
      assert Stored(s.active, s.wals, s.files, r);
    }
    forall i: nat, r | !t.clobbered && i <= id && Logged(s.active, s.buf, s.wals, s.stale, i, r)
      ensures Logged(t.active, t.buf, t.wals, t.stale, i, r)
    {
      if r in s.active {
        var j := if s.activeName.None? then id else s.activeName.value;
        assert j in t.wals && r in t.wals[j];
      } else {
        var j :| j in s.wals && (j !in s.stale || i <= j) && r in s.wals[j];
        assert j in t.wals && r in t.wals[j];
      }
    }
  }

  lemma WriteFlushStep(s: Sys, id: nat)
    requires Inv(s) && Enabled(s, WriteFlush(id))
    ensures Inv(Apply(s, WriteFlush(id)))
  {
    var t := Apply(s, WriteFlush(id));
    forall r | Stored(t.active, t.wals, t.files, r)
      ensures r in t.inserted
    {
      assert Stored(s.active, s.wals, s.files, r) || Sees(s.mem, s.frozen, s.ssts, r);
    }
    NewFileKeepsMerges(s, id, s.flushes[id].recs);
  }

  /** A file that is no compaction's input or output changes no finished compaction. */
  lemma NewFileKeepsMerges(s: Sys, id: nat, recs: seq<Record>)
    requires MergesWritten(s.merges, s.files) && id !in s.merges
    requires forall c :: !Uses(s.merges, c, id)
    ensures MergesWritten(s.merges, s.files[id := recs])
  {
    forall c | c in s.merges && s.merges[c].done
      ensures IsMergeOf(s.files[c], s.merges[c].inputs, s.files[id := recs])
    {
      assert !Uses(s.merges, c, id);
      SameInputs(s.merges[c].inputs, s.files, s.files[id := recs]);
    }
  }

  lemma SameInputs(inputs: seq<nat>, f: map<nat, seq<Record>>, g: map<nat, seq<Record>>)
    requires forall i :: i in inputs ==> (i in f <==> i in g) && (i in f ==> f[i] == g[i])
    ensures forall r :: InInputs(inputs, f, r) <==> InInputs(inputs, g, r)
  {
  }

  lemma ApplyFlushStep(s: Sys, id: nat)
    requires Inv(s) && Enabled(s, ApplyFlush(id))
    ensures Inv(Apply(s, ApplyFlush(id)))
  {
    var t := AfterFlush(s, id, s.flushes[id].recs);
    MoveKeepsView(s.frozen, s.ssts, id);
    forall r
      ensures Sees(t.mem, t.frozen, t.ssts, r) <==> r in t.inserted
    {
      assert Sees(s.mem, s.frozen, s.ssts, r) <==> r in s.inserted;
    }
    forall r | Stored(t.active, t.wals, t.files, r)
      ensures r in t.inserted
    {
      assert Stored(s.active, s.wals, s.files, r);
    }
    FlushKeepsDeletion(s, id);
    if !t.clobbered {
      FlushKeepsCovered(s, id);
    }
  }

  lemma FlushKeepsDeletion(s: Sys, id: nat)
    requires Deletion(s.nextDel, s.applied, s.rotated, s.stale, s.wals.Keys) && id in s.flushes
    ensures var t := AfterFlush(s, id, s.flushes[id].recs);
      Deletion(t.nextDel, t.applied, t.rotated, t.stale, t.wals.Keys)
  {
    var t := AfterFlush(s, id, s.flushes[id].recs);
    assert t.nextDel > 1 ==> forall k :: 1 <= k <= t.nextDel ==> k in t.applied;
  }

  /** What the loop deletes is older than every table still waiting to be flushed. */
  lemma FlushKeepsCovered(s: Sys, id: nat)
    requires Inv(s) && Enabled(s, ApplyFlush(id)) && !s.clobbered
    ensures var t := AfterFlush(s, id, s.flushes[id].recs);
      Covered(t.mem, t.frozen, t.sstCounter, t.active, t.buf, t.wals, t.stale)
  {
    var t := AfterFlush(s, id, s.flushes[id].recs);
    FlushKeepsDeletion(s, id);
    forall i, r | (i in t.frozen || i == s.sstCounter) && Logged(s.active, s.buf, s.wals, s.stale, i, r)
      ensures Logged(t.active, t.buf, t.wals, t.stale, i, r)
    {
      if !(r in s.active || r in s.buf) {
        var j :| j in s.wals && (j !in s.stale || i <= j) && r in s.wals[j];
        assert j in t.wals && t.wals[j] == s.wals[j];
      }
    }
  }

  lemma MoveKeepsView(frozen: map<nat, seq<Record>>, ssts: map<nat, seq<Record>>, id: nat)
    requires id in frozen && id !in ssts
    ensures forall r :: InMap(frozen - {id}, r) || InMap(ssts[id := frozen[id]], r) <==> InMap(frozen, r) || InMap(ssts, r)
  {
    var f, t := frozen - {id}, ssts[id := frozen[id]];
    forall r
      ensures InMap(f, r) || InMap(t, r) <==> InMap(frozen, r) || InMap(ssts, r)
    {
      if InMap(frozen, r) {
        var i :| i in frozen && r in frozen[i];
        if i == id { assert i in t && r in t[i]; } else { assert i in f && r in f[i]; }
      }
      if InMap(ssts, r) {
        var i :| i in ssts && r in ssts[i];
        assert i in t && r in t[i];
      }
    }
  }

  lemma LoseFlushStep(s: Sys, id: nat)
    requires Inv(s) && Enabled(s, LoseFlush(id))
    ensures Inv(Apply(s, LoseFlush(id)))
  {
  }

  lemma IssueMergeStep(s: Sys, count: nat, sent: bool)
    requires Inv(s) && Enabled(s, IssueMerge(count, sent))
    ensures Inv(Apply(s, IssueMerge(count, sent)))
  {
    var ids := Oldest(s.ssts.Keys - s.compacting, count);
    if sent {
      MergeSent(s, ids);
    } else {
      MergeNotSent(s, ids);
    }
  }

  lemma MergeNotSent(s: Sys, ids: seq<nat>)
    requires Inv(s)
    ensures Inv(AfterIssueMerge(s, ids, false))
  {
    var t := AfterIssueMerge(s, ids, false);
    assert forall j :: j in s.stale ==> j < s.sstCounter;
    LaterCounter(s.mem, s.frozen, s.sstCounter, s.active, s.buf, s.wals, s.stale);
  }

  lemma MergeSent(s: Sys, ids: seq<nat>)
    requires Inv(s) && |ids| >= 2 && forall i :: i in ids ==> i in s.ssts && i !in s.compacting
    ensures Inv(AfterIssueMerge(s, ids, true))
  {
    var t := AfterIssueMerge(s, ids, true);
    NewMergeKeepsJobs(s.merges, s.compacting, s.ssts, s.sstCounter, ids);
    assert forall j :: j in s.stale ==> j < s.sstCounter;
    LaterCounter(s.mem, s.frozen, s.sstCounter, s.active, s.buf, s.wals, s.stale);
  }

  lemma NewMergeKeepsJobs(merges: map<nat, Merge>, compacting: set<nat>, ssts: map<nat, seq<Record>>, c: nat, ids: seq<nat>)
    requires MergeJobs(merges, compacting, ssts) && c !in merges && |ids| >= 2
    requires forall i :: i in ids ==> i in ssts && i !in compacting && i < c
    ensures MergeJobs(merges[c := Merge(ids, false)], compacting + IdSet(ids), ssts)
  {
    var m := merges[c := Merge(ids, false)];
    forall d, i
      ensures Uses(m, d, i) <==> if d == c then i in ids else Uses(merges, d, i)
    {
    }
  }

  lemma LaterCounter(mem: seq<Record>, frozen: map<nat, seq<Record>>, n: nat, active: seq<Record>,
                     buf: seq<Record>, wals: map<nat, seq<Record>>, stale: set<nat>)
    requires forall j :: j in stale ==> j < n
    ensures Covered(mem, frozen, n, active, buf, wals, stale) ==> Covered(mem, frozen, n + 1, active, buf, wals, stale)
  {
    forall r | Logged(active, buf, wals, stale, n, r)
      ensures Logged(active, buf, wals, stale, n + 1, r)
    {
    }
  }

  lemma WriteMergeStep(s: Sys, id: nat, out: seq<Record>)
    requires Inv(s) && Enabled(s, WriteMerge(id, out))
    ensures Inv(Apply(s, WriteMerge(id, out)))
  {
    var t := AfterWriteMerge(s, id, s.merges[id].inputs, out);
    WriteMergeKeepsJobs(s.merges, s.compacting, s.ssts, s.files, id, out);
    forall r | Stored(t.active, t.wals, t.files, r)
      ensures r in t.inserted
    {
      if r in out {
        assert InInputs(s.merges[id].inputs, s.files, r);
      }
      assert Stored(s.active, s.wals, s.files, r);
    }
  }

  lemma WriteMergeKeepsJobs(merges: map<nat, Merge>, compacting: set<nat>, ssts: map<nat, seq<Record>>,
                            files: map<nat, seq<Record>>, id: nat, out: seq<Record>)
    requires MergeJobs(merges, compacting, ssts) && MergesWritten(merges, files)
    requires id in merges && id !in ssts && IsMergeOf(out, merges[id].inputs, files)
    ensures var m := merges[id := Merge(merges[id].inputs, true)];
      MergeJobs(m, compacting, ssts) && MergesWritten(m, files[id := out])
  {
    var m := merges[id := Merge(merges[id].inputs, true)];
    var f := files[id := out];
    assert forall c, i :: Uses(m, c, i) <==> Uses(merges, c, i);
    forall c | c in m && m[c].done
      ensures c in f && IsMergeOf(f[c], m[c].inputs, f)
    {
      assert Uses(merges, c, id) ==> id in compacting;
      SameInputs(merges[c].inputs, files, f);
    }
  }

  lemma ApplyMergeStep(s: Sys, id: nat)
    requires Inv(s) && Enabled(s, ApplyMerge(id))
    ensures Inv(Apply(s, ApplyMerge(id)))
  {
    var t := Apply(s, ApplyMerge(id));
    MergeFreesInputs(s, id);
    MergeKeepsOthers(s, id);
    MergeKeepsKnown(s, id);
    assert NothingLost(t.mem, t.frozen, t.ssts, t.inserted);
    assert NothingForeign(t.buf, t.active, t.wals, t.files, t.inserted);
  }

  lemma MergeKeepsKnown(s: Sys, id: nat)
    requires Inv(s) && Enabled(s, ApplyMerge(id))
    ensures var t := AfterMerge(s, id, s.merges[id].inputs, s.files[id]);
      && NothingLost(t.mem, t.frozen, t.ssts, t.inserted)
      && NothingForeign(t.buf, t.active, t.wals, t.files, t.inserted)
  {
    var t := AfterMerge(s, id, s.merges[id].inputs, s.files[id]);
    MergeKeepsView(s, id);
    forall r
      ensures Sees(t.mem, t.frozen, t.ssts, r) <==> r in t.inserted
    {
      assert Sees(s.mem, s.frozen, s.ssts, r) <==> r in s.inserted;
    }
    forall r | Stored(t.active, t.wals, t.files, r)
      ensures r in t.inserted
    {
      assert Stored(s.active, s.wals, s.files, r);
    }
  }

  lemma MergeFreesInputs(s: Sys, id: nat)
    requires Inv(s) && Enabled(s, ApplyMerge(id))
    ensures var t := Apply(s, ApplyMerge(id));
      && MergeJobs(t.merges, t.compacting, t.ssts)
      && TablesOnDisk(t.ssts, t.files)
      && FlushJobs(t.flushes, t.frozen, t.files)
      && forall i :: i in s.merges[id].inputs ==> i in s.ssts && i < id
  {
    var t := Apply(s, ApplyMerge(id));
    forall i | i in s.merges[id].inputs
      ensures i in s.ssts && i < id && i in s.compacting
    {
      assert Uses(s.merges, id, i);
    }
    forall c, i | Uses(t.merges, c, i)
      ensures Uses(s.merges, c, i) && i !in s.merges[id].inputs
    {
      assert Uses(s.merges, c, i);
      assert i in s.merges[id].inputs ==> Uses(s.merges, id, i);
    }
  }

  lemma MergeKeepsOthers(s: Sys, id: nat)
    requires Inv(s) && Enabled(s, ApplyMerge(id))
    ensures var t := Apply(s, ApplyMerge(id)); MergesWritten(t.merges, t.files)
  {
    var t := Apply(s, ApplyMerge(id));
    forall c | c in t.merges && t.merges[c].done
      ensures c in t.files && IsMergeOf(t.files[c], t.merges[c].inputs, t.files)
    {
      forall i | i in t.merges[c].inputs
        ensures i !in s.merges[id].inputs
      {
        assert Uses(s.merges, c, i);
        assert i in s.merges[id].inputs ==> Uses(s.merges, id, i);
      }
      assert c in s.merges[id].inputs ==> Uses(s.merges, id, c);
      SameInputs(t.merges[c].inputs, s.files, t.files);
    }
  }

  /** Replacing the inputs by their merge leaves the visible records as they are. */
  lemma MergeKeepsView(s: Sys, id: nat)
    requires Inv(s) && Enabled(s, ApplyMerge(id))
    ensures forall r :: InMap(Apply(s, ApplyMerge(id)).ssts, r) <==> InMap(s.ssts, r)
  {
    var t := Apply(s, ApplyMerge(id)).ssts;
    var inputs := s.merges[id].inputs;
    forall r
      ensures InMap(t, r) <==> InMap(s.ssts, r)
    {
      if InMap(s.ssts, r) {
        var i :| i in s.ssts && r in s.ssts[i];
        if i in inputs {
          assert InInputs(inputs, s.files, r);
          assert r in t[id];
        } else {
          assert i != id;
          assert i in t && r in t[i];
        }
      }
      if InMap(t, r) {
        var i :| i in t && r in t[i];
        if i == id {
          assert InInputs(inputs, s.files, r);
          var j :| j in inputs && j in s.files && r in s.files[j];
          assert Uses(s.merges, id, j);
        }
      }
    }
  }

  lemma LoseMergeStep(s: Sys, id: nat)
    requires Inv(s) && Enabled(s, LoseMerge(id))
    ensures Inv(Apply(s, LoseMerge(id)))
  {
    forall c, i | Uses(s.merges - {id}, c, i)
      ensures Uses(s.merges, c, i)
    {
    }
  }

  /** A record whose log bytes reached a file is in some file. */
  lemma SyncedOnDisk(s: Sys, r: Record)
    requires Inv(s) && !s.clobbered && r in s.synced
    ensures OnDisk(s, r)
  {
    assert Sees(s.mem, s.frozen, s.ssts, r) && r !in s.buf;
    if InMap(s.ssts, r) {
      var i :| i in s.ssts && r in s.ssts[i];
      assert i in s.files && r in s.files[i];
    } else if r in s.mem {
      assert Logged(s.active, s.buf, s.wals, s.stale, s.sstCounter, r);
    } else {
      var i :| i in s.frozen && r in s.frozen[i];
      assert Logged(s.active, s.buf, s.wals, s.stale, i, r);
    }
  }

  lemma CrashStep(s: Sys, k: nat, recovered: seq<Record>)
    requires Inv(s) && Enabled(s, Crash(k, recovered))
    ensures Inv(Apply(s, Crash(k, recovered)))
  {
    var t := Reopened(s, k, recovered);
    forall r
      ensures InMap(t.wals, r) || r in t.active <==> r in recovered
    {
      CrashKeepsLogs(s, k, recovered, r);
    }
    SurvivorsWereInserted(s, k, recovered);
    assert Covered(t.mem, t.frozen, t.sstCounter, t.active, t.buf, t.wals, t.stale);
    if !t.clobbered {
      SyncedSurvive(s, k, recovered);
    }
  }

  lemma SurvivorsWereInserted(s: Sys, k: nat, recovered: seq<Record>)
    requires Inv(s) && Enabled(s, Crash(k, recovered))
    ensures var t := Reopened(s, k, recovered);
      && t.inserted <= s.inserted
      && Numbered(t.inserted, t.seqCounter)
      && forall r :: r in t.inserted <==> r in recovered || InMap(s.files, r)
  {
    forall r | r in recovered || InMap(s.files, r)
      ensures r in s.inserted
    {
      assert Stored(s.active, s.wals, s.files, r) || r in s.buf;
    }
  }

  lemma SyncedSurvive(s: Sys, k: nat, recovered: seq<Record>)
    requires Inv(s) && Enabled(s, Crash(k, recovered)) && !s.clobbered
    ensures forall r :: r in s.synced + Elems(s.buf[..k]) ==> r in recovered || InMap(s.files, r)
  {
    forall r | r in s.synced + Elems(s.buf[..k])
      ensures r in recovered || InMap(s.files, r)
    {
      if r in s.synced {
        SyncedOnDisk(s, r);
      }
      assert InLogs(s, k, r) || InMap(s.files, r);
    }
  }

  lemma CrashKeepsLogs(s: Sys, k: nat, recovered: seq<Record>, r: Record)
    requires Inv(s) && Enabled(s, Crash(k, recovered))
    ensures var t := Reopened(s, k, recovered);
      InMap(t.wals, r) || r in t.active <==> r in recovered
  {
    var t := Reopened(s, k, recovered);
    assert r in recovered <==> InLogs(s, k, r);
    if s.activeName.Some? {
      if InMap(s.wals, r) {
        var j :| j in s.wals && r in s.wals[j];
        assert j in t.wals && r in t.wals[j];
      } else if InLogs(s, k, r) {
        assert r in t.wals[s.activeName.value];
      }
    }
  }

  /** A crash keeps exactly what is in a file, and the part of the log buffer that was written. */
  lemma CrashKeepsIff(s: Sys, k: nat, recovered: seq<Record>, r: Record)
    requires Inv(s) && Enabled(s, Crash(k, recovered))
    ensures r in Apply(s, Crash(k, recovered)).inserted <==> OnDisk(s, r) || r in s.buf[..k]
  {
    SurvivorsWereInserted(s, k, recovered);
    assert r in recovered <==> InLogs(s, k, r);
  }

  /** So what a crash takes was in the unwritten part of the log buffer and had never reached a
      file, as long as no rotation renamed over a log. */
  lemma CrashLosesOnlyBuffered(s: Sys, k: nat, recovered: seq<Record>, r: Record)
    requires Inv(s) && Enabled(s, Crash(k, recovered)) && !s.clobbered
    requires r in s.inserted && r !in Apply(s, Crash(k, recovered)).inserted
    ensures r in s.buf[k..] && r !in s.synced
  {
    CrashKeepsIff(s, k, recovered, r);
    InsertedIsLogged(s, r);
    assert s.buf == s.buf[..k] + s.buf[k..];
  }

  /** Every known record is in the log buffer or in a file. */
  lemma InsertedIsLogged(s: Sys, r: Record)
    requires Inv(s) && !s.clobbered && r in s.inserted
    ensures r in s.buf || OnDisk(s, r)
  {
    assert Sees(s.mem, s.frozen, s.ssts, r);
    if InMap(s.ssts, r) {
      var j :| j in s.ssts && r in s.ssts[j];
      assert r in s.files[j];
    } else if r in s.mem {
      assert Logged(s.active, s.buf, s.wals, s.stale, s.sstCounter, r);
    } else {
      var j :| j in s.frozen && r in s.frozen[j];
      assert Logged(s.active, s.buf, s.wals, s.stale, j, r);
    }
  }

  // ---- Whole runs

  lemma StepKeepsInv(s: Sys, t: Sys)
    requires Inv(s) && Step(s, t)
    ensures Inv(t)
  {
    var a :| Enabled(s, a) && t == Apply(s, a);
    match a
    case Insert(items) => InsertStep(s, items);
    case Sync => SyncStep(s);
    case IssueFlush(rotation) => IssueFlushStep(s, rotation);
    case WriteFlush(id) => WriteFlushStep(s, id);
    case ApplyFlush(id) => ApplyFlushStep(s, id);
    case LoseFlush(id) => LoseFlushStep(s, id);
    case IssueMerge(count, sent) => IssueMergeStep(s, count, sent);
    case WriteMerge(id, out) => WriteMergeStep(s, id, out);
    case ApplyMerge(id) => ApplyMergeStep(s, id);
    case LoseMerge(id) => LoseMergeStep(s, id);
    case Crash(k, recovered) => CrashStep(s, k, recovered);
  }

  lemma {:induction false} RunKeepsInv(run: seq<Sys>, i: nat)
    requires Run(run) && i < |run|
    ensures Inv(run[i])
  {
    if i > 0 {
      RunKeepsInv(run, i - 1);
      StepKeepsInv(run[i - 1], run[i]);
    }
  }

  /** What is visible is exactly what was inserted in the current life or recovered at its start,
      in any run with any interleaving, any lost jobs, any failed rotation and any number of
      restarts. What a restart recovers is the matter of `RunLosesOnlyBuffered`. */
  lemma VisibleIsInserted(run: seq<Sys>, i: nat, r: Record)
    requires Run(run) && i < |run|
    ensures Visible(run[i], r) <==> r in run[i].inserted
  {
    RunKeepsInv(run, i);
  }

  /** A record whose log bytes have reached a file stays in some file and stays visible,
      through every later step and restart, unless a rotation renamed over an existing log. */
  lemma SyncedIsDurable(run: seq<Sys>, i: nat, r: Record)
    requires Run(run) && i < |run| && !run[i].clobbered && r in run[i].synced
    ensures OnDisk(run[i], r) && Visible(run[i], r)
  {
    RunKeepsInv(run, i);
    SyncedOnDisk(run[i], r);
  }

  ghost predicate CrashTo(s: Sys, t: Sys) {
    exists k, recovered :: Enabled(s, Crash(k, recovered)) && t == Apply(s, Crash(k, recovered))
  }

  /** A record dies here: it is known, it has never reached a file, and the system crashes. */
  ghost predicate Dies(s: Sys, t: Sys, r: Record) {
    r in s.inserted && r in s.buf && r !in s.synced && CrashTo(s, t)
  }

  lemma OnlyCrashesForget(s: Sys, t: Sys, r: Record)
    requires Inv(s) && Step(s, t)
    ensures s.clobbered ==> t.clobbered
    ensures r in s.inserted && !t.clobbered ==> r in t.inserted || Dies(s, t, r)
  {
    var a :| Enabled(s, a) && t == Apply(s, a);
    if a.Crash? {
      if r in s.inserted && r !in t.inserted && !s.clobbered {
        CrashLosesOnlyBuffered(s, a.written, a.recovered, r);
        assert CrashTo(s, t);
      }
    } else {
      NoActionForgets(s, a);
    }
  }

  /** Memtables, logs and history are the same. */
  ghost predicate LeavesLogs(s: Sys, t: Sys) {
    && t.mem == s.mem && t.frozen == s.frozen && t.buf == s.buf && t.active == s.active
    && t.activeName == s.activeName && t.wals == s.wals && t.rotated == s.rotated
    && t.inserted == s.inserted && t.clobbered == s.clobbered && t.sstCounter >= s.sstCounter
  }

  ghost predicate Compacts(a: Action) {
    a.IssueMerge? || a.WriteMerge? || a.ApplyMerge? || a.LoseMerge?
  }

  lemma CompactionsLeaveLogs(s: Sys, a: Action)
    requires Enabled(s, a) && Compacts(a)
    ensures LeavesLogs(s, Apply(s, a))
  {
    match a
    case IssueMerge(count, sent) => MergesLeaveLogs(s, 0, Oldest(s.ssts.Keys - s.compacting, count), [], sent);
    case WriteMerge(id, out) => MergesLeaveLogs(s, id, s.merges[id].inputs, out, true);
    case ApplyMerge(id) => MergesLeaveLogs(s, id, s.merges[id].inputs, s.files[id], true);
    case LoseMerge(id) => MergesLeaveLogs(s, id, [], [], true);
  }

  lemma MergesLeaveLogs(s: Sys, id: nat, ids: seq<nat>, recs: seq<Record>, sent: bool)
    ensures LeavesLogs(s, AfterIssueMerge(s, ids, sent)) && LeavesLogs(s, AfterWriteMerge(s, id, ids, recs))
    ensures LeavesLogs(s, AfterMerge(s, id, ids, recs)) && LeavesLogs(s, AfterLoseMerge(s, id))
  {
  }

  lemma NoActionForgets(s: Sys, a: Action)
    requires Enabled(s, a) && !a.Crash?
    ensures s.inserted <= Apply(s, a).inserted && (s.clobbered ==> Apply(s, a).clobbered)
  {
    match a
    case Insert(_) =>
    case Sync =>
    case IssueFlush(rotation) => RotationLeavesMemory(AfterFreeze(s), s.sstCounter, s.mem, rotation);
    case WriteFlush(_) =>
    case ApplyFlush(_) =>
    case LoseFlush(_) =>
    case _ => CompactionsLeaveLogs(s, a);
  }

  lemma RotationLeavesMemory(s: Sys, id: nat, recs: seq<Record>, rotation: Rotation)
    ensures var t := AfterRotation(s, id, recs, rotation);
      && t.mem == s.mem && t.frozen == s.frozen && t.ssts == s.ssts && t.inserted == s.inserted
      && (s.clobbered ==> t.clobbered)
  {
    match rotation
    case FailedEarly(_) =>
    case FailedLate(_) =>
    case Rotated(_) =>
  }

  lemma LostInStep(run: seq<Sys>, i: nat, r: Record)
    requires Run(run) && 0 < i < |run|
    ensures run[i - 1].clobbered ==> run[i].clobbered
    ensures r in run[i - 1].inserted && !run[i].clobbered ==> r in run[i].inserted || Dies(run[i - 1], run[i], r)
  {
    RunKeepsInv(run, i - 1);
    OnlyCrashesForget(run[i - 1], run[i], r);
  }

  lemma {:induction false} KeptOrDead(known: seq<bool>, dies: seq<bool>, bad: seq<bool>, j: nat, i: nat)
    requires |known| == |bad| == |dies| + 1 && j <= i < |known|
    requires forall c :: 0 <= c < |dies| && known[c] && !bad[c + 1] ==> known[c + 1] || dies[c]
    requires forall c :: 0 <= c < |dies| && bad[c] ==> bad[c + 1]
    requires known[j] && !bad[i]
    ensures known[i] || exists c :: j <= c < i && dies[c]
    decreases i - j
  {
    if j < i {
      KeptOrDead(known, dies, bad, j, i - 1);
    }
  }

  /** Over any number of lives: a record that was once known stays known, unless it dies in a
      crash that finds it in the log buffer before it ever reached a file; or some rotation
      renamed over a log. */
  lemma RunLosesOnlyBuffered(run: seq<Sys>, j: nat, i: nat, r: Record)
    requires Run(run) && j <= i < |run| && r in run[j].inserted && !run[i].clobbered
    ensures r in run[i].inserted || exists c :: j <= c < i && Dies(run[c], run[c + 1], r)
  {
    var known := seq(|run|, c requires 0 <= c < |run| => r in run[c].inserted);
    var bad := seq(|run|, c requires 0 <= c < |run| => run[c].clobbered);
    var dies := seq(|run| - 1, c requires 0 <= c < |run| - 1 => Dies(run[c], run[c + 1], r));
    forall c | 0 <= c < |dies|
      ensures known[c] && !bad[c + 1] ==> known[c + 1] || dies[c]
      ensures bad[c] ==> bad[c + 1]
    {
      LostInStep(run, c + 1, r);
    }
    KeptOrDead(known, dies, bad, j, i);
  }

  ghost predicate StepWithoutCrash(s: Sys, t: Sys) {
    exists a :: Enabled(s, a) && t == Apply(s, a) && !a.Crash?
  }

  ghost predicate CrashFree(run: seq<Sys>) {
    forall i :: 0 <= i < |run| - 1 ==> StepWithoutCrash(run[i], run[i + 1])
  }

  /** Log files are numbered below the counter, so a rotation finds its name free. */
  ghost predicate NamesBelowCounter(s: Sys) {
    forall n :: n in s.wals ==> n < s.sstCounter
  }

  ghost predicate FirstLife(s: Sys) {
    Inv(s) && NamesBelowCounter(s) && !s.clobbered
  }

  lemma FirstLifeStep(s: Sys, t: Sys)
    requires FirstLife(s) && StepWithoutCrash(s, t)
    ensures FirstLife(t)
  {
    StepKeepsInv(s, t);
    var a :| Enabled(s, a) && t == Apply(s, a) && !a.Crash?;
    NamesStep(s, a);
  }

  lemma NamesStep(s: Sys, a: Action)
    requires Inv(s) && NamesBelowCounter(s) && Enabled(s, a) && !a.Crash?
    ensures NamesBelowCounter(Apply(s, a)) && Apply(s, a).clobbered == s.clobbered
  {
    if a.IssueFlush? {
      RotationNames(AfterFreeze(s), s.sstCounter, s.mem, a.rotation);
    } else if !a.ApplyFlush? {
      LogsUntouched(s, a);
    }
  }

  lemma RotationNames(s: Sys, id: nat, recs: seq<Record>, rotation: Rotation)
    requires NamesBelowCounter(s) && id < s.sstCounter && id !in s.wals
    requires s.activeName.Some? ==> s.activeName.value < s.sstCounter
    ensures NamesBelowCounter(AfterRotation(s, id, recs, rotation))
    ensures AfterRotation(s, id, recs, rotation).clobbered == s.clobbered
  {
  }

  lemma LogsUntouched(s: Sys, a: Action)
    requires Enabled(s, a) && !a.IssueFlush? && !a.ApplyFlush? && !a.Crash?
    ensures var t := Apply(s, a); t.wals == s.wals && t.clobbered == s.clobbered && t.sstCounter >= s.sstCounter
  {
    match a
    case Insert(_) =>
    case Sync =>
    case WriteFlush(_) =>
    case LoseFlush(_) =>
    case _ => CompactionsLeaveLogs(s, a);
  }

  /** Before the first crash no rotation renames over an existing log. */
  lemma {:induction false} FirstLifeNeverClobbers(run: seq<Sys>, i: nat)
    requires Run(run) && CrashFree(run) && i < |run|
    ensures FirstLife(run[i])
  {
    if i > 0 {
      FirstLifeNeverClobbers(run, i - 1);
      assert StepWithoutCrash(run[i - 1], run[i - 1 + 1]);
      FirstLifeStep(run[i - 1], run[i]);
    }
  }

  /** Until the first crash every inserted record is in the log buffer or in a file, whatever
      the deletion loop has removed. */
  lemma FirstLifeIsDurable(run: seq<Sys>, i: nat, r: Record)
    requires Run(run) && CrashFree(run) && i < |run| && r in run[i].inserted
    ensures r in run[i].buf || OnDisk(run[i], r)
  {
    FirstLifeNeverClobbers(run, i);
    InsertedIsLogged(run[i], r);
  }

  /** A rotated log is gone exactly when the flushes 1 to n + 1 have all been applied. */
  lemma LogDeletedIff(run: seq<Sys>, i: nat, n: nat)
    requires Run(run) && i < |run| && n in run[i].rotated
    ensures n !in run[i].wals <==> forall k :: 1 <= k <= n + 1 ==> k in run[i].applied
  {
    var s := run[i];
    RunKeepsInv(run, i);
    assert n < s.nextDel ==> forall k :: 1 <= k <= n + 1 ==> k in s.applied;
    assert s.nextDel <= n ==> s.nextDel !in s.applied || s.nextDel + 1 !in s.applied;
  }

  /** Compactions draw ids from the same counter and never become applied flushes, so the
      loop stops below the first of them: that log and all later ones stay for good. */
  lemma CompactionStopsDeletion(run: seq<Sys>, i: nat, c: nat, n: nat)
    requires Run(run) && i < |run| && c in run[i].mergeIds && n in run[i].rotated && n + 1 >= c
    ensures n in run[i].wals
  {
    RunKeepsInv(run, i);
    LogDeletedIff(run, i, n);
    assert c !in run[i].applied && 1 <= c <= n + 1;
  }

  /** After a restart that found a table file the ids no longer start at 1, and no log of that
      life is ever deleted. */
  lemma RestartStopsDeletion(run: seq<Sys>, i: nat, n: nat)
    requires Run(run) && i < |run| && run[i].base > 1 && n in run[i].rotated
    ensures n in run[i].wals
  {
    RunKeepsInv(run, i);
    LogDeletedIff(run, i, n);
    assert 1 !in run[i].applied;
  }

  /** Without compactions and restarts the loop keeps exactly the newest log once every
      issued flush has been applied. */
  lemma OnlyNewestLogLeft(run: seq<Sys>, i: nat, n: nat)
    requires Run(run) && i < |run|
    requires run[i].base == 1 && run[i].mergeIds == {} && run[i].applied == run[i].flushIds
    requires n in run[i].rotated
    ensures n in run[i].wals <==> n == run[i].sstCounter - 1
  {
    var s := run[i];
    RunKeepsInv(run, i);
    LogDeletedIff(run, i, n);
    assert forall k :: k in s.applied <==> 1 <= k < s.sstCounter;
    if n < s.sstCounter - 1 {
      assert forall k :: 1 <= k <= n + 1 ==> k in s.applied;
    } else {
      assert n + 1 !in s.applied;
    }
  }

  /** In-flight compactions share no input, their inputs stay live until their own completion,
      and no id ever serves both a flush and a compaction. */
  lemma CompactionsAreIndependent(run: seq<Sys>, i: nat, c: nat, d: nat, x: nat)
    requires Run(run) && i < |run| && c in run[i].merges && x in run[i].merges[c].inputs
    ensures x in run[i].ssts && x in run[i].files && run[i].files[x] == run[i].ssts[x] && x < c
    ensures d in run[i].merges && x in run[i].merges[d].inputs ==> d == c
    ensures c !in run[i].flushIds && run[i].flushIds !! run[i].mergeIds
  {
    RunKeepsInv(run, i);
    assert Uses(run[i].merges, c, x);
    assert d in run[i].merges && x in run[i].merges[d].inputs ==> Uses(run[i].merges, d, x);
  }
}

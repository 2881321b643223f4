/** The manifest of logregator-tsdb: a log of entries, cut down from time to time into a
    snapshot of live tables and stream labels. */
module TsdbManifest {
  import opened Bytes
  import opened Framing
  import opened Sequences
  import opened TsdbManifestCodec
  import L = TsdbLabel

  type LabelTable = map<u64, L.Labels>

  // ---- What a log of entries means

  datatype State = State(live: set<u64>, labels: LabelTable)

  const NOTHING := State({}, map[])

  function IdSet(ids: seq<u64>): set<u64> {
    set id | id in ids
  }

  function Apply(s: State, e: Entry): State {
    match e
    case Flush(id) => s.(live := s.live + {id})
    case Compaction(ids) => s.(live := s.live - IdSet(ids))
    case StreamUpdate(stream, m) => s.(labels := s.labels[stream := m])
  }

  function Replay(s: State, es: seq<Entry>): State {
    if es == [] then s else Apply(Replay(s, es[..|es| - 1]), es[|es| - 1])
  }

  lemma ReplaySnoc(s: State, es: seq<Entry>, e: Entry)
    ensures Replay(s, es + [e]) == Apply(Replay(s, es), e)
  {
    assert (es + [e])[..|es|] == es;
  }

  // ---- Snapshots

  datatype SstState = Live | Removed

  datatype Snapshot = Snapshot(ssts: map<u64, SstState>, labels: LabelTable)

  function LiveIn(sn: Snapshot): set<u64> {
    set id | id in sn.ssts && sn.ssts[id].Live?
  }

  function RemovedIn(sn: Snapshot): set<u64> {
    set id | id in sn.ssts && sn.ssts[id].Removed?
  }

  function StateOf(sn: Option<Snapshot>): State {
    if sn.None? then NOTHING else State(LiveIn(sn.value), sn.value.labels)
  }

  function Note(sn: Snapshot, e: Entry): Snapshot {
    match e
    case Flush(id) => sn.(ssts := sn.ssts[id := Live])
    case Compaction(ids) => sn.(ssts := sn.ssts + (map id | id in ids :: Removed))
    case StreamUpdate(stream, m) => sn.(labels := sn.labels[stream := m])
  }

  function FromLog(es: seq<Entry>): Snapshot {
    if es == [] then Snapshot(map[], map[]) else Note(FromLog(es[..|es| - 1]), es[|es| - 1])
  }

  /** The fold of `from_manifest`, with its inner loop over the ids of a compaction. */
  method FromEntries(es: seq<Entry>) returns (sn: Snapshot)
    ensures sn == FromLog(es)
  {
    var ssts: map<u64, SstState>, labels: LabelTable := map[], map[];
    for i := 0 to |es|
      invariant Snapshot(ssts, labels) == FromLog(es[..i])
    {
      assert es[..i + 1][..i] == es[..i];
      match es[i]
      case Flush(id) => ssts := ssts[id := Live];
      case Compaction(ids) => ssts := Remove(ssts, ids);
      case StreamUpdate(stream, m) => labels := labels[stream := m];
    }
    assert es[..|es|] == es;
    sn := Snapshot(ssts, labels);
  }

  method Remove(ssts: map<u64, SstState>, ids: seq<u64>) returns (r: map<u64, SstState>)
    ensures r == ssts + (map id | id in ids :: Removed)
  {
    r := ssts;
    for i := 0 to |ids|
      invariant r == ssts + (map id | id in ids[..i] :: Removed)
    {
      r := r[ids[i] := Removed];
    }
    assert ids[..|ids|] == ids;
  }

  /** A log's own snapshot says what the log does to any state. */
  lemma {:induction false} DeltaReplays(s: State, es: seq<Entry>)
    ensures var d := FromLog(es);
      Replay(s, es) == State(s.live - RemovedIn(d) + LiveIn(d), s.labels + d.labels)
  {
    if es == [] {
      assert s.labels + map[] == s.labels;
    } else {
      var n := |es| - 1;
      DeltaReplays(s, es[..n]);
      DeltaStep(s, FromLog(es[..n]), es[n]);
    }
  }

  lemma DeltaStep(s: State, d: Snapshot, e: Entry)
    ensures var d' := Note(d, e);
      Apply(State(s.live - RemovedIn(d) + LiveIn(d), s.labels + d.labels), e)
        == State(s.live - RemovedIn(d') + LiveIn(d'), s.labels + d'.labels)
  {
    var d' := Note(d, e);
    match e
    case Flush(id) => assert LiveIn(d') == LiveIn(d) + {id} && RemovedIn(d') == RemovedIn(d) - {id};
    case Compaction(ids) =>
      assert LiveIn(d') == LiveIn(d) - IdSet(ids) && RemovedIn(d') == RemovedIn(d) + IdSet(ids);
    case StreamUpdate(stream, m) => assert (s.labels + d.labels)[stream := m] == s.labels + d.labels[stream := m];
  }

  /** Replaying a log a second time changes nothing. */
  lemma ReplayTwice(s: State, es: seq<Entry>)
    ensures Replay(Replay(s, es), es) == Replay(s, es)
  {
    DeltaReplays(s, es);
    DeltaReplays(Replay(s, es), es);
  }

  /** Entries of two snapshots visited in any order: what was removed before goes, what the
      delta says of a table or a stream wins. */
  method Merge(older: Snapshot, delta: Snapshot) returns (r: Snapshot)
    ensures r.labels == older.labels + delta.labels && RemovedIn(r) == {}
    ensures LiveIn(r) == LiveIn(older) - RemovedIn(delta) + LiveIn(delta)
  {
    var ssts := MergeSsts(older.ssts, delta.ssts);
    var labels := MergeLabels(older.labels, delta.labels);
    r := Snapshot(ssts, labels);
  }

  method MergeSsts(older: map<u64, SstState>, delta: map<u64, SstState>) returns (r: map<u64, SstState>)
    ensures forall id :: id in r ==> r[id].Live?
    ensures forall id :: id in r <==> if id in delta then delta[id].Live? else id in older && older[id].Live?
  {
    r := map id | id in older && older[id].Live? :: Live;
    var todo := delta.Keys;
    while todo != {}
      invariant todo <= delta.Keys
      invariant forall id :: id in r ==> r[id].Live?
      invariant forall id :: id in r <==>
        if id in delta && id !in todo then delta[id].Live? else id in older && older[id].Live?
      decreases todo
    {
      var id :| id in todo;
      if delta[id].Live? {
        r := r[id := Live];
      } else {
        r := r - {id};
      }
      todo := todo - {id};
    }
  }

  method MergeLabels(older: LabelTable, delta: LabelTable) returns (r: LabelTable)
    ensures r == older + delta
  {
    r := older;
    var todo := delta.Keys;
    while todo != {}
      invariant todo <= delta.Keys
      invariant forall k :: k in r <==> k in older || k in delta.Keys - todo
      invariant forall k :: k in r ==> r[k] == if k in delta && k !in todo then delta[k] else older[k]
    {
      var k :| k in todo;
      r := r[k := delta[k]];
      todo := todo - {k};
    }
    assert r == older + delta;
  }

  /** Writing a log's snapshot over the stored one leaves the state that replaying the log on
      top of the stored one gives. */
  method WriteTo(stored: Option<Snapshot>, delta: Snapshot, ghost es: seq<Entry>) returns (r: Snapshot)
    requires delta == FromLog(es)
    ensures StateOf(Some(r)) == Replay(StateOf(stored), es)
  {
    DeltaReplays(StateOf(stored), es);
    match stored
    case Some(older) => r := Merge(older, delta);
    case None =>
      assert map[] + delta.labels == delta.labels;
      r := delta;
  }

  // ---- Compactions that lose ids

  /** A compaction that went through the log drops its first id and keeps the others; so the
      live tables are the right ones if and only if no other named table was live. */
  lemma CompactionRightIff(s: State, ids: seq<u64>)
    requires ids != []
    ensures Apply(s, Reread(Compaction(ids))).live == s.live - {ids[0]}
    ensures Apply(s, Reread(Compaction(ids))) == Apply(s, Compaction(ids)) <==>
      OnlyFirstLive(s.live, ids)
  {
    var r := Repeat(ids[0], |ids|);
    assert IdSet(r) == {ids[0]} by {
      assert r[0] in r;
    }
    assert ids[0] in ids;
    forall id | id in ids && id in s.live && id != ids[0]
      ensures id in Apply(s, Reread(Compaction(ids))).live && id !in Apply(s, Compaction(ids)).live
    {
      assert id in IdSet(ids);
    }
    if OnlyFirstLive(s.live, ids) {
      assert s.live - {ids[0]} == s.live - IdSet(ids);
    }
  }

  /** No table that should be live is lost by rereading the log, and no labels are. */
  lemma {:induction false} RereadKeepsLive(a: State, b: State, es: seq<Entry>)
    requires a.live <= b.live && a.labels == b.labels
    ensures Replay(a, es).live <= Replay(b, Rereads(es)).live
    ensures Replay(a, es).labels == Replay(b, Rereads(es)).labels
  {
    if es != [] {
      var n := |es| - 1;
      RereadKeepsLive(a, b, es[..n]);
      assert Rereads(es)[..n] == Rereads(es[..n]);
      if es[n].Compaction? {
        assert IdSet(Reread(es[n]).ids) <= IdSet(es[n].ids);
      }
    }
  }

  ghost predicate OnlyFirstLive(live: set<u64>, ids: seq<u64>) {
    forall id :: id in ids && id in live ==> id == ids[0]
  }

  predicate Names(e: Entry, id: u64) {
    e.Compaction? && id in e.ids
  }

  predicate NamesFirst(e: Entry, id: u64) {
    e.Compaction? && e.ids != [] && e.ids[0] == id
  }

  ghost predicate FlushedAt(es: seq<Entry>, k: nat, id: u64) {
    k < |es| && es[k] == Flush(id)
  }

  ghost predicate NamedAfter(es: seq<Entry>, k: nat, id: u64) {
    exists j :: k < j < |es| && Names(es[j], id)
  }

  ghost predicate NamedFirstAfter(es: seq<Entry>, k: nat, id: u64) {
    exists j :: k < j < |es| && NamesFirst(es[j], id)
  }

  ghost predicate LastFlush(es: seq<Entry>, k: nat, id: u64) {
    FlushedAt(es, k, id) && forall j: nat :: k < j ==> !FlushedAt(es, j, id)
  }

  /** The last flush of a table is followed by a compaction that names it, but by none that names
      it first. */
  ghost predicate Stranded(es: seq<Entry>, id: u64) {
    exists k: nat :: LastFlush(es, k, id) && NamedAfter(es, k, id) && !NamedFirstAfter(es, k, id)
  }

  /** A table is live exactly when some flush of it has no compaction naming it behind it. */
  lemma {:induction false} LiveIff(es: seq<Entry>, id: u64)
    ensures id in Replay(NOTHING, es).live <==> exists k: nat :: FlushedAt(es, k, id) && !NamedAfter(es, k, id)
  {
    if es != [] {
      var n := |es| - 1;
      var front := es[..n];
      LiveIff(front, id);
      if es[n] == Flush(id) {
        assert FlushedAt(es, n, id) && !NamedAfter(es, n, id);
      } else {
        forall k: nat
          ensures FlushedAt(es, k, id) <==> FlushedAt(front, k, id)
          ensures FlushedAt(front, k, id) ==> (NamedAfter(es, k, id) <==> NamedAfter(front, k, id) || Names(es[n], id))
        {
          NamedAfterSnoc(es, k, id);
        }
        assert id in Replay(NOTHING, es).live <==> id in Replay(NOTHING, front).live && !Names(es[n], id);
      }
    }
  }

  lemma NamedAfterSnoc(es: seq<Entry>, k: nat, id: u64)
    requires es != []
    ensures var n := |es| - 1;
      k < n ==> (NamedAfter(es, k, id) <==> NamedAfter(es[..n], k, id) || Names(es[n], id))
  {
    var n := |es| - 1;
    if k < n && NamedAfter(es[..n], k, id) {
      var j :| k < j < n && Names(es[..n][j], id);
      assert Names(es[j], id);
    }
    if k < n && NamedAfter(es, k, id) && !Names(es[n], id) {
      var j :| k < j < |es| && Names(es[j], id);
      assert Names(es[..n][j], id);
    }
  }

  /** The same of the log as it is read again, where only the first name counts. */
  lemma LiveWhenRereadIff(es: seq<Entry>, id: u64)
    ensures id in Replay(NOTHING, Rereads(es)).live <==>
      exists k: nat :: FlushedAt(es, k, id) && !NamedFirstAfter(es, k, id)
  {
    var rs := Rereads(es);
    LiveIff(rs, id);
    forall k: nat
      ensures FlushedAt(rs, k, id) <==> FlushedAt(es, k, id)
      ensures NamedAfter(rs, k, id) <==> NamedFirstAfter(es, k, id)
    {
      forall j | 0 <= j < |es|
        ensures Names(rs[j], id) <==> NamesFirst(es[j], id)
      {
        RereadNamesFirst(es[j], id);
      }
    }
  }

  lemma RereadNamesFirst(e: Entry, id: u64)
    ensures Names(Reread(e), id) <==> NamesFirst(e, id)
  {
    if e.Compaction? && e.ids != [] {
      assert Reread(e).ids[0] == e.ids[0];
    }
  }

  lemma {:induction false} LastFlushExists(es: seq<Entry>, k: nat, id: u64)
    requires FlushedAt(es, k, id)
    ensures exists m: nat :: k <= m && LastFlush(es, m, id)
    decreases |es| - k
  {
    if j: nat :| k < j && FlushedAt(es, j, id) {
      LastFlushExists(es, j, id);
    } else {
      assert LastFlush(es, k, id);
    }
  }

  /** Reading a log again gets a table wrong if and only if it is stranded. */
  lemma WrongIffStranded(es: seq<Entry>, id: u64)
    ensures (id in Replay(NOTHING, Rereads(es)).live <==> id in Replay(NOTHING, es).live) <==> !Stranded(es, id)
  {
    LiveIff(es, id);
    LiveWhenRereadIff(es, id);
    RereadKeepsLive(NOTHING, NOTHING, es);
    if Stranded(es, id) {
      var k: nat :| LastFlush(es, k, id) && NamedAfter(es, k, id) && !NamedFirstAfter(es, k, id);
      forall m: nat | FlushedAt(es, m, id)
        ensures NamedAfter(es, m, id)
      {
        var j :| k < j < |es| && Names(es[j], id);
        assert m <= k;
      }
    } else if k: nat :| FlushedAt(es, k, id) && !NamedFirstAfter(es, k, id) {
      LastFlushExists(es, k, id);
      var m: nat :| k <= m && LastFlush(es, m, id);
      forall j | m < j < |es|
        ensures !NamesFirst(es[j], id)
      {
        assert k < j;
      }
    }
  }

  /** The manifest of a compaction of two live tables: the second one stays live. */
  lemma SecondTableStaysLive()
    ensures var es := [Flush(1), Flush(2), Compaction([1, 2])];
      && Replay(NOTHING, es).live == {} && Replay(NOTHING, Rereads(es)).live == {2} && Stranded(es, 2)
  {
    var es := [Flush(1), Flush(2), Compaction([1, 2])];
    forall id: u64
      ensures id in Replay(NOTHING, es).live <==> false
      ensures id in Replay(NOTHING, Rereads(es)).live <==> id == 2
    {
      LiveIff(es, id);
      LiveWhenRereadIff(es, id);
      assert Names(es[2], 1) && Names(es[2], 2) && NamesFirst(es[2], 1);
      assert FlushedAt(es, 1, 2) && !NamedFirstAfter(es, 1, 2);
    }
    assert LastFlush(es, 1, 2) && NamedAfter(es, 1, 2);
  }

  // ---- Runs

  /** The stored snapshot, the entries in the log file, and those still in the writer's buffer. */
  datatype Disk = Disk(snap: Option<Snapshot>, log: seq<Entry>, tail: seq<Entry>)

  const EMPTY := Disk(None, [], [])

  /** What a restart after a crash finds, when it can read the log back. */
  function Recovered(d: Disk): State {
    Replay(StateOf(d.snap), Rereads(d.log))
  }

  /** What a restart after a clean shutdown finds, which writes the buffer out. */
  function Complete(d: Disk): State {
    Replay(StateOf(d.snap), Rereads(d.log + d.tail))
  }

  /** An entry is appended to the buffer, and a first part of what is buffered may spill into the
      file; the buffer is written out; the log is turned into a snapshot and cut; a crash falls
      between the two halves of that; or a crash loses the buffer. */
  datatype Step = Append(e: Entry) | Close | Snap(r: Snapshot) | Torn(r: Snapshot) | Crash

  ghost predicate Next(d: Disk, s: Step, d': Disk) {
    match s
    case Append(e) => d'.snap == d.snap && d'.log + d'.tail == d.log + d.tail + [e] && d.log <= d'.log
    case Close => d' == Disk(d.snap, d.log + d.tail, [])
    case Snap(r) => StateOf(Some(r)) == Complete(d) && d' == Disk(Some(r), [], [])
    case Torn(r) => StateOf(Some(r)) == Complete(d) && d' == Disk(Some(r), d.log + d.tail, [])
    case Crash => d' == Disk(d.snap, d.log, [])
  }

  ghost predicate Run(ds: seq<Disk>, steps: seq<Step>) {
    && |ds| == |steps| + 1 && ds[0] == EMPTY
    && forall i :: 0 <= i < |steps| ==> Next(ds[i], steps[i], ds[i + 1])
  }

  function Appended(steps: seq<Step>): seq<Entry> {
    if steps == [] then []
    else
      var last := steps[|steps| - 1];
      Appended(steps[..|steps| - 1]) + (if last.Append? then [last.e] else [])
  }

  /** The entries that a step brings into the file or a snapshot. */
  ghost function Settled(d: Disk, s: Step, d': Disk): seq<Entry>
    requires Next(d, s, d')
  {
    match s
    case Append(_) => d'.log[|d.log|..]
    case Crash => []
    case _ => d.tail
  }

  /** All entries that ever got there: those appended, without the tails that crashes took. */
  ghost function Durable(ds: seq<Disk>, steps: seq<Step>): seq<Entry>
    requires Run(ds, steps)
    decreases |steps|
  {
    if steps == [] then []
    else
      var n := |steps| - 1;
      Durable(ds[..n + 1], steps[..n]) + Settled(ds[n], steps[n], ds[n + 1])
  }

  lemma {:induction false} ReplayConcat(s: State, a: seq<Entry>, b: seq<Entry>)
    ensures Replay(s, a + b) == Replay(Replay(s, a), b)
  {
    if b == [] {
      assert a + b == a;
    } else {
      var n := |b| - 1;
      ReplayConcat(s, a, b[..n]);
      assert (a + b)[..|a| + n] == a + b[..n];
    }
  }

  lemma RereadsConcat(s: State, a: seq<Entry>, b: seq<Entry>)
    ensures Replay(s, Rereads(a + b)) == Replay(Replay(s, Rereads(a)), Rereads(b))
  {
    assert Rereads(a + b) == Rereads(a) + Rereads(b);
    ReplayConcat(s, Rereads(a), Rereads(b));
  }

  /** A step changes what a crash leaves by exactly what it settles. */
  lemma StepRecovers(d: Disk, s: Step, d': Disk)
    requires Next(d, s, d')
    ensures Recovered(d') == Replay(Recovered(d), Rereads(Settled(d, s, d')))
  {
    var base := StateOf(d.snap);
    match s
    case Append(e) =>
      assert d'.log == d.log + d'.log[|d.log|..];
      RereadsConcat(base, d.log, d'.log[|d.log|..]);
    case Close => RereadsConcat(base, d.log, d.tail);
    case Snap(r) => RereadsConcat(base, d.log, d.tail);
    case Torn(r) =>
      RereadsConcat(base, d.log, d.tail);
      ReplayTwice(base, Rereads(d.log + d.tail));
    case Crash =>
  }

  /** And what a clean shutdown leaves by the entry it appends, unless it is a crash. */
  lemma StepCompletes(d: Disk, s: Step, d': Disk)
    requires Next(d, s, d')
    ensures Complete(d') == match s
                            case Append(e) => Apply(Complete(d), Reread(e))
                            case Crash => Recovered(d)
                            case _ => Complete(d)
  {
    match s
    case Append(e) =>
      var all := d.log + d.tail;
      assert Rereads(all + [e]) == Rereads(all) + [Reread(e)];
      ReplaySnoc(StateOf(d.snap), Rereads(all), Reread(e));
    case Close => assert d.log + d.tail + [] == d.log + d.tail;
    case Snap(r) => assert Rereads([] + []) == [];
    case Torn(r) =>
      assert d.log + d.tail + [] == d.log + d.tail;
      ReplayTwice(StateOf(d.snap), Rereads(d.log + d.tail));
    case Crash => assert d.log + [] == d.log;
  }

  /** Over every mix of appends, snapshots, torn snapshots, shutdowns and crashes, a restart that
      can read the log back finds what replaying the durable entries in one go gives, and after
      a clean shutdown those in the buffer behind them. */
  lemma {:induction false} RunRecovers(ds: seq<Disk>, steps: seq<Step>)
    requires Run(ds, steps)
    ensures var d, es := ds[|steps|], Durable(ds, steps);
      Recovered(d) == Replay(NOTHING, Rereads(es)) && Complete(d) == Replay(NOTHING, Rereads(es + d.tail))
    decreases |steps|
  {
    var d, es := ds[|steps|], Durable(ds, steps);
    if steps == [] {
      assert Rereads([]) == [];
    } else {
      var n := |steps| - 1;
      var before := Durable(ds[..n + 1], steps[..n]);
      RunRecovers(ds[..n + 1], steps[..n]);
      StepRecovers(ds[n], steps[n], ds[n + 1]);
      RereadsConcat(NOTHING, before, Settled(ds[n], steps[n], ds[n + 1]));
    }
    RereadsConcat(NOTHING, es, d.tail);
    RereadsConcat(StateOf(d.snap), d.log, d.tail);
  }

  /** Without a crash nothing appended is missing: it is durable or in the buffer. */
  lemma {:induction false} WithoutCrashAllIsKept(ds: seq<Disk>, steps: seq<Step>)
    requires Run(ds, steps) && forall i :: 0 <= i < |steps| ==> !steps[i].Crash?
    ensures Durable(ds, steps) + ds[|steps|].tail == Appended(steps)
    decreases |steps|
  {
    if steps != [] {
      var n := |steps| - 1;
      WithoutCrashAllIsKept(ds[..n + 1], steps[..n]);
      StepKeepsEntries(ds[n], steps[n], ds[n + 1], Durable(ds[..n + 1], steps[..n]));
    }
  }

  lemma StepKeepsEntries(d: Disk, s: Step, d': Disk, es: seq<Entry>)
    requires Next(d, s, d') && !s.Crash?
    ensures es + Settled(d, s, d') + d'.tail == es + d.tail + if s.Append? then [s.e] else []
  {
    if s.Append? {
      var x := d'.log[|d.log|..];
      assert d'.log == d.log + x;
      assert (d.log + x + d'.tail)[|d.log|..] == x + d'.tail;
      assert (d.log + d.tail + [s.e])[|d.log|..] == d.tail + [s.e];
      assert es + x + d'.tail == es + (x + d'.tail) == es + (d.tail + [s.e]);
    }
  }

  /** A crash changes nothing if and only if the buffered entries say only what was known: the
      tables they leave live are live, those they leave removed are not, and the labels they
      leave are there. */
  lemma CrashKeepsStateIff(d: Disk)
    ensures Recovered(d) == Complete(d) <==> SaysNothingNew(Recovered(d), FromLog(Rereads(d.tail)))
  {
    var s, delta := Recovered(d), FromLog(Rereads(d.tail));
    RereadsConcat(StateOf(d.snap), d.log, d.tail);
    DeltaReplays(s, Rereads(d.tail));
    assert LiveIn(delta) !! RemovedIn(delta);
    LiveSame(s.live, LiveIn(delta), RemovedIn(delta));
    LabelsSame(s.labels, delta.labels);
  }

  ghost predicate SaysNothingNew(s: State, delta: Snapshot) {
    && LiveIn(delta) <= s.live && RemovedIn(delta) !! s.live
    && forall k :: k in delta.labels ==> k in s.labels && s.labels[k] == delta.labels[k]
  }

  lemma LiveSame(live: set<u64>, add: set<u64>, gone: set<u64>)
    requires add !! gone
    ensures live - gone + add == live <==> add <= live && gone !! live
  {
  }

  lemma LabelsSame(a: LabelTable, b: LabelTable)
    ensures a + b == a <==> forall k :: k in b ==> k in a && a[k] == b[k]
  {
    if a + b == a {
      forall k | k in b
        ensures k in a && a[k] == b[k]
      {
        assert k in a + b && (a + b)[k] == b[k];
      }
    }
  }

  /** One append, and a crash before anything is written out: the restart finds nothing. */
  lemma FirstAppendIsLost(id: u64) returns (ds: seq<Disk>)
    ensures Run(ds, [Append(Flush(id)), Crash]) && |ds| == 3
    ensures Complete(ds[1]).live == {id} && Recovered(ds[1]) == NOTHING && Complete(ds[2]) == NOTHING
  {
    var e := Flush(id);
    ds := [EMPTY, Disk(None, [], [e]), EMPTY];
    assert Rereads([]) == [] && [] + [e] == [e];
    StepCompletes(EMPTY, Append(e), ds[1]);
  }

  /** What a restart finds is the state which the same entries as appended give if and only if
      none of their tables is stranded. */
  lemma RunRecoversExactlyIff(ds: seq<Disk>, steps: seq<Step>)
    requires Run(ds, steps)
    ensures var d, es := ds[|steps|], Durable(ds, steps);
      && (Recovered(d) == Replay(NOTHING, es) <==> forall id :: !Stranded(es, id))
      && (Complete(d) == Replay(NOTHING, es + d.tail) <==> forall id :: !Stranded(es + d.tail, id))
  {
    RunRecovers(ds, steps);
    RereadRightIff(Durable(ds, steps));
    RereadRightIff(Durable(ds, steps) + ds[|steps|].tail);
  }

  lemma RereadRightIff(es: seq<Entry>)
    ensures Replay(NOTHING, Rereads(es)) == Replay(NOTHING, es) <==> forall id :: !Stranded(es, id)
  {
    RereadKeepsLive(NOTHING, NOTHING, es);
    forall id
      ensures (id in Replay(NOTHING, Rereads(es)).live <==> id in Replay(NOTHING, es).live) <==> !Stranded(es, id)
    {
      WrongIffStranded(es, id);
    }
    if forall id :: !Stranded(es, id) {
      assert Replay(NOTHING, Rereads(es)).live == Replay(NOTHING, es).live;
    }
  }

  // ---- The manifest itself

  /** The capacity of the buffered writer. */
  const CAPACITY := 8192

  class Manifest {
    const maxSize: nat
    const utf8: L.Utf8
    var file: seq<byte>
    var buffer: seq<byte>
    var written: nat
    var snapshot: Option<Snapshot>
    ghost var log: seq<Entry>
    ghost var tail: seq<Entry>

    ghost predicate Valid()
      reads this
    {
      && AllValid(log, utf8) && file == Concat(Encodings(log, utf8))
      && AllValid(tail, utf8) && buffer == Concat(Encodings(tail, utf8))
    }

    ghost function OnDisk(): Disk
      reads this
    {
      Disk(snapshot, log, tail)
    }

    constructor (maxSize: nat, utf8: L.Utf8)
      ensures Valid() && OnDisk() == EMPTY && this.maxSize == maxSize && written == 0
    {
      this.maxSize, this.utf8 := maxSize, utf8;
      file, buffer, written, snapshot, log, tail := [], [], 0, None, [], [];
    }

    /** Writes the buffer out, as a flush and a clean shutdown do. */
    method FlushBuffer()
      requires Valid()
      modifies this`file, this`buffer, this`log, this`tail
      ensures Valid() && Next(old(OnDisk()), Close, OnDisk())
      ensures file == old(file + buffer) && buffer == []
    {
      EncodingsConcat(log, tail, utf8);
      file, buffer, log, tail := file + buffer, [], log + tail, [];
    }

    /** A crash: the buffer is gone. */
    method LoseBuffer()
      requires Valid()
      modifies this`buffer, this`tail
      ensures Valid() && Next(old(OnDisk()), Crash, OnDisk()) && buffer == []
    {
      buffer, tail := [], [];
    }

    /** An entry goes into the buffer. The buffer is written out first when the entry does not
        fit, and an entry of the buffer's size or more goes past it. */
    method Put(e: Entry)
      requires Valid() && TsdbManifestCodec.Valid(e, utf8)
      modifies this`file, this`buffer, this`log, this`tail
      ensures Valid() && Next(old(OnDisk()), Step.Append(e), OnDisk())
      ensures file + buffer == old(file + buffer) + Encode(e)
      ensures |Encode(e)| < CAPACITY && old(|buffer|) + |Encode(e)| <= CAPACITY ==> file == old(file) && log == old(log)
    {
      ghost var d := OnDisk();
      MakeRoom(|Encode(e)|);
      ghost var d1 := OnDisk();
      Store(e);
      CloseThenAppend(d, d1, OnDisk(), e);
    }

    /** Writes the buffer out when n more bytes do not fit. */
    method MakeRoom(n: nat)
      requires Valid()
      modifies this`file, this`buffer, this`log, this`tail
      ensures Valid() && file + buffer == old(file + buffer)
      ensures OnDisk() == old(OnDisk()) || Next(old(OnDisk()), Close, OnDisk())
      ensures n >= CAPACITY ==> buffer == [] && tail == []
      ensures old(|buffer|) + n <= CAPACITY ==> file == old(file) && OnDisk() == old(OnDisk())
    {
      NothingBuffered(tail, utf8);
      if |buffer| + n > CAPACITY {
        FlushBuffer();
      }
    }

    method Store(e: Entry)
      requires Valid() && TsdbManifestCodec.Valid(e, utf8) && (|Encode(e)| >= CAPACITY ==> buffer == [] && tail == [])
      modifies this`file, this`buffer, this`log, this`tail
      ensures Valid() && file + buffer == old(file + buffer) + Encode(e)
      ensures |Encode(e)| < CAPACITY ==> file == old(file) && log == old(log) && tail == old(tail) + [e]
      ensures |Encode(e)| >= CAPACITY ==> tail == [] && log == old(log) + [e]
    {
      Regroup(file, buffer, Encode(e));
      if |Encode(e)| >= CAPACITY {
        WriteThrough(e);
      } else {
        WriteBuffered(e);
      }
    }

    method WriteThrough(e: Entry)
      requires Valid() && TsdbManifestCodec.Valid(e, utf8)
      modifies this`file, this`log
      ensures Valid() && file == old(file) + Encode(e) && log == old(log) + [e]
    {
      EncodingsSnoc(log, e, utf8);
      file, log := file + Encode(e), log + [e];
    }

    method WriteBuffered(e: Entry)
      requires Valid() && TsdbManifestCodec.Valid(e, utf8)
      modifies this`buffer, this`tail
      ensures Valid() && buffer == old(buffer) + Encode(e) && tail == old(tail) + [e]
    {
      EncodingsSnoc(tail, e, utf8);
      buffer, tail := buffer + Encode(e), tail + [e];
    }

    /** Reads the file back, in the given chunks, and writes the snapshot. It succeeds if and
        only if no chunk ends inside an entry, and otherwise changes nothing. A crash right
        after it is the torn step of a run. */
    method WriteSnapshot(chunks: seq<Chunk>) returns (ok: bool)
      requires Valid() && buffer == [] && tail == [] && Concat(chunks) == file
      modifies this`snapshot
      ensures Valid() && (ok <==> Aligned(Encodings(log, utf8), chunks))
      ensures ok ==> snapshot.Some? && Next(old(OnDisk()), Torn(snapshot.value), OnDisk())
      ensures !ok ==> snapshot == old(snapshot)
    {
      assert log + [] == log;
      ManifestReadsBackIff(log, chunks, utf8);
      var p := ReadEntries(chunks, utf8);
      if p.failed {
        return false;
      }
      var delta := FromEntries(p.items);
      var sn := WriteTo(snapshot, delta, p.items);
      snapshot := Some(sn);
      return true;
    }

    /** The buffer written out, the snapshot, and then the cut of the file. */
    method SnapshotTruncate(chunks: seq<Chunk>) returns (ok: bool)
      requires Valid() && Concat(chunks) == file + buffer
      modifies this`file, this`buffer, this`snapshot, this`log, this`tail
      ensures Valid() && AllValid(old(log + tail), utf8) && (ok <==> Aligned(Encodings(old(log + tail), utf8), chunks))
      ensures ok ==> snapshot.Some? && file == [] && Next(old(OnDisk()), Snap(snapshot.value), OnDisk())
      ensures !ok ==> Next(old(OnDisk()), Close, OnDisk()) && file == old(file + buffer)
    {
      ghost var d := OnDisk();
      FlushBuffer();
      StepCompletes(d, Close, OnDisk());
      ok := WriteSnapshot(chunks);
      if ok {
        file, log := [], [];
      }
    }

    /** What is in the file when a life ends by a crash or a clean shutdown. */
    method EndLife(crashed: bool)
      requires Valid()
      modifies this`file, this`buffer, this`log, this`tail
      ensures Valid() && Next(old(OnDisk()), if crashed then Crash else Close, OnDisk())
      ensures file + buffer == (if crashed then old(file) else old(file + buffer)) && tail == []
      ensures log + tail == (if crashed then old(log) else old(log + tail))
      ensures Complete(OnDisk()) == if crashed then old(Recovered(OnDisk())) else old(Complete(OnDisk()))
    {
      ghost var d := OnDisk();
      if crashed {
        LoseBuffer();
        StepCompletes(d, Crash, OnDisk());
      } else {
        FlushBuffer();
        StepCompletes(d, Close, OnDisk());
      }
      assert file + buffer == file && log + tail == log;
    }

    /** A restart, after a crash or a clean shutdown: it snapshots the log it finds, and fails if
        and only if a read ends inside an entry. Otherwise it comes up with everything that is
        in the file. */
    method Reopen(crashed: bool, chunks: seq<Chunk>) returns (found: Option<State>)
      requires Valid() && Concat(chunks) == if crashed then file else file + buffer
      modifies this
      ensures Valid()
      ensures var es := if crashed then old(log) else old(log + tail);
        AllValid(es, utf8) && (found.Some? <==> Aligned(Encodings(es, utf8), chunks))
      ensures found.Some? ==> file == [] && tail == [] && found.value == Recovered(OnDisk())
      ensures found.Some? ==> found.value == if crashed then old(Recovered(OnDisk())) else old(Complete(OnDisk()))
      ensures found.None? ==> Next(old(OnDisk()), if crashed then Crash else Close, OnDisk())
    {
      written := 0;
      EndLife(crashed);
      ghost var start := OnDisk();
      var ok := SnapshotTruncate(chunks);
      if !ok {
        return None;
      }
      StepCompletes(start, Snap(snapshot.value), OnDisk());
      assert Rereads([]) == [] && Rereads([] + []) == [];
      found := Some(StateOf(snapshot));
    }

    /** Appends an entry, and takes a snapshot once the bytes ever written exceed the limit.
        That count is never reset, so from then on every append takes one. Before that the entry
        may be in the buffer only. */
    method Append(e: Entry, chunks: seq<Chunk>) returns (snapped: Option<bool>)
      requires Valid() && TsdbManifestCodec.Valid(e, utf8) && Concat(chunks) == file + buffer + Encode(e)
      modifies this
      ensures Valid() && written == old(written) + |Encode(e)|
      ensures Complete(OnDisk()) == Apply(old(Complete(OnDisk())), Reread(e))
      ensures AllValid(old(log + tail) + [e], utf8)
      ensures snapped == if written <= maxSize then Some(false)
                         else if Aligned(Encodings(old(log + tail) + [e], utf8), chunks) then Some(true) else None
      ensures snapped == Some(true) ==> file == []
      ensures snapped != Some(false) ==> Recovered(OnDisk()) == Complete(OnDisk())
      ensures snapped == Some(false) ==> Next(old(OnDisk()), Step.Append(e), OnDisk())
      ensures snapped == Some(false) && |Encode(e)| < CAPACITY && old(|buffer|) + |Encode(e)| <= CAPACITY ==>
        file == old(file) && Recovered(OnDisk()) == old(Recovered(OnDisk()))
    {
      ghost var d := OnDisk();
      Put(e);
      StepCompletes(d, Step.Append(e), OnDisk());
      EntriesValid(log, tail, utf8);
      written := written + |Encode(e)|;
      if written <= maxSize {
        return Some(false);
      }
      ghost var put := OnDisk();
      var ok := SnapshotTruncate(chunks);
      StepCompletes(put, if ok then Snap(snapshot.value) else Close, OnDisk());
      assert log + tail == log;
      return if ok then Some(true) else None;
    }
  }

  /** The same through the code: the append reports success, and a restart after a crash finds
      nothing. */
  method AppendThenCrash(id: u64, maxSize: nat, utf8: L.Utf8) returns (snapped: Option<bool>, found: Option<State>)
    requires maxSize >= 9
    ensures snapped == Some(false) && found == Some(NOTHING)
  {
    var m := new Manifest(maxSize, utf8);
    var e := Flush(id);
    ChunkOf(Encode(e));
    snapped := m.Append(e, [Encode(e)]);
    found := m.Reopen(true, []);
  }

  lemma ChunkOf(b: seq<byte>)
    ensures Concat([b]) == b && [] + [] + b == b
  {
    assert [b][1..] == [];
  }

  lemma Regroup(a: seq<byte>, b: seq<byte>, c: seq<byte>)
    ensures a + b + c == a + (b + c) && a + [] + c == a + c + []
  {
  }

  lemma NothingBuffered(tail: seq<Entry>, utf8: L.Utf8)
    requires AllValid(tail, utf8)
    ensures Concat(Encodings(tail, utf8)) == [] ==> tail == []
  {
    NothingIsEmpty(Encodings(tail, utf8));
  }

  /** An append may begin with writing the buffer out. */
  lemma CloseThenAppend(d: Disk, d1: Disk, d2: Disk, e: Entry)
    requires d1 == d || Next(d, Close, d1)
    requires d2 == Disk(d1.snap, d1.log, d1.tail + [e]) || (d1.tail == [] && d2 == Disk(d1.snap, d1.log + [e], []))
    ensures Next(d, Step.Append(e), d2)
  {
    assert d1.log + d1.tail == d.log + d.tail;
    assert d2.log + d2.tail == d1.log + d1.tail + [e];
  }

  lemma EntriesValid(a: seq<Entry>, b: seq<Entry>, utf8: L.Utf8)
    requires AllValid(a, utf8) && AllValid(b, utf8)
    ensures AllValid(a + b, utf8)
  {
  }

  lemma EncodingsConcat(a: seq<Entry>, b: seq<Entry>, utf8: L.Utf8)
    requires AllValid(a, utf8) && AllValid(b, utf8)
    ensures AllValid(a + b, utf8)
    ensures Concat(Encodings(a + b, utf8)) == Concat(Encodings(a, utf8)) + Concat(Encodings(b, utf8))
  {
    var fs := Encodings(a + b, utf8);
    assert fs[..|a|] == Encodings(a, utf8) && fs[|a|..] == Encodings(b, utf8);
    ConcatSplit(fs, |a|);
  }

  lemma EncodingsSnoc(es: seq<Entry>, e: Entry, utf8: L.Utf8)
    requires AllValid(es, utf8) && TsdbManifestCodec.Valid(e, utf8)
    ensures AllValid(es + [e], utf8)
    ensures Encodings(es + [e], utf8) == Encodings(es, utf8) + [Encode(e)]
    ensures Concat(Encodings(es + [e], utf8)) == Concat(Encodings(es, utf8)) + Encode(e)
  {
    assert Encodings(es + [e], utf8) == Encodings(es, utf8) + [Encode(e)];
    ConcatSnoc(Encodings(es, utf8), Encode(e));
  }
}

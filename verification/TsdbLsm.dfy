/** The write path of logregator-tsdb's LSM tree: batches of payloads become numbered records in
    memtables, full memtables become flush jobs, and new label sets become stream updates. */
module TsdbLsm {
  import opened Bytes
  import opened TsdbRecord
  import opened TsdbMemtable
  import opened TsdbFlush
  import opened TsdbRegistry
  import opened TsdbManifestCodec
  import opened Sequences
  import Manifest = TsdbManifest
  import L = TsdbLabel

  datatype Payload = Payload(frozen: Frozen, entries: seq<Entry>)

  /** What the tree sends to its I/O worker. */
  datatype Event = AppendWal(rec: Record) | FsyncWal | FlushMemtable(job: Payload)

  function WalOf(events: seq<Event>): seq<Record> {
    if events == [] then []
    else
      var front, last := WalOf(events[..|events| - 1]), events[|events| - 1];
      if last.AppendWal? then front + [last.rec] else front
  }

  function JobsOf(events: seq<Event>): seq<Payload> {
    if events == [] then []
    else
      var front, last := JobsOf(events[..|events| - 1]), events[|events| - 1];
      if last.FlushMemtable? then front + [last.job] else front
  }

  function EntriesOf(jobs: seq<Payload>): seq<Entry> {
    if jobs == [] then [] else EntriesOf(jobs[..|jobs| - 1]) + jobs[|jobs| - 1].entries
  }

  // ---- Properties of a whole run

  /** Sequence numbers count the accepted records, without a gap. */
  ghost predicate Numbered(all: seq<Record>, first: nat, next: nat) {
    next == first + |all| && forall i :: 0 <= i < |all| ==> all[i].key.sn == first + i
  }

  /** Every flush job comes after the log events of all its records, but for those that were in
      the memtable at the start. */
  ghost predicate WriteAhead(events: seq<Event>, groups: seq<seq<Record>>, initial: seq<Record>)
    decreases |events|
  {
    if events == [] then groups == []
    else
      var front, last := events[..|events| - 1], events[|events| - 1];
      if last.FlushMemtable?
      then groups != [] && Concat(groups) <= initial + WalOf(front) && WriteAhead(front, groups[..|groups| - 1], initial)
      else WriteAhead(front, groups, initial)
  }

  /** A frozen memtable is never empty, and over the limit only with a single record. */
  ghost predicate Packed(groups: seq<seq<Record>>, limit: nat) {
    forall g :: g in groups ==> Fit(g, limit)
  }

  ghost predicate Fit(g: seq<Record>, limit: nat) {
    g != [] && (Total(g) <= limit || |g| == 1)
  }

  /** Jobs carry the groups in order, under consecutive ids. */
  ghost predicate Carry(jobs: seq<Payload>, groups: seq<seq<Record>>, first: nat) {
    && |jobs| == |groups|
    && forall j :: 0 <= j < |jobs| ==> jobs[j].frozen.id == first + j && Holds(jobs[j].frozen, groups[j])
  }

  /** The queue of frozen memtables is the tail of the jobs. */
  ghost predicate Queued(queue: seq<Frozen>, jobs: seq<Payload>) {
    && |queue| <= |jobs|
    && forall j :: 0 <= j < |queue| ==> queue[j] == jobs[|jobs| - |queue| + j].frozen
  }

  /** New streams get consecutive ids, each in one update with labels the manifest can store. */
  ghost predicate Fresh(updates: seq<Entry>, first: nat, next: nat) {
    && next == first + |updates|
    && forall i :: 0 <= i < |updates| ==>
         updates[i].StreamUpdate? && updates[i].stream == first + i && Encodable(updates[i])
  }

  /** The registry is what replaying the updates on the initial registry gives. */
  ghost predicate Replayed(bs: ByStream, base: ByStream, updates: seq<Entry>) {
    Manifest.Replay(Manifest.State({}, base), updates).labels == bs
  }

  ghost predicate Below(bs: ByStream, next: nat) {
    forall id :: id in bs ==> id < next
  }

  /** A stream that was there at the start, or that these jobs announce. */
  ghost predicate Told(stream: nat, base: ByStream, first: nat, jobs: seq<Payload>) {
    stream in base || stream < first + |EntriesOf(jobs)|
  }

  /** No record that the tree took is flushed before its stream is announced. */
  ghost predicate Announced(groups: seq<seq<Record>>, jobs: seq<Payload>, base: ByStream, first: nat,
                            initial: seq<Record>) {
    && |groups| == |jobs|
    && forall j :: 0 <= j < |groups| ==> AllTold(groups[j], base, first, jobs[..j + 1], initial)
  }

  ghost predicate AllTold(g: seq<Record>, base: ByStream, first: nat, jobs: seq<Payload>, initial: seq<Record>) {
    forall r :: r in g ==> r in initial || Told(r.key.stream, base, first, jobs)
  }

  ghost predicate AllIn(g: seq<Record>, bs: ByStream, initial: seq<Record>) {
    forall r :: r in g ==> r in initial || r.key.stream in bs
  }

  // ---- Steps

  lemma EntriesSnoc(jobs: seq<Payload>, p: Payload)
    ensures EntriesOf(jobs + [p]) == EntriesOf(jobs) + p.entries
  {
    assert (jobs + [p])[..|jobs|] == jobs;
  }

  lemma EventSnoc(events: seq<Event>, e: Event, groups: seq<seq<Record>>, initial: seq<Record>)
    ensures WalOf(events + [e]) == WalOf(events) + (if e.AppendWal? then [e.rec] else [])
    ensures JobsOf(events + [e]) == JobsOf(events) + (if e.FlushMemtable? then [e.job] else [])
    ensures !e.FlushMemtable? && WriteAhead(events, groups, initial) ==> WriteAhead(events + [e], groups, initial)
  {
    assert (events + [e])[..|events|] == events;
  }

  lemma FlushAhead(events: seq<Event>, p: Payload, groups: seq<seq<Record>>, g: seq<Record>,
                   initial: seq<Record>)
    requires WriteAhead(events, groups, initial) && Concat(groups) + g <= initial + WalOf(events)
    ensures WriteAhead(events + [FlushMemtable(p)], groups + [g], initial)
  {
    ConcatSnoc(groups, g);
    assert (events + [FlushMemtable(p)])[..|events|] == events;
    assert (groups + [g])[..|groups|] == groups;
  }

  lemma AnnouncedSnoc(groups: seq<seq<Record>>, jobs: seq<Payload>, base: ByStream, first: nat,
                      g: seq<Record>, p: Payload, initial: seq<Record>)
    requires Announced(groups, jobs, base, first, initial) && AllTold(g, base, first, jobs + [p], initial)
    ensures Announced(groups + [g], jobs + [p], base, first, initial)
  {
    var gs, js := groups + [g], jobs + [p];
    forall j | 0 <= j < |gs|
      ensures AllTold(gs[j], base, first, js[..j + 1], initial)
    {
      if j < |groups| {
        assert js[..j + 1] == jobs[..j + 1];
        assert AllTold(groups[j], base, first, jobs[..j + 1], initial);
      } else {
        assert js[..j + 1] == js;
      }
    }
  }

  /** Every registered stream is an initial one or has an update. */
  lemma {:induction false} RegisteredIff(bs: ByStream, base: ByStream, updates: seq<Entry>, first: nat, next: nat, id: u64)
    requires Replayed(bs, base, updates) && Fresh(updates, first, next)
    ensures id in bs <==> id in base || first <= id < next
  {
    if updates != [] {
      var n := |updates| - 1;
      var front := updates[..n];
      var before := Manifest.Replay(Manifest.State({}, base), front).labels;
      RegisteredIff(before, base, front, first, next - 1, id);
    }
  }

  lemma ReplayedSnoc(bs: ByStream, base: ByStream, updates: seq<Entry>, id: u64, m: L.Labels)
    requires Replayed(bs, base, updates)
    ensures Replayed(bs[id := m], base, updates + [StreamUpdate(id, m)])
  {
    Manifest.ReplaySnoc(Manifest.State({}, base), updates, StreamUpdate(id, m));
  }

  lemma TellAll(g: seq<Record>, bs: ByStream, base: ByStream, updates: seq<Entry>, first: nat, next: nat,
                jobs: seq<Payload>, p: Payload, initial: seq<Record>)
    requires Replayed(bs, base, updates) && Fresh(updates, first, next) && AllIn(g, bs, initial)
    requires EntriesOf(jobs) + p.entries == updates
    ensures AllTold(g, base, first, jobs + [p], initial)
  {
    EntriesSnoc(jobs, p);
    forall r | r in g && r !in initial
      ensures Told(r.key.stream, base, first, jobs + [p])
    {
      RegisteredIff(bs, base, updates, first, next, r.key.stream);
    }
  }

  // ---- The state of a run, on values

  /** Every accepted record is in exactly one group or in the active memtable, in order and
      behind the initial ones, or is the one on its way; and all of them are in the log. */
  ghost predicate RecordsOk(events: seq<Event>, all: seq<Record>, groups: seq<seq<Record>>, arrivals: seq<Record>,
                            pending: seq<Record>, first: nat, next: nat, initial: seq<Record>) {
    && Numbered(all, first, next) && WalOf(events) == all
    && Concat(groups) + arrivals + pending == initial + all && WriteAhead(events, groups, initial)
  }

  ghost predicate TablesOk(jobs: seq<Payload>, groups: seq<seq<Record>>, frozen: seq<Frozen>, limit: nat,
                           first: nat, id: nat) {
    && Packed(groups, limit) && Carry(jobs, groups, first) && Queued(frozen, jobs)
    && id == first + |groups|
  }

  ghost predicate StreamsOk(jobs: seq<Payload>, groups: seq<seq<Record>>, bs: ByStream, buffer: seq<Entry>,
                            base: ByStream, updates: seq<Entry>, first: nat, next: nat, initial: seq<Record>) {
    && Replayed(bs, base, updates) && Fresh(updates, first, next) && Below(base, first)
    && EntriesOf(jobs) + buffer == updates && Announced(groups, jobs, base, first, initial)
  }

  lemma RecordsLogged(events: seq<Event>, all: seq<Record>, groups: seq<seq<Record>>,
                      arrivals: seq<Record>, first: nat, next: nat, initial: seq<Record>, r: Record)
    requires RecordsOk(events, all, groups, arrivals, [], first, next, initial) && r.key.sn == next
    ensures RecordsOk(events + [AppendWal(r)], all + [r], groups, arrivals, [r], first, next + 1, initial)
    ensures JobsOf(events + [AppendWal(r)]) == JobsOf(events)
  {
    EventSnoc(events, AppendWal(r), groups, initial);
    assert Concat(groups) + arrivals + [] == Concat(groups) + arrivals;
    assert initial + (all + [r]) == initial + all + [r];
    assert JobsOf(events) + [] == JobsOf(events);
  }

  lemma RecordsTaken(events: seq<Event>, all: seq<Record>, groups: seq<seq<Record>>,
                     arrivals: seq<Record>, first: nat, next: nat, initial: seq<Record>, r: Record)
    requires RecordsOk(events, all, groups, arrivals, [r], first, next, initial)
    ensures RecordsOk(events, all, groups, arrivals + [r], [], first, next, initial)
  {
    assert Concat(groups) + (arrivals + [r]) + [] == Concat(groups) + arrivals + [r];
  }

  lemma RecordsFlushed(events: seq<Event>, all: seq<Record>, groups: seq<seq<Record>>,
                       g: seq<Record>, pending: seq<Record>, first: nat, next: nat,
                       initial: seq<Record>, job: Payload)
    requires RecordsOk(events, all, groups, g, pending, first, next, initial)
    ensures RecordsOk(events + [FlushMemtable(job)], all, groups + [g], [], pending, first, next, initial)
    ensures JobsOf(events + [FlushMemtable(job)]) == JobsOf(events) + [job]
  {
    var e := FlushMemtable(job);
    ConcatSnoc(groups, g);
    FlushAhead(events, job, groups, g, initial);
    EventSnoc(events, e, groups, initial);
    assert WalOf(events) + [] == WalOf(events);
    assert Concat(groups) + g + [] + pending == Concat(groups) + g + pending;
  }

  lemma TablesFlushed(jobs: seq<Payload>, groups: seq<seq<Record>>, frozen: seq<Frozen>, limit: nat,
                      first: nat, id: nat, g: seq<Record>, job: Payload)
    requires TablesOk(jobs, groups, frozen, limit, first, id)
    requires Fit(g, limit) && job.frozen.id == id && Holds(job.frozen, g)
    ensures TablesOk(jobs + [job], groups + [g], frozen + [job.frozen], limit, first, id + 1)
  {
  }

  lemma StreamsFlushed(jobs: seq<Payload>, groups: seq<seq<Record>>, bs: ByStream, buffer: seq<Entry>,
                       base: ByStream, updates: seq<Entry>, first: nat, next: nat,
                       initial: seq<Record>, g: seq<Record>, job: Payload)
    requires StreamsOk(jobs, groups, bs, buffer, base, updates, first, next, initial)
    requires AllIn(g, bs, initial) && job.entries == buffer
    ensures StreamsOk(jobs + [job], groups + [g], bs, [], base, updates, first, next, initial)
  {
    TellAll(g, bs, base, updates, first, next, jobs, job, initial);
    AnnouncedSnoc(groups, jobs, base, first, g, job, initial);
    EntriesSnoc(jobs, job);
    assert EntriesOf(jobs + [job]) + [] == updates;
  }

  lemma StreamsAdded(jobs: seq<Payload>, groups: seq<seq<Record>>, bs: ByStream, buffer: seq<Entry>,
                     base: ByStream, updates: seq<Entry>, first: nat, id: u64,
                     initial: seq<Record>, m: L.Labels)
    requires StreamsOk(jobs, groups, bs, buffer, base, updates, first, id, initial) && L.Encodable(m)
    ensures var u := StreamUpdate(id, m);
      StreamsOk(jobs, groups, bs[id := m], buffer + [u], base, updates + [u], first, id + 1, initial)
    ensures id !in bs
  {
    RegisteredIff(bs, base, updates, first, id, id);
    ReplayedSnoc(bs, base, updates, id, m);
    assert EntriesOf(jobs) + (buffer + [StreamUpdate(id, m)]) == EntriesOf(jobs) + buffer + [StreamUpdate(id, m)];
  }

  /** Streams keep their labels. */
  ghost predicate Extends(a: ByStream, b: ByStream) {
    forall id :: id in a ==> id in b && a[id] == b[id]
  }

  /** The codec that a tree is given for its labels: a map and the bytes it took, or an error. */
  type LabelCodec = seq<byte> -> Option<(L.Labels, nat)>

  function MapCodec(utf8: L.Utf8): LabelCodec {
    payload => L.Decode(payload, utf8)
  }

  ghost predicate Fine(payload: seq<byte>, m: L.Labels, n: nat) {
    L.Ordered(m) && |m| <= L.MAX_LABELS && n <= |payload|
  }

  /** What the tree relies on. */
  ghost predicate Sound(codec: LabelCodec) {
    forall p :: codec(p).Some? ==> Fine(p, codec(p).value.0, codec(p).value.1)
  }

  /** What becomes of one payload. */
  function Verdict(payload: seq<byte>, bl: ByLabels, codec: LabelCodec): Outcome {
    if !PayloadFits(|payload|) then BadPayload
    else
      var d := codec(payload);
      if d.None? then BadLabels
      else if d.value.0 in bl || L.GoodTexts(d.value.0) then Done else Panics
  }

  /** Why a batch stopped at its k-th payload. */
  ghost predicate StopsAt(payloads: seq<seq<byte>>, k: int, o: Outcome, codec: LabelCodec) {
    0 <= k < |payloads| && Refused(payloads[k], o, codec)
  }

  ghost predicate Refused(payload: seq<byte>, o: Outcome, codec: LabelCodec) {
    match o
    case BadPayload => !PayloadFits(|payload|)
    case BadLabels => PayloadFits(|payload|) && codec(payload).None?
    case Panics =>
      PayloadFits(|payload|) && codec(payload).Some? && !L.GoodTexts(codec(payload).value.0)
    case _ => false
  }

  lemma VerdictRefuses(payload: seq<byte>, bl: ByLabels, codec: LabelCodec)
    ensures var o := Verdict(payload, bl, codec);
      o.Done? || Refused(payload, o, codec)
  {
  }

  /** A record made from a payload: its labels became the stream, the rest of it the payload. */
  ghost predicate MadeFrom(r: Record, payload: seq<byte>, ts: u64, source: u64, bs: ByStream, codec: LabelCodec) {
    var d := codec(payload);
    && PayloadFits(|payload|) && d.Some? && d.value.1 <= |payload| && r.payload == payload[d.value.1..]
    && r.key.stream in bs && bs[r.key.stream] == d.value.0 && r.key.ts == ts && r.key.source == source
  }

  /** A label map that decodes but that no manifest entry can hold: one label, both texts empty. */
  lemma EmptyLabelPanics(utf8: L.Utf8)
    requires utf8([])
    ensures Verdict([1, 0, 0], map[], MapCodec(utf8)) == Panics
  {
    L.EmptyLabelDecodes(utf8);
    assert L.Label([], []) in [L.Label([], [])];
  }

  /** The stripped record can be written to a table if and only if two bytes follow the labels;
      the size test of a batch looks at the whole payload instead. */
  lemma StrippedFitsIff(payload: seq<byte>, key: Key, codec: LabelCodec)
    requires Sound(codec) && PayloadFits(|payload|) && codec(payload).Some?
    ensures var n := codec(payload).value.1;
      n <= |payload| && (TsdbRecord.Valid(Record(key, payload[n..])) <==> |payload| - n >= MIN_PAYLOAD)
  {
    assert Fine(payload, codec(payload).value.0, codec(payload).value.1);
  }

  /** A batch takes a payload without labels and with one byte behind them; a memtable that
      holds its record cannot be flushed. */
  lemma OneByteRecordCannotBeFlushed(utf8: L.Utf8, key: Key, f: Frozen)
    requires Holds(f, [Record(key, [7])])
    ensures Verdict([0, 7], map[], MapCodec(utf8)) == Done && MapCodec(utf8)([0, 7]) == Some(([], 1))
    ensures [0, 7][1..] == [7] && Flushed(f) == WriteFails
  {
    var r := Record(key, [7]);
    KeptAll([r]);
    assert r in f.recs by {
      assert r in [r];
    }
    assert L.Decode([0, 7], utf8) == Some(([], 1));
    assert r in InRange(f.recs, key, key);
  }

  lemma MapCodecIsSound(utf8: L.Utf8)
    ensures Sound(MapCodec(utf8))
  {
    forall payload | MapCodec(utf8)(payload).Some?
      ensures Fine(payload, MapCodec(utf8)(payload).value.0, MapCodec(utf8)(payload).value.1)
    {
      L.DecodedIsMap(payload, utf8);
      L.DecodedCount(payload, utf8);
    }
  }

  // ---- The tree

  datatype Stream = Known(id: u64) | Unannounceable | LabelState

  datatype Outcome = Done | BadPayload | BadLabels | Panics | Corrupt | Disconnected

  class LsmTree {
    const memtable: MutMemtable
    const registry: StreamRegistry
    const codec: LabelCodec
    var frozen: seq<Frozen>
    var handles: seq<nat>
    var nextMemtable: nat
    var nextStream: nat
    var nextSeq: nat
    var buffer: seq<Entry>
    var events: seq<Event>
    // How many more events the worker takes before it is gone.
    var capacity: nat

    // The start of the run, and its history.
    ghost const firstId: nat
    ghost const firstSeq: nat
    ghost const firstStream: nat
    ghost const base: ByStream
    ghost const initial: seq<Record>
    ghost var all: seq<Record>
    ghost var groups: seq<seq<Record>>
    ghost var updates: seq<Entry>

    ghost predicate Records(pending: seq<Record>)
      reads this, memtable
    {
      memtable.Valid() && RecordsOk(events, all, groups, memtable.arrivals, pending, firstSeq, nextSeq, initial)
    }

    ghost predicate Tables()
      reads this, memtable
    {
      && TablesOk(JobsOf(events), groups, frozen, memtable.limit, firstId, memtable.id)
      && nextMemtable == memtable.id + 1
    }

    ghost predicate Streams()
      reads this, registry
    {
      && registry.Valid()
      && StreamsOk(JobsOf(events), groups, registry.byStream, buffer, base, updates, firstStream, nextStream, initial)
    }

    ghost predicate Valid()
      reads this, memtable, registry
    {
      && Records([]) && Tables() && Streams() && AllIn(memtable.arrivals, registry.byStream, initial)
      && Sound(codec)
    }

    /** How many frozen memtables have been let go of. */
    ghost function Released(): int
      reads this
    {
      |JobsOf(events)| - |frozen|
    }

    constructor (memtable: MutMemtable, handles: seq<nat>, registry: StreamRegistry, codec: LabelCodec,
                 nextStream: nat, nextSeq: nat, capacity: nat)
      requires memtable.Valid() && Sound(codec)
      requires registry.Valid() && Below(registry.byStream, nextStream)
      ensures Valid() && this.memtable == memtable && this.registry == registry && this.handles == handles
      ensures all == [] && Released() == 0 && this.capacity == capacity
    {
      this.memtable, this.registry, this.codec := memtable, registry, codec;
      this.nextMemtable, this.nextStream, this.nextSeq := memtable.id + 1, nextStream, nextSeq;
      this.handles, this.capacity := handles, capacity;
      frozen, buffer, events := [], [], [];
      firstId, firstSeq, firstStream, base := memtable.id, nextSeq, nextStream, registry.byStream;
      initial := memtable.arrivals;
      all, groups, updates := [], [], [];
    }

    /** Sending to the worker; once it is gone every send fails. */
    method Emit(e: Event) returns (ok: bool)
      modifies this`events, this`capacity
      ensures ok <==> old(capacity) > 0
      ensures ok ==> events == old(events) + [e] && capacity == old(capacity) - 1
      ensures !ok ==> events == old(events) && capacity == 0
    {
      ok := capacity > 0;
      if ok {
        capacity := capacity - 1;
        events := events + [e];
      }
    }

    /** Freezes the active memtable and sends it off with all updates not yet announced. */
    method IssueFlush(ghost pending: seq<Record>) returns (ok: bool)
      requires Records(pending) && Tables() && Streams() && AllIn(memtable.arrivals, registry.byStream, initial)
      requires memtable.arrivals != []
      modifies this`frozen, this`nextMemtable, this`buffer, this`events, this`capacity, this`groups, memtable
      ensures ok <==> old(capacity) > 0
      ensures ok ==> Records(pending) && Tables() && Streams() && capacity == old(capacity) - 1
      ensures ok ==> memtable.arrivals == [] && buffer == [] && groups == old(groups) + [old(memtable.arrivals)]
      ensures ok ==> Released() == old(Released())
      ensures !ok ==> capacity == 0
    {
      ghost var g := memtable.arrivals;
      var f := memtable.Freeze(nextMemtable);
      nextMemtable := nextMemtable + 1;
      ok := SendJob(f, g, pending);
    }

    method SendJob(f: Frozen, ghost g: seq<Record>, ghost pending: seq<Record>) returns (ok: bool)
      requires RecordsOk(events, all, groups, g, pending, firstSeq, nextSeq, initial)
      requires TablesOk(JobsOf(events), groups, frozen, memtable.limit, firstId, f.id)
      requires StreamsOk(JobsOf(events), groups, registry.byStream, buffer, base, updates, firstStream, nextStream, initial)
      requires Fit(g, memtable.limit) && Holds(f, g) && AllIn(g, registry.byStream, initial)
      modifies this`frozen, this`buffer, this`events, this`capacity, this`groups
      ensures ok <==> old(capacity) > 0
      ensures ok ==> RecordsOk(events, all, groups, [], pending, firstSeq, nextSeq, initial)
      ensures ok ==> TablesOk(JobsOf(events), groups, frozen, memtable.limit, firstId, f.id + 1)
      ensures ok ==>
        StreamsOk(JobsOf(events), groups, registry.byStream, buffer, base, updates, firstStream, nextStream, initial)
      ensures ok ==> buffer == [] && groups == old(groups) + [g] && capacity == old(capacity) - 1
      ensures ok ==> Released() == old(Released())
      ensures !ok ==> capacity == 0
    {
      var job := Payload(f, buffer);
      ghost var jobs := JobsOf(events);
      RecordsFlushed(events, all, groups, g, pending, firstSeq, nextSeq, initial, job);
      TablesFlushed(jobs, groups, frozen, memtable.limit, firstId, f.id, g, job);
      StreamsFlushed(jobs, groups, registry.byStream, buffer, base, updates, firstStream, nextStream, initial, g, job);
      frozen, buffer := frozen + [f], [];
      ok := Emit(FlushMemtable(job));
      groups := groups + [g];
    }

    /** The stream of a label map: the registered one, or a new one with its update. The two
        registry errors never occur. A map that the manifest cannot store panics, after it has
        been registered. */
    method Resolve(m: L.Labels) returns (s: Stream)
      requires Streams() && nextStream < 0x1_0000_0000_0000_0000 && L.Ordered(m) && |m| <= L.MAX_LABELS
      modifies this`nextStream, this`buffer, this`updates, registry
      ensures s == if m in old(registry.byLabels) then Known(old(registry.byLabels[m]))
                   else if L.GoodTexts(m) then Known(old(nextStream)) else Unannounceable
      ensures s.Known? ==> Streams() && s.id in registry.byStream && registry.byStream[s.id] == m
      ensures Extends(old(registry.byStream), registry.byStream) && nextStream <= old(nextStream) + 1
    {
      if m in registry.byLabels {
        var id := registry.byLabels[m];
        if id !in registry.byStream || registry.byStream[id] != m {
          return LabelState;
        }
        return Known(id);
      }
      s := AddStream(m);
    }

    method AddStream(m: L.Labels) returns (s: Stream)
      requires Streams() && nextStream < 0x1_0000_0000_0000_0000 && |m| <= L.MAX_LABELS && m !in registry.byLabels
      modifies this`nextStream, this`buffer, this`updates, registry
      ensures s == if L.GoodTexts(m) then Known(old(nextStream)) else Unannounceable
      ensures s.Known? ==> Streams() && s.id in registry.byStream && registry.byStream[s.id] == m
      ensures Extends(old(registry.byStream), registry.byStream) && nextStream == old(nextStream) + 1
    {
      var id := nextStream;
      RegisteredIff(registry.byStream, base, updates, firstStream, id, id);
      nextStream := nextStream + 1;
      if !L.GoodTexts(m) {
        Register(id, m);
        return Unannounceable;
      }
      Announce(id, m);
      return Known(id);
    }

    /** Registers a new stream and buffers its update. */
    method Announce(id: u64, m: L.Labels)
      requires registry.Valid() && id !in registry.byStream && m !in registry.byLabels && L.Encodable(m)
      requires StreamsOk(JobsOf(events), groups, registry.byStream, buffer, base, updates, firstStream, id, initial)
      modifies this`buffer, this`updates, registry
      ensures registry.Valid() && registry.byStream == old(registry.byStream)[id := m]
      ensures StreamsOk(JobsOf(events), groups, registry.byStream, buffer, base, updates, firstStream, id + 1, initial)
    {
      StreamsAdded(JobsOf(events), groups, registry.byStream, buffer, base, updates, firstStream, id, initial, m);
      Register(id, m);
      buffer := buffer + [StreamUpdate(id, m)];
      updates := updates + [StreamUpdate(id, m)];
    }

    method Register(id: u64, m: L.Labels)
      requires registry.Valid() && id !in registry.byStream && m !in registry.byLabels
      modifies registry
      ensures registry.Valid() && registry.byStream == old(registry.byStream)[id := m]
    {
      registry.Insert(id, m);
    }

    /** Numbers a record, logs it and puts it into the memtable, with a flush before or after
        it where the memtable says so. The record that a full memtable rejected always enters
        the empty one. It fails only when the worker is gone, and then the record is in the log
        or nowhere. */
    method Put(stream: u64, ts: u64, source: u64, payload: seq<byte>) returns (ok: bool)
      requires Valid() && nextSeq < 0x1_0000_0000_0000_0000 && stream in registry.byStream
      modifies this`frozen, this`nextMemtable, this`nextSeq, this`buffer, this`events, this`capacity, this`all, this`groups
      modifies memtable
      ensures nextSeq == old(nextSeq) + 1
      ensures all == old(all) || all == old(all) + [Record(Key(stream, ts, old(nextSeq), source), payload)]
      ensures ok ==> Valid() && all == old(all) + [Record(Key(stream, ts, old(nextSeq), source), payload)]
      ensures ok ==> Released() == old(Released()) && old(capacity) <= capacity + 2
      ensures !ok ==> capacity == 0 && old(capacity) < 2
    {
      var rec := Record(Key(stream, ts, nextSeq, source), payload);
      ok := Log(rec);
      if ok {
        ok := Store(rec);
      }
    }

    method Log(rec: Record) returns (ok: bool)
      requires Records([]) && rec.key.sn == nextSeq
      modifies this`nextSeq, this`events, this`capacity, this`all
      ensures nextSeq == old(nextSeq) + 1 && (ok <==> old(capacity) > 0)
      ensures ok ==> Records([rec]) && all == old(all) + [rec] && capacity == old(capacity) - 1
      ensures !ok ==> all == old(all) && events == old(events) && capacity == 0
      ensures JobsOf(events) == JobsOf(old(events))
    {
      RecordsLogged(events, all, groups, memtable.arrivals, firstSeq, nextSeq, initial, rec);
      nextSeq := nextSeq + 1;
      ok := Emit(AppendWal(rec));
      if ok {
        all := all + [rec];
      }
    }

    method Store(rec: Record) returns (ok: bool)
      requires Records([rec]) && Tables() && Streams() && Sound(codec)
      requires AllIn(memtable.arrivals, registry.byStream, initial) && rec.key.stream in registry.byStream
      modifies this`frozen, this`nextMemtable, this`buffer, this`events, this`capacity, this`groups, memtable
      ensures ok ==> Valid() && Released() == old(Released()) && old(capacity) <= capacity + 1
      ensures !ok ==> capacity == 0 && old(capacity) == 0
    {
      RecordsTaken(events, all, groups, memtable.arrivals, firstSeq, nextSeq, initial, rec);
      var out := memtable.Append(rec);
      ok := true;
      if out.Full? {
        if out.rejected.Some? {
          ok := FlushThenStore(rec);
        } else {
          ok := IssueFlush([]);
        }
      }
    }

    /** The branch of `Store` for a record that did not fit. */
    method FlushThenStore(rec: Record) returns (ok: bool)
      requires Records([rec]) && Tables() && Streams() && Sound(codec) && memtable.arrivals != []
      requires AllIn(memtable.arrivals, registry.byStream, initial) && rec.key.stream in registry.byStream
      modifies this`frozen, this`nextMemtable, this`buffer, this`events, this`capacity, this`groups, memtable
      ensures ok <==> old(capacity) > 0
      ensures ok ==> Valid() && memtable.arrivals == [rec]
      ensures ok ==> Released() == old(Released()) && capacity == old(capacity) - 1
      ensures !ok ==> capacity == 0
    {
      ok := IssueFlush([rec]);
      if ok {
        RecordsTaken(events, all, groups, [], firstSeq, nextSeq, initial, rec);
        assert [] + [rec] == [rec];
        var out := memtable.Append(rec);
        assert out.Fits? || out.rejected.None?;
      }
    }

    method AppendOne(payload: seq<byte>, ts: u64, source: u64) returns (o: Outcome)
      requires Valid() && nextSeq < 0x1_0000_0000_0000_0000 && nextStream < 0x1_0000_0000_0000_0000
      modifies this, memtable, registry
      ensures var v := Verdict(payload, old(registry.byLabels), codec);
        o == v || (v.Done? && o.Disconnected?)
      ensures Extends(old(registry.byStream), registry.byStream)
      ensures Usable(o) ==> Valid() && nextStream <= old(nextStream) + 1 && Released() == old(Released())
      ensures old(all) <= all && |all| <= |old(all)| + 1 && (o.Done? ==> |all| == |old(all)| + 1)
      ensures |all| > |old(all)| ==> MadeFrom(all[|old(all)|], payload, ts, source, registry.byStream, codec)
      ensures !o.Done? && !o.Disconnected? ==>
        all == old(all) && groups == old(groups) && memtable.arrivals == old(memtable.arrivals)
      ensures o.Done? ==> nextSeq == old(nextSeq) + 1 && old(capacity) <= capacity + 2
      ensures o.Disconnected? ==> capacity == 0 && old(capacity) < 2
    {
      if !PayloadFits(|payload|) {
        return BadPayload;
      }
      var d := codec(payload);
      if d.None? {
        return BadLabels;
      }
      var (m, n) := d.value;
      assert Fine(payload, m, n);
      ghost var made;
      o, made := Take(m, payload[n..], ts, source);
    }

    /** The part of a batch behind the decoder: a label map and the bytes that followed it. */
    method Take(m: L.Labels, body: seq<byte>, ts: u64, source: u64) returns (o: Outcome, ghost made: seq<Record>)
      requires Valid() && nextSeq < 0x1_0000_0000_0000_0000 && nextStream < 0x1_0000_0000_0000_0000
      requires L.Ordered(m) && |m| <= L.MAX_LABELS
      modifies this, memtable, registry
      ensures if m in old(registry.byLabels) || L.GoodTexts(m) then o.Done? || o.Disconnected? else o.Panics?
      ensures Extends(old(registry.byStream), registry.byStream)
      ensures Usable(o) ==> Valid() && nextStream <= old(nextStream) + 1 && Released() == old(Released())
      ensures all == old(all) + made && AtMostOne(made, body, ts, source, m, registry.byStream)
      ensures o.Panics? ==> made == [] && groups == old(groups) && memtable.arrivals == old(memtable.arrivals)
      ensures o.Done? ==> |made| == 1 && nextSeq == old(nextSeq) + 1 && old(capacity) <= capacity + 2
      ensures o.Disconnected? ==> capacity == 0 && old(capacity) < 2
    {
      made := [];
      assert all + made == all;
      var s := FindStream(m);
      match s {
        case Known(id) => o, made := Enter(id, body, ts, source);
        case Unannounceable => o := Panics;
        case LabelState => o := Corrupt;
      }
    }

    /** `Resolve`, as far as the run is concerned. */
    method FindStream(m: L.Labels) returns (s: Stream)
      requires Valid() && nextStream < 0x1_0000_0000_0000_0000 && L.Ordered(m) && |m| <= L.MAX_LABELS
      modifies this`nextStream, this`buffer, this`updates, registry
      ensures if m in old(registry.byLabels) || L.GoodTexts(m) then s.Known? else s.Unannounceable?
      ensures s.Known? ==> Valid() && s.id in registry.byStream && registry.byStream[s.id] == m
      ensures Extends(old(registry.byStream), registry.byStream) && nextStream <= old(nextStream) + 1
      ensures Released() == old(Released())
    {
      s := Resolve(m);
    }

    method Enter(stream: u64, body: seq<byte>, ts: u64, source: u64) returns (o: Outcome, ghost made: seq<Record>)
      requires Valid() && nextSeq < 0x1_0000_0000_0000_0000 && stream in registry.byStream
      modifies this`frozen, this`nextMemtable, this`nextSeq, this`buffer, this`events, this`capacity, this`all, this`groups
      modifies memtable
      ensures o.Done? || o.Disconnected?
      ensures o.Done? ==> Valid() && Released() == old(Released())
      ensures all == old(all) + made
      ensures AtMostOne(made, body, ts, source, registry.byStream[stream], registry.byStream)
      ensures o.Done? ==> |made| == 1 && nextSeq == old(nextSeq) + 1 && old(capacity) <= capacity + 2
      ensures o.Disconnected? ==> capacity == 0 && old(capacity) < 2
    {
      var ok := Put(stream, ts, source, body);
      o := if ok then Done else Disconnected;
      made := all[|old(all)|..];
    }

    /** Appends payloads until one fails; ends with a sync of the log when none does. */
    method AppendBatch(payloads: seq<seq<byte>>, source: u64, clock: seq<u64>) returns (o: Outcome)
      requires Valid() && |clock| == |payloads|
      requires nextSeq + |payloads| <= 0x1_0000_0000_0000_0000 && nextStream + |payloads| <= 0x1_0000_0000_0000_0000
      modifies this, memtable, registry
      ensures Usable(o) ==> Valid() && Released() == old(Released())
      ensures Extends(old(registry.byStream), registry.byStream) && old(all) <= all
      ensures AllMade(all, |old(all)|, payloads, clock, source, registry.byStream, codec)
      ensures o.Done? ==> |all| == |old(all)| + |payloads| && events != [] && events[|events| - 1].FsyncWal?
      ensures o.Disconnected? ==> capacity == 0 && old(capacity) <= 2 * |payloads|
      ensures !o.Done? && !o.Disconnected? ==> StopsAt(payloads, |all| - |old(all)|, o, codec)
    {
      o := AppendAll(payloads, source, clock);
      if o.Done? {
        var ok := Sync();
        if !ok {
          o := Disconnected;
        }
      }
    }

    method AppendAll(payloads: seq<seq<byte>>, source: u64, clock: seq<u64>) returns (o: Outcome)
      requires Valid() && |clock| == |payloads|
      requires nextSeq + |payloads| <= 0x1_0000_0000_0000_0000 && nextStream + |payloads| <= 0x1_0000_0000_0000_0000
      modifies this, memtable, registry
      ensures Usable(o) ==> Valid() && Released() == old(Released())
      ensures Extends(old(registry.byStream), registry.byStream) && old(all) <= all
      ensures AllMade(all, |old(all)|, payloads, clock, source, registry.byStream, codec)
      ensures o.Done? ==> |all| == |old(all)| + |payloads| && old(capacity) <= capacity + 2 * |payloads|
      ensures o.Disconnected? ==> capacity == 0 && old(capacity) <= 2 * |payloads|
      ensures !o.Done? && !o.Disconnected? ==> StopsAt(payloads, |all| - |old(all)|, o, codec)
    {
      ghost var start := |all|;
      o := Done;
      for i := 0 to |payloads|
        invariant Valid() && o.Done? && |all| == start + i && Released() == old(Released())
        invariant Extends(old(registry.byStream), registry.byStream) && old(all) <= all
        invariant nextSeq == old(nextSeq) + i && nextStream <= old(nextStream) + i && old(capacity) <= capacity + 2 * i
        invariant AllMade(all, start, payloads, clock, source, registry.byStream, codec)
      {
        o := AppendNext(payloads, source, clock, i, start);
        if !o.Done? {
          return;
        }
      }
    }

    method AppendNext(payloads: seq<seq<byte>>, source: u64, clock: seq<u64>, i: nat, ghost start: nat)
      returns (o: Outcome)
      requires Valid() && nextSeq < 0x1_0000_0000_0000_0000 && nextStream < 0x1_0000_0000_0000_0000
      requires i < |payloads| && |all| == start + i
      requires AllMade(all, start, payloads, clock, source, registry.byStream, codec)
      modifies this, memtable, registry
      ensures Usable(o) ==> Valid() && Released() == old(Released())
      ensures Extends(old(registry.byStream), registry.byStream) && old(all) <= all
      ensures AllMade(all, start, payloads, clock, source, registry.byStream, codec)
      ensures o.Done? ==> |all| == start + i + 1
      ensures o.Done? ==> nextSeq == old(nextSeq) + 1 && nextStream <= old(nextStream) + 1 && old(capacity) <= capacity + 2
      ensures o.Disconnected? ==> capacity == 0 && old(capacity) < 2
      ensures !o.Done? && !o.Disconnected? ==> StopsAt(payloads, |all| - start, o, codec)
    {
      ghost var before, bs := all, registry.byStream;
      VerdictRefuses(payloads[i], registry.byLabels, codec);
      o := AppendOne(payloads[i], clock[i], source);
      if |all| > |before| {
        AllMadeSnoc(before, all, start, payloads, clock, source, bs, registry.byStream, codec);
      } else {
        assert all == before;
        AllMadeKept(before, start, payloads, clock, source, bs, registry.byStream, codec);
      }
    }

    /** The ids of the next jobs to report, in the order of their issue. */
    ghost predicate NextResults(results: seq<nat>)
      reads this
    {
      |results| <= |frozen| && forall i :: 0 <= i < |results| ==> results[i] == firstId + Released() + i
    }

    /** Takes in the tables of finished flushes, and lets go of the oldest frozen memtable when
        its table is the next one. Results in the order of issue let go of one memtable each. */
    method DrainSstQueue(results: seq<nat>)
      requires Valid()
      modifies this`frozen, this`handles
      ensures Valid() && frozen == Drained(old(frozen), results) && handles == old(handles) + results
      ensures old(NextResults(results)) ==>
        frozen == old(frozen)[|results|..] && Released() == old(Released()) + |results|
    {
      TablesDrained(JobsOf(events), groups, frozen, memtable.limit, firstId, memtable.id, results);
      if NextResults(results) {
        QueueIds(JobsOf(events), groups, frozen, memtable.limit, firstId, memtable.id, results);
        InOrderDrains(frozen, |results|);
      }
      Drain(results);
    }

    method Drain(results: seq<nat>)
      modifies this`frozen, this`handles
      ensures frozen == Drained(old(frozen), results) && handles == old(handles) + results
    {
      for i := 0 to |results|
        invariant Drained(old(frozen), results) == Drained(frozen, results[i..])
        invariant handles == old(handles) + results[..i]
      {
        assert results[i..][1..] == results[i + 1..];
        if frozen != [] && frozen[0].id == results[i] {
          frozen := frozen[1..];
        }
        handles := handles + [results[i]];
      }
      assert results[..|results|] == results;
    }

    method Sync() returns (ok: bool)
      requires Valid()
      modifies this`events, this`capacity
      ensures ok <==> old(capacity) > 0
      ensures Valid() && Released() == old(Released())
      ensures ok ==> events == old(events) + [FsyncWal]
      ensures !ok ==> capacity == 0
    {
      EventSnoc(events, FsyncWal, groups, initial);
      assert WalOf(events) + [] == WalOf(events) && JobsOf(events) + [] == JobsOf(events);
      ok := Emit(FsyncWal);
    }
  }

  /** No record, or one made of these bytes for a stream with these labels. */
  ghost predicate AtMostOne(made: seq<Record>, body: seq<byte>, ts: u64, source: u64, m: L.Labels, bs: ByStream) {
    |made| == 0 ||
    (|made| == 1 && made[0].payload == body && made[0].key.ts == ts && made[0].key.source == source
     && made[0].key.stream in bs && bs[made[0].key.stream] == m)
  }

  /** After a panic or without a worker the tree promises nothing more. */
  predicate Usable(o: Outcome) {
    !o.Panics? && !o.Disconnected?
  }

  // ---- Whole runs with a worker that reports in order

  /** A batch, or the results of the next jobs. */
  datatype Op = Batch(payloads: seq<seq<byte>>, source: u64, clock: seq<u64>) | Report(count: nat)

  /** Any run of batches and drains. The worker takes its jobs from the events and reports them
      in the order of their issue. Each result meets its memtable at the front of the queue, and
      the queue is always exactly the jobs not yet reported. The run ends early at an unusable
      outcome or before a counter overflows. */
  method Drive(t: LsmTree, ops: seq<Op>) returns (reported: nat, usable: bool)
    requires t.Valid() && t.Released() == 0
    modifies t, t.memtable, t.registry
    ensures usable ==> t.Valid() && reported + |t.frozen| == |JobsOf(t.events)|
    ensures usable ==> forall j :: 0 <= j < |t.frozen| ==> t.frozen[j] == JobsOf(t.events)[reported + j].frozen
  {
    reported, usable := 0, true;
    for i := 0 to |ops|
      invariant usable ==> t.Valid() && t.Released() == reported
    {
      if usable {
        reported, usable := Perform(t, ops[i], reported);
      }
    }
    if usable {
      QueueIsRest(t.frozen, JobsOf(t.events), reported);
    }
  }

  lemma QueueIsRest(frozen: seq<Frozen>, jobs: seq<Payload>, reported: nat)
    requires Queued(frozen, jobs) && |jobs| - |frozen| == reported
    ensures forall j :: 0 <= j < |frozen| ==> frozen[j] == jobs[reported + j].frozen
  {
  }

  method Perform(t: LsmTree, op: Op, reported: nat) returns (r: nat, usable: bool)
    requires t.Valid() && t.Released() == reported
    modifies t, t.memtable, t.registry
    ensures usable ==> t.Valid() && t.Released() == r
    ensures op.Report? && op.count <= |old(t.frozen)| ==>
      usable && r == reported + op.count && t.frozen == old(t.frozen)[op.count..]
    ensures op.Report? && op.count > |old(t.frozen)| ==> usable && r == reported && t.frozen == old(t.frozen)
  {
    match op {
      case Batch(payloads, source, clock) =>
        r := reported;
        usable := PerformBatch(t, payloads, source, clock);
      case Report(count) =>
        usable := true;
        r := PerformReport(t, count, reported);
    }
  }

  method PerformBatch(t: LsmTree, payloads: seq<seq<byte>>, source: u64, clock: seq<u64>) returns (usable: bool)
    requires t.Valid()
    modifies t, t.memtable, t.registry
    ensures usable ==> t.Valid() && t.Released() == old(t.Released())
  {
    if |clock| != |payloads| || t.nextSeq + |payloads| > 0x1_0000_0000_0000_0000
       || t.nextStream + |payloads| > 0x1_0000_0000_0000_0000 {
      return false;
    }
    var o := t.AppendBatch(payloads, source, clock);
    usable := Usable(o);
  }

  method PerformReport(t: LsmTree, count: nat, reported: nat) returns (r: nat)
    requires t.Valid() && t.Released() == reported
    modifies t`frozen, t`handles
    ensures t.Valid() && t.Released() == r
    ensures count <= |old(t.frozen)| ==> r == reported + count && t.frozen == old(t.frozen)[count..]
    ensures count > |old(t.frozen)| ==> r == reported && t.frozen == old(t.frozen)
  {
    r := reported;
    var jobs := JobsOf(t.events);
    if count <= |t.frozen| {
      var results := seq(count, i requires 0 <= i < count => jobs[reported + i].frozen.id);
      t.DrainSstQueue(results);
      r := reported + count;
    }
  }

  /** The records of a batch, one for each payload in order. */
  ghost predicate AllMade(all: seq<Record>, start: nat, payloads: seq<seq<byte>>, clock: seq<u64>, source: u64,
                          bs: ByStream, codec: LabelCodec)
  {
    && start <= |all| <= start + |payloads| && |clock| == |payloads|
    && forall k :: start <= k < |all| ==> MadeFrom(all[k], payloads[k - start], clock[k - start], source, bs, codec)
  }

  lemma AllMadeKept(all: seq<Record>, start: nat, payloads: seq<seq<byte>>, clock: seq<u64>, source: u64,
                    bs: ByStream, bs': ByStream, codec: LabelCodec)
    requires AllMade(all, start, payloads, clock, source, bs, codec) && Extends(bs, bs')
    ensures AllMade(all, start, payloads, clock, source, bs', codec)
  {
  }

  lemma AllMadeSnoc(all: seq<Record>, all': seq<Record>, start: nat, payloads: seq<seq<byte>>, clock: seq<u64>,
                    source: u64, bs: ByStream, bs': ByStream, codec: LabelCodec)
    requires AllMade(all, start, payloads, clock, source, bs, codec) && Extends(bs, bs')
    requires all <= all' && |all'| == |all| + 1 && |all| < start + |payloads|
    requires MadeFrom(all'[|all|], payloads[|all| - start], clock[|all| - start], source, bs', codec)
    ensures AllMade(all', start, payloads, clock, source, bs', codec)
  {
    AllMadeKept(all, start, payloads, clock, source, bs, bs', codec);
  }

  /** Rebuilding the registry from the updates of all jobs and the buffered ones gives the
      registry of the running tree, in all three maps. */
  method Rebuild(t: LsmTree, base: ByStream) returns (r: StreamRegistry)
    requires t.Valid() && base == t.base
    ensures fresh(r) && r.byStream == t.registry.byStream
    ensures r.byLabels == t.registry.byLabels && r.index == t.registry.index
  {
    var updates := EntriesOf(JobsOf(t.events)) + t.buffer;
    r := new StreamRegistry.From(Manifest.Replay(Manifest.State({}, base), updates).labels);
    var bs := r.byStream;
    InverseIsInjective(bs, t.registry.byLabels);
    IndexUnique(bs, r.index, t.registry.index);
    InverseUnique(bs, r.byLabels, t.registry.byLabels);
  }

  lemma InverseIsInjective(bs: ByStream, bl: ByLabels)
    requires Inverse(bs, bl)
    ensures Injective(bs)
  {
    forall i, j | i in bs && j in bs && bs[i] == bs[j]
      ensures i == j
    {
      assert bl[bs[i]] == i && bl[bs[j]] == j;
    }
  }

  // ---- Sequence intervals

  /** Every frozen memtable was filled with one interval of sequence numbers, right behind the
      interval of the one before and behind the records there at the start; and no record of it
      was dropped as a duplicate, unless it was there at the start. */
  lemma IntervalOfGroup(all: seq<Record>, groups: seq<seq<Record>>, rest: seq<Record>, first: nat, next: nat,
                        initial: seq<Record>, j: nat)
    requires Numbered(all, first, next) && Concat(groups) + rest == initial + all && j < |groups|
    ensures var at := |Concat(groups[..j])| - |initial|;
      && (forall k :: 0 <= k < |groups[j]| && at + k >= 0 ==> groups[j][k].key.sn == first + at + k)
      && (at >= 0 ==> Kept(groups[j]) == Elems(groups[j]))
  {
    PartAt(groups, j);
    var at := |Concat(groups[..j])| - |initial|;
    assert Concat(groups[..j]) + groups[j] <= initial + all;
    forall k | 0 <= k < |groups[j]| && at + k >= 0
      ensures groups[j][k].key.sn == first + at + k
    {
      assert (initial + all)[|initial| + at + k] == groups[j][k];
    }
    if at >= 0 {
      KeptAll(groups[j]);
    }
  }

  /** The write loop of a job's flush takes its whole memtable if and only if the memtable's first
      record to arrive has the least key, its last one the greatest, and the codec takes all of
      them. */
  lemma JobCompleteIff(jobs: seq<Payload>, groups: seq<seq<Record>>, firstId: nat, limit: nat, j: nat)
    requires Carry(jobs, groups, firstId) && Packed(groups, limit) && j < |jobs|
    ensures var f, g := jobs[j].frozen, groups[j];
      && g != [] && f.recs == Kept(g)
      && (Flushed(f) == Wrote(f.recs) <==>
            forall r :: r in f.recs ==> Between(r.key, g[0].key, g[|g| - 1].key) && TsdbRecord.Valid(r))
  {
    assert Fit(groups[j], limit);
    FlushCompleteIff(jobs[j].frozen, groups[j]);
  }

  // ---- The queue of frozen memtables

  function Drained(queue: seq<Frozen>, results: seq<nat>): seq<Frozen>
    decreases |results|
  {
    if results == [] then queue
    else if queue != [] && queue[0].id == results[0] then Drained(queue[1..], results[1..])
    else Drained(queue, results[1..])
  }

  function IdsOf(queue: seq<Frozen>): seq<nat> {
    seq(|queue|, i requires 0 <= i < |queue| => queue[i].id)
  }

  predicate Subsequence(a: seq<nat>, b: seq<nat>)
    decreases |b|
  {
    if a == [] then true
    else if b == [] then false
    else if a[0] == b[0] then Subsequence(a[1..], b[1..])
    else Subsequence(a, b[1..])
  }

  /** The elements of a, at rising positions of b. */
  ghost predicate Embeds(a: seq<nat>, b: seq<nat>, at: seq<nat>) {
    && |at| == |a|
    && (forall i :: 0 <= i < |a| ==> at[i] < |b| && b[at[i]] == a[i])
    && forall i, j :: 0 <= i < j < |at| ==> at[i] < at[j]
  }

  /** The greedy match finds an embedding whenever there is one. */
  lemma {:induction false} SubsequenceIffEmbeds(a: seq<nat>, b: seq<nat>)
    ensures Subsequence(a, b) <==> exists at :: Embeds(a, b, at)
    decreases |b|
  {
    if a == [] {
      assert Embeds(a, b, []);
    } else if b == [] {
      forall at
        ensures !Embeds(a, b, at)
      {
        assert |at| == |a| ==> !(at[0] < |b|);
      }
    } else {
      var rest, t := if a[0] == b[0] then a[1..] else a, b[1..];
      SubsequenceIffEmbeds(rest, t);
      if at :| Embeds(rest, t, at) {
        EmbedsIn(a, b, rest, t, at);
      }
      if at :| Embeds(a, b, at) {
        EmbedsBehind(a, b, rest, t, at);
      }
    }
  }

  lemma EmbedsIn(a: seq<nat>, b: seq<nat>, rest: seq<nat>, t: seq<nat>, at: seq<nat>)
    requires a != [] && b != [] && t == b[1..] && rest == (if a[0] == b[0] then a[1..] else a) && Embeds(rest, t, at)
    ensures exists more :: Embeds(a, b, more)
  {
    var s := Shifted(at);
    if a[0] == b[0] {
      EmbedsCons(a, b, s);
    } else {
      assert Embeds(a, b, s);
    }
  }

  lemma EmbedsCons(a: seq<nat>, b: seq<nat>, s: seq<nat>)
    requires a != [] && b != [] && a[0] == b[0] && Embeds(a[1..], b, s) && forall i :: 0 <= i < |s| ==> s[i] > 0
    ensures Embeds(a, b, [0] + s)
  {
    var more := [0] + s;
    forall i | 0 <= i < |a|
      ensures more[i] < |b| && b[more[i]] == a[i]
    {
      if i > 0 {
        assert more[i] == s[i - 1] && a[1..][i - 1] == a[i];
      }
    }
  }

  lemma EmbedsBehind(a: seq<nat>, b: seq<nat>, rest: seq<nat>, t: seq<nat>, at: seq<nat>)
    requires a != [] && b != [] && t == b[1..] && rest == (if a[0] == b[0] then a[1..] else a) && Embeds(a, b, at)
    ensures exists less :: Embeds(rest, t, less)
  {
    if a[0] == b[0] {
      var u := at[1..];
      assert forall i :: 0 <= i < |u| ==> at[0] < u[i];
      assert Embeds(rest, t, Lowered(u));
    } else {
      assert b[at[0]] == a[0] && at[0] > 0;
      assert forall i :: 0 < i < |at| ==> at[0] < at[i];
      assert Embeds(rest, t, Lowered(at));
    }
  }

  ghost function Shifted(at: seq<nat>): (s: seq<nat>)
    ensures |s| == |at| && forall i :: 0 <= i < |at| ==> s[i] == at[i] + 1
  {
    seq(|at|, i requires 0 <= i < |at| => at[i] + 1)
  }

  ghost function Lowered(at: seq<nat>): (s: seq<nat>)
    requires forall i :: 0 <= i < |at| ==> at[i] > 0
    ensures |s| == |at| && forall i :: 0 <= i < |at| ==> s[i] == at[i] - 1
  {
    seq(|at|, i requires 0 <= i < |at| => at[i] - 1)
  }

  lemma {:induction false} DrainedIsTail(queue: seq<Frozen>, results: seq<nat>)
    ensures var d := Drained(queue, results);
      |d| <= |queue| && d == queue[|queue| - |d|..]
    decreases |results|
  {
    if results != [] {
      if queue != [] && queue[0].id == results[0] {
        DrainedIsTail(queue[1..], results[1..]);
      } else {
        DrainedIsTail(queue, results[1..]);
      }
    }
  }

  lemma TablesDrained(jobs: seq<Payload>, groups: seq<seq<Record>>, frozen: seq<Frozen>, limit: nat,
                      first: nat, id: nat, results: seq<nat>)
    requires TablesOk(jobs, groups, frozen, limit, first, id)
    ensures TablesOk(jobs, groups, Drained(frozen, results), limit, first, id)
  {
    DrainedIsTail(frozen, results);
    QueuedTail(frozen, jobs, |frozen| - |Drained(frozen, results)|);
  }

  lemma QueuedTail(queue: seq<Frozen>, jobs: seq<Payload>, k: nat)
    requires Queued(queue, jobs) && k <= |queue|
    ensures Queued(queue[k..], jobs)
  {
  }

  lemma QueueIds(jobs: seq<Payload>, groups: seq<seq<Record>>, frozen: seq<Frozen>, limit: nat, first: nat, id: nat,
                 results: seq<nat>)
    requires TablesOk(jobs, groups, frozen, limit, first, id) && |results| <= |frozen|
    requires forall i :: 0 <= i < |results| ==> results[i] == first + |jobs| - |frozen| + i
    ensures results == IdsOf(frozen)[..|results|]
  {
    forall i | 0 <= i < |results|
      ensures results[i] == IdsOf(frozen)[i]
    {
      assert frozen[i] == jobs[|jobs| - |frozen| + i].frozen;
    }
  }

  /** Results in the order of the jobs let go of exactly their memtables. */
  lemma {:induction false} InOrderDrains(queue: seq<Frozen>, k: nat)
    requires k <= |queue|
    ensures Drained(queue, IdsOf(queue)[..k]) == queue[k..]
    decreases k
  {
    var rs := IdsOf(queue)[..k];
    if k == 0 {
      assert queue[0..] == queue;
    } else {
      assert rs[1..] == IdsOf(queue[1..])[..k - 1];
      InOrderDrains(queue[1..], k - 1);
      assert queue[1..][k - 1..] == queue[k..];
    }
  }

  /** The queue empties if and only if the results hold the queued ids in their order; a result
      that is lost or out of order keeps its memtable and all later ones queued. */
  lemma DrainedIff(queue: seq<Frozen>, results: seq<nat>)
    ensures Drained(queue, results) == [] <==> exists at :: Embeds(IdsOf(queue), results, at)
    ensures queue != [] && queue[0].id !in results ==> Drained(queue, results) == queue
  {
    DrainedMatches(queue, results);
    SubsequenceIffEmbeds(IdsOf(queue), results);
  }

  lemma {:induction false} DrainedMatches(queue: seq<Frozen>, results: seq<nat>)
    ensures Drained(queue, results) == [] <==> Subsequence(IdsOf(queue), results)
    ensures queue != [] && queue[0].id !in results ==> Drained(queue, results) == queue
    decreases |results|
  {
    if results != [] {
      assert results == [results[0]] + results[1..];
      if queue != [] && queue[0].id == results[0] {
        assert IdsOf(queue)[1..] == IdsOf(queue[1..]);
        DrainedMatches(queue[1..], results[1..]);
      } else {
        DrainedMatches(queue, results[1..]);
      }
    }
  }
}

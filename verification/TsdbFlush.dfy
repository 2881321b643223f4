/** Flushing a memtable of logregator-tsdb: which of its records a flush takes, and the table it
    makes of them. */
module TsdbFlush {
  import opened Bytes
  import opened TsdbRecord
  import opened TsdbMemtable
  import B = TsdbBlock
  import opened Sequences
  import S = TsdbSst
  import Bloom = TsdbBloom

  predicate Between(k: Key, lo: Key, hi: Key) {
    !KeyLess(k, lo) && !KeyLess(hi, k)
  }

  /** The records of a memtable between two keys. */
  function InRange(recs: set<Record>, lo: Key, hi: Key): set<Record> {
    set r | r in recs && Between(r.key, lo, hi)
  }

  predicate AllValid(recs: set<Record>) {
    forall r :: r in recs ==> Valid(r)
  }

  datatype FlushSet = NoBounds | RangePanics | WriteFails | Wrote(recs: set<Record>)

  /** What the write loop of a flush makes of a memtable: it takes the records between the keys of
      the first and the last insertion. A range from a greater to a smaller key panics, and one record that
      the table's codec rejects fails the whole flush. */
  function Flushed(f: Frozen): FlushSet {
    if f.first.None? || f.last.None? then NoBounds
    else if KeyLess(f.last.value, f.first.value) then RangePanics
    else
      var recs := InRange(f.recs, f.first.value, f.last.value);
      if AllValid(recs) then Wrote(recs) else WriteFails
  }

  /** The write loop takes the whole memtable if and only if the first record to arrive has the least
      key, the last one the greatest, and the codec takes all of them. */
  lemma FlushCompleteIff(f: Frozen, rs: seq<Record>)
    requires Holds(f, rs) && rs != []
    ensures Flushed(f) == Wrote(f.recs) <==>
      forall r :: r in f.recs ==> Between(r.key, rs[0].key, rs[|rs| - 1].key) && Valid(r)
  {
    var lo, hi := rs[0].key, rs[|rs| - 1].key;
    if KeyLess(hi, lo) {
      FirstIsKept(rs);
      assert !Between(lo, lo, hi);
    } else {
      var recs := InRange(f.recs, lo, hi);
      assert recs == f.recs <==> forall r :: r in f.recs ==> Between(r.key, lo, hi) by {
        if r :| r in f.recs && !Between(r.key, lo, hi) {
          assert r !in recs;
        }
      }
    }
  }

  /** One stream, with a clock that never runs backwards and rising sequence numbers. */
  ghost predicate Steady(rs: seq<Record>) {
    && (forall r :: r in rs ==> Valid(r))
    && forall i, j :: 0 <= i < j < |rs| ==>
         && rs[i].key.stream == rs[j].key.stream && rs[i].key.ts <= rs[j].key.ts && rs[i].key.sn < rs[j].key.sn
  }

  /** The write loop takes such a memtable of valid records whole. */
  lemma SteadyFlushIsComplete(f: Frozen, rs: seq<Record>)
    requires Holds(f, rs) && rs != [] && Steady(rs)
    ensures Flushed(f) == Wrote(Elems(rs))
  {
    var n := |rs| - 1;
    KeptAll(rs);
    forall r | r in f.recs
      ensures Between(r.key, rs[0].key, rs[n].key) && Valid(r)
    {
      KeptAreInserted(rs, r);
      var i :| 0 <= i < |rs| && rs[i] == r;
      assert i > 0 ==> rs[0].key.ts <= rs[i].key.ts && rs[0].key.sn < rs[i].key.sn;
      assert i < n ==> rs[i].key.ts <= rs[n].key.ts && rs[i].key.sn < rs[n].key.sn;
    }
    FlushCompleteIff(f, rs);
  }

  /** Three records of two streams, at rising times: the flush writes two of them. Two of them,
      the greater stream first: the flush panics. */
  lemma TwoStreamsLoseARecord(f: Frozen, g: Frozen)
    requires Holds(f, [Record(Key(1, 5, 0, 9), [1, 1]), Record(Key(2, 6, 1, 9), [2, 2]), Record(Key(1, 7, 2, 9), [3, 3])])
    requires Holds(g, [Record(Key(2, 5, 0, 9), [1, 1]), Record(Key(1, 6, 1, 9), [2, 2])])
    ensures f.recs == {Record(Key(1, 5, 0, 9), [1, 1]), Record(Key(2, 6, 1, 9), [2, 2]), Record(Key(1, 7, 2, 9), [3, 3])}
    ensures Flushed(f) == Wrote({Record(Key(1, 5, 0, 9), [1, 1]), Record(Key(1, 7, 2, 9), [3, 3])})
    ensures Flushed(g) == RangePanics
  {
    var a, b, c := Record(Key(1, 5, 0, 9), [1, 1]), Record(Key(2, 6, 1, 9), [2, 2]), Record(Key(1, 7, 2, 9), [3, 3]);
    KeptAll([a, b, c]);
    assert f.recs == {a, b, c} by {
      assert forall r :: r in [a, b, c] <==> r == a || r == b || r == c;
    }
    assert InRange(f.recs, a.key, c.key) == {a, c};
  }

  // ---- Key order

  ghost predicate DistinctKeysIn(recs: set<Record>) {
    forall a, b :: a in recs && b in recs && a.key == b.key ==> a == b
  }

  ghost predicate LeastOf(r: Record, recs: set<Record>) {
    r in recs && forall o :: o in recs ==> !KeyLess(o.key, r.key)
  }

  lemma {:induction false} LeastExists(recs: set<Record>)
    requires recs != {}
    ensures exists r :: LeastOf(r, recs)
  {
    var x :| x in recs;
    if recs == {x} {
      assert LeastOf(x, recs);
    } else {
      LeastExists(recs - {x});
      var m :| LeastOf(m, recs - {x});
      if KeyLess(x.key, m.key) {
        forall o | o in recs
          ensures !KeyLess(o.key, x.key)
        {
          KeyOrder(o.key, x.key, m.key);
        }
        assert LeastOf(x, recs);
      } else {
        assert LeastOf(m, recs);
      }
    }
  }

  method TakeLeast(recs: set<Record>) returns (r: Record)
    requires recs != {} && DistinctKeysIn(recs)
    ensures r in recs && forall o :: o in recs - {r} ==> KeyLess(r.key, o.key)
  {
    LeastExists(recs);
    assert exists r :: r in recs && forall o :: o in recs ==> !KeyLess(o.key, r.key) by {
      var m :| LeastOf(m, recs);
    }
    r :| r in recs && forall o :: o in recs ==> !KeyLess(o.key, r.key);
    forall o | o in recs - {r}
      ensures KeyLess(r.key, o.key)
    {
      KeyOrder(r.key, o.key, o.key);
    }
  }

  ghost predicate AllBelow(out: seq<Record>, todo: set<Record>) {
    forall r, o :: r in out && o in todo ==> KeyLess(r.key, o.key)
  }

  lemma SortedSnoc(out: seq<Record>, r: Record, rest: set<Record>)
    requires B.SortedRecs(out) && AllBelow(out, {r}) && AllBelow(out, rest) && AllBelow([r], rest)
    ensures B.SortedRecs(out + [r]) && AllBelow(out + [r], rest) && Elems(out + [r]) == Elems(out) + {r}
  {
    forall i | 0 <= i < |out|
      ensures KeyLess(out[i].key, r.key)
    {
      assert out[i] in out && r in {r};
    }
  }

  /** Iterating the ordered set: all its records, by rising key. */
  method InOrder(recs: set<Record>) returns (out: seq<Record>)
    requires DistinctKeysIn(recs)
    ensures B.SortedRecs(out) && Elems(out) == recs
  {
    out := [];
    var todo := recs;
    while todo != {}
      invariant todo <= recs && Elems(out) == recs - todo && B.SortedRecs(out) && AllBelow(out, todo)
    {
      var r := TakeLeast(todo);
      SortedSnoc(out, r, todo - {r});
      out := out + [r];
      todo := todo - {r};
    }
  }

  // ---- Room

  ghost function Weight(recs: set<Record>): nat {
    if recs == {} then 0
    else
      var r :| r in recs;
      SizeOf(r) + Weight(recs - {r})
  }

  lemma {:induction false} WeightMinus(recs: set<Record>, r: Record)
    requires r in recs
    ensures Weight(recs) == SizeOf(r) + Weight(recs - {r})
  {
    var x :| x in recs && Weight(recs) == SizeOf(x) + Weight(recs - {x});
    if x != r {
      WeightMinus(recs - {x}, r);
      WeightMinus(recs - {r}, x);
      assert recs - {x} - {r} == recs - {r} - {x};
    }
  }

  lemma {:induction false} WeightOfPart(a: set<Record>, b: set<Record>)
    requires a <= b
    ensures Weight(a) <= Weight(b)
  {
    if a != {} {
      var r :| r in a;
      WeightMinus(a, r);
      WeightMinus(b, r);
      WeightOfPart(a - {r}, b - {r});
    }
  }

  lemma {:induction false} WeightOfKept(rs: seq<Record>)
    ensures Weight(Kept(rs)) <= Total(rs)
  {
    if rs != [] {
      var front, r := rs[..|rs| - 1], rs[|rs| - 1];
      WeightOfKept(front);
      if !HasKey(Kept(front), r.key) {
        assert r !in Kept(front);
        WeightMinus(Kept(rs), r);
        assert Kept(rs) - {r} == Kept(front);
      }
    }
  }

  /** A record costs a table less than it weighs in memory. */
  lemma {:induction false} LoadBelowWeight(out: seq<Record>)
    requires B.SortedRecs(out)
    ensures S.Load(out) <= Weight(Elems(out))
  {
    if out != [] {
      var front, r := out[..|out| - 1], out[|out| - 1];
      LoadBelowWeight(front);
      assert r !in front;
      assert out == front + [r];
      assert Elems(out) - {r} == Elems(front);
      WeightMinus(Elems(out), r);
    }
  }

  // ---- The flush itself

  datatype FlushResult = MissingBounds | BadLimit | Panicked | Failed | Table(table: S.Table)

  /** The block limit is in the range in which blocks always encode, and the memtable in that
      in which its table has room for all records. */
  ghost predicate Small(f: Frozen, blockLimit: Option<nat>) {
    (blockLimit.Some? ==> blockLimit.value <= 65531) && f.size < S.MAX_SST_SIZE
  }

  /** `flush_memtable` up to the finished table, with any encoder for the filter. `region` is the
      block region that is in the file when the filter is encoded. It holds exactly the records
      that `Flushed` says, by rising key, and a small memtable always gets there; then the
      encoder decides. */
  method FlushMemtable(f: Frozen, blockLimit: Option<nat>, crc: B.Crc, filter: Bloom.Filter, encode: Bloom.Encoder,
                       ghost rs: seq<Record>)
    returns (r: FlushResult, ghost region: Option<S.Table>, ghost bs: seq<seq<Record>>, ghost fs: seq<seq<byte>>)
    requires Holds(f, rs)
    ensures r.MissingBounds? <==> Flushed(f).NoBounds?
    ensures r.BadLimit? <==> !Flushed(f).NoBounds? && blockLimit.Some? && blockLimit.value > B.MAX_BLOCK_SIZE
    ensures region.Some? ==> S.IsTable(region.value, fs, bs, crc) && B.SortedRecs(Concat(bs))
    ensures region.Some? ==> Flushed(f) == Wrote(Elems(Concat(bs))) && !r.BadLimit?
    ensures Flushed(f).Wrote? && Small(f, blockLimit) ==> region.Some?
    ensures r.Table? <==> region.Some? && S.FilterOutcome(encode, filter).Done?
    ensures r.Table? ==> r.table == region.value
    ensures Flushed(f).RangePanics? || (region.Some? && S.FilterOutcome(encode, filter).Panics?) ==>
      r.Panicked? || r.BadLimit?
    ensures r.Panicked? ==>
      || Flushed(f).RangePanics? || (region.Some? && S.FilterOutcome(encode, filter).Panics?)
      || (blockLimit.Some? && blockLimit.value > 65531)
  {
    region, bs, fs := None, [], [];
    if f.first.None? || f.last.None? {
      return MissingBounds, region, bs, fs;
    }
    var limit := if blockLimit.Some? then blockLimit.value else B.DEFAULT_BLOCK_SIZE;
    if limit > B.MAX_BLOCK_SIZE {
      return BadLimit, region, bs, fs;
    }
    if KeyLess(f.last.value, f.first.value) {
      return Panicked, region, bs, fs;
    }
    var range := InRange(f.recs, f.first.value, f.last.value);
    RangeFacts(f, rs, range);
    var recs := InOrder(range);
    LoadBelowWeight(recs);
    var t;
    t, region, bs, fs := S.WriteTable(recs, crc, limit, filter, encode);
    assert AllValid(range) <==> B.AllValid(recs) by {
      assert forall x :: x in recs <==> x in Elems(recs);
    }
    match t {
      case Failed(_) => r := Failed;
      case Panicked => r := Panicked;
      case Done(table) => r := Table(table);
    }
  }

  /** With the encoder as written no flush makes a table: a small one fails on a record that the
      codec rejects, and panics otherwise. */
  method FlushAsWritten(f: Frozen, blockLimit: Option<nat>, crc: B.Crc, filter: Bloom.Filter, ghost rs: seq<Record>)
    returns (r: FlushResult)
    requires Holds(f, rs)
    ensures !r.Table?
    ensures Small(f, blockLimit) ==>
      r == match Flushed(f)
           case NoBounds => MissingBounds
           case WriteFails => Failed
           case _ => Panicked
  {
    Bloom.EncodeNeverSucceeds(filter, S.Zeros(Bloom.WireLen(filter)));
    ghost var region, bs, fs;
    r, region, bs, fs := FlushMemtable(f, blockLimit, crc, filter, Bloom.Encode, rs);
  }

  /** With the repaired one the table of a flush, read block by block, gives back what the flush
      took. */
  method FlushThenRead(f: Frozen, crc: B.Crc, filter: Bloom.Filter, ghost rs: seq<Record>)
    returns (back: Option<seq<Record>>)
    requires Holds(f, rs)
    ensures back.Some? ==> B.SortedRecs(back.value) && Flushed(f) == Wrote(Elems(back.value))
    ensures Small(f, None) && |filter.bitmap| <= Bloom.MAX_BITMAP ==> (back.Some? <==> Flushed(f).Wrote?)
  {
    var r, region, bs, fs := FlushMemtable(f, None, crc, filter, Bloom.Repaired, rs);
    if !r.Table? {
      return None;
    }
    var recs := S.ReadAll(r.table, crc, fs, bs);
    back := Some(recs);
  }

  lemma RangeFacts(f: Frozen, rs: seq<Record>, range: set<Record>)
    requires Holds(f, rs) && rs != [] && !KeyLess(f.last.value, f.first.value)
    requires range == InRange(f.recs, f.first.value, f.last.value)
    ensures DistinctKeysIn(range) && range != {} && Weight(range) <= f.size
  {
    forall a, b | a in range && b in range && a.key == b.key
      ensures a == b
    {
      KeptHasDistinctKeys(rs, a, b);
    }
    FirstIsKept(rs);
    assert rs[0] in range;
    WeightOfPart(range, f.recs);
    WeightOfKept(rs);
  }
}

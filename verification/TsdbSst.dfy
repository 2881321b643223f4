/** Sorted string tables of logregator-tsdb: packing records into blocks, the block index and
    its codec, and reading blocks back. */
module TsdbSst {
  import opened Bytes
  import opened TsdbRecord
  import opened TsdbBlock
  import opened Sequences
  import Bloom = TsdbBloom

  const MAX_SST_SIZE := 0x7FFF_FFFF

  datatype BlockMeta = BlockMeta(offset: u32, first: Key, last: Key)

  datatype SstError = FilledUp | InvalidSize | BlockFailed(e: BlockError) | CodecFailed | MissingKeys | OutOfBounds

  // ---- What a list of blocks looks like on disk

  /** A block that the writer filled and that encodes. */
  ghost predicate GoodBlock(recs: seq<Record>) {
    recs != [] && AllValid(recs) && SizeOf(recs) <= DATA_GUARD && SizeOf(recs) + 2 * |recs| + 2 <= MAX_BLOCK_SIZE
  }

  ghost predicate IsFrame(f: seq<byte>, recs: seq<Record>, crc: Crc) {
    GoodBlock(recs) && f == Sealed(Body(BlockOf(recs)), crc)
  }

  /** Frame i occupies exactly the bytes between the sizes of the two prefixes around it. */
  lemma FrameAt(frames: seq<seq<byte>>, i: nat)
    requires i < |frames|
    ensures |Concat(frames[..i])| + |frames[i]| == |Concat(frames[..i + 1])| <= |Concat(frames)|
    ensures Concat(frames)[|Concat(frames[..i])|..|Concat(frames[..i + 1])|] == frames[i]
  {
    PartAt(frames, i);
    SliceOfPrefix(Concat(frames), Concat(frames[..i]), frames[i]);
  }

  /** An index entry: where its block starts, and the block's two end keys. */
  ghost predicate Entry(m: BlockMeta, frames: seq<seq<byte>>, i: nat, recs: seq<Record>, crc: Crc)
    requires i < |frames|
  {
    && IsFrame(frames[i], recs, crc)
    && m.offset == |Concat(frames[..i])|
    && m.first == recs[0].key && m.last == recs[|recs| - 1].key
  }

  ghost predicate Laid(meta: seq<BlockMeta>, frames: seq<seq<byte>>, blocks: seq<seq<Record>>, crc: Crc) {
    && |meta| == |frames| == |blocks|
    && forall i :: 0 <= i < |meta| ==> Entry(meta[i], frames, i, blocks[i], crc)
  }

  lemma LaidSnoc(meta: seq<BlockMeta>, frames: seq<seq<byte>>, blocks: seq<seq<Record>>, crc: Crc,
                 m: BlockMeta, f: seq<byte>, recs: seq<Record>)
    requires Laid(meta, frames, blocks, crc) && IsFrame(f, recs, crc)
    requires m.offset == |Concat(frames)| && m.first == recs[0].key && m.last == recs[|recs| - 1].key
    ensures Laid(meta + [m], frames + [f], blocks + [recs], crc)
  {
    var ms, fs, bs := meta + [m], frames + [f], blocks + [recs];
    assert fs[..|frames|] == frames;
    forall i | 0 <= i < |ms|
      ensures Entry(ms[i], fs, i, bs[i], crc)
    {
      if i < |meta| {
        assert Entry(meta[i], frames, i, blocks[i], crc);
        assert fs[..i] == frames[..i];
      }
    }
  }

  // ---- Writer

  class SstWriter {
    const crc: Crc
    const limit: nat
    var out: seq<byte>
    var blockBytes: nat
    var blockWriter: BlockWriter
    var meta: seq<BlockMeta>
    ghost var frames: seq<seq<byte>>
    ghost var blocks: seq<seq<Record>>
    // Everything written so far, in order.
    ghost var written: seq<Record>

    ghost predicate Flushed()
      reads this
    {
      && limit <= MAX_BLOCK_SIZE
      && Laid(meta, frames, blocks, crc)
      && out == Concat(frames) && blockBytes == |out|
    }

    ghost predicate Valid()
      reads this, blockWriter
    {
      && Flushed() && blockWriter.Sound() && blockWriter.limit == limit
      && written == Concat(blocks) + blockWriter.recs
    }

    /** An upper bound of the bytes that the blocks come to: every record costs its wire length
        and at most 8 bytes of offset and trailer. */
    ghost function Used(): nat
      reads this, blockWriter
    {
      blockBytes + blockWriter.size + 8 * |blockWriter.offsets|
    }

    constructor (crc: Crc, limit: nat)
      requires limit <= MAX_BLOCK_SIZE
      ensures Valid() && fresh(blockWriter) && written == [] && Used() == 0 && this.crc == crc && this.limit == limit
    {
      this.crc, this.limit := crc, limit;
      out, blockBytes, meta, frames, blocks, written := [], 0, [], [], [], [];
      blockWriter := new BlockWriter(limit);
    }

    /** Appends an encoded block to the file and its entry to the index; no offset that is
        stored loses bits in the cast to 32. */
    method Commit(bytes: seq<byte>, first: Key, last: Key, ghost recs: seq<Record>)
      requires Flushed() && blockBytes < MAX_SST_SIZE && IsFrame(bytes, recs, crc)
      requires first == recs[0].key && last == recs[|recs| - 1].key
      modifies this
      ensures Flushed() && blockWriter == old(blockWriter) && written == old(written)
      ensures blocks == old(blocks) + [recs] && blockBytes == old(blockBytes) + |bytes|
    {
      var m := BlockMeta(Low32(blockBytes), first, last);
      LaidSnoc(meta, frames, blocks, crc, m, bytes, recs);
      ConcatSnoc(frames, bytes);
      out := out + bytes;
      meta := meta + [m];
      blockBytes := blockBytes + |bytes|;
      frames := frames + [bytes];
      blocks := blocks + [recs];
    }

    /** Seals the current block and starts a new one. An empty block and one that reaches the
        unfinished branch of the encoder fail; the size limit fails and changes nothing. */
    method FlushBlocks() returns (r: Result<(), SstError>)
      requires Valid()
      modifies this
      ensures r == FlushOutcome(old(blockBytes), old(blockWriter.size), old(|blockWriter.offsets|))
      ensures r.Ok? ==>
        && Valid() && fresh(blockWriter) && blockWriter.offsets == [] && blockWriter.size == 0
        && |blocks| == old(|blocks|) + 1
        && blockBytes == old(blockBytes) + old(blockWriter.size + 2 * |blockWriter.offsets| + 6)
        && written == old(written)
      ensures r.Err? && !r.error.BlockFailed? ==> Valid() && blockWriter == old(blockWriter) && written == old(written)
      ensures r.Ok? ==> Used() <= old(Used())
    {
      if blockBytes >= MAX_SST_SIZE {
        return Err(FilledUp);
      }
      if blockBytes + blockWriter.size > MAX_SST_SIZE {
        return Err(InvalidSize);
      }
      var full := blockWriter;
      ghost var recs := full.recs;
      EncodeOutcome(recs, limit, crc);
      var e := EncodeBlock(Block(full.buffer, full.offsets), crc);
      blockWriter := new BlockWriter(limit);
      if e.Err? {
        return Err(BlockFailed(e.error));
      }
      ConcatSnoc(blocks, recs);
      Commit(e.value, full.firstKey.value, full.lastKey.value, recs);
      assert Concat(blocks) + [] == Concat(blocks);
      r := Ok(());
    }

    /** Writes one record, flushing a full block first. The retry happens at most once for any
        record: a fresh block takes every valid record, and one that fits no block fails in
        the flush of the empty block. */
    method Write(rec: Record) returns (r: Result<(), SstError>)
      requires Valid()
      modifies this, blockWriter
      ensures r.Ok? ==> Valid() && TsdbRecord.Valid(rec) && written == old(written) + [rec]
      ensures r.Ok? ==> blockWriter == old(blockWriter) || fresh(blockWriter)
      ensures r.Ok? ==> |blocks| == old(|blocks|) || (|blocks| == old(|blocks|) + 1 && old(blockWriter.offsets) != [])
      ensures r.Err? && (r.error.FilledUp? || r.error.InvalidSize?) ==> Valid() && written == old(written)
      ensures TsdbRecord.Valid(rec) && limit <= 65531 ==>
        (r.Ok? <==> HasRoom(old(blockBytes), old(blockWriter.size), old(|blockWriter.offsets|), WireLen(rec), limit))
      ensures TsdbRecord.Valid(rec) && limit <= 65531 && r.Err? ==> r.error.FilledUp? || r.error.InvalidSize?
      ensures limit <= 65531 ==> r != Err(BlockFailed(Unfinished))
      ensures r.Ok? ==> Used() <= old(Used()) + WireLen(rec) + 8
      decreases |blockWriter.offsets|, 1
    {
      if blockBytes >= MAX_SST_SIZE {
        return Err(FilledUp);
      }
      var w := TryWrite(rec);
      match w {
        case Written =>
          return Ok(());
        case Full =>
          r := FlushThenWrite(rec);
        case Rejected =>
          return Err(CodecFailed);
      }
    }

    /** The branch of `Write` for a full block. */
    method FlushThenWrite(rec: Record) returns (r: Result<(), SstError>)
      requires Valid() && blockBytes < MAX_SST_SIZE
      requires limit <= 65531 ==> blockWriter.size <= DATA_GUARD
      requires TsdbRecord.Valid(rec) && limit <= 65531 ==> |blockWriter.offsets| > 0
      modifies this
      ensures r.Ok? ==> Valid() && TsdbRecord.Valid(rec) && written == old(written) + [rec] && fresh(blockWriter)
      ensures r.Ok? ==> |blocks| == old(|blocks|) + 1 && old(blockWriter.offsets) != []
      ensures r.Err? && (r.error.FilledUp? || r.error.InvalidSize?) ==> Valid() && written == old(written)
      ensures TsdbRecord.Valid(rec) && limit <= 65531 ==>
        (r.Ok? <==> FlushLeavesRoom(old(blockBytes), old(blockWriter.size), old(|blockWriter.offsets|)))
      ensures TsdbRecord.Valid(rec) && limit <= 65531 && r.Err? ==> r.error.FilledUp? || r.error.InvalidSize?
      ensures limit <= 65531 ==> r != Err(BlockFailed(Unfinished))
      ensures r.Ok? ==> Used() <= old(Used()) + WireLen(rec) + 8
      decreases |blockWriter.offsets|, 0
    {
      r := FlushBlocks();
      if r.Ok? {
        r := Write(rec);
      }
    }

    /** One attempt at the current block. A full block is never empty when the record is valid,
        and under a limit of 65531 it always encodes. */
    method TryWrite(rec: Record) returns (w: WriteOutput)
      requires Valid()
      modifies this`written, blockWriter
      ensures !w.Rejected? ==> Valid()
      ensures w.Written? ==> TsdbRecord.Valid(rec) && written == old(written) + [rec]
      ensures w.Full? ==> written == old(written) && blockWriter.size == old(blockWriter.size)
      ensures w.Full? ==> blockWriter.offsets == old(blockWriter.offsets)
      ensures w.Full? && limit <= 65531 ==> blockWriter.size <= DATA_GUARD
      ensures w.Written? ==> Used() == old(Used()) + WireLen(rec) + 8
      ensures TsdbRecord.Valid(rec) ==> !w.Rejected?
      ensures TsdbRecord.Valid(rec) ==>
        (w.Full? <==> IsFull(old(blockWriter.size), old(|blockWriter.offsets|), WireLen(rec), limit))
    {
      AppendLast(Concat(blocks), blockWriter.recs, rec);
      w := blockWriter.Write(rec);
      if w.Written? {
        written := written + [rec];
      }
    }

    /** The part of `finalize` that settles the block region: flush what is left, and fail on
        a table without records. */
    method Settle() returns (r: Result<Table, SstError>, ghost bs: seq<seq<Record>>, ghost fs: seq<seq<byte>>)
      requires Valid()
      modifies this
      ensures r.Ok? ==> IsTable(r.value, fs, bs, crc) && Concat(bs) == old(written)
      ensures r.Ok? ==> r.value == Table(out, meta, blockBytes)
      ensures r.Ok? <==> old(written) != [] && old(LastFlush()).Ok?
      ensures r.Err? ==> r.error == if old(written) == [] then MissingKeys else old(LastFlush()).error
      ensures old(written) != [] && limit <= 65531 && old(Used()) < MAX_SST_SIZE ==> r.Ok?
      ensures limit <= 65531 ==> r != Err(BlockFailed(Unfinished))
    {
      bs, fs := blocks, frames;
      SizeBounds(blockWriter.recs);
      if limit <= 65531 {
        GuardHeadroom(blockWriter.recs, limit);
      }
      if blockWriter.size > 0 {
        var f := FlushBlocks();
        if f.Err? {
          return Err(f.error), bs, fs;
        }
      }
      bs, fs := blocks, frames;
      assert Concat(blocks) + [] == Concat(blocks);
      if meta == [] {
        return Err(MissingKeys), bs, fs;
      }
      assert IsFrame(frames[0], blocks[0], crc) by { assert Entry(meta[0], frames, 0, blocks[0], crc); }
      assert blocks[0] <= Concat(blocks);
      r := Ok(Table(out, meta, blockBytes));
    }

    /** How the last flush of `finalize` comes out, which is left out for an empty block. */
    ghost function LastFlush(): Result<(), SstError>
      reads this, blockWriter
    {
      if blockWriter.size == 0 then Ok(()) else FlushOutcome(blockBytes, blockWriter.size, |blockWriter.offsets|)
    }

    /** `finalize`, with any encoder for the filter: the blocks, the index and the filter. The
        index is in the file when the filter is encoded. The footer behind the filter is not
        modelled. */
    method Finish(filter: Bloom.Filter, encode: Bloom.Encoder)
      returns (r: Finished, ghost region: Result<Table, SstError>, ghost bs: seq<seq<Record>>, ghost fs: seq<seq<byte>>)
      requires Valid()
      modifies this
      ensures region.Ok? ==> IsTable(region.value, fs, bs, crc) && Concat(bs) == old(written)
      ensures region.Ok? ==> region.value.file + EncodedMetas(region.value.meta, crc) <= out
      ensures region.Ok? <==> old(written) != [] && old(LastFlush()).Ok?
      ensures region.Err? ==> region.error == if old(written) == [] then MissingKeys else old(LastFlush()).error
      ensures old(written) != [] && limit <= 65531 && old(Used()) < MAX_SST_SIZE ==> region.Ok?
      ensures limit <= 65531 ==> region != Err(BlockFailed(Unfinished))
      ensures r == Finalized(region, FilterOutcome(encode, filter))
    {
      var t;
      t, bs, fs := Settle();
      region := t;
      if t.Err? {
        return Fails(t.error), region, bs, fs;
      }
      var index := EncodeMetas(meta, crc);
      out := out + index;
      var e := encode(filter, Zeros(Bloom.WireLen(filter)));
      match e {
        case Done(bytes) =>
          out := out + bytes;
          r := Done(t.value);
        case Panics =>
          r := Panicked;
        case _ =>
          r := Failed(CodecFailed);
      }
    }
  }

  datatype Finished = Failed(error: SstError) | Panicked | Done(table: Table)

  function Zeros(n: nat): seq<byte> {
    seq(n, _ => 0)
  }

  /** The unfinished branch of the block encoder is a panic. */
  function Fails(e: SstError): Finished {
    if e == BlockFailed(Unfinished) then Panicked else Failed(e)
  }

  /** The outcome of `finalize` from those of its two fallible parts. */
  function Finalized(region: Result<Table, SstError>, e: Bloom.Encoding): Finished {
    if region.Err? then Fails(region.error)
    else if e.Done? then Done(region.value)
    else if e.Panics? then Panicked
    else Failed(CodecFailed)
  }

  /** With the encoder as written no table is ever finished: `finalize` fails without records or
      in the last flush, and panics otherwise. */
  lemma NoTableIsFinished(region: Result<Table, SstError>, filter: Bloom.Filter)
    ensures Finalized(region, FilterOutcome(Bloom.Encode, filter)) ==
      if region.Err? then Fails(region.error) else Panicked
  {
    Bloom.EncodeNeverSucceeds(filter, Zeros(Bloom.WireLen(filter)));
  }

  /** With the repaired one every settled table is, unless its filter is too large. */
  lemma RepairedFinishes(region: Result<Table, SstError>, filter: Bloom.Filter)
    ensures Finalized(region, FilterOutcome(Bloom.Repaired, filter)) ==
      if region.Err? then Fails(region.error)
      else if |filter.bitmap| > Bloom.MAX_BITMAP then Failed(CodecFailed)
      else Done(region.value)
  {
  }

  lemma AppendLast(all: seq<Record>, recs: seq<Record>, r: Record)
    ensures all + (recs + [r]) == all + recs + [r]
  {
  }

  /** What a flush does with a block of n records and the given data size. */
  function FlushOutcome(bytes: nat, size: nat, n: nat): Result<(), SstError> {
    if bytes >= MAX_SST_SIZE then Err(FilledUp)
    else if bytes + size > MAX_SST_SIZE then Err(InvalidSize)
    else if n == 0 then Err(BlockFailed(NoRecords))
    else if size > DATA_GUARD then Err(BlockFailed(Unfinished))
    else Ok(())
  }

  /** A valid record does not fit a block of n records and the given data size. */
  predicate IsFull(size: nat, n: nat, wire: nat, limit: nat) {
    n > 0 && size + wire + 2 * n + 4 > limit
  }

  predicate FlushLeavesRoom(bytes: nat, size: nat, n: nat) {
    bytes + size <= MAX_SST_SIZE && bytes + size + 2 * n + 6 < MAX_SST_SIZE
  }

  /** A write goes through when the table is not full, and when a flush comes first, the flush
      fits and still leaves the table below its size limit. */
  predicate HasRoom(bytes: nat, size: nat, n: nat, wire: nat, limit: nat) {
    && bytes < MAX_SST_SIZE
    && (IsFull(size, n, wire, limit) ==> FlushLeavesRoom(bytes, size, n))
  }

  lemma EncodeOutcome(recs: seq<Record>, limit: nat, crc: Crc)
    requires Fits(recs, limit) && limit <= MAX_BLOCK_SIZE && SizeOf(recs) <= MAX_BLOCK_SIZE
    ensures var e := Encoded(BlockOf(recs), crc);
      if recs == [] then e == Err(NoRecords)
      else if SizeOf(recs) > DATA_GUARD then e == Err(Unfinished)
      else e.Ok? && IsFrame(e.value, recs, crc) && |e.value| == SizeOf(recs) + 2 * |recs| + 6
  {
    BlockOfIsSlotted(recs);
    SizeBounds(recs);
  }

  // ---- Reader

  datatype Table = Table(file: seq<byte>, meta: seq<BlockMeta>, end: nat)

  ghost predicate IsTable(t: Table, frames: seq<seq<byte>>, blocks: seq<seq<Record>>, crc: Crc) {
    t.file == Concat(frames) && t.end == |t.file| && Laid(t.meta, frames, blocks, crc)
  }

  /** Where block i ends: at the start of the next one, or at the end of the region. */
  function EndOf(t: Table, i: nat): nat
    requires i < |t.meta|
  {
    if i + 1 == |t.meta| then t.end else t.meta[i + 1].offset
  }

  /** The index tiles the block region: it starts at 0, each block ends where the next one
      starts or at the end of the region, and the bytes between are exactly its frame. */
  lemma IndexTiles(t: Table, frames: seq<seq<byte>>, blocks: seq<seq<Record>>, crc: Crc, i: nat)
    requires IsTable(t, frames, blocks, crc) && i < |t.meta|
    ensures t.meta[0].offset == 0 && t.end == |t.file|
    ensures t.meta[i].offset <= EndOf(t, i) <= |t.file|
    ensures t.file[t.meta[i].offset..EndOf(t, i)] == frames[i] && IsFrame(frames[i], blocks[i], crc)
  {
    assert Entry(t.meta[0], frames, 0, blocks[0], crc) && Entry(t.meta[i], frames, i, blocks[i], crc);
    FrameAt(frames, i);
    if i + 1 == |t.meta| {
      assert frames[..i + 1] == frames;
    } else {
      assert Entry(t.meta[i + 1], frames, i + 1, blocks[i + 1], crc);
    }
  }

  method ReadBlock(t: Table, i: nat, crc: Crc, ghost frames: seq<seq<byte>>, ghost blocks: seq<seq<Record>>)
    returns (r: Result<Block, SstError>)
    requires IsTable(t, frames, blocks, crc)
    ensures i >= |t.meta| ==> r == Err(OutOfBounds)
    ensures i < |t.meta| ==> GoodBlock(blocks[i]) && r == Ok(BlockOf(blocks[i]))
  {
    if i >= |t.meta| {
      return Err(OutOfBounds);
    }
    IndexTiles(t, frames, blocks, crc, i);
    FrameDecodes(frames[i], blocks[i], crc);
    var b := DecodeBlock(t.file[t.meta[i].offset..EndOf(t, i)], crc);
    match b
    case Ok(block) => r := Ok(block);
    case Err(e) => r := Err(BlockFailed(e));
  }

  lemma FrameDecodes(f: seq<byte>, recs: seq<Record>, crc: Crc)
    requires IsFrame(f, recs, crc)
    ensures Decoded(f, crc) == Ok(BlockOf(recs))
  {
    BlockOfIsSlotted(recs);
    DecodeSealed(BlockOf(recs), crc);
  }

  /** Reading every block in index order, record by record, gives back what was written. */
  method ReadAll(t: Table, crc: Crc, ghost frames: seq<seq<byte>>, ghost blocks: seq<seq<Record>>)
    returns (out: seq<Record>)
    requires IsTable(t, frames, blocks, crc)
    ensures out == Concat(blocks)
  {
    out := [];
    for i := 0 to |t.meta|
      invariant out == Concat(blocks[..i])
    {
      var b := ReadBlock(t, i, crc, frames, blocks);
      var recs := ReadRecords(b.value, blocks[i]);
      assert blocks[..i + 1] == blocks[..i] + [blocks[i]];
      ConcatSnoc(blocks[..i], blocks[i]);
      out := out + recs;
    }
    assert blocks[..|t.meta|] == blocks;
  }

  method ReadRecords(b: Block, ghost recs: seq<Record>) returns (out: seq<Record>)
    requires AllValid(recs) && SizeOf(recs) <= MAX_BLOCK_SIZE && b == BlockOf(recs)
    ensures out == recs
  {
    WrittenBlockYields(recs);
    var c := new BlockCursor(b);
    c.UpdateCurrent();
    out := Drain(c);
    ItemsAreRest(SlotsOf(b), recs, 0);
  }

  /** What a list of records costs a table at most. */
  function Load(recs: seq<Record>): nat {
    SizeOf(recs) + 8 * |recs|
  }

  /** What an encoder makes of the filter of a table. */
  function FilterOutcome(encode: Bloom.Encoder, filter: Bloom.Filter): Bloom.Encoding {
    encode(filter, Zeros(Bloom.WireLen(filter)))
  }

  /** Writes all records and finishes the table; `region` is the settled block region. */
  method WriteTable(recs: seq<Record>, crc: Crc, limit: nat, filter: Bloom.Filter, encode: Bloom.Encoder)
    returns (t: Finished, ghost region: Option<Table>, ghost bs: seq<seq<Record>>, ghost fs: seq<seq<byte>>)
    requires limit <= MAX_BLOCK_SIZE
    ensures region.Some? ==> IsTable(region.value, fs, bs, crc) && Concat(bs) == recs && recs != [] && AllValid(recs)
    ensures recs != [] && AllValid(recs) && limit <= 65531 && Load(recs) < MAX_SST_SIZE ==> region.Some?
    ensures t.Done? <==> region.Some? && FilterOutcome(encode, filter).Done?
    ensures t.Done? ==> t.table == region.value
    ensures t.Done? ==> recs != [] && AllValid(recs) && FilterOutcome(encode, filter).Done?
    ensures recs != [] && AllValid(recs) && limit <= 65531 && Load(recs) < MAX_SST_SIZE ==>
      var o := FilterOutcome(encode, filter);
      (t.Done? <==> o.Done?) && (t.Panicked? <==> o.Panics?)
    ensures region.Some? && FilterOutcome(encode, filter).Panics? ==> t.Panicked?
    ensures t.Panicked? ==> (region.Some? && FilterOutcome(encode, filter).Panics?) || limit > 65531
  {
    region, bs, fs := None, [], [];
    var w := new SstWriter(crc, limit);
    var r := WriteAll(w, recs);
    if r.Err? {
      return Fails(r.error), region, bs, fs;
    }
    ghost var settled;
    t, settled, bs, fs := w.Finish(filter, encode);
    region := if settled.Ok? then Some(settled.value) else None;
  }

  /** Whatever sequence a writer accepted, in any number of blocks, reads back in full and in
      order through a finished table. With an encoder that does its work every non-empty list
      of valid records below the size bound does. */
  method WriteThenRead(recs: seq<Record>, crc: Crc, limit: nat, filter: Bloom.Filter, encode: Bloom.Encoder)
    returns (back: Option<seq<Record>>)
    requires limit <= MAX_BLOCK_SIZE
    ensures back.Some? ==> back.value == recs && recs != [] && AllValid(recs) && FilterOutcome(encode, filter).Done?
    ensures recs != [] && AllValid(recs) && limit <= 65531 && Load(recs) < MAX_SST_SIZE ==>
      (back.Some? <==> FilterOutcome(encode, filter).Done?)
  {
    var t, region, bs, fs := WriteTable(recs, crc, limit, filter, encode);
    if !t.Done? {
      return None;
    }
    var out := ReadAll(t.table, crc, fs, bs);
    back := Some(out);
  }

  method WriteAll(w: SstWriter, recs: seq<Record>) returns (r: Result<(), SstError>)
    requires w.Valid() && w.written == [] && w.Used() == 0
    modifies w, w.blockWriter
    ensures r.Ok? ==> w.Valid() && w.written == recs && w.Used() <= Load(recs) && AllValid(recs)
    ensures AllValid(recs) && w.limit <= 65531 && Load(recs) < MAX_SST_SIZE ==> r.Ok?
    ensures w.limit <= 65531 ==> r != Err(BlockFailed(Unfinished))
  {
    for i := 0 to |recs|
      invariant w.Valid() && (w.blockWriter == old(w.blockWriter) || fresh(w.blockWriter))
      invariant w.written == recs[..i] && w.Used() <= Load(recs[..i]) && AllValid(recs[..i])
    {
      r := WriteNext(w, recs, i);
      if r.Err? {
        return;
      }
    }
    assert recs[..|recs|] == recs;
    r := Ok(());
  }

  method WriteNext(w: SstWriter, recs: seq<Record>, i: nat) returns (r: Result<(), SstError>)
    requires w.Valid() && i < |recs|
    requires w.written == recs[..i] && w.Used() <= Load(recs[..i]) && AllValid(recs[..i])
    modifies w, w.blockWriter
    ensures r.Ok? ==> w.Valid() && (w.blockWriter == old(w.blockWriter) || fresh(w.blockWriter))
    ensures r.Ok? ==> w.written == recs[..i + 1] && w.Used() <= Load(recs[..i + 1]) && AllValid(recs[..i + 1])
    ensures AllValid(recs) && w.limit <= 65531 && Load(recs) < MAX_SST_SIZE ==> r.Ok?
    ensures w.limit <= 65531 ==> r != Err(BlockFailed(Unfinished))
  {
    LoadSnoc(recs, i);
    r := w.Write(recs[i]);
  }

  lemma LoadSnoc(recs: seq<Record>, i: nat)
    requires i < |recs|
    ensures recs[..i + 1] == recs[..i] + [recs[i]]
    ensures Load(recs[..i + 1]) == Load(recs[..i]) + WireLen(recs[i]) + 8
    ensures Load(recs[..i]) <= Load(recs)
  {
    assert recs[..i + 1][..i] == recs[..i];
    SizePrefix(recs, i);
  }

  lemma {:induction false} SizePrefix(recs: seq<Record>, i: nat)
    requires i <= |recs|
    ensures SizeOf(recs[..i]) <= SizeOf(recs)
  {
    var n := |recs| - 1;
    if i < |recs| {
      SizePrefix(recs[..n], i);
      assert recs[..n][..i] == recs[..i];
    } else {
      assert recs[..i] == recs;
    }
  }

  /** When the records were written in key order, so are the index entries. */
  lemma IndexIsOrdered(t: Table, frames: seq<seq<byte>>, blocks: seq<seq<Record>>, crc: Crc, i: nat)
    requires IsTable(t, frames, blocks, crc) && SortedRecs(Concat(blocks)) && i < |t.meta|
    ensures t.meta[i].first == t.meta[i].last || KeyLess(t.meta[i].first, t.meta[i].last)
    ensures i + 1 < |t.meta| ==> KeyLess(t.meta[i].last, t.meta[i + 1].first)
  {
    assert Entry(t.meta[i], frames, i, blocks[i], crc);
    EndsInTable(blocks, i);
    if i + 1 < |t.meta| {
      assert Entry(t.meta[i + 1], frames, i + 1, blocks[i + 1], crc);
      EndsInTable(blocks, i + 1);
    }
  }

  /** The end keys of block i are those of two records of the whole table, and the next block
      starts right after. */
  lemma EndsInTable(blocks: seq<seq<Record>>, i: nat)
    requires i < |blocks| && blocks[i] != []
    ensures var k, n, all := |Concat(blocks[..i])|, |blocks[i]|, Concat(blocks);
      && |Concat(blocks[..i + 1])| == k + n <= |all|
      && all[k] == blocks[i][0] && all[k + n - 1] == blocks[i][n - 1]
  {
    PartAt(blocks, i);
    EndsOfPrefix(Concat(blocks[..i]), blocks[i], Concat(blocks));
  }

  lemma EndsOfPrefix(p: seq<Record>, b: seq<Record>, all: seq<Record>)
    requires b != [] && p + b <= all
    ensures all[|p|] == b[0] && all[|p| + |b| - 1] == b[|b| - 1]
  {
    assert (p + b)[|p|] == b[0] && (p + b)[|p| + |b| - 1] == b[|b| - 1];
  }

  // ---- Index codec

  const META_SIZE := 68

  function MetaBytes(m: BlockMeta): (b: seq<byte>)
    ensures |b| == META_SIZE
  {
    BE4(m.offset) + EncodeKey(m.first) + EncodeKey(m.last)
  }

  function MetasBytes(ms: seq<BlockMeta>): (b: seq<byte>)
    ensures |b| == META_SIZE * |ms|
  {
    if ms == [] then [] else MetasBytes(ms[..|ms| - 1]) + MetaBytes(ms[|ms| - 1])
  }

  function EncodedMetas(ms: seq<BlockMeta>, crc: Crc): seq<byte> {
    Sealed(BE4(Low32(|ms|)) + MetasBytes(ms), crc)
  }

  method EncodeMetas(ms: seq<BlockMeta>, crc: Crc) returns (data: seq<byte>)
    ensures data == EncodedMetas(ms, crc)
  {
    data := BE4(Low32(|ms|));
    for i := 0 to |ms|
      invariant data == BE4(Low32(|ms|)) + MetasBytes(ms[..i])
    {
      assert ms[..i + 1][..i] == ms[..i];
      data := data + BE4(ms[i].offset) + EncodeKey(ms[i].first) + EncodeKey(ms[i].last);
    }
    assert ms[..|ms|] == ms;
    data := data + BE4(crc(data));
  }

  function ReadMeta(b: seq<byte>): BlockMeta
    requires |b| == META_SIZE
  {
    BlockMeta(Read4(b[..4]), DecodeKey(b[4..36]), DecodeKey(b[36..68]))
  }

  lemma ReadMetaBytes(m: BlockMeta)
    ensures ReadMeta(MetaBytes(m)) == m
  {
    var b := MetaBytes(m);
    RoundTrip4(m.offset);
    DecodeEncodeKey(m.first, []);
    DecodeEncodeKey(m.last, []);
    assert b[..4] == BE4(m.offset);
    assert b[4..36] == EncodeKey(m.first) + [] && b[36..68] == EncodeKey(m.last) + [];
  }

  lemma {:induction false} MetaAt(ms: seq<BlockMeta>, i: nat)
    requires i < |ms|
    ensures MetasBytes(ms)[META_SIZE * i..META_SIZE * i + META_SIZE] == MetaBytes(ms[i])
  {
    var n := |ms| - 1;
    if i < n {
      MetaAt(ms[..n], i);
      var a := MetasBytes(ms[..n]);
      var at := META_SIZE * i;
      assert (a + MetaBytes(ms[n]))[at..at + META_SIZE] == a[at..at + META_SIZE];
    }
  }

  /** Entry i of an encoded index. */
  function Slot(src: seq<byte>, i: nat): seq<byte>
    requires 72 + META_SIZE * i <= |src|
  {
    src[4 + META_SIZE * i..72 + META_SIZE * i]
  }

  /** Decodes a count, that many entries and a checksum; bytes after them are ignored. */
  method DecodeMetas(src: seq<byte>, crc: Crc) returns (r: Result<seq<BlockMeta>, SstError>)
    ensures |src| < 4 ==> r.Err?
    ensures |src| >= 4 ==>
      var n := Read4(src[..4]) as int;
      var end := 4 + META_SIZE * n;
      && (r.Ok? <==> |src| >= end + 4 && crc(src[..end]) == Read4(src[end..end + 4]))
      && (r.Ok? ==> |r.value| == n && forall i :: 0 <= i < n ==> r.value[i] == ReadMeta(Slot(src, i)))
  {
    if |src| < 4 {
      return Err(CodecFailed);
    }
    var n := Read4(src[..4]) as int;
    if |src| < 4 + META_SIZE * n + 4 {
      return Err(CodecFailed);
    }
    var consumed := 4;
    var ms := [];
    for i := 0 to n
      invariant consumed == 4 + META_SIZE * i && |ms| == i
      invariant forall j :: 0 <= j < i ==> ms[j] == ReadMeta(Slot(src, j))
    {
      ms := ms + [ReadMeta(src[consumed..consumed + META_SIZE])];
      consumed := consumed + META_SIZE;
    }
    if crc(src[..consumed]) != Read4(src[consumed..consumed + 4]) {
      return Err(CodecFailed);
    }
    r := Ok(ms);
  }

  lemma EncodedParts(head: seq<byte>, metas: seq<byte>, tail: seq<byte>, rest: seq<byte>)
    requires |head| == |tail| == 4
    ensures var src := head + metas + tail + rest;
      var end := 4 + |metas|;
      && src[..4] == head && src[..end] == head + metas && src[end..end + 4] == tail && src[4..end] == metas
  {
  }

  lemma SliceOfSlice(s: seq<byte>, a: nat, e: nat, b: nat, n: nat)
    requires a <= e <= |s| && a + b + n <= e
    ensures s[a..e][b..b + n] == s[a + b..a + b + n]
  {
    var x, y := s[a..e][b..b + n], s[a + b..a + b + n];
    assert forall k :: 0 <= k < n ==> x[k] == s[a..e][b + k] && y[k] == s[a + b + k];
  }

  /** Every entry sits where the decoder looks for it. */
  lemma {:induction false} SlotOfMeta(ms: seq<BlockMeta>, src: seq<byte>, i: nat)
    requires i < |ms| && 4 + META_SIZE * |ms| <= |src| && src[4..4 + META_SIZE * |ms|] == MetasBytes(ms)
    ensures ReadMeta(Slot(src, i)) == ms[i]
  {
    MetaAt(ms, i);
    ReadMetaBytes(ms[i]);
    SliceOfSlice(src, 4, 4 + META_SIZE * |ms|, META_SIZE * i, META_SIZE);
  }

  /** The index round trip, with whatever follows it in the file. */
  method IndexRoundTrip(ms: seq<BlockMeta>, rest: seq<byte>, crc: Crc) returns (r: Result<seq<BlockMeta>, SstError>)
    requires |ms| < 0x1_0000_0000
    ensures r == Ok(ms)
  {
    var data := EncodeMetas(ms, crc);
    ghost var head, metas := BE4(|ms|), MetasBytes(ms);
    RoundTrip4(|ms|);
    RoundTrip4(crc(head + metas));
    EncodedParts(head, metas, BE4(crc(head + metas)), rest);
    r := DecodeMetas(data + rest, crc);
    forall i | 0 <= i < |ms|
      ensures r.value[i] == ms[i]
    {
      SlotOfMeta(ms, data + rest, i);
    }
    assert r.value == ms;
  }
}

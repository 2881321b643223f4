/** Blocks of logregator-tsdb: the writer with its 16-bit offsets, the block codec, and the
    cursor that searches an encoded block. CRC-32 is a parameter: nothing is used of it but
    that it is a function of the bytes. */
module TsdbBlock {
  import opened Bytes
  import opened TsdbRecord
  import opened Framing

  const MAX_BLOCK_SIZE := 65535
  const DEFAULT_BLOCK_SIZE := 16384
  /** More data than this makes `encode_block` reach its unfinished branch. */
  const DATA_GUARD := 65535 - MIN_WIRE

  type Crc = seq<byte> -> u32

  datatype Result<+T, +E> = Ok(value: T) | Err(error: E)

  datatype Block = Block(data: seq<byte>, offsets: seq<u16>)

  datatype BlockError =
    | TooManyRecords | NoRecords | TooLarge | Unfinished | BadOffsets | BadLength
    | Short | BadSegment | BadChecksum

  ghost predicate AllValid(recs: seq<Record>) {
    forall r :: r in recs ==> Valid(r)
  }

  function SizeOf(recs: seq<Record>): nat {
    if recs == [] then 0 else SizeOf(recs[..|recs| - 1]) + WireLen(recs[|recs| - 1])
  }

  function Data(recs: seq<Record>): (d: seq<byte>)
    requires AllValid(recs)
    ensures |d| == SizeOf(recs)
  {
    if recs == [] then [] else Data(recs[..|recs| - 1]) + Encode(recs[|recs| - 1])
  }

  lemma DataSnoc(recs: seq<Record>, r: Record)
    requires AllValid(recs) && Valid(r)
    ensures AllValid(recs + [r]) && Data(recs + [r]) == Data(recs) + Encode(r)
    ensures SizeOf(recs + [r]) == SizeOf(recs) + WireLen(r)
  {
    assert (recs + [r])[..|recs|] == recs;
  }

  lemma {:induction false} DataPrefix(recs: seq<Record>, j: nat)
    requires AllValid(recs) && j <= |recs|
    ensures Data(recs[..j]) <= Data(recs)
  {
    if j < |recs| {
      var front := recs[..|recs| - 1];
      DataPrefix(front, j);
      assert front[..j] == recs[..j];
    } else {
      assert recs[..j] == recs;
    }
  }

  /** The bytes of record i lie between the sizes of the two prefixes around it. */
  lemma {:induction false} RecordAt(recs: seq<Record>, i: nat)
    requires AllValid(recs) && i < |recs|
    ensures SizeOf(recs[..i]) + WireLen(recs[i]) == SizeOf(recs[..i + 1]) <= SizeOf(recs)
    ensures Data(recs)[SizeOf(recs[..i])..SizeOf(recs[..i + 1])] == Encode(recs[i])
  {
    var p, r := recs[..i], recs[i];
    assert recs[..i + 1] == p + [r];
    DataPrefix(recs, i + 1);
    DataSnoc(p, r);
    SliceOfPrefix(Data(recs), Data(p), Encode(r));
  }

  lemma SliceOfPrefix(d: seq<byte>, a: seq<byte>, b: seq<byte>)
    requires a + b <= d
    ensures d[|a|..|a| + |b|] == b
  {
    assert d[..|a| + |b|] == a + b;
  }

  lemma {:induction false} SizeBounds(recs: seq<Record>)
    requires AllValid(recs)
    ensures MIN_WIRE * |recs| <= SizeOf(recs) <= MAX_WIRE * |recs|
  {
    if recs != [] {
      SizeBounds(recs[..|recs| - 1]);
      assert Valid(recs[|recs| - 1]);
    }
  }

  function Offsets(recs: seq<Record>): (o: seq<u16>)
    requires SizeOf(recs) <= MAX_BLOCK_SIZE
    ensures |o| == |recs|
  {
    if recs == [] then []
    else
      var front := recs[..|recs| - 1];
      Offsets(front) + [SizeOf(front)]
  }

  lemma {:induction false} OffsetAt(recs: seq<Record>, i: nat)
    requires SizeOf(recs) <= MAX_BLOCK_SIZE && i < |recs|
    ensures Offsets(recs)[i] == SizeOf(recs[..i])
  {
    var front := recs[..|recs| - 1];
    if i < |front| {
      OffsetAt(front, i);
      assert front[..i] == recs[..i];
    }
  }

  /** The block that holds recs. */
  function BlockOf(recs: seq<Record>): Block
    requires AllValid(recs) && SizeOf(recs) <= MAX_BLOCK_SIZE
  {
    Block(Data(recs), Offsets(recs))
  }

  /** What the writer's size test lets through under a limit. */
  ghost predicate Fits(recs: seq<Record>, limit: nat) {
    && AllValid(recs)
    && (recs != [] ==> SizeOf(recs) + 2 * |recs| + 2 <= MAX_BLOCK_SIZE)
    && (|recs| > 1 ==> SizeOf(recs) + 2 * |recs| + 2 <= limit)
  }

  // ---- Writer

  ghost predicate Holds(recs: seq<Record>, buffer: seq<byte>, offsets: seq<u16>, size: nat) {
    && AllValid(recs) && SizeOf(recs) <= MAX_BLOCK_SIZE
    && buffer == Data(recs) && offsets == Offsets(recs) && size == SizeOf(recs)
  }

  datatype WriteOutput = Written | Full | Rejected

  class BlockWriter {
    var buffer: seq<byte>
    var offsets: seq<u16>
    var size: nat
    const limit: nat
    var firstKey: Option<Key>
    var lastKey: Option<Key>
    ghost var recs: seq<Record>

    ghost predicate Sound()
      reads this
    {
      && limit <= MAX_BLOCK_SIZE && Fits(recs, limit)
      && Holds(recs, buffer, offsets, size)
      && firstKey == (if recs == [] then None else Some(recs[0].key))
      && lastKey == (if recs == [] then None else Some(recs[|recs| - 1].key))
    }

    constructor (limit: nat)
      requires limit <= MAX_BLOCK_SIZE
      ensures Sound() && recs == [] && offsets == [] && size == 0 && this.limit == limit
    {
      buffer, offsets, size, this.limit := [], [], 0, limit;
      firstKey, lastKey, recs := None, None, [];
    }

    /** Appends a record, or reports the block full. A first record is always taken unless it
        cannot fit any block. A record that the codec rejects leaves its key and zero bytes in
        the buffer, and the writer is no longer sound. */
    method Write(rec: Record) returns (out: WriteOutput)
      requires Sound()
      modifies this
      ensures var est := old(size) + WireLen(rec) + (|old(offsets)| + 1) * 2 + 2;
        out == if (old(offsets) != [] && est > limit) || est > MAX_BLOCK_SIZE then Full
               else if Valid(rec) then Written else Rejected
      ensures out.Written? ==> Sound() && recs == old(recs) + [rec]
      ensures out.Written? ==> size == old(size) + WireLen(rec) && |offsets| == |old(offsets)| + 1
      ensures out.Full? && limit <= 65531 ==> size <= DATA_GUARD
      ensures out.Full? ==> Sound() && recs == old(recs) && offsets == old(offsets) && size == old(size)
      ensures out.Rejected? ==> !Sound() && offsets == old(offsets) && size == old(size)
      ensures Valid(rec) && old(offsets) == [] ==> out.Written?
    {
      if limit <= 65531 {
        GuardHeadroom(recs, limit);
      }
      var est := size + WireLen(rec) + (|offsets| + 1) * 2 + 2;
      if offsets != [] && est > limit {
        return Full;
      }
      if est > MAX_BLOCK_SIZE {
        return Full;
      }
      if !Valid(rec) {
        buffer := buffer + EncodeKey(rec.key) + seq(4 + |rec.payload|, _ => 0);
        return Rejected;
      }
      Accept(rec);
      return Written;
    }

    method Accept(rec: Record)
      requires Sound() && Valid(rec)
      requires size + WireLen(rec) + 2 * |offsets| + 4 <= (if offsets == [] then MAX_BLOCK_SIZE else limit)
      modifies this
      ensures Sound() && recs == old(recs) + [rec]
      ensures size == old(size) + WireLen(rec) && |offsets| == |old(offsets)| + 1
    {
      GrowBlock(recs, rec, limit);
      buffer := buffer + Encode(rec);
      if firstKey.None? {
        firstKey := Some(rec.key);
      }
      lastKey := Some(rec.key);
      offsets := offsets + [Low16(size)];
      size := size + WireLen(rec);
      recs := recs + [rec];
    }
  }

  lemma GrowBlock(recs: seq<Record>, r: Record, limit: nat)
    requires Fits(recs, limit) && Valid(r) && SizeOf(recs) <= MAX_BLOCK_SIZE
    requires SizeOf(recs) + WireLen(r) + 2 * |recs| + 4 <= (if recs == [] then MAX_BLOCK_SIZE else limit) <= MAX_BLOCK_SIZE
    ensures Fits(recs + [r], limit)
    ensures Holds(recs + [r], Data(recs) + Encode(r), Offsets(recs) + [SizeOf(recs)], SizeOf(recs) + WireLen(r))
  {
    DataSnoc(recs, r);
    assert (recs + [r])[..|recs|] == recs;
  }

  // ---- Codec

  function End(offsets: seq<u16>, end: nat, i: nat): nat
    requires i < |offsets|
  {
    if i + 1 < |offsets| then offsets[i + 1] else end
  }

  ghost predicate Increasing(offsets: seq<u16>, end: nat) {
    forall i :: 0 <= i < |offsets| ==> offsets[i] < End(offsets, end, i)
  }

  function OffsetBytes(offsets: seq<u16>): (b: seq<byte>)
    ensures |b| == 2 * |offsets|
  {
    if offsets == [] then [] else OffsetBytes(offsets[..|offsets| - 1]) + BE2(offsets[|offsets| - 1])
  }

  function Body(b: Block): seq<byte>
    requires |b.offsets| <= 65535
  {
    b.data + OffsetBytes(b.offsets) + BE2(|b.offsets|)
  }

  function Sealed(body: seq<byte>, crc: Crc): seq<byte> {
    body + BE4(crc(body))
  }

  ghost function Encoded(b: Block, crc: Crc): Result<seq<byte>, BlockError> {
    if |b.offsets| > 65535 then Err(TooManyRecords)
    else if b.offsets == [] then Err(NoRecords)
    else if |b.data| + 2 * |b.offsets| + 2 > MAX_BLOCK_SIZE then Err(TooLarge)
    else if |b.data| > DATA_GUARD then Err(Unfinished)
    else if !Increasing(b.offsets, |b.data|) then Err(BadOffsets)
    else Ok(Sealed(Body(b), crc))
  }

  method EncodeBlock(b: Block, crc: Crc) returns (r: Result<seq<byte>, BlockError>)
    ensures r == Encoded(b, crc)
  {
    if |b.offsets| > 65535 { return Err(TooManyRecords); }
    if b.offsets == [] { return Err(NoRecords); }
    if |b.data| + 2 * |b.offsets| + 2 > MAX_BLOCK_SIZE { return Err(TooLarge); }
    if |b.data| > DATA_GUARD { return Err(Unfinished); }
    var data := b.data;
    for i := 0 to |b.offsets|
      invariant data == b.data + OffsetBytes(b.offsets[..i])
      invariant forall j :: 0 <= j < i ==> b.offsets[j] < End(b.offsets, |b.data|, j)
    {
      var start := b.offsets[i];
      var end := End(b.offsets, |b.data|, i);
      if end <= start {
        return Err(BadOffsets);
      }
      assert b.offsets[..i + 1][..i] == b.offsets[..i];
      data := data + BE2(start);
    }
    assert b.offsets[..|b.offsets|] == b.offsets;
    data := data + BE2(|b.offsets|);
    r := Ok(data + BE4(crc(data)));
  }

  function ReadOffsets(b: seq<byte>, n: nat): (offsets: seq<u16>)
    requires |b| == 2 * n
    ensures |offsets| == n
  {
    if n == 0 then [] else ReadOffsets(b[..2 * n - 2], n - 1) + [Read2(b[2 * n - 2..])]
  }

  lemma ReadOffsetsSnoc(b: seq<byte>, n: nat, e: seq<byte>)
    requires |b| == 2 * n && |e| == 2
    ensures ReadOffsets(b + e, n + 1) == ReadOffsets(b, n) + [Read2(e)]
  {
    assert (b + e)[..2 * n] == b && (b + e)[2 * n..] == e;
  }

  lemma {:induction false} ReadOffsetBytes(offsets: seq<u16>)
    ensures ReadOffsets(OffsetBytes(offsets), |offsets|) == offsets
  {
    if offsets != [] {
      var n := |offsets| - 1;
      var front, last := OffsetBytes(offsets[..n]), BE2(offsets[n]);
      ReadOffsetBytes(offsets[..n]);
      ReadOffsetsSnoc(front, n, last);
      RoundTrip2(offsets[n]);
      assert OffsetBytes(offsets) == front + last;
    }
  }

  lemma OffsetBytesSnoc(offsets: seq<u16>, front: seq<byte>, last: seq<byte>)
    requires OffsetBytes(offsets) == front && |last| == 2
    ensures OffsetBytes(offsets + [Read2(last)]) == front + last
  {
    assert (offsets + [Read2(last)])[..|offsets|] == offsets;
    Canonical2(last);
  }

  lemma {:induction false} OffsetBytesRead(b: seq<byte>, n: nat)
    requires |b| == 2 * n
    ensures OffsetBytes(ReadOffsets(b, n)) == b
  {
    if n > 0 {
      var front, last := b[..2 * n - 2], b[2 * n - 2..];
      var o := ReadOffsets(front, n - 1);
      assert ReadOffsets(b, n) == o + [Read2(last)];
      assert b == front + last;
      assert OffsetBytes(o) == front by { OffsetBytesRead(front, n - 1); }
      OffsetBytesSnoc(o, front, last);
    }
  }

  /** The first record whose offsets are out of order or whose length is impossible. */
  function Fault(offsets: seq<u16>, end: nat, i: nat): Option<BlockError>
    requires i <= |offsets|
    decreases |offsets| - i
  {
    if i == |offsets| then None
    else if End(offsets, end, i) <= offsets[i] then Some(BadOffsets)
    else if !(MIN_WIRE <= End(offsets, end, i) - offsets[i] <= MAX_WIRE) then Some(BadLength)
    else Fault(offsets, end, i + 1)
  }

  /** What `decode_block` does once the checksum has matched. */
  function Opened(body: seq<byte>): Result<Block, BlockError> {
    if |body| < 2 then Err(Short)
    else
      var end := |body| - 2;
      var n := Read2(body[end..]) as int;
      if end < 2 * n then Err(BadSegment)
      else
        var offsets := ReadOffsets(body[end - 2 * n..end], n);
        match Fault(offsets, end - 2 * n, 0)
        case Some(e) => Err(e)
        case None => Ok(Block(body[..end - 2 * n], offsets))
  }

  function Decoded(src: seq<byte>, crc: Crc): Result<Block, BlockError> {
    if |src| < 4 then Err(Short)
    else
      var body := src[..|src| - 4];
      if crc(body) != Read4(src[|src| - 4..]) then Err(BadChecksum) else Opened(body)
  }

  method DecodeBlock(src: seq<byte>, crc: Crc) returns (r: Result<Block, BlockError>)
    ensures r == Decoded(src, crc)
  {
    if |src| < 4 { return Err(Short); }
    var body := src[..|src| - 4];
    if crc(body) != Read4(src[|src| - 4..]) { return Err(BadChecksum); }
    if |body| < 2 { return Err(Short); }
    var end := |body| - 2;
    var n := Read2(body[end..]) as int;
    if end < 2 * n { return Err(BadSegment); }
    var start := end - 2 * n;
    var offsets := ReadOffsets(body[start..end], n);
    for i := 0 to |offsets|
      invariant Fault(offsets, start, 0) == Fault(offsets, start, i)
    {
      var next := End(offsets, start, i);
      if next <= offsets[i] { return Err(BadOffsets); }
      if !(MIN_WIRE <= next - offsets[i] <= MAX_WIRE) { return Err(BadLength); }
    }
    r := Ok(Block(body[..start], offsets));
  }

  /** Every record slot of a decodable block has a possible length. */
  ghost predicate Slotted(offsets: seq<u16>, end: nat) {
    forall i :: 0 <= i < |offsets| ==> MIN_WIRE <= End(offsets, end, i) - offsets[i] <= MAX_WIRE
  }

  lemma {:induction false} FaultFree(offsets: seq<u16>, end: nat, i: nat)
    requires i <= |offsets|
    ensures Fault(offsets, end, i).None? <==>
      forall j :: i <= j < |offsets| ==> MIN_WIRE <= End(offsets, end, j) - offsets[j] <= MAX_WIRE
    decreases |offsets| - i
  {
    if i < |offsets| {
      FaultFree(offsets, end, i + 1);
    }
  }

  lemma SealedOpens(body: seq<byte>, crc: Crc)
    ensures Decoded(Sealed(body, crc), crc) == Opened(body)
  {
    var src := Sealed(body, crc);
    RoundTrip4(crc(body));
    assert src[..|src| - 4] == body && src[|src| - 4..] == BE4(crc(body));
  }

  lemma BodySlices(d: seq<byte>, o: seq<byte>, e: seq<byte>)
    requires |e| == 2
    ensures var s := d + o + e;
      s[|s| - 2..] == e && s[|d|..|d| + |o|] == o && s[..|d|] == d
  {
  }

  lemma PartsOpen(d: seq<byte>, o: seq<byte>, e: seq<byte>, offsets: seq<u16>)
    requires |e| == 2 && Read2(e) == |offsets| && |o| == 2 * |offsets|
    requires ReadOffsets(o, |offsets|) == offsets && Fault(offsets, |d|, 0).None?
    ensures Opened(d + o + e) == Ok(Block(d, offsets))
  {
    BodySlices(d, o, e);
  }

  lemma BodyOpens(b: Block)
    requires |b.offsets| <= 65535 && Slotted(b.offsets, |b.data|)
    ensures Opened(Body(b)) == Ok(b)
  {
    RoundTrip2(|b.offsets|);
    ReadOffsetBytes(b.offsets);
    FaultFree(b.offsets, |b.data|, 0);
    PartsOpen(b.data, OffsetBytes(b.offsets), BE2(|b.offsets|), b.offsets);
  }

  /** A sealed body decodes to its block whenever the record lengths are possible. */
  lemma DecodeSealed(b: Block, crc: Crc)
    requires |b.offsets| <= 65535 && Slotted(b.offsets, |b.data|)
    ensures Decoded(Sealed(Body(b), crc), crc) == Ok(b)
  {
    SealedOpens(Body(b), crc);
    BodyOpens(b);
  }

  lemma ThreeParts(s: seq<byte>, i: nat, j: nat)
    requires i <= j <= |s|
    ensures s == s[..i] + s[i..j] + s[j..]
  {
  }

  lemma BodyOfParts(d: seq<byte>, o: seq<byte>, e: seq<byte>)
    requires |e| == 2 && |o| == 2 * Read2(e)
    ensures Body(Block(d, ReadOffsets(o, Read2(e)))) == d + o + e
  {
    OffsetBytesRead(o, Read2(e));
    Canonical2(e);
  }

  lemma BodyOfOpened(body: seq<byte>)
    requires Opened(body).Ok?
    ensures var b := Opened(body).value;
      |b.offsets| <= 65535 && Slotted(b.offsets, |b.data|) && Body(b) == body
  {
    var b := Opened(body).value;
    var end := |body| - 2;
    var start := end - 2 * Read2(body[end..]);
    FaultFree(b.offsets, |b.data|, 0);
    BodyOfParts(body[..start], body[start..end], body[end..]);
    ThreeParts(body, start, end);
  }

  /** Whatever decodes was, byte for byte, the sealed body of the block it decoded to. */
  lemma SealDecoded(src: seq<byte>, crc: Crc)
    requires Decoded(src, crc).Ok?
    ensures var b := Decoded(src, crc).value;
      |b.offsets| <= 65535 && Slotted(b.offsets, |b.data|) && src == Sealed(Body(b), crc)
  {
    var body := src[..|src| - 4];
    BodyOfOpened(body);
    Canonical4(src[|src| - 4..]);
    assert src == body + src[|src| - 4..];
  }

  lemma BlockOfIsSlotted(recs: seq<Record>)
    requires AllValid(recs) && SizeOf(recs) <= MAX_BLOCK_SIZE
    ensures var b := BlockOf(recs);
      && Slotted(b.offsets, |b.data|) && Increasing(b.offsets, |b.data|)
      && forall i :: 0 <= i < |recs| ==>
           b.offsets[i] == SizeOf(recs[..i]) && End(b.offsets, |b.data|, i) == SizeOf(recs[..i + 1])
  {
    var b := BlockOf(recs);
    forall i | 0 <= i < |recs|
      ensures b.offsets[i] == SizeOf(recs[..i]) && End(b.offsets, |b.data|, i) == SizeOf(recs[..i + 1])
      ensures MIN_WIRE <= End(b.offsets, |b.data|, i) - b.offsets[i] <= MAX_WIRE
    {
      RecordAt(recs, i);
      OffsetAt(recs, i);
      assert Valid(recs[i]);
      if i + 1 == |recs| {
        assert recs[..i + 1] == recs;
      } else {
        OffsetAt(recs, i + 1);
      }
    }
  }

  /** Below the limit 65532 a block that the writer filled never reaches the guard. */
  lemma GuardHeadroom(recs: seq<Record>, limit: nat)
    requires Fits(recs, limit) && limit <= 65531
    ensures SizeOf(recs) <= DATA_GUARD
  {
    SizeBounds(recs);
  }

  /** Any block that a run of `write` built under such a limit encodes, has increasing 16-bit
      offsets, and decodes to itself. */
  lemma WrittenBlockRoundTrips(recs: seq<Record>, limit: nat, crc: Crc)
    requires Fits(recs, limit) && limit <= 65531 && recs != []
    ensures Encoded(BlockOf(recs), crc).Ok?
    ensures Decoded(Encoded(BlockOf(recs), crc).value, crc) == Ok(BlockOf(recs))
  {
    WrittenBlockEncodes(recs, limit, crc);
    DecodeSealed(BlockOf(recs), crc);
  }

  lemma WrittenBlockEncodes(recs: seq<Record>, limit: nat, crc: Crc)
    requires Fits(recs, limit) && limit <= 65531 && recs != []
    ensures var b := BlockOf(recs);
      && |b.offsets| <= 65535 && Slotted(b.offsets, |b.data|)
      && Encoded(b, crc) == Ok(Sealed(Body(b), crc))
  {
    GuardHeadroom(recs, limit);
    BlockOfIsSlotted(recs);
  }

  /** Every limit from 65532 up lets a run of valid records through to the guard. */
  lemma GuardReachableIff(limit: nat, crc: Crc)
    requires limit <= MAX_BLOCK_SIZE
    ensures limit > 65531 <==>
      exists recs :: Fits(recs, limit) && recs != [] && SizeOf(recs) <= MAX_BLOCK_SIZE
                     && Encoded(BlockOf(recs), crc) == Err(Unfinished)
  {
    if limit > 65531 {
      var big := Record(Key(0, 0, 0, 0), seq(4096, _ => 0));
      var last := Record(Key(0, 0, 0, 0), seq(3482, _ => 0));
      var recs := seq(15, _ => big);
      SameSize(big, 15);
      DataSnoc(recs, last);
      GuardWitness(recs + [last], limit, crc);
    } else {
      forall recs | Fits(recs, limit) && recs != [] && SizeOf(recs) <= MAX_BLOCK_SIZE
        ensures Encoded(BlockOf(recs), crc) != Err(Unfinished)
      {
        GuardHeadroom(recs, limit);
      }
    }
  }

  lemma GuardWitness(recs: seq<Record>, limit: nat, crc: Crc)
    requires AllValid(recs) && |recs| == 16 && SizeOf(recs) == 65498 && 65532 <= limit
    ensures Fits(recs, limit) && Encoded(BlockOf(recs), crc) == Err(Unfinished)
  {
  }

  lemma {:induction false} SameSize(r: Record, n: nat)
    ensures SizeOf(seq(n, _ => r)) == n * WireLen(r)
  {
    var s := seq(n, _ => r);
    if n > 0 {
      SameSize(r, n - 1);
      assert s[..n - 1] == seq(n - 1, _ => r);
    }
  }

  // ---- Cursor

  /** The key bytes of slot i; in bounds in every decodable block. */
  function KeyAt(b: Block, i: nat): Key
    requires i < |b.offsets| && b.offsets[i] + KEY_SIZE <= |b.data|
  {
    DecodeKey(b.data[b.offsets[i]..b.offsets[i] + KEY_SIZE])
  }

  ghost predicate Readable(b: Block) {
    Slotted(b.offsets, |b.data|)
    && forall i :: 0 <= i < |b.offsets| ==> End(b.offsets, |b.data|, i) <= |b.data|
  }

  lemma {:induction false} SlottedIsReadable(b: Block, i: nat)
    requires Slotted(b.offsets, |b.data|) && i < |b.offsets|
    ensures End(b.offsets, |b.data|, i) <= |b.data|
    decreases |b.offsets| - i
  {
    if i + 1 < |b.offsets| {
      SlottedIsReadable(b, i + 1);
    }
  }

  /** Every decodable block can be read by a cursor without leaving its bounds. */
  lemma DecodedIsReadable(src: seq<byte>, crc: Crc)
    requires Decoded(src, crc).Ok?
    ensures Readable(Decoded(src, crc).value)
  {
    SealDecoded(src, crc);
    var b := Decoded(src, crc).value;
    forall i | 0 <= i < |b.offsets|
      ensures End(b.offsets, |b.data|, i) <= |b.data|
    {
      SlottedIsReadable(b, i);
    }
  }

  ghost predicate KeysIncrease(b: Block)
    requires Readable(b)
  {
    forall i, j :: 0 <= i < j < |b.offsets| ==> KeyLess(KeyAt(b, i), KeyAt(b, j))
  }

  function SlotBytes(b: Block, i: nat): seq<byte>
    requires i < |b.offsets| && b.offsets[i] <= End(b.offsets, |b.data|, i) <= |b.data|
  {
    b.data[b.offsets[i]..End(b.offsets, |b.data|, i)]
  }

  /** What each slot of a block decodes to. */
  ghost function SlotsOf(b: Block): (ds: seq<Framing.Decoded<Record>>)
    requires Readable(b)
    ensures |ds| == |b.offsets|
  {
    seq(|b.offsets|, i requires 0 <= i < |b.offsets| => Decode(SlotBytes(b, i)))
  }

  /** Every slot below `at` has a smaller key, every other one a key at or above k. */
  ghost predicate LowerBound(b: Block, k: Key, at: nat)
    requires Readable(b)
  {
    && at <= |b.offsets|
    && (forall i :: 0 <= i < at ==> KeyLess(KeyAt(b, i), k))
    && (forall i :: at <= i < |b.offsets| ==> !KeyLess(KeyAt(b, i), k))
  }

  /** The cursor's record is `NeedMore` when it points at nothing. */
  class BlockCursor {
    const block: Block
    var idx: nat
    var current: Framing.Decoded<Record>

    ghost predicate Positioned()
      requires Readable(block)
      reads this
    {
      current == if idx < |block.offsets| then SlotsOf(block)[idx] else NeedMore
    }

    constructor (block: Block)
      requires Readable(block)
      ensures this.block == block && idx == 0 && current == NeedMore
    {
      this.block, idx, current := block, 0, NeedMore;
    }

    method UpdateCurrent()
      requires Readable(block)
      modifies this`current
      ensures Positioned()
    {
      if idx >= |block.offsets| {
        current := NeedMore;
        return;
      }
      current := Decode(SlotBytes(block, idx));
    }

    method Next()
      requires Readable(block)
      modifies this
      ensures Positioned() && idx == old(idx) + 1
    {
      idx := idx + 1;
      UpdateCurrent();
    }

    /** `binary_search_by`: on a sorted block the only position that splits it at k. */
    method Search(k: Key) returns (at: nat)
      requires Readable(block)
      ensures at <= |block.offsets|
      ensures KeysIncrease(block) ==> LowerBound(block, k, at)
    {
      var lo, hi := 0, |block.offsets|;
      while lo < hi
        invariant 0 <= lo <= hi <= |block.offsets|
        invariant KeysIncrease(block) ==> forall i :: 0 <= i < lo ==> KeyLess(KeyAt(block, i), k)
        invariant KeysIncrease(block) ==> forall i :: hi <= i < |block.offsets| ==> !KeyLess(KeyAt(block, i), k)
      {
        var mid := (lo + hi) / 2;
        var key := KeyAt(block, mid);
        if key == k {
          SplitAtMatch(block, k, mid);
          return mid;
        }
        SplitAround(block, k, mid);
        if KeyLess(key, k) {
          lo := mid + 1;
        } else {
          hi := mid;
        }
      }
      at := lo;
    }

    method Seek(k: Key)
      requires Readable(block)
      modifies this
      ensures Positioned() && idx <= |block.offsets|
      ensures KeysIncrease(block) ==> LowerBound(block, k, idx)
    {
      idx := Search(k);
      UpdateCurrent();
    }
  }

  lemma SplitAtMatch(b: Block, k: Key, mid: nat)
    requires Readable(b) && mid < |b.offsets| && KeyAt(b, mid) == k
    ensures KeysIncrease(b) ==> LowerBound(b, k, mid)
  {
    if KeysIncrease(b) {
      forall i | mid <= i < |b.offsets|
        ensures !KeyLess(KeyAt(b, i), k)
      {
        assert mid < i ==> KeyLess(KeyAt(b, mid), KeyAt(b, i));
      }
    }
  }

  lemma SplitAround(b: Block, k: Key, mid: nat)
    requires Readable(b) && mid < |b.offsets|
    ensures KeysIncrease(b) && KeyLess(KeyAt(b, mid), k) ==> forall i :: 0 <= i <= mid ==> KeyLess(KeyAt(b, i), k)
    ensures KeysIncrease(b) && !KeyLess(KeyAt(b, mid), k) ==>
      forall i :: mid <= i < |b.offsets| ==> !KeyLess(KeyAt(b, i), k)
  {
  }

  ghost predicate SortedRecs(recs: seq<Record>) {
    forall i, j :: 0 <= i < j < |recs| ==> KeyLess(recs[i].key, recs[j].key)
  }

  /** A block of records reads back slot by slot, although keys are written source first and
      compared stream first. */
  lemma SlotsOfBlock(recs: seq<Record>)
    requires AllValid(recs) && SizeOf(recs) <= MAX_BLOCK_SIZE
    ensures var b := BlockOf(recs);
      && Readable(b)
      && (forall i :: 0 <= i < |recs| ==>
            KeyAt(b, i) == recs[i].key && Decode(SlotBytes(b, i)) == Item(recs[i], WireLen(recs[i])))
      && (SortedRecs(recs) ==> KeysIncrease(b))
  {
    var b := BlockOf(recs);
    BlockOfIsSlotted(recs);
    forall i | 0 <= i < |recs|
      ensures End(b.offsets, |b.data|, i) <= |b.data|
      ensures KeyAt(b, i) == recs[i].key && Decode(SlotBytes(b, i)) == Item(recs[i], WireLen(recs[i]))
    {
      SlotOfRecord(recs, i);
    }
  }

  lemma SlotOfRecord(recs: seq<Record>, i: nat)
    requires AllValid(recs) && SizeOf(recs) <= MAX_BLOCK_SIZE && i < |recs|
    ensures var b := BlockOf(recs);
      && b.offsets[i] + KEY_SIZE <= |b.data|
      && b.offsets[i] <= End(b.offsets, |b.data|, i) <= |b.data|
      && KeyAt(b, i) == recs[i].key && Decode(SlotBytes(b, i)) == Item(recs[i], WireLen(recs[i]))
  {
    SlotBounds(recs, i);
    SlotDecodes(BlockOf(recs), i, recs[i]);
  }

  lemma SlotDecodes(b: Block, i: nat, r: Record)
    requires i < |b.offsets| && Valid(r)
    requires b.offsets[i] + WireLen(r) == End(b.offsets, |b.data|, i) <= |b.data|
    requires b.data[b.offsets[i]..b.offsets[i] + WireLen(r)] == Encode(r)
    ensures KeyAt(b, i) == r.key && Decode(SlotBytes(b, i)) == Item(r, WireLen(r))
  {
    KeyOfEncoding(b.data, b.offsets[i], r);
    DecodeExact(r, SlotBytes(b, i));
  }

  lemma SlotBounds(recs: seq<Record>, i: nat)
    requires AllValid(recs) && SizeOf(recs) <= MAX_BLOCK_SIZE && i < |recs|
    ensures var b := BlockOf(recs);
      && Valid(recs[i])
      && b.offsets[i] + WireLen(recs[i]) == End(b.offsets, |b.data|, i) <= |b.data|
      && b.data[b.offsets[i]..b.offsets[i] + WireLen(recs[i])] == Encode(recs[i])
  {
    BlockOfIsSlotted(recs);
    RecordAt(recs, i);
  }

  // ---- Scans

  ghost function Items(ds: seq<Framing.Decoded<Record>>, i: nat): seq<Record>
    decreases |ds| - i
  {
    if i >= |ds| || !ds[i].Item? then [] else [ds[i].item] + Items(ds, i + 1)
  }

  /** What advancing a cursor from slot i yields: the records of the slots up to the first one
      that does not decode. */
  ghost function RunFrom(b: Block, i: nat): seq<Record>
    requires Readable(b)
  {
    Items(SlotsOf(b), i)
  }

  /** Every slot decodes, to these records. */
  ghost predicate Yields(b: Block, recs: seq<Record>)
    requires Readable(b)
  {
    && |recs| == |b.offsets|
    && forall i :: 0 <= i < |recs| ==> Holding(SlotsOf(b)[i], recs[i])
  }

  ghost predicate Holding(d: Framing.Decoded<Record>, r: Record) {
    d.Item? && d.item == r
  }

  /** The records split at k. */
  ghost predicate SplitsAt(recs: seq<Record>, k: Key, at: nat) {
    && at <= |recs|
    && (forall i :: 0 <= i < at ==> KeyLess(recs[i].key, k))
    && (forall i :: at <= i < |recs| ==> !KeyLess(recs[i].key, k))
  }

  /** Seeking to k in any block with increasing keys and advancing while there is a record. */
  method ScanFrom(b: Block, k: Key) returns (out: seq<Record>)
    requires Readable(b) && KeysIncrease(b)
    ensures exists at: nat :: LowerBound(b, k, at) && out == RunFrom(b, at)
    ensures forall recs :: Yields(b, recs) ==> exists at: nat :: SplitsAt(recs, k, at) && out == recs[at..]
  {
    var c := new BlockCursor(b);
    c.Seek(k);
    ghost var at := c.idx;
    out := Drain(c);
    assert LowerBound(b, k, at) && out == RunFrom(b, at);
    forall recs | Yields(b, recs)
      ensures exists at: nat :: SplitsAt(recs, k, at) && out == recs[at..]
    {
      ItemsAreRest(SlotsOf(b), recs, at);
      SplitOfKeys(b, k, recs, at);
    }
  }

  method Drain(c: BlockCursor) returns (out: seq<Record>)
    requires Readable(c.block) && c.Positioned()
    modifies c
    ensures out == RunFrom(c.block, old(c.idx))
    decreases |c.block.offsets| - c.idx
  {
    if c.current.Item? {
      var r := c.current.item;
      c.Next();
      out := Drain(c);
      out := [r] + out;
    } else {
      out := [];
    }
  }

  lemma {:induction false} ItemsAreRest(ds: seq<Framing.Decoded<Record>>, recs: seq<Record>, at: nat)
    requires |ds| == |recs| && at <= |recs| && forall i :: 0 <= i < |recs| ==> Holding(ds[i], recs[i])
    ensures Items(ds, at) == recs[at..]
    decreases |recs| - at
  {
    if at < |recs| {
      assert Holding(ds[at], recs[at]);
      ItemsAreRest(ds, recs, at + 1);
    }
  }

  /** A slot's record has the key that the search compares. */
  lemma KeyOfSlot(b: Block, i: nat, r: Record)
    requires Readable(b) && i < |b.offsets| && Holding(SlotsOf(b)[i], r)
    ensures KeyAt(b, i) == r.key
  {
    var s := SlotBytes(b, i);
    assert b.data[b.offsets[i]..b.offsets[i] + KEY_SIZE] == s[..KEY_SIZE];
    KeyOfPrefix(s);
  }

  lemma KeyOfPrefix(s: seq<byte>)
    requires |s| >= KEY_SIZE
    ensures DecodeKey(s[..KEY_SIZE]) == DecodeKey(s)
  {
    var p := s[..KEY_SIZE];
    assert p[0..8] == s[0..8] && p[8..16] == s[8..16] && p[16..24] == s[16..24] && p[24..32] == s[24..32];
  }

  lemma SplitOfKeys(b: Block, k: Key, recs: seq<Record>, at: nat)
    requires Readable(b) && Yields(b, recs) && LowerBound(b, k, at)
    ensures SplitsAt(recs, k, at)
  {
    forall i | 0 <= i < |recs|
      ensures KeyAt(b, i) == recs[i].key
    {
      KeyOfSlot(b, i, recs[i]);
    }
    forall i | 0 <= i < at
      ensures KeyLess(recs[i].key, k)
    {
      assert KeyLess(KeyAt(b, i), k);
    }
    forall i | at <= i < |recs|
      ensures !KeyLess(recs[i].key, k)
    {
      assert !KeyLess(KeyAt(b, i), k);
    }
  }

  /** A block that holds a list of records in key order can be scanned so. */
  lemma WrittenBlockYields(recs: seq<Record>)
    requires AllValid(recs) && SizeOf(recs) <= MAX_BLOCK_SIZE
    ensures Readable(BlockOf(recs)) && Yields(BlockOf(recs), recs)
    ensures SortedRecs(recs) ==> KeysIncrease(BlockOf(recs))
  {
    SlotsOfBlock(recs);
  }

  // ---- Every list that fits is written

  lemma FitsPrefix(recs: seq<Record>, limit: nat, i: nat)
    requires Fits(recs, limit) && limit <= MAX_BLOCK_SIZE && i < |recs|
    ensures Fits(recs[..i], limit) && Valid(recs[i]) && recs[..i + 1] == recs[..i] + [recs[i]]
    ensures SizeOf(recs[..i]) + WireLen(recs[i]) + 2 * i + 4 <= (if i == 0 then MAX_BLOCK_SIZE else limit)
  {
    RecordAt(recs, i);
    assert recs[..i + 1] == recs[..i] + [recs[i]];
  }

  /** A run of `Write` takes every record of a list that fits; so the lists that fit are exactly
      the contents a writer can have. */
  method FillBlock(recs: seq<Record>, limit: nat) returns (w: BlockWriter)
    requires limit <= MAX_BLOCK_SIZE && Fits(recs, limit)
    ensures fresh(w) && w.Sound() && w.limit == limit && w.recs == recs
  {
    w := new BlockWriter(limit);
    for i := 0 to |recs|
      invariant fresh(w) && w.Sound() && w.limit == limit && w.recs == recs[..i]
    {
      FitsPrefix(recs, limit, i);
      var out := w.Write(recs[i]);
      assert out.Written?;
    }
    assert recs[..|recs|] == recs;
  }
}

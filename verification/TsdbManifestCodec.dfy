/** The entries of the manifest, their wire form, and reading a manifest file back. */
module TsdbManifestCodec {
  import opened Bytes
  import opened Framing
  import opened Sequences
  import L = TsdbLabel

  datatype Entry =
    | Flush(id: u64)
    | Compaction(ids: seq<u64>)
    | StreamUpdate(stream: u64, labels: L.Labels)

  /** What the entry constructors let through. */
  predicate Encodable(e: Entry) {
    && (e.Compaction? ==> |e.ids| < 0x1_0000_0000)
    && (e.StreamUpdate? ==> L.Encodable(e.labels))
  }

  ghost predicate Valid(e: Entry, utf8: L.Utf8) {
    Encodable(e) && (e.StreamUpdate? ==> L.Ordered(e.labels) && L.Texts(e.labels, utf8))
  }

  ghost predicate AllValid(es: seq<Entry>, utf8: L.Utf8) {
    forall i :: 0 <= i < |es| ==> Valid(es[i], utf8)
  }

  function IdsBytes(ids: seq<u64>): (b: seq<byte>)
    ensures |b| == 8 * |ids|
  {
    if ids == [] then [] else BE8(ids[0]) + IdsBytes(ids[1..])
  }

  function Encode(e: Entry): (b: seq<byte>)
    requires Encodable(e)
    ensures b != []
  {
    match e
    case Flush(id) => [1] + BE8(id)
    case Compaction(ids) => [2] + BE4(|ids|) + IdsBytes(ids)
    case StreamUpdate(stream, m) => [3] + BE8(stream) + L.Encode(m)
  }

  function Repeat(id: u64, n: nat): (ids: seq<u64>)
    ensures |ids| == n && forall i :: 0 <= i < n ==> ids[i] == id
  {
    seq(n, _ => id)
  }

  /** An empty input waits; an incomplete entry is an error. The ids of a compaction are all
      read from the place of the first, because the loop never moves on. */
  function Decode(src: seq<byte>, utf8: L.Utf8): Decoded<Entry> {
    if src == [] then NeedMore
    else if src[0] == 1 then
      if |src| < 9 then Bad else Item(Flush(Read8(src[1..9])), 9)
    else if src[0] == 2 then
      if |src| < 5 then Bad
      else
        var n := Read4(src[1..5]) as int;
        if |src| < 5 + 8 * n then Bad
        else Item(Compaction(if n == 0 then [] else Repeat(Read8(src[5..13]), n)), 5 + 8 * n)
    else if src[0] == 3 then
      if |src| < 9 then Bad
      else
        var m := L.Decode(src[9..], utf8);
        if m.None? then Bad else Item(StreamUpdate(Read8(src[1..9]), m.value.0), 9 + L.WireLen(m.value.0))
    else Bad
  }

  /** The loop over the ids of a compaction. */
  method ReadIds(src: seq<byte>, n: nat) returns (ids: seq<u64>)
    requires |src| >= 5 + 8 * n
    ensures ids == if n == 0 then [] else Repeat(Read8(src[5..13]), n)
  {
    ids := [];
    var at := 5;
    for i := 0 to n
      invariant |ids| == i && forall j :: 0 <= j < i ==> ids[j] == Read8(src[5..13])
    {
      ids := ids + [Read8(src[at..at + 8])];
    }
  }

  /** What an entry becomes when it is written and read again. */
  function Reread(e: Entry): Entry {
    match e
    case Compaction(ids) => Compaction(if ids == [] then [] else Repeat(ids[0], |ids|))
    case _ => e
  }

  /** Writing and reading keeps an entry exactly when it is not a compaction of different ids. */
  lemma RereadSameIff(e: Entry)
    ensures Reread(e) == e <==> (e.Compaction? ==> forall id :: id in e.ids ==> id == e.ids[0])
  {
    if e.Compaction? && e.ids != [] {
      var r := Repeat(e.ids[0], |e.ids|);
      if forall id :: id in e.ids ==> id == e.ids[0] {
        forall i | 0 <= i < |r|
          ensures r[i] == e.ids[i]
        {
          assert e.ids[i] in e.ids;
        }
        assert |r| == |e.ids| && r == e.ids;
      } else {
        var id :| id in e.ids && id != e.ids[0];
        assert id !in r;
      }
    }
  }

  lemma TwoIdsMerge()
    ensures Reread(Compaction([1, 2])) == Compaction([1, 1])
  {
  }

  lemma TagSplit(t: byte, b: seq<byte>, rest: seq<byte>)
    ensures ([t] + b + rest)[0] == t && ([t] + b + rest)[1..] == b + rest
    ensures |b| >= 8 ==> ([t] + b + rest)[1..9] == b[..8]
  {
    if |b| >= 8 {
      assert ([t] + b + rest)[1..9] == b[..8];
    }
  }

  lemma CompactionParts(n: seq<byte>, ids: seq<byte>, rest: seq<byte>)
    requires |n| == 4
    ensures var s := [2] + n + ids + rest;
      s[0] == 2 && s[1..5] == n && (|ids| >= 8 ==> s[5..13] == ids[..8])
  {
    var s := [2] + n + ids + rest;
    assert s[1..5] == n;
    if |ids| >= 8 {
      assert s[5..13] == ids[..8];
    }
  }

  lemma UpdateParts(id: seq<byte>, m: seq<byte>, rest: seq<byte>)
    requires |id| == 8
    ensures var s := [3] + id + m + rest;
      s[0] == 3 && s[1..9] == id && s[9..] == m + rest
  {
    var s := [3] + id + m + rest;
    assert s[1..9] == id;
  }

  /** An entry decodes to what `Reread` says, whatever follows it. */
  lemma {:induction false} DecodeEncode(e: Entry, rest: seq<byte>, utf8: L.Utf8)
    requires Valid(e, utf8)
    ensures Decode(Encode(e) + rest, utf8) == Item(Reread(e), |Encode(e)|)
  {
    match e
    case Flush(id) =>
      TagSplit(1, BE8(id), rest);
      assert BE8(id)[..8] == BE8(id);
      RoundTrip8(id);
    case Compaction(ids) =>
      CompactionParts(BE4(|ids|), IdsBytes(ids), rest);
      RoundTrip4(|ids|);
      if ids != [] {
        assert IdsBytes(ids)[..8] == BE8(ids[0]);
        RoundTrip8(ids[0]);
      }
    case StreamUpdate(stream, m) =>
      UpdateParts(BE8(stream), L.Encode(m), rest);
      RoundTrip8(stream);
      L.DecodeEncode(m, rest, utf8);
      L.WireLenIsSize(m);
  }

  /** A cut entry is an error, unless nothing of it is there. */
  lemma DecodeCut(e: Entry, c: nat, utf8: L.Utf8)
    requires Valid(e, utf8) && 0 < c < |Encode(e)|
    ensures Decode(Encode(e)[..c], utf8) == Bad
  {
    match e
    case Flush(id) =>
    case Compaction(ids) => CompactionCut(|ids|, IdsBytes(ids), c, utf8);
    case StreamUpdate(stream, m) => UpdateCut(BE8(stream), m, c, utf8);
  }

  lemma UpdateCut(id: seq<byte>, m: L.Labels, c: nat, utf8: L.Utf8)
    requires |id| == 8 && L.Encodable(m) && L.Texts(m, utf8) && 0 < c < 9 + |L.Encode(m)|
    ensures Decode(([3] + id + L.Encode(m))[..c], utf8) == Bad
  {
    if c >= 9 {
      assert ([3] + id + L.Encode(m))[..c][9..] == L.Encode(m)[..c - 9];
      L.DecodeCut(m, c - 9, utf8);
    }
  }

  lemma CompactionCut(n: u32, ids: seq<byte>, c: nat, utf8: L.Utf8)
    requires |ids| == 8 * n && 0 < c < 5 + |ids|
    ensures Decode(([2] + BE4(n) + ids)[..c], utf8) == Bad
  {
    var s := ([2] + BE4(n) + ids)[..c];
    if c >= 5 {
      assert s[0] == 2 && s[1..5] == BE4(n) && |s[5..]| < 8 * n;
      RoundTrip4(n);
    }
  }

  // ---- Reading a file through a reader that gets its bytes in chunks

  function DecoderOf(utf8: L.Utf8): Decoder<Entry> {
    src => Decode(src, utf8)
  }

  function Encodings(es: seq<Entry>, utf8: L.Utf8): (fs: seq<seq<byte>>)
    requires AllValid(es, utf8)
    ensures |fs| == |es| && forall i :: 0 <= i < |fs| ==> fs[i] == Encode(es[i])
  {
    if es == [] then [] else [Encode(es[0])] + Encodings(es[1..], utf8)
  }

  function Rereads(es: seq<Entry>): (rs: seq<Entry>)
    ensures |rs| == |es| && forall i :: 0 <= i < |rs| ==> rs[i] == Reread(es[i])
  {
    seq(|es|, i requires 0 <= i < |es| => Reread(es[i]))
  }

  /** Frames that decode whole and fail when cut. */
  ghost predicate Brittle<T(!new)>(dec: Decoder<T>, items: seq<T>, frames: seq<seq<byte>>) {
    && |items| == |frames|
    && (forall i :: 0 <= i < |items| ==> frames[i] != [])
    && (forall i, rest {:trigger frames[i] + rest} ::
          0 <= i < |items| ==> dec(frames[i] + rest) == Item(items[i], |frames[i]|))
    && (forall i, c {:trigger frames[i][..c]} ::
          0 <= i < |items| && 0 < c < |frames[i]| ==> dec(frames[i][..c]) == Bad)
  }

  lemma EntriesAreBrittle(es: seq<Entry>, utf8: L.Utf8)
    requires AllValid(es, utf8)
    ensures Brittle(DecoderOf(utf8), Rereads(es), Encodings(es, utf8))
  {
    var fs := Encodings(es, utf8);
    forall i, rest {:trigger fs[i] + rest} | 0 <= i < |es|
      ensures DecoderOf(utf8)(fs[i] + rest) == Item(Reread(es[i]), |fs[i]|)
    {
      DecodeEncode(es[i], rest, utf8);
    }
    forall i, c {:trigger fs[i][..c]} | 0 <= i < |es| && 0 < c < |fs[i]|
      ensures DecoderOf(utf8)(fs[i][..c]) == Bad
    {
      DecodeCut(es[i], c, utf8);
    }
  }

  /** Every chunk ends where an entry ends. */
  predicate Aligned(frames: seq<seq<byte>>, chunks: seq<Chunk>)
    decreases |chunks|
  {
    if chunks == [] then frames == []
    else
      var k := Whole(frames, |chunks[0]|);
      |Concat(frames[..k])| == |chunks[0]| && Aligned(frames[k..], chunks[1..])
  }

  lemma BrittleTail<T(!new)>(dec: Decoder<T>, items: seq<T>, frames: seq<seq<byte>>)
    requires Brittle(dec, items, frames) && items != []
    ensures Brittle(dec, items[1..], frames[1..])
  {
    var xs, fs := items[1..], frames[1..];
    forall i, rest {:trigger fs[i] + rest} | 0 <= i < |xs|
      ensures dec(fs[i] + rest) == Item(xs[i], |fs[i]|)
    {
      assert fs[i] == frames[i + 1];
      assert dec(frames[i + 1] + rest) == Item(items[i + 1], |frames[i + 1]|);
    }
    forall i, c {:trigger fs[i][..c]} | 0 <= i < |xs| && 0 < c < |fs[i]|
      ensures dec(fs[i][..c]) == Bad
    {
      assert fs[i] == frames[i + 1];
      assert dec(frames[i + 1][..c]) == Bad;
    }
  }

  lemma {:induction false} BrittleDrop<T(!new)>(dec: Decoder<T>, items: seq<T>, frames: seq<seq<byte>>, k: nat)
    requires Brittle(dec, items, frames) && k <= |items|
    ensures Brittle(dec, items[k..], frames[k..])
    decreases k
  {
    if k == 0 {
      assert items[0..] == items && frames[0..] == frames;
    } else {
      BrittleTail(dec, items, frames);
      BrittleDrop(dec, items[1..], frames[1..], k - 1);
      assert items[1..][k - 1..] == items[k..] && frames[1..][k - 1..] == frames[k..];
    }
  }

  /** A window that ends after k whole frames yields their items; then the reader goes on with
      the chunks if nothing is left over, and fails otherwise. */
  lemma {:induction false} ReadWindow<T(!new)>(dec: Decoder<T>, items: seq<T>, frames: seq<seq<byte>>, c: nat,
                                               chunks: seq<Chunk>)
    requires Brittle(dec, items, frames) && c <= |Concat(frames)|
    ensures var k := Whole(frames, c);
      && |Concat(frames[..k])| <= c
      && Read(dec, Concat(frames)[..c], chunks) ==
         Prefixed(items[..k], if |Concat(frames[..k])| == c then Read(dec, [], chunks) else Parsed([], true))
    decreases |frames|
  {
    var k := Whole(frames, c);
    if items == [] || c == 0 {
      assert Concat(frames)[..c] == [] && items[..k] == [];
      PrefixedNothing(Read(dec, [], chunks));
    } else if c < |frames[0]| {
      assert Concat(frames)[..c] == frames[0][..c] && items[..0] == [];
    } else {
      var rest := Concat(frames[1..])[..c - |frames[0]|];
      assert Concat(frames)[..c] == frames[0] + rest;
      assert dec(frames[0] + rest) == Item(items[0], |frames[0]|);
      assert (frames[0] + rest)[|frames[0]|..] == rest;
      BrittleTail(dec, items, frames);
      ReadWindow(dec, items[1..], frames[1..], c - |frames[0]|, chunks);
      ConcatTake(frames, k);
      var tail := if |Concat(frames[..k])| == c then Read(dec, [], chunks) else Parsed([], true);
      PrefixedTwice([items[0]], items[1..][..k - 1], tail);
      assert items[..k] == [items[0]] + items[1..][..k - 1];
    }
  }

  lemma NothingIsEmpty(frames: seq<seq<byte>>)
    requires forall i :: 0 <= i < |frames| ==> frames[i] != []
    ensures Concat(frames) == [] ==> frames == []
  {
  }

  /** A file of whole frames reads back in full if and only if every chunk ends on a frame;
      otherwise the read fails. */
  lemma {:induction false} ReadsBackIff<T(!new)>(dec: Decoder<T>, items: seq<T>, frames: seq<seq<byte>>,
                                                 chunks: seq<Chunk>)
    requires Brittle(dec, items, frames) && dec([]) == NeedMore && Concat(chunks) == Concat(frames)
    ensures Aligned(frames, chunks) ==> Read(dec, [], chunks) == Parsed(items, false)
    ensures !Aligned(frames, chunks) ==> Read(dec, [], chunks).failed
    decreases |chunks|
  {
    if chunks == [] {
      NothingIsEmpty(frames);
    } else {
      var c, all := chunks[0], Concat(frames);
      assert all[..|c|] == c && [] + c == c;
      ReadWindow(dec, items, frames, |c|, chunks[1..]);
      var k := Whole(frames, |c|);
      if |Concat(frames[..k])| == |c| {
        ConcatSplit(frames, k);
        assert all[|c|..] == Concat(frames[k..]) && all[|c|..] == Concat(chunks[1..]);
        BrittleDrop(dec, items, frames, k);
        ReadsBackIff(dec, items[k..], frames[k..], chunks[1..]);
        assert items == items[..k] + items[k..];
      }
    }
  }

  /** The manifest's own reader: all entries, as `Reread` says, if and only if no read ends
      inside an entry. */
  lemma ManifestReadsBackIff(es: seq<Entry>, chunks: seq<Chunk>, utf8: L.Utf8)
    requires AllValid(es, utf8) && Concat(chunks) == Concat(Encodings(es, utf8))
    ensures var r := Read(DecoderOf(utf8), [], chunks);
      if Aligned(Encodings(es, utf8), chunks) then r == Parsed(Rereads(es), false) else r.failed
  {
    EntriesAreBrittle(es, utf8);
    ReadsBackIff(DecoderOf(utf8), Rereads(es), Encodings(es, utf8), chunks);
  }

  /** A file that arrives in one read always reads back. */
  lemma OneReadIsAligned(frames: seq<seq<byte>>)
    requires Concat(frames) != []
    ensures Aligned(frames, [Concat(frames)])
  {
    WholeOfAll(frames);
    assert frames[..|frames|] == frames;
  }

  lemma {:induction false} WholeOfAll(frames: seq<seq<byte>>)
    ensures Whole(frames, |Concat(frames)|) == |frames|
  {
    if frames != [] {
      WholeOfAll(frames[1..]);
    }
  }

  // A manifest of flushes is a row of frames of nine bytes, and nine does not divide the
  // reader's buffer size.
  const BUFSIZE := 4096

  lemma {:induction false} NineEach(frames: seq<seq<byte>>)
    requires forall i :: 0 <= i < |frames| ==> |frames[i]| == 9
    ensures |Concat(frames)| == 9 * |frames|
  {
    if frames != [] {
      NineEach(frames[1..]);
    }
  }

  /** A manifest of flushes that fills the reader's buffer cannot be read back. */
  lemma LongFlushLogFails(es: seq<Entry>, chunks: seq<Chunk>, utf8: L.Utf8)
    requires forall i :: 0 <= i < |es| ==> es[i].Flush?
    requires AllValid(es, utf8) && Concat(chunks) == Concat(Encodings(es, utf8))
    requires chunks != [] && |chunks[0]| == BUFSIZE
    ensures Read(DecoderOf(utf8), [], chunks).failed
  {
    NinesNotAligned(Encodings(es, utf8), chunks);
    ManifestReadsBackIff(es, chunks, utf8);
  }

  lemma NinesNotAligned(frames: seq<seq<byte>>, chunks: seq<Chunk>)
    requires forall i :: 0 <= i < |frames| ==> |frames[i]| == 9
    requires chunks != [] && |chunks[0]| == BUFSIZE
    ensures !Aligned(frames, chunks)
  {
    NineEach(frames[..Whole(frames, BUFSIZE)]);
  }

  method ReadEntries(chunks: seq<Chunk>, utf8: L.Utf8) returns (p: Parsed<Entry>)
    ensures p == Read(DecoderOf(utf8), [], chunks)
  {
    var es, window, i := [], [], 0;
    ghost var all := Read(DecoderOf(utf8), [], chunks);
    PrefixedNothing(all);
    assert chunks[0..] == chunks;
    while true
      invariant 0 <= i <= |chunks|
      invariant all == Prefixed(es, Read(DecoderOf(utf8), window, chunks[i..]))
      decreases |chunks| - i, |window|
    {
      match Decode(window, utf8)
      case Item(e, n) =>
        if n > |window| {
          assert es + [] == es;
          return Parsed(es, true);
        }
        PrefixedTwice(es, [e], Read(DecoderOf(utf8), window[n..], chunks[i..]));
        es, window := es + [e], window[n..];
      case Bad =>
        assert es + [] == es;
        return Parsed(es, true);
      case NeedMore =>
        if i == |chunks| {
          assert es + [] == es;
          return Parsed(es, false);
        }
        assert chunks[i..][1..] == chunks[i + 1..];
        window, i := window + chunks[i], i + 1;
    }
  }
}

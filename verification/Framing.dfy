/** Streams of self-delimiting frames, for any decoder that says when it needs more bytes. */
module Framing {
  import opened Bytes
  import opened Sequences

  /** Not enough bytes yet, an item and the bytes it took, or malformed input. */
  datatype Decoded<+T> = NeedMore | Item(item: T, n: nat) | Bad

  type Decoder<!T> = seq<byte> -> Decoded<T>

  /** The items of a stream up to its end or to a malformed frame. */
  datatype Parsed<+T> = Parsed(items: seq<T>, failed: bool)

  function Parse<T>(dec: Decoder<T>, s: seq<byte>): Parsed<T>
    decreases |s|
  {
    match dec(s)
    case NeedMore => Parsed([], false)
    case Bad => Parsed([], true)
    case Item(item, n) =>
      if 0 < n <= |s| then Prefixed([item], Parse(dec, s[n..])) else Parsed([], true)
  }

  function Prefixed<T>(items: seq<T>, p: Parsed<T>): Parsed<T> {
    Parsed(items + p.items, p.failed)
  }

  lemma PrefixedTwice<T>(a: seq<T>, b: seq<T>, p: Parsed<T>)
    ensures Prefixed(a, Prefixed(b, p)) == Prefixed(a + b, p)
  {
    assert a + (b + p.items) == a + b + p.items;
  }

  lemma PrefixedNothing<T>(p: Parsed<T>)
    ensures Prefixed([], p) == p
  {
    assert [] + p.items == p.items;
  }

  /** Each frame decodes to its item whatever follows, and asks for more when cut. */
  ghost predicate Frames<T(!new)>(dec: Decoder<T>, items: seq<T>, frames: seq<seq<byte>>) {
    && |items| == |frames|
    && (forall i :: 0 <= i < |items| ==> frames[i] != [])
    && (forall i, rest {:trigger frames[i] + rest} ::
          0 <= i < |items| ==> dec(frames[i] + rest) == Item(items[i], |frames[i]|))
    && (forall i, c {:trigger frames[i][..c]} ::
          0 <= i < |items| && 0 <= c < |frames[i]| ==> dec(frames[i][..c]) == NeedMore)
  }

  lemma FramesTail<T(!new)>(dec: Decoder<T>, items: seq<T>, frames: seq<seq<byte>>)
    requires Frames(dec, items, frames) && items != []
    ensures Frames(dec, items[1..], frames[1..])
  {
    var xs, fs := items[1..], frames[1..];
    forall i, rest {:trigger fs[i] + rest} | 0 <= i < |xs|
      ensures dec(fs[i] + rest) == Item(xs[i], |fs[i]|)
    {
      assert fs[i] == frames[i + 1];
      assert dec(frames[i + 1] + rest) == Item(items[i + 1], |frames[i + 1]|);
    }
    forall i, c {:trigger fs[i][..c]} | 0 <= i < |xs| && 0 <= c < |fs[i]|
      ensures dec(fs[i][..c]) == NeedMore
    {
      assert fs[i] == frames[i + 1];
      assert dec(frames[i + 1][..c]) == NeedMore;
    }
  }

  lemma ParseFrame<T(!new)>(dec: Decoder<T>, items: seq<T>, frames: seq<seq<byte>>, rest: seq<byte>)
    requires Frames(dec, items, frames) && items != []
    ensures Parse(dec, frames[0] + rest) == Prefixed([items[0]], Parse(dec, rest))
  {
    assert dec(frames[0] + rest) == Item(items[0], |frames[0]|);
    assert (frames[0] + rest)[|frames[0]|..] == rest;
  }

  /** A stream cut anywhere gives exactly the items wholly before the cut, without error. */
  lemma {:induction false} ParseCutStream<T(!new)>(dec: Decoder<T>, items: seq<T>, frames: seq<seq<byte>>, c: nat)
    requires Frames(dec, items, frames) && c <= |Concat(frames)| && dec([]) == NeedMore
    ensures Parse(dec, Concat(frames)[..c]) == Parsed(items[..Whole(frames, c)], false)
    ensures var k := Whole(frames, c);
      |Concat(frames[..k])| <= c && (k < |frames| ==> c < |Concat(frames[..k])| + |frames[k]|)
    decreases |frames|
  {
    var k := Whole(frames, c);
    if items == [] {
      assert Concat(frames)[..c] == [];
    } else if c < |frames[0]| {
      assert Concat(frames)[..c] == frames[0][..c];
    } else {
      var rest := Concat(frames[1..])[..c - |frames[0]|];
      assert Concat(frames)[..c] == frames[0] + rest;
      ParseFrame(dec, items, frames, rest);
      FramesTail(dec, items, frames);
      ParseCutStream(dec, items[1..], frames[1..], c - |frames[0]|);
      assert items[..k] == [items[0]] + items[1..][..k - 1];
      ConcatTake(frames, k);
    }
  }

  lemma {:induction false} ParseWholeStream<T(!new)>(dec: Decoder<T>, items: seq<T>, frames: seq<seq<byte>>)
    requires Frames(dec, items, frames) && dec([]) == NeedMore
    ensures Parse(dec, Concat(frames)) == Parsed(items, false)
    decreases |frames|
  {
    if items != [] {
      ParseFrame(dec, items, frames, Concat(frames[1..]));
      FramesTail(dec, items, frames);
      ParseWholeStream(dec, items[1..], frames[1..]);
      assert items == [items[0]] + items[1..];
    }
  }

  // ---- Delivery in chunks

  /** What one read returns; a read of no bytes is the end of the stream. */
  type Chunk = c: seq<byte> | c != [] witness [0]

  /** The reader's loop: decode from the window, and take in one more chunk when the decoder
      waits. */
  function Read<T>(dec: Decoder<T>, window: seq<byte>, chunks: seq<Chunk>): Parsed<T>
    decreases |chunks|, |window|
  {
    match dec(window)
    case Item(x, n) =>
      if 0 < n <= |window| then Prefixed([x], Read(dec, window[n..], chunks)) else Parsed([], true)
    case Bad => Parsed([], true)
    case NeedMore => if chunks == [] then Parsed([], false) else Read(dec, window + chunks[0], chunks[1..])
  }

  /** Frames that only ask for more when cut arrive whole, however the stream is chunked. */
  lemma {:induction false} ReadInChunks<T(!new)>(dec: Decoder<T>, items: seq<T>, frames: seq<seq<byte>>,
                                                 window: seq<byte>, chunks: seq<Chunk>)
    requires Frames(dec, items, frames) && dec([]) == NeedMore && window + Concat(chunks) == Concat(frames)
    ensures Read(dec, window, chunks) == Parsed(items, false)
    decreases |chunks|, |window|
  {
    if items != [] && |frames[0]| <= |window| {
      var f := frames[0];
      var rest := window[|f|..];
      assert window == (window + Concat(chunks))[..|window|];
      assert window == f + rest;
      assert dec(f + rest) == Item(items[0], |f|);
      assert rest + Concat(chunks) == Concat(frames[1..]);
      FramesTail(dec, items, frames);
      ReadInChunks(dec, items[1..], frames[1..], rest, chunks);
      assert items == [items[0]] + items[1..];
    } else {
      CutAsksForMore(dec, items, frames, window, Concat(chunks));
      if chunks != [] {
        assert window + chunks[0] + Concat(chunks[1..]) == window + Concat(chunks);
        ReadInChunks(dec, items, frames, window + chunks[0], chunks[1..]);
      }
    }
  }

  lemma CutAsksForMore<T(!new)>(dec: Decoder<T>, items: seq<T>, frames: seq<seq<byte>>,
                                window: seq<byte>, rest: seq<byte>)
    requires Frames(dec, items, frames) && dec([]) == NeedMore && window + rest == Concat(frames)
    requires items != [] ==> |window| < |frames[0]|
    ensures dec(window) == NeedMore && (rest == [] ==> items == [])
  {
    if items == [] {
      assert window == [];
    } else {
      assert window == (window + rest)[..|window|] == frames[0][..|window|];
    }
  }
}

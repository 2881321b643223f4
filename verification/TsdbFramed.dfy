/** Framed reading and writing of records over a byte stream, with the reader's compacting
    and growing buffer. */
module TsdbFramed {
  import opened Bytes
  import opened TsdbRecord
  import opened Framing
  import opened Sequences

  const BUFSIZE := 4096

  /** A byte stream that returns any non-empty part of what was asked for, or an error. */
  class Source {
    var data: seq<byte>

    constructor (data: seq<byte>)
      ensures this.data == data
    {
      this.data := data;
    }

    method Read(max: nat) returns (chunk: seq<byte>, error: bool)
      modifies this
      ensures |chunk| <= max && chunk + data == old(data)
      ensures chunk == [] <==> max == 0 || old(data) == [] || error
    {
      error := *;
      if error || max == 0 || data == [] {
        chunk := [];
        assert [] + data == data;
      } else {
        var n :| 1 <= n <= max && n <= |data|;
        chunk := data[..n];
        data := data[n..];
      }
    }
  }

  datatype Step = End | Got(rec: Record) | Failed

  datatype Filled = More | Eof | ReadError

  class FramedReader {
    const inner: Source
    var buf: array<byte>
    var start: nat
    var end: nat

    ghost predicate Valid()
      reads this, buf, inner
    {
      start <= end <= buf.Length && (buf.Length == BUFSIZE || buf.Length == 2 * BUFSIZE)
    }

    /** The bytes not yet decoded, buffered or still in the stream. */
    ghost function Pending(): seq<byte>
      requires Valid()
      reads this, buf, inner
    {
      buf[start..end] + inner.data
    }

    constructor (inner: Source)
      ensures Valid() && this.inner == inner && fresh(buf) && Pending() == inner.data
    {
      this.inner := inner;
      buf := new byte[BUFSIZE](_ => 0);
      start, end := 0, 0;
      new;
      assert buf[0..0] == [];
      assert [] + inner.data == inner.data;
    }

    /** `copy_within(start..end, 0)`. */
    method Compact()
      requires Valid() && start > 0
      modifies this`start, this`end, buf
      ensures Valid() && start == 0 && end == old(end - start)
      ensures buf[start..end] == old(buf[start..end])
    {
      var n := end - start;
      var i := 0;
      while i < n
        invariant 0 <= i <= n
        invariant forall k :: 0 <= k < i ==> buf[k] == old(buf[start + k])
        invariant forall k :: start + i <= k < end ==> buf[k] == old(buf[k])
        modifies buf
      {
        buf[i] := buf[start + i];
        i := i + 1;
      }
      start, end := 0, n;
      assert buf[start..end] == old(buf[start..end]);
    }

    /** `resize(len * 2, 0)`. */
    method Grow()
      requires Valid() && buf.Length == BUFSIZE
      modifies this`buf
      ensures Valid() && fresh(buf) && buf.Length == 2 * BUFSIZE
      ensures buf[start..end] == old(buf[start..end])
    {
      var bigger := new byte[2 * BUFSIZE](_ => 0);
      var i := 0;
      while i < buf.Length
        invariant 0 <= i <= buf.Length
        invariant bigger[..i] == buf[..i]
        modifies bigger
      {
        bigger[i] := buf[i];
        i := i + 1;
      }
      assert bigger[start..end] == bigger[..i][start..end] && buf[start..end] == buf[..i][start..end];
      buf := bigger;
    }

    method MakeRoom()
      requires Valid() && end - start < MAX_WIRE
      modifies this`start, this`end, this`buf, buf
      ensures Valid() && (buf == old(buf) || fresh(buf))
      ensures buf[start..end] == old(buf[start..end]) && end < buf.Length
    {
      if end == buf.Length {
        if start > 0 {
          Compact();
        }
        if end == buf.Length {
          Grow();
        }
      }
    }

    method Append(chunk: seq<byte>)
      requires Valid() && end + |chunk| <= buf.Length
      modifies this`end, buf
      ensures Valid() && buf[start..end] == old(buf[start..end]) + chunk
    {
      var i := 0;
      while i < |chunk|
        invariant 0 <= i <= |chunk|
        invariant buf[start..end + i] == old(buf[start..end]) + chunk[..i]
        modifies buf
      {
        buf[end + i] := chunk[i];
        assert buf[start..end + i + 1] == buf[start..end + i] + [chunk[i]];
        assert chunk[..i + 1] == chunk[..i] + [chunk[i]];
        i := i + 1;
      }
      end := end + |chunk|;
      assert chunk[..i] == chunk;
    }

    /** Makes room and reads once. The window must be shorter than a record, which an
        unsuccessful decode guarantees; so one doubling is enough. */
    method Fill() returns (f: Filled)
      requires Valid() && end - start < MAX_WIRE
      modifies this, buf, inner
      ensures Valid() && (buf == old(buf) || fresh(buf))
      ensures Pending() == old(Pending())
      ensures !f.ReadError? ==> (f.Eof? <==> old(inner.data) == [])
      ensures f.Eof? ==> inner.data == []
      ensures f.More? ==> |inner.data| < old(|inner.data|)
    {
      MakeRoom();
      ghost var window := buf[start..end];
      var chunk, error := inner.Read(buf.Length - end);
      Append(chunk);
      assert window + (chunk + inner.data) == window + chunk + inner.data;
      f := if error then ReadError else if chunk == [] then Eof else More;
    }

    /** One `next`: the decoded record, the end of the stream, or a bad length prefix. A read
        error looks like the end of the stream, and takes nothing. */
    method Next() returns (s: Step, ghost error: bool)
      requires Valid()
      modifies this, buf, inner
      ensures Valid() && (buf == old(buf) || fresh(buf))
      ensures !error ==> Took(old(Pending()), s, Pending())
      ensures error ==> s.End? && Pending() == old(Pending())
    {
      ghost var all := Pending();
      while true
        invariant Valid() && Pending() == all && (buf == old(buf) || fresh(buf))
        decreases |inner.data|
      {
        var window := buf[start..end];
        TookFromWindow(window, inner.data);
        match Decode(window)
        case Item(rec, n) =>
          start := start + n;
          assert buf[start..end] == window[n..];
          return Got(rec), false;
        case Bad =>
          return Failed, false;
        case NeedMore =>
          var f := Fill();
          if !f.More? {
            return End, f.ReadError?;
          }
      }
    }
  }

  /** What one `next` may do to the undecoded bytes. */
  ghost predicate Took(before: seq<byte>, s: Step, after: seq<byte>) {
    match s
    case End => Decode(before).NeedMore? && after == before
    case Failed => Decode(before).Bad? && after == before
    case Got(rec) => Valid(rec) && before == Encode(rec) + after
  }

  /** Decoding the buffered window decides the step for the whole stream. */
  lemma TookFromWindow(window: seq<byte>, rest: seq<byte>)
    ensures var d := Decode(window);
      match d
      case Item(rec, n) => Took(window + rest, Got(rec), window[n..] + rest)
      case Bad => Took(window + rest, Failed, window + rest)
      case NeedMore => rest == [] ==> Took(window + rest, End, window + rest)
  {
    DecodeMonotone(window, rest);
    match Decode(window)
    case Item(rec, n) => assert window + rest == Encode(rec) + (window[n..] + rest);
    case Bad =>
    case NeedMore => assert rest == [] ==> window + rest == window;
  }

  lemma DecodeMonotone(s: seq<byte>, t: seq<byte>)
    ensures Decode(s).Item? ==> Decode(s + t) == Decode(s)
    ensures Decode(s).Bad? ==> Decode(s + t).Bad?
  {
    if |s| >= HEADER_SIZE {
      assert (s + t)[KEY_SIZE..HEADER_SIZE] == s[KEY_SIZE..HEADER_SIZE];
    }
    if Decode(s).Item? {
      var d := Decode(s);
      assert s == Encode(d.item) + s[d.n..];
      assert s + t == Encode(d.item) + (s[d.n..] + t);
      DecodeEncode(d.item, s[d.n..] + t);
      DecodeEncode(d.item, s[d.n..]);
    }
  }

  /** Iterating a reader to its end, or to its first error, yields the parse of the stream,
      however the stream was cut into reads; and after a read error a first part of it, with
      nothing to tell it from the whole. */
  method ReadAll(r: FramedReader) returns (p: Parsed<Record>, ghost error: bool)
    requires r.Valid()
    modifies r, r.buf, r.inner
    ensures r.Valid()
    ensures !error ==> p == Parse(Decode, old(r.Pending()))
    ensures error ==> !p.failed && p.items <= Parse(Decode, old(r.Pending())).items
  {
    var recs := [];
    PrefixedNothing(Parse(Decode, r.Pending()));
    while true
      invariant r.Valid() && (r.buf == old(r.buf) || fresh(r.buf))
      invariant Parse(Decode, old(r.Pending())) == Prefixed(recs, Parse(Decode, r.Pending()))
      decreases |r.Pending()|
    {
      ghost var before := r.Pending();
      var s;
      s, error := r.Next();
      if !error {
        ParseTook(recs, before, s, r.Pending());
      }
      match s
      case End =>
        return Parsed(recs, false), error;
      case Failed =>
        return Parsed(recs, true), error;
      case Got(rec) =>
        recs := recs + [rec];
    }
  }

  lemma ParseTook(recs: seq<Record>, before: seq<byte>, s: Step, after: seq<byte>)
    requires Took(before, s, after)
    ensures Prefixed(recs, Parse(Decode, before)) ==
      match s
      case End => Parsed(recs, false)
      case Failed => Parsed(recs, true)
      case Got(rec) => Prefixed(recs + [rec], Parse(Decode, after))
    ensures s.Got? ==> |after| < |before|
  {
    assert recs + [] == recs;
    if s.Got? {
      DecodeEncode(s.rec, after);
      assert before[WireLen(s.rec)..] == after;
      PrefixedTwice(recs, [s.rec], Parse(Decode, after));
    }
  }

  ghost predicate AllValid(recs: seq<Record>) {
    forall r :: r in recs ==> Valid(r)
  }

  function Encodings(recs: seq<Record>): (fs: seq<seq<byte>>)
    requires AllValid(recs)
    ensures |fs| == |recs| && forall i :: 0 <= i < |fs| ==> fs[i] == Encode(recs[i])
  {
    if recs == [] then [] else [Encode(recs[0])] + Encodings(recs[1..])
  }

  lemma EncodingsAreFrames(recs: seq<Record>)
    requires AllValid(recs)
    ensures Frames(Decode, recs, Encodings(recs))
  {
    var fs := Encodings(recs);
    forall i, rest {:trigger fs[i] + rest} | 0 <= i < |recs|
      ensures Decode(fs[i] + rest) == Item(recs[i], |fs[i]|)
    {
      DecodeEncode(recs[i], rest);
    }
    forall i, c {:trigger fs[i][..c]} | 0 <= i < |recs| && 0 <= c < |fs[i]|
      ensures Decode(fs[i][..c]) == NeedMore
    {
      DecodePart(recs[i], c);
    }
  }

  /** A stream of valid records cut at any byte parses to exactly the records wholly before
      the cut, without error; uncut, to all of them. */
  lemma CutStream(recs: seq<Record>, c: nat)
    requires AllValid(recs) && c <= |Concat(Encodings(recs))|
    ensures var fs := Encodings(recs);
      var k := Whole(fs, c);
      && Parse(Decode, Concat(fs)[..c]) == Parsed(recs[..k], false)
      && |Concat(fs[..k])| <= c && (k < |fs| ==> c < |Concat(fs[..k])| + |fs[k]|)
    ensures Parse(Decode, Concat(Encodings(recs))) == Parsed(recs, false)
  {
    EncodingsAreFrames(recs);
    ParseCutStream(Decode, recs, Encodings(recs), c);
    ParseWholeStream(Decode, recs, Encodings(recs));
  }

  /** The writer reuses one buffer per record and counts the bytes it has passed on. */
  class FramedWriter {
    var out: seq<byte>
    var written: nat

    ghost predicate Counts()
      reads this
    {
      written == |out|
    }

    constructor ()
      ensures out == [] && Counts()
    {
      out, written := [], 0;
    }

    /** A record the codec rejects leaves the stream as it was. */
    method Write(rec: Record) returns (ok: bool)
      requires Counts()
      modifies this
      ensures Counts() && (ok <==> Valid(rec))
      ensures out == if ok then old(out) + Encode(rec) else old(out)
    {
      ok := Valid(rec);
      if ok {
        out := out + Encode(rec);
        written := written + WireLen(rec);
      }
    }
  }

  /** Writing valid records and reading them back, through any split of the bytes. */
  method WriteThenRead(recs: seq<Record>) returns (back: seq<Record>, ghost error: bool)
    requires AllValid(recs)
    ensures back <= recs && (!error ==> back == recs)
  {
    var w := new FramedWriter();
    WriteAll(w, recs);
    var source := new Source(w.out);
    var r := new FramedReader(source);
    var p;
    p, error := ReadAll(r);
    CutStream(recs, 0);
    back := p.items;
  }

  method WriteAll(w: FramedWriter, recs: seq<Record>)
    requires w.Counts() && AllValid(recs) && w.out == []
    modifies w
    ensures w.Counts() && w.out == Concat(Encodings(recs))
  {
    ghost var fs := Encodings(recs);
    for i := 0 to |recs|
      invariant w.Counts() && w.out == Concat(fs[..i])
    {
      assert Valid(recs[i]);
      assert fs[..i + 1] == fs[..i] + [fs[i]];
      ConcatSnoc(fs[..i], fs[i]);
      var ok := w.Write(recs[i]);
    }
    assert fs[..|recs|] == fs;
  }
}

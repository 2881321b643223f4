/** The bytes of a write-ahead log file, and what `recover_file` makes of them when a crash
    has cut the file short. */
module CoreWal {
  import opened Bytes
  import opened CoreRecord
  import opened CoreMemtable
  import opened Sequences

  /** The largest size that an allocation may ask for is one below this. */
  const ALLOC_LIMIT := 0x8000_0000_0000_0000

  /** The bytes of one record, as the log sees it. */
  type Blob = x: seq<byte> | |x| < ALLOC_LIMIT

  function Frame(x: Blob): (b: seq<byte>) {
    LE(|x|, 8) + x
  }

  function Framed(xs: seq<Blob>): (fs: seq<seq<byte>>)
    ensures |fs| == |xs| && forall i :: 0 <= i < |fs| ==> fs[i] == Frame(xs[i])
  {
    seq(|xs|, i requires 0 <= i < |xs| => Frame(xs[i]))
  }

  function FileOf(xs: seq<Blob>): (b: seq<byte>) {
    Concat(Framed(xs))
  }

  /** The file begins with the frame of its first record. */
  lemma FirstFrame(xs: seq<Blob>)
    requires xs != []
    ensures Framed(xs)[1..] == Framed(xs[1..]) && FileOf(xs) == Frame(xs[0]) + FileOf(xs[1..])
  {
  }

  function BlobOf(r: Record): (x: Blob)
    ensures ExtractAll(x) == Some(r)
  {
    Layout(r, []);
    ExtractEncode(r, []);
    assert Encode(r) + [] == Encode(r);
    Encode(r)
  }

  function Blobs(recs: seq<Record>): (xs: seq<Blob>)
    ensures |xs| == |recs| && forall i :: 0 <= i < |xs| ==> ExtractAll(xs[i]) == Some(recs[i])
  {
    seq(|recs|, i requires 0 <= i < |recs| => BlobOf(recs[i]))
  }

  /** `write_many` appends each record behind its length. */
  method WriteMany(file: seq<byte>, xs: seq<Blob>) returns (b: seq<byte>)
    ensures b == file + FileOf(xs)
  {
    b := file;
    for i := 0 to |xs|
      invariant b + FileOf(xs[i..]) == file + FileOf(xs)
    {
      FirstFrame(xs[i..]);
      assert xs[i..][1..] == xs[i + 1..];
      b := b + LE(|xs[i]|, 8) + xs[i];
    }
  }

  /** What `recover_file` makes of a file: its blobs, an error, or a panic. */
  datatype Recovery = Read(blobs: seq<seq<byte>>) | GivenUp | Panics

  /** The room for a blob is allocated before the blob is read. */
  function Recover(b: seq<byte>): Recovery
    decreases |b|
  {
    if |b| < 8 then Read([])
    else
      var n := FromLE(b[..8]);
      if n >= ALLOC_LIMIT then Panics
      else if |b| < 8 + n then GivenUp
      else Prepend([b[8..8 + n]], Recover(b[8 + n..]))
  }

  function Prepend(recs: seq<seq<byte>>, rest: Recovery): Recovery {
    if rest.Read? then Read(recs + rest.blobs) else rest
  }

  method RecoverFile(b: seq<byte>) returns (r: Recovery)
    ensures r == Recover(b)
  {
    var pos := 0;
    var recs := [];
    assert b[0..] == b;
    PrependNothing(Recover(b));
    while pos + 8 <= |b|
      invariant 0 <= pos <= |b|
      invariant Recover(b) == Prepend(recs, Recover(b[pos..]))
      decreases |b| - pos
    {
      RecoverAt(b, pos);
      var n := FromLE(b[pos..pos + 8]);
      if n >= ALLOC_LIMIT {
        return Panics;
      }
      if |b| < pos + 8 + n {
        return GivenUp;
      }
      var x := b[pos + 8..pos + 8 + n];
      PrependTwice(recs, [x], Recover(b[pos + 8 + n..]));
      recs := recs + [x];
      pos := pos + 8 + n;
    }
    assert recs + [] == recs;
    r := Read(recs);
  }

  lemma RecoverAt(b: seq<byte>, pos: nat)
    requires pos + 8 <= |b|
    ensures var n := FromLE(b[pos..pos + 8]);
      Recover(b[pos..]) == if n >= ALLOC_LIMIT then Panics
                           else if |b| < pos + 8 + n then GivenUp
                           else Prepend([b[pos + 8..pos + 8 + n]], Recover(b[pos + 8 + n..]))
  {
    var tail, n := b[pos..], FromLE(b[pos..pos + 8]);
    assert tail[..8] == b[pos..pos + 8];
    if pos + 8 + n <= |b| {
      assert tail[8..8 + n] == b[pos + 8..pos + 8 + n] && tail[8 + n..] == b[pos + 8 + n..];
    }
  }

  lemma PrependNothing(rest: Recovery)
    ensures Prepend([], rest) == rest
  {
    if rest.Read? {
      assert [] + rest.blobs == rest.blobs;
    }
  }

  lemma PrependTwice(a: seq<seq<byte>>, b: seq<seq<byte>>, rest: Recovery)
    ensures Prepend(a, Prepend(b, rest)) == Prepend(a + b, rest)
  {
    if rest.Read? {
      assert a + (b + rest.blobs) == a + b + rest.blobs;
    }
  }

  /** How many records lie wholly within the first c bytes of their file. */
  function WholeIn(xs: seq<Blob>, c: nat): (k: nat)
    ensures k <= |xs|
  {
    Whole(Framed(xs), c)
  }

  lemma PrefixReadsBack(x: Blob)
    ensures FromLE(LE(|x|, 8)) == |x|
  {
    Widths();
    LERoundTrip(|x|, 8);
  }

  lemma RecoverFrame(x: Blob, rest: seq<byte>)
    ensures Recover(Frame(x) + rest) == Prepend([x], Recover(rest))
  {
    PrefixReadsBack(x);
    var b := Frame(x) + rest;
    assert b[..8] == LE(|x|, 8) && b[8..8 + |x|] == x && b[8 + |x|..] == rest;
  }

  lemma RecoverPartOfFrame(x: Blob, c: nat)
    requires c < |Frame(x)|
    ensures Recover(Frame(x)[..c]) == if c < 8 then Read([]) else GivenUp
  {
    PrefixReadsBack(x);
    if c >= 8 {
      assert Frame(x)[..c][..8] == LE(|x|, 8);
    }
  }

  lemma TakeWhole(xs: seq<Blob>, k: nat)
    requires 0 < k <= |xs|
    ensures FileOf(xs[..k]) == Frame(xs[0]) + FileOf(xs[1..][..k - 1])
    ensures xs[..k] == [xs[0]] + xs[1..][..k - 1]
  {
    FirstFrame(xs[..k]);
    assert xs[..k][1..] == xs[1..][..k - 1];
  }

  /** Reading a log cut at byte c: the records before the cut come back, unless the cut falls
      after a complete length prefix, and then the whole file is given up. */
  lemma {:induction false} RecoverCutFile(xs: seq<Blob>, c: nat)
    requires c <= |FileOf(xs)|
    ensures var k := WholeIn(xs, c);
      && |FileOf(xs[..k])| <= c
      && (k < |xs| ==> c < |FileOf(xs[..k])| + |Frame(xs[k])|)
      && Recover(FileOf(xs)[..c]) == if c < |FileOf(xs[..k])| + 8 then Read(xs[..k]) else GivenUp
  {
    var k := WholeIn(xs, c);
    if xs != [] {
      FirstFrame(xs);
      var f := Frame(xs[0]);
      if c < |f| {
        assert FileOf(xs)[..c] == f[..c];
        RecoverPartOfFrame(xs[0], c);
      } else {
        RecoverCutFile(xs[1..], c - |f|);
        TakeWhole(xs, k);
        RecoverBehindFirst(xs, c);
      }
    }
  }

  lemma RecoverBehindFirst(xs: seq<Blob>, c: nat)
    requires xs != [] && |Frame(xs[0])| <= c <= |FileOf(xs)| && c <= |Frame(xs[0])| + |FileOf(xs[1..])|
    ensures Recover(FileOf(xs)[..c]) == Prepend([xs[0]], Recover(FileOf(xs[1..])[..c - |Frame(xs[0])|]))
  {
    FirstFrame(xs);
    var f := Frame(xs[0]);
    var rest := FileOf(xs[1..])[..c - |f|];
    assert FileOf(xs)[..c] == f + rest;
    RecoverFrame(xs[0], rest);
  }

  /** The records of a log, whatever follows them, are read before what follows. */
  lemma {:induction false} RecoverBehind(xs: seq<Blob>, rest: seq<byte>)
    ensures Recover(FileOf(xs) + rest) == Prepend(xs, Recover(rest))
  {
    if xs == [] {
      assert FileOf(xs) + rest == rest;
      PrependNothing(Recover(rest));
    } else {
      FirstFrame(xs);
      RecoverBehind(xs[1..], rest);
      assert FileOf(xs) + rest == Frame(xs[0]) + (FileOf(xs[1..]) + rest);
      RecoverFrame(xs[0], FileOf(xs[1..]) + rest);
      PrependTwice([xs[0]], xs[1..], Recover(rest));
      assert [xs[0]] + xs[1..] == xs;
    }
  }

  /** An uncut log gives back exactly the records written, in order. */
  lemma {:induction false} RecoverWholeFile(xs: seq<Blob>)
    ensures Recover(FileOf(xs)) == Read(xs)
  {
    RecoverBehind(xs, []);
    assert FileOf(xs) + [] == FileOf(xs) && xs + [] == xs;
  }

  // ---- A log that goes on behind the rest of a cut

  lemma {:induction false} FromLESplit(a: seq<byte>, b: seq<byte>)
    ensures FromLE(a + b) == FromLE(a) + Pow256(|a|) * FromLE(b)
  {
    if a == [] {
      assert a + b == b;
    } else {
      FromLESplit(a[1..], b);
      assert (a + b)[1..] == a[1..] + b;
      Shifted(a[0], FromLE(a[1..]), Pow256(|a| - 1), FromLE(b));
    }
  }

  lemma Shifted(d: nat, f: nat, p: nat, v: nat)
    ensures d + 256 * (f + p * v) == d + 256 * f + 256 * p * v
  {
    assert 256 * (p * v) == 256 * p * v;
  }

  lemma {:induction false} FromLEBound(s: seq<byte>)
    ensures FromLE(s) < Pow256(|s|)
  {
    if s != [] {
      FromLEBound(s[1..]);
    }
  }

  /** The first k bytes of a number are its remainder. */
  lemma {:induction false} LEPrefix(v: nat, n: nat, k: nat)
    requires k <= n
    ensures LE(v, n)[..k] == LE(v, k) && FromLE(LE(v, k)) == v % Pow256(k)
  {
    if k > 0 {
      LEPrefix(v / 256, n - 1, k - 1);
      DigitAndRest(v, Pow256(k - 1));
    }
  }

  lemma DigitAndRest(v: nat, p: nat)
    requires p > 0
    ensures v % 256 + 256 * (v / 256 % p) == v % (256 * p)
  {
    var q, d := v / 256, v % 256;
    var h, l := q / p, q % p;
    assert v == 256 * (p * h + l) + d;
    assert 256 * (p * h + l) + d == 256 * p * h + (256 * l + d);
    RemainderIs(v, 256 * p, h, 256 * l + d);
  }

  lemma RemainderIs(v: nat, p: nat, h: nat, l: nat)
    requires p > 0 && v == p * h + l && l < p
    ensures v % p == l
  {
    var e := v / p - h;
    assert p * e == l - v % p by {
      assert v == p * (v / p) + v % p;
      assert p * (v / p) == p * h + p * e;
    }
    Multiples(p, e);
  }

  lemma Multiples(p: int, e: int)
    requires p > 0
    ensures (e >= 1 ==> p * e >= p) && (e <= -1 ==> p * e <= -p)
  {
    assert p * e == p + p * (e - 1) == -p + p * (e + 1);
    assert (e >= 1 ==> p * (e - 1) >= 0) && (e <= -1 ==> p * (e + 1) <= 0);
  }

  /** The length that is read across a rest and the prefix of the next record. */
  function LengthAcross(rest: seq<byte>, x: Blob): nat
    requires |rest| < 8
  {
    FromLE((rest + LE(|x|, 8))[..8])
  }

  /** The same by parts: the rest, and the low bytes of the size above it. */
  lemma LengthParts(rest: seq<byte>, x: Blob)
    requires |rest| < 8
    ensures LengthAcross(rest, x) == FromLE(rest) + Pow256(|rest|) * (|x| % Pow256(8 - |rest|))
  {
    var k := 8 - |rest|;
    LEPrefix(|x|, 8, k);
    assert (rest + LE(|x|, 8))[..8] == rest + LE(|x|, k);
    FromLESplit(rest, LE(|x|, k));
  }

  lemma TopByte(s: seq<byte>)
    requires |s| == 8
    ensures FromLE(s) >= ALLOC_LIMIT <==> s[7] >= 128
  {
    assert s == s[..7] + [s[7]];
    FromLESplit(s[..7], [s[7]]);
    FromLEBound(s[..7]);
    Widths();
    assert Pow256(8) == 256 * Pow256(7);
    assert FromLE([s[7]]) == s[7] + 256 * FromLE([s[7]][1..]);
  }

  /** Unless the low bytes of the size are all 0, that length runs far past the record. */
  lemma RestMisleads(rest: seq<byte>, x: Blob)
    requires 0 < |rest| < 8 && |x| < 0x1_0000_0000 && |x| % Pow256(8 - |rest|) != 0
    ensures LengthAcross(rest, x) > |rest| + |x|
  {
    var j := |rest|;
    LengthParts(rest, x);
    Widths();
    if j <= 4 {
      PowGrows(4, 8 - j);
      RemainderIs(|x|, Pow256(8 - j), 0, |x|);
      TooLarge(FromLE(rest), Pow256(j - 1), |x|);
    } else {
      PowGrows(5, j);
      assert Pow256(5) == 256 * Pow256(4);
      AtLeastOnce(Pow256(j), |x| % Pow256(8 - j));
    }
  }

  lemma {:induction false} PowGrows(m: nat, n: nat)
    requires m <= n
    ensures Pow256(m) <= Pow256(n)
  {
    if m < n {
      PowGrows(m, n - 1);
    }
  }

  lemma AtLeastOnce(p: nat, w: nat)
    requires w > 0
    ensures p * w >= p
  {
    assert p * w == p + p * (w - 1);
  }

  lemma TooLarge(f: nat, p: nat, n: nat)
    requires p > 0 && n > 0
    ensures f + 256 * p * n > n + 7
  {
    assert 256 * p * n == 256 * n + 256 * (p - 1) * n;
  }

  /** A crash that leaves part of a length prefix behind the last record. The restart reads the
      log well but appends right behind that rest. What the next restart then makes of the file
      is decided by the length that it reads across the rest: a panic if and only if the byte
      that becomes its top one is 128 or more, the whole file given up when it runs past the
      end, and wrong blobs otherwise. The last needs a size whose low bytes are all 0. */
  lemma RestSpoilsLog(xs: seq<Blob>, rest: seq<byte>, x: Blob)
    requires 0 < |rest| < 8
    ensures Recover(FileOf(xs) + rest) == Read(xs)
    ensures var n, b := LengthAcross(rest, x), rest + Frame(x);
      Recover(FileOf(xs) + b) ==
        if n >= ALLOC_LIMIT then Panics
        else if n > |rest| + |x| then GivenUp
        else Prepend(xs, Prepend([b[8..8 + n]], Recover(b[8 + n..])))
    ensures LengthAcross(rest, x) >= ALLOC_LIMIT <==> LE(|x|, 8)[7 - |rest|] >= 128
    ensures |x| < 0x1_0000_0000 && |x| % Pow256(8 - |rest|) != 0 ==> LengthAcross(rest, x) > |rest| + |x|
  {
    RecoverBehind(xs, rest);
    PrependNone(xs);
    RecoverBehind(xs, rest + Frame(x));
    RecoverAcross(rest, x);
    TopByte((rest + LE(|x|, 8))[..8]);
    if |x| < 0x1_0000_0000 && |x| % Pow256(8 - |rest|) != 0 {
      RestMisleads(rest, x);
    }
  }

  lemma PrependNone(xs: seq<seq<byte>>)
    ensures Prepend(xs, Read([])) == Read(xs)
  {
    assert xs + [] == xs;
  }

  lemma RecoverAcross(rest: seq<byte>, x: Blob)
    requires 0 < |rest| < 8
    ensures var n, b := LengthAcross(rest, x), rest + Frame(x);
      Recover(b) == if n >= ALLOC_LIMIT then Panics
                    else if n > |rest| + |x| then GivenUp
                    else Prepend([b[8..8 + n]], Recover(b[8 + n..]))
  {
    assert (rest + Frame(x))[..8] == (rest + LE(|x|, 8))[..8];
  }

  /** Seven bytes of a prefix are left, and a record of 200 bytes follows: every later restart
      panics, for every log. */
  lemma {:induction false} RestPanicsRestart(xs: seq<Blob>, rest: seq<byte>, x: Blob)
    requires |rest| == 7 && |x| == 200
    ensures Recover(FileOf(xs) + rest) == Read(xs) && Recover(FileOf(xs) + (rest + Frame(x))) == Panics
  {
    RestSpoilsLog(xs, rest, x);
    FirstByte(|x|, 8);
  }

  lemma FirstByte(v: nat, n: nat)
    requires n > 0
    ensures LE(v, n)[0] == v % 256
  {
  }

  // ---- What a restart takes from a log

  /** The records of a list of blobs, unless one of them is not a record. */
  function Extracted(xs: seq<seq<byte>>): (r: Option<seq<Record>>)
    ensures r.Some? ==> |r.value| == |xs| && forall i :: 0 <= i < |xs| ==> ExtractAll(xs[i]) == Some(r.value[i])
  {
    if xs == [] then Some([])
    else
      var front, last := Extracted(xs[..|xs| - 1]), ExtractAll(xs[|xs| - 1]);
      if front.None? || last.None? then None else Some(front.value + [last.value])
  }

  lemma {:induction false} ExtractedBlobs(recs: seq<Record>)
    ensures Extracted(Blobs(recs)) == Some(recs)
  {
    if recs != [] {
      var n := |recs| - 1;
      ExtractedBlobs(recs[..n]);
      assert Blobs(recs)[..n] == Blobs(recs[..n]);
      assert recs == recs[..n] + [recs[n]];
    }
  }

  /** Nothing when the file is given up, and no result after a panic or when a blob is no record. */
  function Taken(found: Recovery): Option<seq<Record>> {
    match found
    case Read(xs) => Extracted(xs)
    case GivenUp => Some([])
    case Panics => None
  }

  function RecordsIn(b: seq<byte>): Option<seq<Record>> {
    Taken(Recover(b))
  }

  // ---- A crash in the middle of writing

  lemma {:induction false} WholePast(xs: seq<Blob>, n: nat, c: nat)
    requires n <= |xs| && |FileOf(xs[..n])| <= c
    ensures n <= WholeIn(xs, c)
    decreases n
  {
    if n > 0 {
      FirstFrame(xs);
      TakeWhole(xs, n);
      WholePast(xs[1..], n - 1, c - |Frame(xs[0])|);
    }
  }

  /** No more than part of a length prefix lies behind the last whole record. */
  ghost predicate GoodCut(xs: seq<Blob>, c: nat) {
    c < |FileOf(xs[..WholeIn(xs, c)])| + 8
  }

  lemma CutBehind(xs: seq<Blob>, n: nat, c: nat)
    requires n <= |xs| && |FileOf(xs[..n])| <= c <= |FileOf(xs)|
    ensures n <= WholeIn(xs, c) <= |xs|
    ensures Recover(FileOf(xs)[..c]) == if GoodCut(xs, c) then Read(xs[..WholeIn(xs, c)]) else GivenUp
  {
    WholePast(xs, n, c);
    RecoverCutFile(xs, c);
  }

  lemma TakenPrefix(recs: seq<Record>, k: nat, good: bool, found: Recovery)
    requires k <= |recs| && found == if good then Read(Blobs(recs)[..k]) else GivenUp
    ensures Taken(found) == Some(if good then recs[..k] else [])
  {
    assert Blobs(recs)[..k] == Blobs(recs[..k]);
    ExtractedBlobs(recs[..k]);
  }

  /** The first n of these records are written, the others buffered, and a crash lets the writer
      get to byte c, behind the written ones. After a good cut a restart takes the whole records,
      the written ones and a first part of the others. Otherwise it takes nothing. */
  lemma CutLog(recs: seq<Record>, n: nat, c: nat)
    requires n <= |recs| && |FileOf(Blobs(recs)[..n])| <= c <= |FileOf(Blobs(recs))|
    ensures var xs := Blobs(recs);
      && n <= WholeIn(xs, c) <= |recs|
      && RecordsIn(FileOf(xs)[..c]) == Some(if GoodCut(xs, c) then recs[..WholeIn(xs, c)] else [])
  {
    var xs := Blobs(recs);
    CutBehind(xs, n, c);
    TakenPrefix(recs, WholeIn(xs, c), GoodCut(xs, c), Recover(FileOf(xs)[..c]));
  }

  ghost predicate AllTaken(taken: Option<seq<Record>>, recs: seq<Record>) {
    taken.Some? && forall r :: r in recs ==> r in taken.value
  }

  lemma TakenIff(recs: seq<Record>, n: nat, k: nat, good: bool)
    requires n <= k <= |recs|
    ensures AllTaken(Some(if good then recs[..k] else []), recs[..n]) <==> n == 0 || good
  {
    if good {
      assert forall i :: 0 <= i < n ==> recs[..n][i] == recs[..k][i];
    } else if n > 0 {
      assert recs[..n][0] in recs[..n];
    }
  }

  /** The written records survive the crash if and only if there are none, or the cut is good. */
  lemma WrittenSurviveIff(recs: seq<Record>, n: nat, c: nat)
    requires n <= |recs| && |FileOf(Blobs(recs)[..n])| <= c <= |FileOf(Blobs(recs))|
    ensures var xs := Blobs(recs);
      AllTaken(RecordsIn(FileOf(xs)[..c]), recs[..n]) <==> n == 0 || GoodCut(xs, c)
  {
    var xs := Blobs(recs);
    CutLog(recs, n, c);
    TakenIff(recs, n, WholeIn(xs, c), GoodCut(xs, c));
  }

  // ---- Recovery of all logs

  /** Long enough for the order of records. Comparing anything shorter panics. */
  predicate Keyed(b: seq<byte>) {
    ExtractKey(b).Some?
  }

  ghost predicate AllKeyed(xs: seq<seq<byte>>) {
    forall i :: 0 <= i < |xs| ==> Keyed(xs[i])
  }

  /** Insertion into the ordered set: a blob of a rank already there is dropped. */
  function InsertBlob(s: seq<seq<byte>>, x: seq<byte>): seq<seq<byte>>
    requires Keyed(x) && AllKeyed(s)
  {
    if s == [] then [x]
    else
      assert Keyed(s[0]);
      match CompareBytes(x, s[0])
      case Less => [x] + s
      case Equal => s
      case Greater => [s[0]] + InsertBlob(s[1..], x)
  }

  ghost predicate Rising(s: seq<seq<byte>>) {
    AllKeyed(s) && forall i, j :: 0 <= i < j < |s| ==> Below(BytesRank(s[i]), BytesRank(s[j]))
  }

  ghost predicate SameRank(x: seq<byte>, y: seq<byte>) {
    Keyed(x) && Keyed(y) && BytesRank(x) == BytesRank(y)
  }

  lemma {:induction false} InsertBlobKeepsOrder(s: seq<seq<byte>>, x: seq<byte>)
    requires Rising(s) && Keyed(x)
    ensures Rising(InsertBlob(s, x))
    ensures forall y :: y in InsertBlob(s, x) ==> y in s || y == x
    ensures forall y :: y in s ==> y in InsertBlob(s, x)
    ensures exists y :: y in InsertBlob(s, x) && SameRank(x, y)
  {
    var t := InsertBlob(s, x);
    if s == [] {
      assert x in t && SameRank(x, x);
    } else {
      CompareIsRankOrder(x, s[0]);
      match CompareBytes(x, s[0])
      case Less => LeastFirst(s, x);
      case Equal => assert s[0] in t && SameRank(x, s[0]);
      case Greater =>
        InsertBlobKeepsOrder(s[1..], x);
        HeadKeepsOrder(s, InsertBlob(s[1..], x), x);
    }
  }

  lemma LeastFirst(s: seq<seq<byte>>, x: seq<byte>)
    requires Rising(s) && s != [] && Keyed(x) && Below(BytesRank(x), BytesRank(s[0]))
    ensures Rising([x] + s) && x in [x] + s && SameRank(x, x)
  {
    forall j | 0 < j < |s|
      ensures Below(BytesRank(x), BytesRank(s[j]))
    {
      BelowTransitive(BytesRank(x), BytesRank(s[0]), BytesRank(s[j]));
    }
  }

  lemma HeadKeepsOrder(s: seq<seq<byte>>, rest: seq<seq<byte>>, x: seq<byte>)
    requires Rising(s) && s != [] && Keyed(x) && Below(BytesRank(s[0]), BytesRank(x))
    requires Rising(rest) && (forall y :: y in rest ==> y in s[1..] || y == x) && (forall y :: y in s[1..] ==> y in rest)
    requires exists y :: y in rest && SameRank(x, y)
    ensures var t := [s[0]] + rest;
      && Rising(t) && (forall y :: y in t ==> y in s || y == x) && (forall y :: y in s ==> y in t)
      && exists y :: y in t && SameRank(x, y)
  {
    var t := [s[0]] + rest;
    forall j | 0 <= j < |rest|
      ensures Below(BytesRank(s[0]), BytesRank(rest[j]))
    {
      assert rest[j] in rest;
      if rest[j] != x {
        var i :| 0 <= i < |s[1..]| && s[1..][i] == rest[j];
        assert s[i + 1] == rest[j];
      }
    }
    var y :| y in rest && SameRank(x, y);
    assert y in t;
    assert s == [s[0]] + s[1..];
  }

  /** An ordered set of blobs: those of a list, one of each rank. A single blob is never compared. */
  ghost predicate SetOf(s: seq<seq<byte>>, all: seq<seq<byte>>) {
    && (|all| <= 1 ==> s == all)
    && (|all| >= 2 ==> Rising(s))
    && (forall x :: x in s ==> x in all)
    && (forall x :: x in all ==> exists y :: y in s && (y == x || SameRank(x, y)))
  }

  lemma SecondBlob(s: seq<seq<byte>>, all: seq<seq<byte>>, x: seq<byte>)
    requires SetOf(s, all) && all != [] && AllKeyed(all) && Keyed(x)
    ensures Rising(s) && SetOf(InsertBlob(s, x), all + [x])
  {
    assert |all| <= 1 ==> Rising(s);
    var t := InsertBlob(s, x);
    InsertBlobKeepsOrder(s, x);
    forall z | z in all + [x]
      ensures exists y :: y in t && (y == z || SameRank(z, y))
    {
      if z in all {
        var y :| y in s && (y == z || SameRank(z, y));
        assert y in t;
      }
    }
  }

  /** Inserts more blobs; None is the panic of the first comparison that cannot be made. */
  method Extend(s: seq<seq<byte>>, more: seq<seq<byte>>, ghost all: seq<seq<byte>>) returns (r: Option<seq<seq<byte>>>)
    requires SetOf(s, all) && (|all| >= 2 ==> AllKeyed(all))
    ensures r.None? <==> |all + more| >= 2 && !AllKeyed(all + more)
    ensures r.Some? ==> SetOf(r.value, all + more)
  {
    var t := s;
    assert all + more[..0] == all;
    for i := 0 to |more|
      invariant SetOf(t, all + more[..i]) && (|all + more[..i]| >= 2 ==> AllKeyed(all + more[..i]))
    {
      ghost var now := all + more[..i];
      assert all + more[..i + 1] == now + [more[i]];
      if now != [] {
        SetOfSome(t, now);
      }
      if t == [] {
        t := [more[i]];
      } else if !Keyed(t[0]) || !Keyed(more[i]) {
        CannotCompare(t, now, more[i]);
        PartNotKeyed(now + [more[i]], all + more);
        return None;
      } else {
        AllComparable(t, now);
        SecondBlob(t, now, more[i]);
        t := InsertBlob(t, more[i]);
      }
    }
    assert more[..|more|] == more;
    r := Some(t);
  }

  lemma SetOfSome(t: seq<seq<byte>>, all: seq<seq<byte>>)
    requires SetOf(t, all) && all != []
    ensures t != []
  {
    assert all[0] in all;
    var y :| y in t && (y == all[0] || SameRank(all[0], y));
  }

  lemma CannotCompare(t: seq<seq<byte>>, all: seq<seq<byte>>, x: seq<byte>)
    requires SetOf(t, all) && t != [] && (!Keyed(t[0]) || !Keyed(x))
    ensures |all + [x]| >= 2 && !AllKeyed(all + [x])
  {
    assert t[0] in t;
    var i :| 0 <= i < |all| && all[i] == t[0];
    assert (all + [x])[i] == t[0] && (all + [x])[|all|] == x;
  }

  lemma PartNotKeyed(part: seq<seq<byte>>, all: seq<seq<byte>>)
    requires part <= all && !AllKeyed(part)
    ensures !AllKeyed(all)
  {
    var i :| 0 <= i < |part| && !Keyed(part[i]);
    assert all[i] == part[i];
  }

  lemma AllComparable(t: seq<seq<byte>>, all: seq<seq<byte>>)
    requires SetOf(t, all) && t != [] && Keyed(t[0]) && (|all| >= 2 ==> AllKeyed(all))
    ensures all != [] && AllKeyed(all)
  {
    assert t[0] in all;
  }

  ghost function Recoveries(files: seq<seq<byte>>): seq<Recovery> {
    seq(|files|, i requires 0 <= i < |files| => Recover(files[i]))
  }

  /** The blobs of the files that can be read. */
  ghost function Found(rs: seq<Recovery>): (found: seq<seq<seq<byte>>>)
    ensures |found| == |rs| && forall i :: 0 <= i < |rs| ==> found[i] == BlobsIn(rs[i])
  {
    seq(|rs|, i requires 0 <= i < |rs| => BlobsIn(rs[i]))
  }

  function BlobsIn(r: Recovery): seq<seq<byte>> {
    if r.Read? then r.blobs else []
  }

  ghost predicate CannotOrder(all: seq<seq<byte>>) {
    |all| >= 2 && !AllKeyed(all)
  }

  /** One file of `recover_all`. */
  method AddFile(s: seq<seq<byte>>, b: seq<byte>, ghost all: seq<seq<byte>>) returns (r: Option<seq<seq<byte>>>)
    requires SetOf(s, all) && !CannotOrder(all)
    ensures r.None? <==> Recover(b).Panics? || CannotOrder(all + BlobsIn(Recover(b)))
    ensures r.Some? ==> SetOf(r.value, all + BlobsIn(Recover(b)))
  {
    var xs := RecoverFile(b);
    if xs.Panics? {
      return None;
    }
    r := Extend(s, BlobsIn(xs), all);
  }

  /** `recover_all`: the blobs of every log that can be read, as one ordered set. It panics if
      and only if a file holds a length that cannot be allocated where a length is read, or
      there are two blobs or more and one of them is too short to be compared. */
  method RecoverAll(files: seq<seq<byte>>) returns (r: Option<seq<seq<byte>>>)
    ensures var rs := Recoveries(files); r.None? <==> Panics in rs || CannotOrder(Concat(Found(rs)))
    ensures r.Some? ==> SetOf(r.value, Concat(Found(Recoveries(files))))
  {
    ghost var rs := Recoveries(files);
    ghost var found := Found(rs);
    r := Some([]);
    for i := 0 to |files|
      invariant r.Some? && SetOf(r.value, Concat(found[..i])) && !CannotOrder(Concat(found[..i])) && Panics !in rs[..i]
    {
      PartAt(found, i);
      r := AddFile(r.value, files[i], Concat(found[..i]));
      assert Recover(files[i]) == rs[i];
      if r.None? {
        if CannotOrder(Concat(found[..i + 1])) {
          PartNotKeyed(Concat(found[..i + 1]), Concat(found));
        }
        return;
      }
    }
    assert found[..|files|] == found && rs[..|files|] == rs;
  }

  /** When all blobs are records, and ranks identify them, none of them is lost. */
  lemma RecoveredRecords(s: seq<seq<byte>>, all: seq<seq<byte>>, recs: seq<Record>, r: Record)
    requires SetOf(s, all) && Extracted(all) == Some(recs) && Consistent(Elems(recs))
    ensures r in recs <==> exists x :: x in s && ExtractAll(x) == Some(r)
  {
    if r in recs {
      var i :| 0 <= i < |recs| && recs[i] == r;
      assert all[i] in all;
      var y :| y in s && (y == all[i] || SameRank(all[i], y));
      var j :| 0 <= j < |all| && all[j] == y;
      RankOfBlob(all[i], r);
      RankOfBlob(y, recs[j]);
      assert recs[j] in Elems(recs) && r in Elems(recs);
    }
    if x :| x in s && ExtractAll(x) == Some(r) {
      var j :| 0 <= j < |all| && all[j] == x;
      assert recs[j] == r;
    }
  }

  lemma RankOfBlob(x: seq<byte>, r: Record)
    requires ExtractAll(x) == Some(r)
    ensures Keyed(x) && BytesRank(x) == RankOf(r)
  {
    SignedUnsigned(Read8(x[0..8]));
    SignedUnsigned(Read8(x[8..16]));
  }
}

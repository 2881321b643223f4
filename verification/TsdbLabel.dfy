/** Label maps of logregator-tsdb and their codec. */
module TsdbLabel {
  import opened Bytes

  const MIN_STR := 1
  const MAX_STR := 255
  const MAX_LABELS := 255

  datatype Label = Label(key: seq<byte>, value: seq<byte>)

  /** A `BTreeMap` of strings, as its entries in iteration order. */
  type Labels = seq<Label>

  /** Whether bytes are the bytes of a string. */
  type Utf8 = seq<byte> -> bool

  ghost predicate Ordered(m: Labels) {
    forall i, j :: 0 <= i < j < |m| ==> Compare(m[i].key, m[j].key) == Less
  }

  ghost predicate Texts(m: Labels, utf8: Utf8) {
    forall l :: l in m ==> utf8(l.key) && utf8(l.value)
  }

  // ---- Insertion into the ordered map

  function Insert(m: Labels, l: Label): Labels {
    if m == [] then [l]
    else match Compare(l.key, m[0].key)
      case Less => [l] + m
      case Equal => [l] + m[1..]
      case Greater => [m[0]] + Insert(m[1..], l)
  }

  ghost function Dict(m: Labels): map<seq<byte>, seq<byte>> {
    if m == [] then map[] else Dict(m[1..])[m[0].key := m[0].value]
  }

  lemma {:induction false} InsertMembers(m: Labels, l: Label, x: Label)
    requires x in Insert(m, l)
    ensures x == l || x in m
  {
    if m != [] && Compare(l.key, m[0].key) == Greater {
      if x != m[0] {
        InsertMembers(m[1..], l, x);
      }
    }
  }

  lemma AllAbove(m: Labels, l: Label)
    requires Ordered(m) && m != [] && Compare(m[0].key, l.key) == Less
    ensures var r := Insert(m[1..], l);
      r != [] ==> Compare(m[0].key, r[0].key) == Less
  {
    var r := Insert(m[1..], l);
    if r != [] {
      InsertMembers(m[1..], l, r[0]);
    }
  }

  lemma {:induction false} InsertOrdered(m: Labels, l: Label)
    requires Ordered(m)
    ensures Ordered(Insert(m, l))
  {
    if m == [] {
    } else {
      CompareFlip(m[0].key, l.key);
      match Compare(l.key, m[0].key)
      case Less => OrderedCons(l, m);
      case Equal =>
        CompareEqual(l.key, m[0].key);
        OrderedCons(l, m[1..]);
      case Greater =>
        InsertOrdered(m[1..], l);
        AllAbove(m, l);
        OrderedCons(m[0], Insert(m[1..], l));
    }
  }

  /** The map behaves as a dictionary: the last value of a key wins. */
  lemma {:induction false} InsertIsUpdate(m: Labels, l: Label)
    ensures Dict(Insert(m, l)) == Dict(m)[l.key := l.value]
  {
    if m != [] {
      CompareEqual(l.key, m[0].key);
      var t := m[1..];
      match Compare(l.key, m[0].key)
      case Less => assert ([l] + m)[1..] == m;
      case Equal => assert ([l] + t)[1..] == t;
      case Greater =>
        InsertIsUpdate(t, l);
        assert ([m[0]] + Insert(t, l))[1..] == Insert(t, l);
    }
  }

  lemma OrderedCons(l: Label, m: Labels)
    requires Ordered(m) && (m != [] ==> Compare(l.key, m[0].key) == Less)
    ensures Ordered([l] + m)
  {
    forall j | 0 <= j < |m|
      ensures Compare(l.key, m[j].key) == Less
    {
      if j > 0 {
        CompareTransitive(l.key, m[0].key, m[j].key);
      }
    }
  }

  lemma {:induction false} InsertLast(m: Labels, l: Label)
    requires Ordered(m + [l])
    ensures Insert(m, l) == m + [l]
  {
    if m != [] {
      assert (m + [l])[0] == m[0] && (m + [l])[|m|] == l;
      CompareFlip(m[0].key, l.key);
      assert (m + [l])[1..] == m[1..] + [l];
      InsertLast(m[1..], l);
    }
  }

  /** The map that entering pairs one by one builds. */
  function MapOf(ls: seq<Label>): Labels {
    if ls == [] then [] else Insert(MapOf(ls[..|ls| - 1]), ls[|ls| - 1])
  }

  lemma MapOfSnoc(ls: seq<Label>, l: Label)
    ensures MapOf(ls + [l]) == Insert(MapOf(ls), l)
  {
    assert (ls + [l])[..|ls|] == ls;
  }

  lemma {:induction false} MapOfIsMap(ls: seq<Label>)
    ensures Ordered(MapOf(ls)) && forall l :: l in MapOf(ls) ==> l in ls
  {
    if ls != [] {
      var front, last := ls[..|ls| - 1], ls[|ls| - 1];
      MapOfIsMap(front);
      InsertOrdered(MapOf(front), last);
      forall l | l in MapOf(ls)
        ensures l in ls
      {
        InsertMembers(MapOf(front), last, l);
      }
    }
  }

  /** Entries that are already in order are kept as they are. */
  lemma {:induction false} MapOfOrdered(ls: seq<Label>)
    requires Ordered(ls)
    ensures MapOf(ls) == ls
  {
    if ls != [] {
      var n := |ls| - 1;
      MapOfOrdered(ls[..n]);
      assert ls == ls[..n] + [ls[n]];
      InsertLast(ls[..n], ls[n]);
    }
  }

  // ---- Codec

  predicate GoodText(s: seq<byte>) {
    MIN_STR <= |s| < MAX_STR
  }

  predicate GoodTexts(m: Labels) {
    forall l :: l in m ==> GoodText(l.key) && GoodText(l.value)
  }

  predicate Encodable(m: Labels) {
    |m| <= MAX_LABELS && GoodTexts(m)
  }

  /** A string behind its length, cast to one byte. */
  function Prefixed(s: seq<byte>): seq<byte> {
    [|s| % 256] + s
  }

  function PairBytes(l: Label): (b: seq<byte>)
    ensures |b| == 2 + |l.key| + |l.value|
  {
    Prefixed(l.key) + Prefixed(l.value)
  }

  type Encoder = Label -> seq<byte>

  function AllBytes(enc: Encoder, m: Labels): seq<byte> {
    if m == [] then [] else enc(m[0]) + AllBytes(enc, m[1..])
  }

  function Encode(m: Labels): (b: seq<byte>)
    requires |m| <= MAX_LABELS
  {
    [|m|] + AllBytes(PairBytes, m)
  }

  /** The length-prefixed string at a position, and the position behind it. */
  function TakeText(src: seq<byte>, at: nat, utf8: Utf8): (r: Option<(seq<byte>, nat)>)
    ensures r.Some? ==> at < r.value.1 <= |src|
  {
    if at >= |src| then None
    else
      var end: nat := at + 1 + src[at];
      if |src| < end || !utf8(src[at + 1..end]) then None else Some((src[at + 1..end], end))
  }

  function TakePair(src: seq<byte>, at: nat, utf8: Utf8): (r: Option<(Label, nat)>)
    ensures r.Some? ==> at < r.value.1 <= |src|
  {
    var k := TakeText(src, at, utf8);
    if k.None? then None
    else
      var v := TakeText(src, k.value.1, utf8);
      if v.None? then None else Some((Label(k.value.0, v.value.0), v.value.1))
  }

  /** Reads the pair at a position, and gives the position behind it. */
  type Reader = nat -> Option<(Label, nat)>

  function Pairs(src: seq<byte>, utf8: Utf8): Reader {
    at => TakePair(src, at, utf8)
  }

  /** The given pairs and n more, in wire order, and the position behind them. */
  function Parse(read: Reader, at: nat, n: nat, ls: seq<Label>): (r: Option<(seq<Label>, nat)>)
    decreases n
  {
    if n == 0 then Some((ls, at))
    else
      var p := read(at);
      if p.None? then None else Parse(read, p.value.1, n - 1, ls + [p.value.0])
  }

  function Decode(src: seq<byte>, utf8: Utf8): (r: Option<(Labels, nat)>) {
    if src == [] then None
    else
      var p := Parse(Pairs(src, utf8), 1, src[0], []);
      if p.None? then None else Some((MapOf(p.value.0), p.value.1))
  }

  // ---- Parsing what was written, for any reader that reads what an encoder wrote

  ghost predicate ReadsWhole(read: Reader, src: seq<byte>, enc: Encoder, l: Label) {
    forall p: nat :: p <= |src| && enc(l) <= src[p..] ==> read(p) == Some((l, p + |enc(l)|))
  }

  ghost predicate FailsCut(read: Reader, src: seq<byte>, enc: Encoder, l: Label) {
    forall p: nat :: p <= |src| && src[p..] < enc(l) ==> read(p) == None
  }

  ghost predicate Readable(read: Reader, src: seq<byte>, enc: Encoder, m: Labels) {
    forall l :: l in m ==> ReadsWhole(read, src, enc, l) && FailsCut(read, src, enc, l)
  }

  lemma Behind(src: seq<byte>, at: nat, p: seq<byte>, r: seq<byte>)
    requires at <= |src| && src[at..] == p + r
    ensures p <= src[at..] && at + |p| <= |src| && src[at + |p|..] == r
  {
    assert src[at + |p|..] == src[at..][|p|..];
  }

  /** The labels follow one another from a position on. */
  ghost predicate Chain(read: Reader, enc: Encoder, at: nat, m: Labels)
    decreases |m|
  {
    m != [] ==> read(at) == Some((m[0], at + |enc(m[0])|)) && Chain(read, enc, at + |enc(m[0])|, m[1..])
  }

  lemma {:induction false} ChainWritten(read: Reader, src: seq<byte>, enc: Encoder, at: nat, m: Labels, rest: seq<byte>)
    requires Readable(read, src, enc, m)
    requires at <= |src| && src[at..] == AllBytes(enc, m) + rest
    ensures Chain(read, enc, at, m)
    decreases |m|
  {
    if m != [] {
      var l, t := m[0], m[1..];
      Regroup(enc(l), AllBytes(enc, t), rest);
      Behind(src, at, enc(l), AllBytes(enc, t) + rest);
      assert read(at) == Some((l, at + |enc(l)|)) by {
        assert ReadsWhole(read, src, enc, l);
      }
      ChainWritten(read, src, enc, at + |enc(l)|, t, rest);
    }
  }

  lemma {:induction false} ParseChain(read: Reader, enc: Encoder, at: nat, m: Labels, ls: seq<Label>)
    requires Chain(read, enc, at, m)
    ensures Parse(read, at, |m|, ls) == Some((ls + m, at + |AllBytes(enc, m)|))
    decreases |m|
  {
    if m == [] {
      assert ls + m == ls;
    } else {
      var l, t := m[0], m[1..];
      ParseStep(read, at, |t|, ls, l, at + |enc(l)|);
      ParseChain(read, enc, at + |enc(l)|, t, ls + [l]);
      assert ls + [l] + t == ls + m;
    }
  }

  lemma ParseStep(read: Reader, at: nat, n: nat, ls: seq<Label>, l: Label, end: nat)
    requires read(at) == Some((l, end))
    ensures Parse(read, at, n + 1, ls) == Parse(read, end, n, ls + [l])
  {
  }

  lemma ParseFromStart(read: Reader, src: seq<byte>, enc: Encoder, m: Labels, rest: seq<byte>)
    requires Readable(read, src, enc, m) && |src| >= 1 && src[1..] == AllBytes(enc, m) + rest
    ensures Parse(read, 1, |m|, []) == Some((m, 1 + |AllBytes(enc, m)|))
  {
    ChainWritten(read, src, enc, 1, m, rest);
    ParseChain(read, enc, 1, m, []);
    assert [] + m == m;
  }

  lemma {:induction false} ParseCut(read: Reader, src: seq<byte>, enc: Encoder,
                                    at: nat, m: Labels, ls: seq<Label>, c: nat)
    requires Readable(read, src, enc, m)
    requires at <= |src| && c < |AllBytes(enc, m)| && src[at..] == AllBytes(enc, m)[..c]
    ensures Parse(read, at, |m|, ls) == None
    decreases |m|
  {
    var l, t := m[0], m[1..];
    assert ReadsWhole(read, src, enc, l) && FailsCut(read, src, enc, l);
    if c < |enc(l)| {
      assert src[at..] == enc(l)[..c];
    } else {
      var r := AllBytes(enc, t)[..c - |enc(l)|];
      assert src[at..] == enc(l) + r;
      Behind(src, at, enc(l), r);
      ParseCut(read, src, enc, at + |enc(l)|, t, ls + [l], c - |enc(l)|);
    }
  }

  // ---- The label codec

  lemma TakeWritten(src: seq<byte>, at: nat, s: seq<byte>, utf8: Utf8)
    requires GoodText(s) && utf8(s) && at <= |src| && Prefixed(s) <= src[at..]
    ensures TakeText(src, at, utf8) == Some((s, at + 1 + |s|))
  {
    var n := 1 + |s|;
    assert src[at..][..n] == Prefixed(s) && src[at] == |s|;
    assert src[at + 1..at + n] == src[at..][..n][1..];
  }

  lemma TakeCut(src: seq<byte>, at: nat, s: seq<byte>, utf8: Utf8)
    requires GoodText(s) && at <= |src| && src[at..] < Prefixed(s)
    ensures TakeText(src, at, utf8) == None
  {
    if at < |src| {
      assert src[at] == src[at..][0] == Prefixed(s)[0];
    }
  }

  lemma PairWritten(src: seq<byte>, at: nat, l: Label, utf8: Utf8)
    requires GoodText(l.key) && GoodText(l.value) && utf8(l.key) && utf8(l.value)
    requires at <= |src| && PairBytes(l) <= src[at..]
    ensures TakePair(src, at, utf8) == Some((l, at + |PairBytes(l)|))
  {
    var k := 1 + |l.key|;
    assert PairBytes(l)[..k] == Prefixed(l.key) && PairBytes(l)[k..] == Prefixed(l.value);
    TakeWritten(src, at, l.key, utf8);
    assert src[at + k..] == src[at..][k..];
    TakeWritten(src, at + k, l.value, utf8);
  }

  lemma PairCut(src: seq<byte>, at: nat, l: Label, utf8: Utf8)
    requires GoodText(l.key) && GoodText(l.value) && utf8(l.key)
    requires at <= |src| && src[at..] < PairBytes(l)
    ensures TakePair(src, at, utf8) == None
  {
    var k := 1 + |l.key|;
    assert PairBytes(l)[..k] == Prefixed(l.key) && PairBytes(l)[k..] == Prefixed(l.value);
    if |src| - at < k {
      TakeCut(src, at, l.key, utf8);
    } else {
      TakeWritten(src, at, l.key, utf8);
      assert src[at + k..] == src[at..][k..];
      TakeCut(src, at + k, l.value, utf8);
    }
  }

  lemma PairReadsWhole(src: seq<byte>, l: Label, utf8: Utf8)
    requires GoodText(l.key) && GoodText(l.value) && utf8(l.key) && utf8(l.value)
    ensures ReadsWhole(Pairs(src, utf8), src, PairBytes, l)
  {
    forall p: nat | p <= |src| && PairBytes(l) <= src[p..]
      ensures Pairs(src, utf8)(p) == Some((l, p + |PairBytes(l)|))
    {
      PairWritten(src, p, l, utf8);
    }
  }

  lemma PairFailsCut(src: seq<byte>, l: Label, utf8: Utf8)
    requires GoodText(l.key) && GoodText(l.value) && utf8(l.key)
    ensures FailsCut(Pairs(src, utf8), src, PairBytes, l)
  {
    forall p: nat | p <= |src| && src[p..] < PairBytes(l)
      ensures Pairs(src, utf8)(p) == None
    {
      PairCut(src, p, l, utf8);
    }
  }

  lemma AllRead(src: seq<byte>, m: Labels, utf8: Utf8)
    requires GoodTexts(m) && Texts(m, utf8)
    ensures Readable(Pairs(src, utf8), src, PairBytes, m)
  {
    forall l | l in m
      ensures ReadsWhole(Pairs(src, utf8), src, PairBytes, l) && FailsCut(Pairs(src, utf8), src, PairBytes, l)
    {
      PairReadsWhole(src, l, utf8);
      PairFailsCut(src, l, utf8);
    }
  }

  lemma HeadSplit(h: byte, p: seq<byte>, rest: seq<byte>)
    ensures ([h] + p + rest)[0] == h && ([h] + p + rest)[1..] == p + rest
  {
  }

  /** The label codec's round trip, whatever bytes follow. */
  lemma DecodeEncode(m: Labels, rest: seq<byte>, utf8: Utf8)
    requires Ordered(m) && Encodable(m) && Texts(m, utf8)
    ensures Decode(Encode(m) + rest, utf8) == Some((m, |Encode(m)|))
  {
    var src := Encode(m) + rest;
    HeadSplit(|m|, AllBytes(PairBytes, m), rest);
    AllRead(src, m, utf8);
    ParseFromStart(Pairs(src, utf8), src, PairBytes, m, rest);
    MapOfOrdered(m);
  }

  /** One label, both texts empty: no encoder writes it, but it decodes. */
  lemma EmptyLabelDecodes(utf8: Utf8)
    requires utf8([])
    ensures Decode([1, 0, 0], utf8) == Some(([Label([], [])], 3))
  {
    var src: seq<byte>, l := [1, 0, 0], Label([], []);
    assert src[2..2] == [] && src[3..3] == [];
    assert TakePair(src, 1, utf8) == Some((l, 3));
    ParseStep(Pairs(src, utf8), 1, 0, [], l, 3);
    assert Ordered([l]);
    MapOfOrdered([l]);
  }

  /** A cut encoding never decodes: the parser reports an error, not a wait for more. */
  lemma DecodeCut(m: Labels, c: nat, utf8: Utf8)
    requires Encodable(m) && Texts(m, utf8) && c < |Encode(m)|
    ensures Decode(Encode(m)[..c], utf8) == None
  {
    if c > 0 {
      var src := Encode(m)[..c];
      assert src[1..] == AllBytes(PairBytes, m)[..c - 1];
      AllRead(src, m, utf8);
      ParseCut(Pairs(src, utf8), src, PairBytes, 1, m, [], c - 1);
    }
  }

  lemma Regroup(a: seq<byte>, b: seq<byte>, c: seq<byte>)
    ensures a + b + c == a + (b + c)
  {
  }

  lemma {:induction false} ParsedTexts(src: seq<byte>, at: nat, n: nat, ls: seq<Label>, utf8: Utf8)
    requires at <= |src| && Texts(ls, utf8) && Parse(Pairs(src, utf8), at, n, ls).Some?
    ensures var (r, end) := Parse(Pairs(src, utf8), at, n, ls).value;
      Texts(r, utf8) && at <= end <= |src|
    decreases n
  {
    if n > 0 {
      var p := TakePair(src, at, utf8).value;
      ParsedTexts(src, p.1, n - 1, ls + [p.0], utf8);
    }
  }

  /** Every decoded map is ordered, holds strings only, and ends within the input. */
  lemma DecodedIsMap(src: seq<byte>, utf8: Utf8)
    requires Decode(src, utf8).Some?
    ensures var (m, end) := Decode(src, utf8).value;
      Ordered(m) && Texts(m, utf8) && 0 < end <= |src|
  {
    ParsedTexts(src, 1, src[0], [], utf8);
    MapOfIsMap(Parse(Pairs(src, utf8), 1, src[0], []).value.0);
  }

  lemma {:induction false} ParsedCount(read: Reader, at: nat, n: nat, ls: seq<Label>)
    requires Parse(read, at, n, ls).Some?
    ensures |Parse(read, at, n, ls).value.0| == |ls| + n
    decreases n
  {
    if n > 0 {
      var p := read(at).value;
      ParsedCount(read, p.1, n - 1, ls + [p.0]);
    }
  }

  lemma {:induction false} MapOfSize(ls: seq<Label>)
    ensures |MapOf(ls)| <= |ls|
  {
    if ls != [] {
      MapOfSize(ls[..|ls| - 1]);
      InsertSize(MapOf(ls[..|ls| - 1]), ls[|ls| - 1]);
    }
  }

  lemma {:induction false} InsertSize(m: Labels, l: Label)
    ensures |Insert(m, l)| <= |m| + 1
  {
    if m != [] {
      InsertSize(m[1..], l);
    }
  }

  /** A decoded map is never too large to encode; only its strings can be. */
  lemma DecodedCount(src: seq<byte>, utf8: Utf8)
    requires Decode(src, utf8).Some?
    ensures |Decode(src, utf8).value.0| <= MAX_LABELS
  {
    ParsedCount(Pairs(src, utf8), 1, src[0], []);
    MapOfSize(Parse(Pairs(src, utf8), 1, src[0], []).value.0);
  }

  method Enter(m: Labels, l: Label, ghost ls: seq<Label>) returns (r: Labels)
    requires m == MapOf(ls)
    ensures r == MapOf(ls + [l])
  {
    MapOfSnoc(ls, l);
    r := Insert(m, l);
  }

  /** The parsing loop. */
  method ParseCount(read: Reader, count: nat) returns (r: Option<(Labels, nat)>)
    ensures r == var p := Parse(read, 1, count, []); if p.None? then None else Some((MapOf(p.value.0), p.value.1))
  {
    var at, m := 1, [];
    ghost var ls: seq<Label> := [];
    for i := 0 to count
      invariant m == MapOf(ls) && Parse(read, 1, count, []) == Parse(read, at, count - i, ls)
    {
      var p := read(at);
      if p.None? {
        return None;
      }
      m := Enter(m, p.value.0, ls);
      ls := ls + [p.value.0];
      at := p.value.1;
    }
    r := Some((m, at));
  }

  method ParseLabels(src: seq<byte>, utf8: Utf8) returns (r: Option<(Labels, nat)>)
    ensures r == Decode(src, utf8)
  {
    if src == [] {
      return None;
    }
    r := ParseCount(Pairs(src, utf8), src[0]);
  }

  /** Writes s at a position of the buffer and touches nothing else. */
  method Copy(dst: array<byte>, at: nat, s: seq<byte>)
    requires at + |s| <= dst.Length
    modifies dst
    ensures dst[..] == old(dst[..at]) + s + old(dst[at + |s|..])
  {
    for i := 0 to |s|
      invariant dst[..at] == old(dst[..at]) && dst[at..at + i] == s[..i] && dst[at + i..] == old(dst[at + i..])
    {
      dst[at + i] := s[i];
      assert dst[at..at + i + 1] == dst[at..at + i] + [s[i]];
      assert dst[at + i..] == [s[i]] + dst[at + i + 1..];
    }
    assert dst[..] == dst[..at] + dst[at..at + |s|] + dst[at + |s|..];
  }

  function WireLen(m: Labels): nat {
    if m == [] then 1 else WireLen(m[1..]) + 2 + |m[0].key| + |m[0].value|
  }

  lemma {:induction false} WireLenIsSize(m: Labels)
    ensures WireLen(m) == 1 + |AllBytes(PairBytes, m)|
  {
    if m != [] {
      WireLenIsSize(m[1..]);
    }
  }

  datatype EncodeError = TooMany | BadLength | NoRoom

  method CheckTexts(m: Labels) returns (ok: bool)
    ensures ok <==> GoodTexts(m)
  {
    for i := 0 to |m|
      invariant GoodTexts(m[..i])
    {
      if !GoodText(m[i].key) || !GoodText(m[i].value) {
        assert m[i] in m;
        return false;
      }
    }
    assert m[..|m|] == m;
    return true;
  }

  /** Writes the map at the start of a buffer: exactly `Encode(m)`, and nothing at all on an
      error. The result is None on success. */
  method EncodeLabels(m: Labels, dst: array<byte>) returns (err: Option<EncodeError>, n: nat)
    modifies dst
    ensures err == if |m| > MAX_LABELS then Some(TooMany)
                   else if !GoodTexts(m) then Some(BadLength)
                   else if dst.Length < WireLen(m) then Some(NoRoom) else None
    ensures err.Some? ==> dst[..] == old(dst[..])
    ensures err.None? ==> n == WireLen(m) && dst[..] == Encode(m) + old(dst[n..])
  {
    n := 0;
    if |m| > MAX_LABELS {
      return Some(TooMany), n;
    }
    var ok := CheckTexts(m);
    if !ok {
      return Some(BadLength), n;
    }
    if dst.Length < WireLen(m) {
      return Some(NoRoom), n;
    }
    WireLenIsSize(m);
    ghost var rest := dst[WireLen(m)..];
    Copy(dst, 0, [|m|]);
    n := 1;
    for i := 0 to |m|
      invariant n + |AllBytes(PairBytes, m[i..])| == WireLen(m) <= dst.Length
      invariant dst[..n] + AllBytes(PairBytes, m[i..]) == Encode(m) && dst[WireLen(m)..] == rest
    {
      assert m[i..][1..] == m[i + 1..];
      Regroup(dst[..n], PairBytes(m[i]), AllBytes(PairBytes, m[i + 1..]));
      n := CopyPair(dst, n, m[i], rest);
    }
    err := None;
  }

  method CopyPair(dst: array<byte>, at: nat, l: Label, ghost rest: seq<byte>) returns (end: nat)
    requires at + |PairBytes(l)| + |rest| <= dst.Length && dst[dst.Length - |rest|..] == rest
    modifies dst
    ensures end == at + |PairBytes(l)| && dst[..end] == old(dst[..at]) + PairBytes(l)
    ensures dst[dst.Length - |rest|..] == rest
  {
    ghost var pre := dst[..at];
    end := CopyText(dst, at, l.key, rest);
    end := CopyText(dst, end, l.value, rest);
    Regroup(pre, Prefixed(l.key), Prefixed(l.value));
  }

  method CopyText(dst: array<byte>, at: nat, s: seq<byte>, ghost rest: seq<byte>) returns (end: nat)
    requires at + 1 + |s| + |rest| <= dst.Length && dst[dst.Length - |rest|..] == rest
    modifies dst
    ensures end == at + 1 + |s| && dst[..end] == old(dst[..at]) + Prefixed(s)
    ensures dst[dst.Length - |rest|..] == rest
  {
    Copy(dst, at, [|s| % 256]);
    Copy(dst, at + 1, s);
    end := at + 1 + |s|;
  }
}

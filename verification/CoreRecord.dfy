/** The log record of logregator-core: its byte layout, field extraction, and the
    byte-wise order that memtables, tables and merges all rely on. */
module CoreRecord {
  import opened Bytes

  datatype Record = Record(source: i64, ts: i64, sn: u64, key: Str, value: Str)

  function Encode(r: Record): (b: seq<byte>) {
    BE8(Unsigned(r.source)) + BE8(Unsigned(r.ts)) + BE8(r.sn)
    + BE4(|r.key|) + r.key + BE4(|r.value|) + r.value
  }

  function ExtractKey(b: seq<byte>): Option<seq<byte>> {
    if |b| < 28 then None
    else
      var n := Read4(b[24..28]) as int;
      if |b| < 28 + n then None else Some(b[28..28 + n])
  }

  function ExtractAll(b: seq<byte>): Option<Record> {
    if |b| < 28 then None
    else
      var source, ts, sn := Signed(Read8(b[0..8])), Signed(Read8(b[8..16])), Read8(b[16..24]);
      var n := Read4(b[24..28]) as int;
      if |b| < 32 + n then None
      else
        var m := Read4(b[28 + n..32 + n]) as int;
        if |b| < 32 + n + m then None
        else Some(Record(source, ts, sn, b[28..28 + n], b[32 + n..32 + n + m]))
  }

  /** `Record::partial_cmp`; a record without a readable key makes it panic. */
  function CompareBytes(a: seq<byte>, b: seq<byte>): Ordering
    requires ExtractKey(a).Some? && ExtractKey(b).Some?
  {
    Compare(a[0..8], b[0..8])
    .Then(Compare(a[8..16], b[8..16]))
    .Then(Compare(a[16..24], b[16..24]))
    .Then(Compare(ExtractKey(a).value, ExtractKey(b).value))
  }

  /** What the order looks at, with source and timestamp as unsigned words. */
  datatype Rank = Rank(source: u64, ts: u64, sn: u64, key: seq<byte>)

  function RankOf(r: Record): Rank {
    Rank(Unsigned(r.source), Unsigned(r.ts), r.sn, r.key)
  }

  predicate Below(a: Rank, b: Rank) {
    a.source < b.source
    || (a.source == b.source
        && (a.ts < b.ts
            || (a.ts == b.ts
                && (a.sn < b.sn || (a.sn == b.sn && Compare(a.key, b.key) == Less)))))
  }

  predicate Before(a: Record, b: Record) {
    Below(RankOf(a), RankOf(b))
  }

  lemma BelowTransitive(a: Rank, b: Rank, c: Rank)
    requires Below(a, b) && Below(b, c)
    ensures Below(a, c)
  {
    if a.source == b.source == c.source && a.ts == b.ts == c.ts && a.sn == b.sn == c.sn {
      CompareTransitive(a.key, b.key, c.key);
    }
  }

  lemma BelowTotal(a: Rank, b: Rank)
    ensures a != b ==> Below(a, b) || Below(b, a)
    ensures !(Below(a, b) && Below(b, a)) && !Below(a, a)
  {
    CompareEqual(a.key, b.key);
    CompareEqual(a.key, a.key);
    CompareFlip(a.key, b.key);
    CompareFlip(b.key, a.key);
  }

  lemma Layout(r: Record, rest: seq<byte>)
    ensures var b, n, m := Encode(r) + rest, |r.key|, |r.value|;
      && |Encode(r)| == 32 + n + m
      && b[0..8] == BE8(Unsigned(r.source))
      && b[8..16] == BE8(Unsigned(r.ts))
      && b[16..24] == BE8(r.sn)
      && b[24..28] == BE4(n)
      && b[28..28 + n] == r.key
      && b[28 + n..32 + n] == BE4(m)
      && b[32 + n..32 + n + m] == r.value
  {
    Pieces(BE8(Unsigned(r.source)), BE8(Unsigned(r.ts)), BE8(r.sn), BE4(|r.key|), r.key, BE4(|r.value|), r.value, rest);
  }

  lemma Pieces(a: seq<byte>, b: seq<byte>, c: seq<byte>, d: seq<byte>, k: seq<byte>, l: seq<byte>, v: seq<byte>,
               rest: seq<byte>)
    requires |a| == |b| == |c| == 8 && |d| == |l| == 4
    ensures var s, n, m := a + b + c + d + k + l + v + rest, |k|, |v|;
      && s[0..8] == a && s[8..16] == b && s[16..24] == c && s[24..28] == d
      && s[28..28 + n] == k && s[28 + n..32 + n] == l && s[32 + n..32 + n + m] == v
  {
  }

  /** Extraction inverts encoding, whatever bytes follow the record. */
  lemma ExtractEncode(r: Record, rest: seq<byte>)
    ensures ExtractAll(Encode(r) + rest) == Some(r)
    ensures ExtractKey(Encode(r) + rest) == Some(r.key)
  {
    Layout(r, rest);
    RoundTrip8(Unsigned(r.source)); RoundTrip8(Unsigned(r.ts)); RoundTrip8(r.sn);
    RoundTrip4(|r.key|); RoundTrip4(|r.value|);
  }

  /** Extraction succeeds only on bytes that begin with the encoding of what it returns. */
  lemma EncodeExtract(b: seq<byte>)
    requires ExtractAll(b).Some?
    ensures Encode(ExtractAll(b).value) <= b
  {
    var r := ExtractAll(b).value;
    var n, m := |r.key|, |r.value|;
    SignedUnsigned(Read8(b[0..8]));
    SignedUnsigned(Read8(b[8..16]));
    Canonical8(b[0..8]); Canonical8(b[8..16]); Canonical8(b[16..24]);
    Canonical4(b[24..28]); Canonical4(b[28 + n..32 + n]);
    SlicesOf(b, n, m);
  }

  lemma SlicesOf(b: seq<byte>, n: nat, m: nat)
    requires 32 + n + m <= |b|
    ensures b[0..8] + b[8..16] + b[16..24] + b[24..28] + b[28..28 + n] + b[28 + n..32 + n] + b[32 + n..32 + n + m] <= b
  {
    assert b[0..8] + b[8..16] + b[16..24] == b[..24];
    assert b[..24] + b[24..28] + b[28..28 + n] == b[..28 + n];
    assert b[..28 + n] + b[28 + n..32 + n] + b[32 + n..32 + n + m] == b[..32 + n + m];
  }

  lemma SignedUnsigned(u: u64)
    ensures Unsigned(Signed(u)) == u
  {
  }

  /** The rank of encoded bytes, for any bytes long enough to be compared. */
  function BytesRank(b: seq<byte>): Rank
    requires ExtractKey(b).Some?
  {
    Rank(Read8(b[0..8]), Read8(b[8..16]), Read8(b[16..24]), ExtractKey(b).value)
  }

  /** The byte-wise comparison is the lexicographic order on
      (unsigned source, unsigned timestamp, sequence number, key bytes). */
  lemma CompareIsRankOrder(a: seq<byte>, b: seq<byte>)
    requires ExtractKey(a).Some? && ExtractKey(b).Some?
    ensures CompareBytes(a, b) == Less <==> Below(BytesRank(a), BytesRank(b))
    ensures CompareBytes(a, b) == Equal <==> BytesRank(a) == BytesRank(b)
    ensures CompareBytes(a, b) == Greater <==> Below(BytesRank(b), BytesRank(a))
  {
    CompareBE(a[0..8], b[0..8]);
    CompareBE(a[8..16], b[8..16]);
    CompareBE(a[16..24], b[16..24]);
    var k, l := ExtractKey(a).value, ExtractKey(b).value;
    CompareEqual(k, l);
    CompareFlip(k, l);
    CompareFlip(l, k);
  }

  lemma RankOfEncoding(r: Record)
    ensures ExtractKey(Encode(r)).Some? && BytesRank(Encode(r)) == RankOf(r)
  {
    assert Encode(r) + [] == Encode(r);
    Layout(r, []);
    ExtractEncode(r, []);
    RoundTrip8(Unsigned(r.source)); RoundTrip8(Unsigned(r.ts)); RoundTrip8(r.sn);
  }

  /** The same of encoded records. */
  lemma CompareBytesIsRankOrder(a: Record, b: Record)
    ensures ExtractKey(Encode(a)).Some? && ExtractKey(Encode(b)).Some?
    ensures CompareBytes(Encode(a), Encode(b)) == Less <==> Before(a, b)
    ensures CompareBytes(Encode(a), Encode(b)) == Equal <==> RankOf(a) == RankOf(b)
    ensures CompareBytes(Encode(a), Encode(b)) == Greater <==> Before(b, a)
  {
    RankOfEncoding(a);
    RankOfEncoding(b);
    CompareIsRankOrder(Encode(a), Encode(b));
  }

  function Bound(source: i64, ts: i64, key: Str): Record {
    Record(source, ts, 0, key, [])
  }

  predicate InWindow(r: Record, source: i64, start: i64, end: i64) {
    r.source == source && start <= r.ts < end
  }

  /** The memtable bounds, whose key is empty, cut out exactly the half-open time window
      of the source, for any source id and any non-negative window; negative timestamps
      sort above every non-negative one and stay outside. */
  lemma MemtableBoundsCutWindow(r: Record, source: i64, start: i64, end: i64)
    requires 0 <= start <= end
    ensures !Before(r, Bound(source, start, [])) && Before(r, Bound(source, end, []))
       <==> InWindow(r, source, start, end)
  {
    assert Signed(Unsigned(r.source)) == r.source && Signed(Unsigned(source)) == source;
  }

  /** The table bounds carry the queried key; among records with that key they cut out
      the same window. */
  lemma TableBoundsCutWindow(r: Record, source: i64, start: i64, end: i64)
    requires 0 <= start <= end
    ensures !Before(r, Bound(source, start, r.key)) && Before(r, Bound(source, end, r.key))
       <==> InWindow(r, source, start, end)
  {
    CompareEqual(r.key, r.key);
    assert Signed(Unsigned(r.source)) == r.source && Signed(Unsigned(source)) == source;
  }

  /** Strictly increasing in rank order: the state of a BTreeSet and of a table file. */
  ghost predicate Sorted(s: seq<Record>) {
    forall i, j :: 0 <= i < j < |s| ==> Before(s[i], s[j])
  }

  function Elems(s: seq<Record>): set<Record> {
    set r | r in s
  }

  /** Equal ranks determine the record, as they do when sequence numbers are unique. */
  ghost predicate Consistent(s: set<Record>) {
    forall a, b :: a in s && b in s && RankOf(a) == RankOf(b) ==> a == b
  }
}

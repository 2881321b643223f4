/** Records of logregator-tsdb: key order, wire form and its decoder. */
module TsdbRecord {
  import opened Bytes
  import opened Framing

  /** Ordered by (stream, timestamp, sequence number, source); written source first. */
  datatype Key = Key(stream: u64, ts: u64, sn: u64, source: u64)

  datatype Record = Record(key: Key, payload: seq<byte>)

  const KEY_SIZE := 32
  const HEADER_SIZE := 36
  const MIN_PAYLOAD := 2
  const MAX_PAYLOAD := 4096
  const MIN_WIRE := 38
  const MAX_WIRE := 4132

  predicate KeyLess(a: Key, b: Key) {
    a.stream < b.stream
    || (a.stream == b.stream
        && (a.ts < b.ts
            || (a.ts == b.ts && (a.sn < b.sn || (a.sn == b.sn && a.source < b.source)))))
  }

  lemma KeyOrder(a: Key, b: Key, c: Key)
    ensures a != b ==> KeyLess(a, b) || KeyLess(b, a)
    ensures !(KeyLess(a, b) && KeyLess(b, a))
    ensures KeyLess(a, b) && KeyLess(b, c) ==> KeyLess(a, c)
  {
  }

  predicate PayloadFits(n: nat) {
    MIN_PAYLOAD <= n <= MAX_PAYLOAD
  }

  /** A record that the codec accepts. */
  predicate Valid(r: Record) {
    PayloadFits(|r.payload|)
  }

  function WireLen(r: Record): nat {
    HEADER_SIZE + |r.payload|
  }

  function EncodeKey(k: Key): (b: seq<byte>)
    ensures |b| == KEY_SIZE
  {
    BE8(k.source) + BE8(k.ts) + BE8(k.sn) + BE8(k.stream)
  }

  function DecodeKey(b: seq<byte>): (k: Key)
    requires |b| >= KEY_SIZE
    ensures EncodeKey(k) == b[..KEY_SIZE]
  {
    Canonical8(b[0..8]); Canonical8(b[8..16]); Canonical8(b[16..24]); Canonical8(b[24..32]);
    assert b[..KEY_SIZE] == b[0..8] + b[8..16] + b[16..24] + b[24..32];
    Key(Read8(b[24..32]), Read8(b[8..16]), Read8(b[16..24]), Read8(b[0..8]))
  }

  lemma DecodeEncodeKey(k: Key, rest: seq<byte>)
    ensures DecodeKey(EncodeKey(k) + rest) == k
  {
    var b := EncodeKey(k) + rest;
    RoundTrip8(k.source); RoundTrip8(k.ts); RoundTrip8(k.sn); RoundTrip8(k.stream);
    assert b[0..8] == BE8(k.source) && b[8..16] == BE8(k.ts) && b[16..24] == BE8(k.sn) && b[24..32] == BE8(k.stream);
  }

  function Encode(r: Record): (b: seq<byte>)
    requires Valid(r)
    ensures |b| == WireLen(r)
  {
    EncodeKey(r.key) + BE4(|r.payload|) + r.payload
  }

  /** Not enough bytes yet, a record and its length, or a length prefix out of range. */
  function Decode(src: seq<byte>): (d: Decoded<Record>)
    ensures d.Item? ==> Valid(d.item) && d.n == WireLen(d.item) && d.n <= |src| && src[..d.n] == Encode(d.item)
    ensures d.NeedMore? ==> |src| < MAX_WIRE
  {
    if |src| < HEADER_SIZE then NeedMore
    else
      var n := Read4(src[KEY_SIZE..HEADER_SIZE]) as int;
      if !PayloadFits(n) then Bad
      else if |src| < HEADER_SIZE + n then NeedMore
      else
        var r := Record(DecodeKey(src), src[HEADER_SIZE..HEADER_SIZE + n]);
        Canonical4(src[KEY_SIZE..HEADER_SIZE]);
        assert src[..HEADER_SIZE + n] == src[..KEY_SIZE] + src[KEY_SIZE..HEADER_SIZE] + r.payload;
        Item(r, HEADER_SIZE + n)
  }

  /** Decoding inverts encoding and ignores what follows. */
  lemma DecodeEncode(r: Record, rest: seq<byte>)
    requires Valid(r)
    ensures Decode(Encode(r) + rest) == Item(r, WireLen(r))
  {
    var b := Encode(r) + rest;
    RoundTrip4(|r.payload|);
    assert b == EncodeKey(r.key) + (BE4(|r.payload|) + r.payload + rest);
    DecodeEncodeKey(r.key, BE4(|r.payload|) + r.payload + rest);
    assert b[KEY_SIZE..HEADER_SIZE] == BE4(|r.payload|);
    assert b[HEADER_SIZE..WireLen(r)] == r.payload;
  }

  /** A cut record is never an error, only a request for more bytes. */
  lemma DecodePart(r: Record, c: nat)
    requires Valid(r) && c < WireLen(r)
    ensures Decode(Encode(r)[..c]) == NeedMore
  {
    var b := Encode(r)[..c];
    RoundTrip4(|r.payload|);
    if c >= HEADER_SIZE {
      assert b[KEY_SIZE..HEADER_SIZE] == BE4(|r.payload|);
    }
  }

  lemma DecodeExact(r: Record, b: seq<byte>)
    requires Valid(r) && b == Encode(r)
    ensures Decode(b) == Item(r, WireLen(r))
  {
    assert b == Encode(r) + [];
    DecodeEncode(r, []);
  }

  lemma KeyOfEncoding(data: seq<byte>, at: nat, r: Record)
    requires Valid(r) && at + WireLen(r) <= |data| && data[at..at + WireLen(r)] == Encode(r)
    ensures DecodeKey(data[at..at + KEY_SIZE]) == r.key
  {
    var k := data[at..at + KEY_SIZE];
    assert k == data[at..at + WireLen(r)][..KEY_SIZE];
    assert Encode(r)[..KEY_SIZE] == EncodeKey(r.key);
    DecodeEncodeKey(r.key, []);
    assert EncodeKey(r.key) + [] == k;
  }
}

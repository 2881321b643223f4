/** Machine integers, byte strings, their big- and little-endian forms, and the
    lexicographic order that Rust gives to byte slices. */
module Bytes {
  datatype Option<+T> = None | Some(value: T)

  type byte = x: int | 0 <= x < 256
  type u16 = x: int | 0 <= x < 0x1_0000
  type u32 = x: int | 0 <= x < 0x1_0000_0000
  type u64 = x: int | 0 <= x < 0x1_0000_0000_0000_0000
  type i64 = x: int | -0x8000_0000_0000_0000 <= x < 0x8000_0000_0000_0000

  /** A string whose length fits the u32 length prefixes of every wire format. */
  type Str = s: seq<byte> | |s| < 0x1_0000_0000

  function Pow256(n: nat): (p: nat)
    ensures p > 0
  {
    if n == 0 then 1 else 256 * Pow256(n - 1)
  }

  lemma Widths()
    ensures Pow256(2) == 0x1_0000
    ensures Pow256(4) == 0x1_0000_0000
    ensures Pow256(8) == 0x1_0000_0000_0000_0000
  {
    assert Pow256(2) == 256 * 256;
    assert Pow256(4) == 256 * 256 * Pow256(2);
    assert Pow256(6) == 256 * 256 * Pow256(4);
    assert Pow256(8) == 256 * 256 * Pow256(6);
  }

  /** The low n bytes of v, most significant first: a cast to n bytes, then `to_be_bytes`. */
  function BE(v: nat, n: nat): (s: seq<byte>)
    ensures |s| == n
  {
    if n == 0 then [] else BE(v / 256, n - 1) + [v % 256]
  }

  function FromBE(s: seq<byte>): (v: nat) {
    if s == [] then 0 else FromBE(s[..|s| - 1]) * 256 + s[|s| - 1]
  }

  lemma {:induction false} FromBEBound(s: seq<byte>)
    ensures FromBE(s) < Pow256(|s|)
  {
    if s != [] {
      FromBEBound(s[..|s| - 1]);
    }
  }

  lemma {:induction false} BERoundTrip(v: nat, n: nat)
    requires v < Pow256(n)
    ensures FromBE(BE(v, n)) == v
  {
    if n != 0 {
      var q, d := v / 256, v % 256;
      QuotientBelow(v, Pow256(n - 1));
      BERoundTrip(q, n - 1);
      FromBESnoc(BE(q, n - 1), d);
    }
  }

  lemma QuotientBelow(v: nat, p: nat)
    requires v < 256 * p
    ensures v / 256 < p
  {
  }

  lemma FromBESnoc(s: seq<byte>, d: byte)
    ensures FromBE(s + [d]) == 256 * FromBE(s) + d
  {
    assert (s + [d])[..|s|] == s;
  }

  lemma {:induction false} BECanonical(s: seq<byte>)
    ensures BE(FromBE(s), |s|) == s
  {
    if s != [] {
      BECanonical(s[..|s| - 1]);
      assert s == s[..|s| - 1] + [s[|s| - 1]];
    }
  }

  function BE2(v: u16): (s: seq<byte>)
    ensures |s| == 2
  {
    BE(v, 2)
  }

  function BE4(v: u32): (s: seq<byte>)
    ensures |s| == 4
  {
    BE(v, 4)
  }

  function BE8(v: u64): (s: seq<byte>)
    ensures |s| == 8
  {
    BE(v, 8)
  }

  function Read2(s: seq<byte>): (v: u16)
    requires |s| == 2
  {
    Widths(); FromBEBound(s);
    FromBE(s)
  }

  function Read4(s: seq<byte>): (v: u32)
    requires |s| == 4
  {
    Widths(); FromBEBound(s);
    FromBE(s)
  }

  function Read8(s: seq<byte>): (v: u64)
    requires |s| == 8
  {
    Widths(); FromBEBound(s);
    FromBE(s)
  }

  lemma RoundTrip2(v: u16)
    ensures Read2(BE2(v)) == v
  {
    Widths(); BERoundTrip(v, 2);
  }

  lemma RoundTrip4(v: u32)
    ensures Read4(BE4(v)) == v
  {
    Widths(); BERoundTrip(v, 4);
  }

  lemma RoundTrip8(v: u64)
    ensures Read8(BE8(v)) == v
  {
    Widths(); BERoundTrip(v, 8);
  }

  lemma Canonical2(s: seq<byte>)
    requires |s| == 2
    ensures BE2(Read2(s)) == s
  {
    BECanonical(s);
  }

  lemma Canonical4(s: seq<byte>)
    requires |s| == 4
    ensures BE4(Read4(s)) == s
  {
    BECanonical(s);
  }

  lemma Canonical8(s: seq<byte>)
    requires |s| == 8
    ensures BE8(Read8(s)) == s
  {
    BECanonical(s);
  }

  /** `v as u16`. */
  function Low16(v: nat): (w: u16)
    ensures v < 0x1_0000 ==> w == v
  {
    v % 0x1_0000
  }

  /** `v as u32`. */
  function Low32(v: nat): (w: u32)
    ensures v < 0x1_0000_0000 ==> w == v
  {
    v % 0x1_0000_0000
  }

  /** Two's complement: the bit pattern of an i64 read as a u64, and back. */
  function Unsigned(v: i64): (u: u64)
    ensures Signed(u) == v
    ensures v >= 0 ==> u == v
  {
    if v < 0 then v + 0x1_0000_0000_0000_0000 else v
  }

  function Signed(u: u64): (v: i64) {
    if u >= 0x8000_0000_0000_0000 then u - 0x1_0000_0000_0000_0000 else u
  }

  /** Little-endian, used for the record length prefixes of log and table files. */
  function LE(v: nat, n: nat): (s: seq<byte>)
    ensures |s| == n
  {
    if n == 0 then [] else [v % 256] + LE(v / 256, n - 1)
  }

  function FromLE(s: seq<byte>): (v: nat) {
    if s == [] then 0 else s[0] + 256 * FromLE(s[1..])
  }

  lemma {:induction false} LERoundTrip(v: nat, n: nat)
    requires v < Pow256(n)
    ensures FromLE(LE(v, n)) == v
  {
    if n != 0 {
      LERoundTrip(v / 256, n - 1);
    }
  }

  datatype Ordering = Less | Equal | Greater {
    function Then(o: Ordering): Ordering {
      if this.Equal? then o else this
    }
  }

  function CompareNat(a: nat, b: nat): Ordering {
    if a < b then Less else if a == b then Equal else Greater
  }

  /** Lexicographic comparison of byte slices; a proper prefix comes first. */
  function Compare(a: seq<byte>, b: seq<byte>): Ordering {
    if a == [] then (if b == [] then Equal else Less)
    else if b == [] then Greater
    else CompareNat(a[0], b[0]).Then(Compare(a[1..], b[1..]))
  }

  lemma {:induction false} CompareSnoc(a: seq<byte>, b: seq<byte>, x: byte, y: byte)
    requires |a| == |b|
    ensures Compare(a + [x], b + [y]) == Compare(a, b).Then(CompareNat(x, y))
  {
    if a == [] {
      assert Compare([x][1..], [y][1..]) == Equal;
    } else {
      assert (a + [x])[1..] == a[1..] + [x] && (b + [y])[1..] == b[1..] + [y];
      CompareSnoc(a[1..], b[1..], x, y);
    }
  }

  /** Big-endian strings of one width compare as the numbers they encode. */
  lemma {:induction false} CompareBE(a: seq<byte>, b: seq<byte>)
    requires |a| == |b|
    ensures Compare(a, b) == CompareNat(FromBE(a), FromBE(b))
  {
    if a != [] {
      var n := |a| - 1;
      assert a == a[..n] + [a[n]] && b == b[..n] + [b[n]];
      CompareSnoc(a[..n], b[..n], a[n], b[n]);
      CompareBE(a[..n], b[..n]);
    }
  }

  lemma {:induction false} CompareEqual(a: seq<byte>, b: seq<byte>)
    ensures Compare(a, b) == Equal <==> a == b
  {
    if a != [] && b != [] {
      CompareEqual(a[1..], b[1..]);
      assert a == [a[0]] + a[1..] && b == [b[0]] + b[1..];
    }
  }

  lemma {:induction false} CompareFlip(a: seq<byte>, b: seq<byte>)
    ensures Compare(a, b) == Less <==> Compare(b, a) == Greater
  {
    if a != [] && b != [] {
      CompareFlip(a[1..], b[1..]);
    }
  }

  lemma {:induction false} CompareTransitive(a: seq<byte>, b: seq<byte>, c: seq<byte>)
    requires Compare(a, b) == Less && Compare(b, c) == Less
    ensures Compare(a, c) == Less
  {
    if a != [] && a[0] == b[0] == c[0] {
      CompareTransitive(a[1..], b[1..], c[1..]);
    }
  }
}

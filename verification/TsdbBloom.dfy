/** The wire form of the Bloom filter of a table: the encoder as it is written, which never
    succeeds, and one that puts each field into its own place. What the filter says about
    streams is not modelled. */
module TsdbBloom {
  import opened Bytes

  datatype Filter = Filter(bits: u64, hashes: u64, bitmap: seq<byte>)

  const MAX_BITMAP := 0xFFFF_FFFF

  datatype Encoding = NotEnoughBytes | TooLarge | Panics | Done(dst: seq<byte>)

  type Encoder = (Filter, seq<byte>) -> Encoding

  function WireLen(f: Filter): nat {
    20 + |f.bitmap|
  }

  /** `copy_from_slice` panics unless both slices have the same length; None is the panic. */
  function Copy(dst: Option<seq<byte>>, src: seq<byte>): Option<seq<byte>> {
    if dst.Some? && |dst.value| == |src| then Some(src) else None
  }

  /** The encoder as written: every field is copied over the whole buffer. */
  function Encode(f: Filter, dst: seq<byte>): Encoding {
    if |dst| < WireLen(f) then NotEnoughBytes
    else
      var head := Copy(Copy(Some(dst), BE8(f.bits)), BE8(f.hashes));
      if head.None? then Panics
      else if |f.bitmap| > MAX_BITMAP then TooLarge
      else match Copy(Copy(head, BE4(Low32(|f.bitmap|))), f.bitmap)
        case None => Panics
        case Some(b) => Done(b)
  }

  /** It never succeeds: a buffer that is long enough for the filter makes it panic. */
  lemma EncodeNeverSucceeds(f: Filter, dst: seq<byte>)
    ensures Encode(f, dst) == if |dst| < WireLen(f) then NotEnoughBytes else Panics
  {
  }

  function Layout(f: Filter): (b: seq<byte>)
    requires |f.bitmap| <= MAX_BITMAP
    ensures |b| == WireLen(f)
  {
    BE8(f.bits) + BE8(f.hashes) + BE4(|f.bitmap|) + f.bitmap
  }

  /** The encoder with each copy at its place. */
  function Repaired(f: Filter, dst: seq<byte>): Encoding {
    if |dst| < WireLen(f) then NotEnoughBytes
    else if |f.bitmap| > MAX_BITMAP then TooLarge
    else Done(Layout(f) + dst[WireLen(f)..])
  }

  function Decode(src: seq<byte>): Option<(Filter, nat)> {
    if |src| < 20 then None
    else
      var n := Read4(src[16..20]) as nat;
      if |src| < 20 + n then None
      else Some((Filter(Read8(src[..8]), Read8(src[8..16]), src[20..20 + n]), 20 + n))
  }

  /** The decoder reads what the repaired encoder writes. */
  lemma DecodeRepaired(f: Filter, dst: seq<byte>)
    requires |f.bitmap| <= MAX_BITMAP && WireLen(f) <= |dst|
    ensures Repaired(f, dst).Done? && Decode(Repaired(f, dst).dst) == Some((f, WireLen(f)))
  {
    var b, n := Repaired(f, dst).dst, |f.bitmap|;
    RoundTrip8(f.bits);
    RoundTrip8(f.hashes);
    RoundTrip4(n);
    assert b[..8] == BE8(f.bits) && b[8..16] == BE8(f.hashes) && b[16..20] == BE4(n) && b[20..20 + n] == f.bitmap;
  }
}

/** Fixed-width unsigned integers and their little-endian byte encodings,
    as used by the cache file for its header fields, frame prefixes and
    row shifts (Go's encoding/binary.LittleEndian). */
module Bytes {

  type byte = x: int | 0 <= x < 0x100
  type u32 = x: int | 0 <= x < 0x1_0000_0000
  type u64 = x: int | 0 <= x < 0x1_0000_0000_0000_0000

  /** 256^k: one more than the largest value k bytes can hold. */
  function Pow256(k: nat): (r: nat)
    ensures r > 0
  {
    if k == 0 then 1 else 256 * Pow256(k - 1)
  }

  /** The k low-order bytes of x, least significant byte first. */
  function EncodeLE(x: nat, k: nat): (s: seq<byte>)
    ensures |s| == k
  {
    if k == 0 then [] else [x % 256] + EncodeLE(x / 256, k - 1)
  }

  /** The value of a little-endian byte string. */
  function DecodeLE(s: seq<byte>): (x: nat)
    ensures x < Pow256(|s|)
  {
    if s == [] then 0 else s[0] + 256 * DecodeLE(s[1..])
  }

  lemma {:induction false} DecodeEncodeLE(x: nat, k: nat)
    requires x < Pow256(k)
    ensures DecodeLE(EncodeLE(x, k)) == x
  {
    if k > 0 {
      DecodeEncodeLE(x / 256, k - 1);
      assert EncodeLE(x, k)[1..] == EncodeLE(x / 256, k - 1);
    }
  }

  lemma {:induction false} EncodeDecodeLE(s: seq<byte>)
    ensures EncodeLE(DecodeLE(s), |s|) == s
  {
    if s != [] {
      EncodeDecodeLE(s[1..]);
      var x := DecodeLE(s);
      assert x % 256 == s[0] && x / 256 == DecodeLE(s[1..]);
    }
  }

  lemma Pow256Widths()
    ensures Pow256(4) == 0x1_0000_0000
    ensures Pow256(8) == 0x1_0000_0000_0000_0000
  {
  }

  /** binary.LittleEndian.Uint32: the value of four bytes. */
  function Uint32(s: seq<byte>): (x: u32)
    requires |s| == 4
  {
    Pow256Widths();
    DecodeLE(s)
  }

  /** binary.LittleEndian.PutUint32: the four bytes of x. */
  function PutUint32(x: u32): (s: seq<byte>)
    ensures |s| == 4
  {
    EncodeLE(x, 4)
  }

  /** binary.LittleEndian.Uint64: the value of eight bytes. */
  function Uint64(s: seq<byte>): (x: u64)
    requires |s| == 8
  {
    Pow256Widths();
    DecodeLE(s)
  }

  /** binary.LittleEndian.PutUint64: the eight bytes of x. */
  function PutUint64(x: u64): (s: seq<byte>)
    ensures |s| == 8
  {
    EncodeLE(x, 8)
  }

  /** Reading back four written bytes gives the value written. */
  lemma Uint32RoundTrip(x: u32)
    ensures Uint32(PutUint32(x)) == x
  {
    Pow256Widths();
    DecodeEncodeLE(x, 4);
  }

  /** Every four bytes are the encoding of the value they decode to. */
  lemma PutUint32RoundTrip(s: seq<byte>)
    requires |s| == 4
    ensures PutUint32(Uint32(s)) == s
  {
    EncodeDecodeLE(s);
  }

  /** Reading back eight written bytes gives the value written. */
  lemma Uint64RoundTrip(x: u64)
    ensures Uint64(PutUint64(x)) == x
  {
    Pow256Widths();
    DecodeEncodeLE(x, 8);
  }

  /** Every eight bytes are the encoding of the value they decode to. */
  lemma PutUint64RoundTrip(s: seq<byte>)
    requires |s| == 8
    ensures PutUint64(Uint64(s)) == s
  {
    EncodeDecodeLE(s);
  }
}

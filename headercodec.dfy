/** The fixed part at the start of a cache file: the 48-byte header of six
    little-endian u64 fields, then the two index tables, d bytes each. */
module HeaderCodec {
  import opened Bytes

  const HeaderSize: nat := 48

  /** The six header fields, in file order; scale is the bit pattern of the
      float64. */
  datatype Header = Header(vectorLen: u64, level: u64, scaleBits: u64, n: u64, numModuli: u64, rowSize: u64)

  /** The header block as WriteDiag emits it: field k at offset 8k. */
  function EncodeHeader(h: Header): (s: seq<byte>)
    ensures |s| == HeaderSize
  {
    PutUint64(h.vectorLen) + PutUint64(h.level) + PutUint64(h.scaleBits)
      + PutUint64(h.n) + PutUint64(h.numModuli) + PutUint64(h.rowSize)
  }

  /** The header fields as the reading side of NewDiagCacheStream decodes them. */
  function DecodeHeader(s: seq<byte>): Header
    requires |s| >= HeaderSize
  {
    Header(Uint64(s[0..8]), Uint64(s[8..16]), Uint64(s[16..24]),
           Uint64(s[24..32]), Uint64(s[32..40]), Uint64(s[40..48]))
  }

  lemma HeaderRoundTrip(h: Header)
    ensures DecodeHeader(EncodeHeader(h)) == h
  {
    var s := EncodeHeader(h);
    EncodeHeaderFields(h);
    Uint64RoundTrip(h.vectorLen);
    Uint64RoundTrip(h.level);
    Uint64RoundTrip(h.scaleBits);
    Uint64RoundTrip(h.n);
    Uint64RoundTrip(h.numModuli);
    Uint64RoundTrip(h.rowSize);
    assert Uint64(s[0..8]) == h.vectorLen && Uint64(s[8..16]) == h.level;
    assert Uint64(s[16..24]) == h.scaleBits && Uint64(s[24..32]) == h.n;
    assert Uint64(s[32..40]) == h.numModuli && Uint64(s[40..48]) == h.rowSize;
  }

  /** Field k of the header block sits at offset 8k. */
  lemma EncodeHeaderFields(h: Header)
    ensures var s := EncodeHeader(h);
            && s[0..8] == PutUint64(h.vectorLen) && s[8..16] == PutUint64(h.level)
            && s[16..24] == PutUint64(h.scaleBits) && s[24..32] == PutUint64(h.n)
            && s[32..40] == PutUint64(h.numModuli) && s[40..48] == PutUint64(h.rowSize)
  {
    var s := EncodeHeader(h);
    var a := PutUint64(h.vectorLen) + PutUint64(h.level);
    var b := a + PutUint64(h.scaleBits) + PutUint64(h.n);
    assert s[0..8] == a[0..8];
    assert s[8..16] == a[8..16];
    var c := b + PutUint64(h.numModuli);
    assert s[16..24] == b[16..24];
    assert s[24..32] == b[24..32];
    assert s[32..40] == c[32..40];
    assert s[40..48] == PutUint64(h.rowSize);
  }

  /** Every 48-byte block is the encoding of the header it decodes to. */
  lemma HeaderDecodeEncode(s: seq<byte>)
    requires |s| == HeaderSize
    ensures EncodeHeader(DecodeHeader(s)) == s
  {
    var t := EncodeHeader(DecodeHeader(s));
    EncodeHeaderFields(DecodeHeader(s));
    PutUint64RoundTrip(s[0..8]);
    PutUint64RoundTrip(s[8..16]);
    PutUint64RoundTrip(s[16..24]);
    PutUint64RoundTrip(s[24..32]);
    PutUint64RoundTrip(s[32..40]);
    PutUint64RoundTrip(s[40..48]);
    assert t[0..8] == s[0..8] && t[8..16] == s[8..16] && t[16..24] == s[16..24];
    assert t[24..32] == s[24..32] && t[32..40] == s[32..40] && t[40..48] == s[40..48];
    assert t == t[0..8] + t[8..16] + t[16..24] + t[24..32] + t[32..40] + t[40..48];
    assert s == s[0..8] + s[8..16] + s[16..24] + s[24..32] + s[32..40] + s[40..48];
  }

  /** The table byte of one entry. */
  function BoolByte(b: bool): byte {
    if b then 1 else 0
  }

  /** One byte per entry. */
  function TableBytes(t: seq<bool>): (s: seq<byte>)
    ensures |s| == |t|
  {
    if t == [] then [] else [BoolByte(t[0])] + TableBytes(t[1..])
  }

  lemma {:induction false} TableBytesIndex(t: seq<bool>)
    ensures forall i :: 0 <= i < |t| ==> TableBytes(t)[i] == BoolByte(t[i])
  {
    if t != [] {
      TableBytesIndex(t[1..]);
    }
  }

  /** One entry per byte: any non-zero byte is true. */
  function TableBits(s: seq<byte>): (t: seq<bool>)
    ensures |t| == |s|
  {
    if s == [] then [] else [s[0] != 0] + TableBits(s[1..])
  }

  lemma {:induction false} TableBitsIndex(s: seq<byte>)
    ensures forall i :: 0 <= i < |s| ==> TableBits(s)[i] == (s[i] != 0)
  {
    if s != [] {
      TableBitsIndex(s[1..]);
    }
  }

  /** The table block: one byte per baby-step entry, then one per giant-step
      entry. */
  function EncodeTables(baby: seq<bool>, giant: seq<bool>): (s: seq<byte>)
    ensures |s| == |baby| + |giant|
  {
    TableBytes(baby) + TableBytes(giant)
  }

  /** The two tables of length d read back from their block. */
  function DecodeTables(s: seq<byte>, d: nat): (r: (seq<bool>, seq<bool>))
    requires |s| >= 2 * d
  {
    (TableBits(s[..d]), TableBits(s[d..2 * d]))
  }

  lemma {:induction false} TableBitsOfBytes(t: seq<bool>)
    ensures TableBits(TableBytes(t)) == t
  {
    if t != [] {
      TableBitsOfBytes(t[1..]);
      assert TableBytes(t)[1..] == TableBytes(t[1..]);
    }
  }

  /** Tables of the same length d survive the trip through the file. */
  lemma TablesRoundTrip(baby: seq<bool>, giant: seq<bool>)
    requires |baby| == |giant|
    ensures DecodeTables(EncodeTables(baby, giant), |baby|) == (baby, giant)
  {
    var s := EncodeTables(baby, giant);
    var d := |baby|;
    assert s[..d] == TableBytes(baby);
    assert s[d..2 * d] == TableBytes(giant);
    TableBitsOfBytes(baby);
    TableBitsOfBytes(giant);
  }

  /** A table block is the encoding of what it decodes to exactly when every
      byte is 0 or 1. */
  lemma TablesCanonical(s: seq<byte>, d: nat)
    requires |s| == 2 * d
    ensures EncodeTables(DecodeTables(s, d).0, DecodeTables(s, d).1) == s
            <==> forall i :: 0 <= i < |s| ==> s[i] <= 1
  {
    var x, y := s[..d], s[d..2 * d];
    assert s == x + y;
    PartCanonical(x);
    PartCanonical(y);
    SplitEquality(TableBytes(TableBits(x)), TableBytes(TableBits(y)), x, y);
    AllFlagsConcat(x, y);
  }

  /** Every byte of x + y is 0 or 1 exactly when every byte of x and every
      byte of y is. */
  lemma AllFlagsConcat(x: seq<byte>, y: seq<byte>)
    ensures (forall i :: 0 <= i < |x + y| ==> (x + y)[i] <= 1)
            <==> (forall i :: 0 <= i < |x| ==> x[i] <= 1) && (forall i :: 0 <= i < |y| ==> y[i] <= 1)
  {
    if (forall i :: 0 <= i < |x| ==> x[i] <= 1) && (forall i :: 0 <= i < |y| ==> y[i] <= 1) {
      forall i | 0 <= i < |x + y| ensures (x + y)[i] <= 1 {
        if i >= |x| {
          assert (x + y)[i] == y[i - |x|];
        }
      }
    }
    if forall i :: 0 <= i < |x + y| ==> (x + y)[i] <= 1 {
      forall i | 0 <= i < |x| ensures x[i] <= 1 {
        assert (x + y)[i] == x[i];
      }
      forall i | 0 <= i < |y| ensures y[i] <= 1 {
        assert (x + y)[|x| + i] == y[i];
      }
    }
  }

  /** One table's bytes survive decoding and re-encoding exactly when each
      is 0 or 1. */
  lemma {:induction false} PartCanonical(s: seq<byte>)
    ensures TableBytes(TableBits(s)) == s <==> forall i :: 0 <= i < |s| ==> s[i] <= 1
  {
    if s != [] {
      PartCanonical(s[1..]);
      var rest := TableBytes(TableBits(s[1..]));
      assert TableBytes(TableBits(s)) == [BoolByte(s[0] != 0)] + rest;
      assert s == [s[0]] + s[1..];
      if forall i :: 0 <= i < |s| ==> s[i] <= 1 {
        assert s[0] <= 1;
        assert forall i :: 0 <= i < |s[1..]| ==> s[1..][i] <= 1 by {
          forall i | 0 <= i < |s[1..]| ensures s[1..][i] <= 1 {
            assert s[1..][i] == s[i + 1];
          }
        }
      } else if TableBytes(TableBits(s)) == s {
        assert BoolByte(s[0] != 0) == s[0] && rest == s[1..];
        forall i | 0 <= i < |s| ensures s[i] <= 1 {
          if i > 0 {
            assert s[i] == s[1..][i - 1];
          }
        }
      }
    }
  }

  /** Concatenations of equal-length fronts are equal exactly when both
      halves are. */
  lemma SplitEquality<T>(a: seq<T>, b: seq<T>, c: seq<T>, e: seq<T>)
    requires |a| == |c|
    ensures a + b == c + e <==> a == c && b == e
  {
    if a + b == c + e {
      assert a == (a + b)[..|a|] && c == (c + e)[..|a|];
      assert b == (a + b)[|a|..] && e == (c + e)[|a|..];
    }
  }

  /** The table-writing loops of WriteDiag: tableBuf[i] for baby[i], then
      tableBuf[len(baby) + i] for giant[i]. */
  method EncodeIndexTables(baby: seq<bool>, giant: seq<bool>) returns (tableBuf: seq<byte>)
    ensures tableBuf == EncodeTables(baby, giant)
  {
    var a := new byte[|baby| + |giant|];
    for i := 0 to |baby|
      invariant forall j :: 0 <= j < i ==> a[j] == BoolByte(baby[j])
    {
      a[i] := BoolByte(baby[i]);
    }
    var pos := |baby|;
    for i := 0 to |giant|
      invariant forall j :: 0 <= j < |baby| ==> a[j] == BoolByte(baby[j])
      invariant forall j :: 0 <= j < i ==> a[pos + j] == BoolByte(giant[j])
    {
      a[pos + i] := BoolByte(giant[i]);
    }
    tableBuf := a[..];
    TableBytesIndex(baby);
    TableBytesIndex(giant);
    assert tableBuf[..pos] == TableBytes(baby);
    assert tableBuf[pos..] == TableBytes(giant);
    assert tableBuf == tableBuf[..pos] + tableBuf[pos..];
  }

  /** The table-reading loop of NewDiagCacheStream: entry i of each table from
      byte i and byte d + i. */
  method DecodeIndexTables(tableBuf: seq<byte>, d: nat) returns (baby: seq<bool>, giant: seq<bool>)
    requires |tableBuf| == 2 * d
    ensures (baby, giant) == DecodeTables(tableBuf, d)
  {
    var b := new bool[d];
    var g := new bool[d];
    for i := 0 to d
      invariant forall j :: 0 <= j < i ==> b[j] == (tableBuf[j] != 0)
      invariant forall j :: 0 <= j < i ==> g[j] == (tableBuf[d + j] != 0)
    {
      b[i] := tableBuf[i] != 0;
      g[i] := tableBuf[d + i] != 0;
    }
    baby, giant := b[..], g[..];
    TableBitsIndex(tableBuf[..d]);
    TableBitsIndex(tableBuf[d..2 * d]);
    assert baby == TableBits(tableBuf[..d]);
    assert giant == TableBits(tableBuf[d..2 * d]);
  }
}

/** The polynomial values the cache stores, and a stand-in for the external
    coefficient codec (lattigo's ring.WriteCoeffsTo / ring.DecodeCoeffs and
    Poly.GetDataLen(false)). The cache format relies on exactly two facts about
    that codec: a polynomial of ring degree n over m moduli always encodes to
    SlotBytes(n, m) bytes, and decoding those bytes gives the coefficients back.
    The stand-in writes each coefficient as an 8-byte word; nothing else in
    the model looks inside a coefficient encoding. */
module CoeffCodec {
  import opened Bytes

  /** One encoded plaintext (a *ckks.Plaintext): its level, its scale carried
      as the 64-bit pattern of the float, and its single polynomial's
      coefficients, one sequence of n words per modulus. */
  datatype Plaintext = Plaintext(level: u64, scaleBits: u64, coeffs: seq<seq<u64>>)

  /** m moduli of n coefficients each. */
  predicate Shaped(coeffs: seq<seq<u64>>, n: nat, m: nat) {
    |coeffs| == m && forall i :: 0 <= i < m ==> |coeffs[i]| == n
  }

  /** The number of bytes one present polynomial occupies (GetDataLen(false)):
      m moduli of n 8-byte words. */
  function SlotBytes(n: nat, m: nat): nat {
    8 * n * m
  }

  function EncodeWords(ws: seq<u64>): (s: seq<byte>)
    ensures |s| == 8 * |ws|
  {
    if ws == [] then [] else PutUint64(ws[0]) + EncodeWords(ws[1..])
  }

  function DecodeWords(s: seq<byte>, n: nat): (ws: seq<u64>)
    requires |s| == 8 * n
    ensures |ws| == n
  {
    if n == 0 then [] else [Uint64(s[..8])] + DecodeWords(s[8..], n - 1)
  }

  lemma {:induction false} WordsRoundTrip(ws: seq<u64>)
    ensures DecodeWords(EncodeWords(ws), |ws|) == ws
  {
    if ws != [] {
      var s := EncodeWords(ws);
      assert s[..8] == PutUint64(ws[0]);
      assert s[8..] == EncodeWords(ws[1..]);
      WordsRoundTrip(ws[1..]);
      Uint64RoundTrip(ws[0]);
    }
  }

  /** The coefficient bytes of one polynomial, modulus by modulus. */
  function EncodeCoeffs(coeffs: seq<seq<u64>>): (s: seq<byte>)
  {
    if coeffs == [] then [] else EncodeWords(coeffs[0]) + EncodeCoeffs(coeffs[1..])
  }

  /** Reads m moduli of n coefficients each back out of their bytes. */
  function DecodeCoeffs(s: seq<byte>, n: nat, m: nat): seq<seq<u64>>
    requires |s| == SlotBytes(n, m)
  {
    if m == 0 then []
    else
      SlotBytesStep(n, m);
      [DecodeWords(s[..8 * n], n)] + DecodeCoeffs(s[8 * n..], n, m - 1)
  }

  /** One modulus more is 8n bytes more. */
  lemma SlotBytesStep(n: nat, m: nat)
    requires m > 0
    ensures SlotBytes(n, m) == 8 * n + SlotBytes(n, m - 1)
  {
    assert 8 * n * m == 8 * n * (m - 1) + 8 * n;
  }

  /** Whatever the bytes, the decoded polynomial has m moduli of n
      coefficients each. */
  lemma {:induction false} DecodeCoeffsShaped(s: seq<byte>, n: nat, m: nat)
    requires |s| == SlotBytes(n, m)
    ensures Shaped(DecodeCoeffs(s, n, m), n, m)
  {
    if m > 0 {
      SlotBytesStep(n, m);
      DecodeCoeffsShaped(s[8 * n..], n, m - 1);
      var c := DecodeCoeffs(s, n, m);
      forall i | 0 <= i < m ensures |c[i]| == n {
        if i > 0 {
          assert c[i] == DecodeCoeffs(s[8 * n..], n, m - 1)[i - 1];
        }
      }
    }
  }

  /** The two facts the cache format needs of the codec: fixed width and
      round trip. */
  lemma {:induction false} CoeffsRoundTrip(coeffs: seq<seq<u64>>, n: nat, m: nat)
    requires Shaped(coeffs, n, m)
    ensures |EncodeCoeffs(coeffs)| == SlotBytes(n, m)
    ensures DecodeCoeffs(EncodeCoeffs(coeffs), n, m) == coeffs
  {
    if m > 0 {
      var rest := coeffs[1..];
      assert Shaped(rest, n, m - 1) by {
        forall i | 0 <= i < m - 1 ensures |rest[i]| == n {
          assert rest[i] == coeffs[i + 1];
        }
      }
      CoeffsRoundTrip(rest, n, m - 1);
      WordsRoundTrip(coeffs[0]);
      var s := EncodeCoeffs(coeffs);
      SlotBytesStep(n, m);
      assert s[..8 * n] == EncodeWords(coeffs[0]);
      assert s[8 * n..] == EncodeCoeffs(rest);
    }
  }

  /** ring.WriteCoeffsTo: writes the coefficients into data at pointer and
      returns the offset just past them; the rest of data is untouched. */
  method WriteCoeffsTo(pointer: nat, n: nat, m: nat, coeffs: seq<seq<u64>>, data: array<byte>)
    returns (next: nat)
    requires Shaped(coeffs, n, m)
    requires pointer + SlotBytes(n, m) <= data.Length
    modifies data
    ensures next == pointer + SlotBytes(n, m)
    ensures data[..] == old(data[..pointer]) + EncodeCoeffs(coeffs) + old(data[next..])
    ensures data[..next] == old(data[..pointer]) + EncodeCoeffs(coeffs)
  {
    CoeffsRoundTrip(coeffs, n, m);
    var enc := EncodeCoeffs(coeffs);
    forall k | 0 <= k < |enc| {
      data[pointer + k] := enc[k];
    }
    next := pointer + |enc|;
    assert data[..next] == old(data[..pointer]) + enc;
    assert data[..] == old(data[..pointer]) + enc + old(data[next..]);
  }
}

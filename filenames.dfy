/** Cache file names: fmt.Sprintf("%s_%d.bin", prefix, blockRowIndex). */
module FileNames {

  predicate IsDigits(s: string) {
    forall i :: 0 <= i < |s| ==> '0' <= s[i] <= '9'
  }

  function DigitChar(d: nat): (c: char)
    requires d < 10
    ensures '0' <= c <= '9'
  {
    (48 + d) as char
  }

  /** The decimal digits of x, most significant first, no leading zeros. */
  function NatDecimal(x: nat): (s: string)
    ensures |s| > 0 && IsDigits(s)
    decreases x
  {
    if x < 10 then [DigitChar(x)] else NatDecimal(x / 10) + [DigitChar(x % 10)]
  }

  /** The value of a string of decimal digits. */
  function DecimalValue(s: string): nat
    requires IsDigits(s)
  {
    if s == [] then 0 else 10 * DecimalValue(s[..|s| - 1]) + ((s[|s| - 1] as int) - 48)
  }

  lemma {:induction false} NatDecimalRoundTrip(x: nat)
    ensures DecimalValue(NatDecimal(x)) == x
    decreases x
  {
    if x >= 10 {
      NatDecimalRoundTrip(x / 10);
      var s := NatDecimal(x);
      assert s[..|s| - 1] == NatDecimal(x / 10);
    }
  }

  /** %d of a Go int: a minus sign for negative values, then the digits. */
  function IntDecimal(x: int): (s: string)
    ensures |s| > 0
  {
    if x < 0 then "-" + NatDecimal(-x) else NatDecimal(x)
  }

  /** Reads back what IntDecimal writes. */
  function ParseIntDecimal(s: string): int {
    if |s| > 0 && s[0] == '-' && IsDigits(s[1..]) then 0 - DecimalValue(s[1..])
    else if IsDigits(s) then DecimalValue(s)
    else 0
  }

  lemma IntDecimalRoundTrip(x: int)
    ensures ParseIntDecimal(IntDecimal(x)) == x
  {
    if x < 0 {
      var s := IntDecimal(x);
      assert s[1..] == NatDecimal(-x);
      NatDecimalRoundTrip(-x);
    } else {
      NatDecimalRoundTrip(x);
    }
  }

  /** The cache file of one matrix block row. */
  function FileName(prefix: string, blockRowIndex: int): string {
    prefix + "_" + IntDecimal(blockRowIndex) + ".bin"
  }

  /** Different block rows under one prefix never share a cache file, so
      their streams are independent. */
  lemma FileNameInjective(prefix: string, i: int, j: int)
    requires FileName(prefix, i) == FileName(prefix, j)
    ensures i == j
  {
    var a, b := FileName(prefix, i), FileName(prefix, j);
    var lo := |prefix| + 1;
    assert a[lo..|a| - 4] == IntDecimal(i);
    assert b[lo..|b| - 4] == IntDecimal(j);
    IntDecimalRoundTrip(i);
    IntDecimalRoundTrip(j);
  }
}

/** Province names `$"Region {index}"`: the decimal rendering of a non-negative index. */
module Naming {

  predicate IsDigit(c: char) {
    '0' <= c <= '9'
  }

  function DigitChar(d: nat): (c: char)
    requires d < 10
    ensures IsDigit(c)
  {
    ('0' as int + d) as char
  }

  function DigitValue(c: char): (d: nat)
    requires IsDigit(c)
    ensures d < 10
  {
    c as int - '0' as int
  }

  /** Decimal rendering of n without leading zeros, as C# formats an int. */
  function NatToString(n: nat): (s: string)
    ensures |s| >= 1
    ensures forall i :: 0 <= i < |s| ==> IsDigit(s[i])
    ensures |s| > 1 ==> s[0] != '0'
  {
    if n < 10 then [DigitChar(n)]
    else NatToString(n / 10) + [DigitChar(n % 10)]
  }

  /** Reads back a non-empty string of decimal digits. */
  function ParseNat(s: string): nat
    requires |s| >= 1 && forall i :: 0 <= i < |s| ==> IsDigit(s[i])
  {
    if |s| == 1 then DigitValue(s[0])
    else 10 * ParseNat(s[..|s| - 1]) + DigitValue(s[|s| - 1])
  }

  lemma {:induction false} ParseNatToString(n: nat)
    ensures ParseNat(NatToString(n)) == n
  {
    if n >= 10 {
      var s := NatToString(n);
      assert s[..|s| - 1] == NatToString(n / 10);
      ParseNatToString(n / 10);
    }
  }

  /** `$"Region {index}"`: the prefix "Region " followed by digits that read back as index. */
  function RegionName(index: nat): (name: string)
    ensures |name| > 7 && name[..7] == "Region "
    ensures forall i :: 7 <= i < |name| ==> IsDigit(name[i])
    ensures ParseNat(name[7..]) == index
  {
    ParseNatToString(index);
    var name := "Region " + NatToString(index);
    assert name[7..] == NatToString(index);
    name
  }

  /** Distinct indices give distinct province names. */
  lemma RegionNameInjective(i: nat, j: nat)
    ensures RegionName(i) == RegionName(j) ==> i == j
  {
    if RegionName(i) == RegionName(j) {
      assert NatToString(i) == RegionName(i)[7..];
      assert NatToString(j) == RegionName(j)[7..];
      ParseNatToString(i);
      ParseNatToString(j);
    }
  }
}

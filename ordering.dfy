/**
 * The composite sort key `x * CountDigits(Height) * 10 + y` that orders seed points,
 * tiles and province groups.
 */
module Ordering {
  import opened Grid

  function Pow10(n: nat): (r: nat)
    ensures r >= 1
  {
    if n == 0 then 1 else 10 * Pow10(n - 1)
  }

  /** Number of decimal digits of n (at least one, so CountDigits(0) == 1). */
  function CountDigits(n: nat): (d: nat)
    ensures d >= 1
    ensures n < Pow10(d)
    ensures d == 1 || Pow10(d - 1) <= n
  {
    if n < 10 then 1
    else
      var d' := CountDigits(n / 10);
      assert n < 10 * (n / 10 + 1);
      1 + d'
  }

  /**
   * The ordering key of a position on a map of the given height. While y stays
   * below the stride 10 * CountDigits(height), the key encodes x as its
   * quotient and y as its remainder by the stride.
   */
  function CompositeKey(height: nat, p: Pos): (k: int)
    ensures 0 <= p.y < 10 * CountDigits(height) ==>
              k / (10 * CountDigits(height)) == p.x && k % (10 * CountDigits(height)) == p.y
  {
    var stride := 10 * CountDigits(height);
    var k := p.x * CountDigits(height) * 10 + p.y;
    assert k == stride * p.x + p.y;
    if 0 <= p.y < stride then
      DivModUnique(k, stride, p.x, p.y);
      k
    else k
  }

  function PosKey(height: nat): Pos -> int {
    p => CompositeKey(height, p)
  }

  ghost predicate KeyInjectiveOnGrid(width: nat, height: nat) {
    forall p, q :: InGrid(width, height, p) && InGrid(width, height, q) && p != q
      ==> CompositeKey(height, p) != CompositeKey(height, q)
  }

  lemma StrideStep(stride: nat, p: Pos, q: Pos)
    requires stride > 0 && 0 <= p.y < stride && 0 <= q.y < stride
    requires p.x < q.x
    ensures p.x * stride + p.y < q.x * stride + q.y
  {
    var d := q.x - p.x;
    assert q.x * stride == p.x * stride + d * stride;
    MulAtLeast(stride, d);
  }

  lemma MulAtLeast(stride: nat, d: int)
    requires d >= 1
    ensures d * stride >= stride
  {
    var e: nat := d - 1;
    assert e * stride >= 0;
    assert d * stride == e * stride + stride;
  }

  /** Quotient and remainder by a positive divisor are unique. */
  lemma DivModUnique(a: int, d: int, k: int, r: int)
    requires d > 0 && a == d * k + r && 0 <= r < d
    ensures a / d == k && a % d == r
  {
    var k', r' := a / d, a % d;
    assert a == d * k' + r' && 0 <= r' < d;
    MulDiff(d, k, k', r, r');
  }

  lemma MulDiff(d: nat, k: int, k': int, r: int, r': int)
    requires d > 0 && 0 <= r < d && 0 <= r' < d && d * k + r == d * k' + r'
    ensures k == k' && r == r'
  {
    assert d * (k - k') == r' - r by {
      assert d * (k - k') == d * k - d * k';
    }
    if k - k' >= 1 {
      MulAtLeast(d, k - k');
    } else if k' - k >= 1 {
      MulAtLeast(d, k' - k);
    }
  }

  /** The key is x times the stride 10 * CountDigits(height), plus y. */
  lemma KeyStride(height: nat, p: Pos)
    ensures CompositeKey(height, p) == p.x * (CountDigits(height) * 10) + p.y
  {
    assert p.x * CountDigits(height) * 10 == p.x * (CountDigits(height) * 10);
  }

  /** Two different positions with a y below the stride have different keys. */
  lemma KeyDistinct(height: nat, p: Pos, q: Pos)
    requires 0 <= p.y < CountDigits(height) * 10 && 0 <= q.y < CountDigits(height) * 10 && p != q
    ensures CompositeKey(height, p) != CompositeKey(height, q)
  {
    var stride := CountDigits(height) * 10;
    KeyStride(height, p);
    KeyStride(height, q);
    if p.x < q.x {
      StrideStep(stride, p, q);
    } else if q.x < p.x {
      StrideStep(stride, q, p);
    }
  }

  /**
   * On a grid at least two columns wide, the key separates all positions exactly
   * when the height is at most ten times its digit count; for larger heights
   * (0, 10 * d) and (1, 0) share a key.
   */
  lemma KeyInjectiveIff(width: nat, height: nat)
    requires width >= 2
    ensures KeyInjectiveOnGrid(width, height) <==> height <= 10 * CountDigits(height)
  {
    var stride := CountDigits(height) * 10;
    if height <= stride {
      forall p, q | InGrid(width, height, p) && InGrid(width, height, q) && p != q
        ensures CompositeKey(height, p) != CompositeKey(height, q)
      {
        KeyDistinct(height, p, q);
      }
    } else {
      var p, q := Pos(0, stride), Pos(1, 0);
      KeyStride(height, p);
      KeyStride(height, q);
      assert InGrid(width, height, p) && InGrid(width, height, q);
      assert CompositeKey(height, p) == CompositeKey(height, q);
    }
  }

  /** On a 50-row map the key is 20x + y, so (0, 20) and (1, 0) collide. */
  lemma KeyCollidesOnHeightFifty()
    ensures CompositeKey(50, Pos(0, 20)) == CompositeKey(50, Pos(1, 0)) == 20
  {
    assert CountDigits(5) == 1;
    assert CountDigits(50) == 2;
  }
}

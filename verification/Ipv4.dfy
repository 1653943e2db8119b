/** IPv4 addresses and CIDR blocks as numbers, with the arithmetic that makes two
    blocks either nested or disjoint. */
module Ipv4 {

  type Addr = a: int | 0 <= a < 0x1_0000_0000
  type Prefix = b: int | 0 <= b <= 32

  /** A CIDR as written: the address may carry host bits; the prefix masks them. */
  datatype Cidr = Cidr(ip: Addr, bits: Prefix)

  function Pow2(n: nat): (p: nat)
    ensures p >= 1
  {
    if n == 0 then 1 else 2 * Pow2(n - 1)
  }

  function BlockSize(c: Cidr): nat {
    Pow2(32 - c.bits)
  }

  /** The largest multiple of d not above x: what masking the low bits leaves. */
  function FloorTo(x: nat, d: nat): (r: nat)
    requires d > 0
    ensures r <= x < r + d
  {
    var q := x / d;
    assert x == q * d + x % d;
    MulNonNegative(q, d);
    q * d
  }

  /** The masked address a parsed CIDR carries. */
  function Network(c: Cidr): Addr {
    FloorTo(c.ip, BlockSize(c))
  }

  /** Membership as a mask comparison: equal high bits. */
  predicate Contains(c: Cidr, x: Addr) {
    x / BlockSize(c) == c.ip / BlockSize(c)
  }

  predicate Overlap(a: Cidr, b: Cidr) {
    Contains(a, Network(b)) || Contains(b, Network(a))
  }

  ghost predicate ShareAddress(a: Cidr, b: Cidr) {
    exists x: Addr :: Contains(a, x) && Contains(b, x)
  }

  lemma Pow2Splits(m: nat, n: nat)
    ensures Pow2(m + n) == Pow2(m) * Pow2(n)
  {
    if n != 0 {
      Pow2Splits(m, n - 1);
    }
  }

  lemma MulNonNegative(q: int, d: int)
    requires q >= 0 && d >= 0
    ensures q * d >= 0
  {
  }

  lemma MulStep(a: int, b: int, d: int)
    requires a < b && d > 0
    ensures a * d + d <= b * d
  {
    MulNonNegative(b - a - 1, d);
    assert (b - a - 1) * d == b * d - a * d - d;
  }

  lemma DivIsUnique(x: int, d: int, q: int)
    requires d > 0
    requires q * d <= x < q * d + d
    ensures x / d == q
  {
    var p := x / d;
    assert p * d <= x < p * d + d by {
      assert x == p * d + x % d;
    }
    if p < q {
      MulStep(p, q, d);
      assert false;
    } else if q < p {
      MulStep(q, p, d);
      assert false;
    }
  }

  lemma DivOfDiv(x: nat, d: nat, k: nat)
    requires d > 0 && k > 0
    ensures d * k > 0
    ensures x / (d * k) == (x / d) / k
  {
    var q, r := x / d, x % d;
    var s, t := q / k, q % k;
    var n := d * k;
    MulStep(0, k, d);
    Regroup(x, d, k, q, r, s, t);
    MulStep(t, k, d);
    assert 0 <= t * d by {
      MulNonNegative(t, d);
    }
    DivIsUnique(x, n, s);
  }

  lemma Regroup(x: int, d: int, k: int, q: int, r: int, s: int, t: int)
    requires x == q * d + r && q == s * k + t
    ensures x == s * (d * k) + (t * d + r)
  {
    assert q * d == (s * k) * d + t * d;
    assert (s * k) * d == s * (d * k);
  }

  /** The masked address lies in its own block, and block membership is an interval. */
  lemma ContainsIsInterval(c: Cidr, x: Addr)
    ensures Contains(c, Network(c))
    ensures Contains(c, x) <==> Network(c) <= x < Network(c) + BlockSize(c)
  {
    var d, q := BlockSize(c), c.ip / BlockSize(c);
    DivIsUnique(Network(c), d, q);
    if Network(c) <= x < Network(c) + d {
      DivIsUnique(x, d, q);
    } else {
      assert x == (x / d) * d + x % d;
    }
  }

  lemma MulLe(a: int, b: int, d: int)
    requires a <= b && d >= 0
    ensures a * d <= b * d
  {
    MulNonNegative(b - a, d);
    assert (b - a) * d == b * d - a * d;
  }

  lemma MultipleBelowFits(q: int, k: int, d: int)
    requires d > 0 && q * d < k * d
    ensures q * d + d <= k * d
  {
    if q >= k {
      MulLe(k, q, d);
      assert false;
    }
    MulStep(q, k, d);
  }

  lemma Pow2Of32()
    ensures Pow2(32) == 0x1_0000_0000
  {
    assert Pow2(8) == 256;
    Pow2Splits(8, 8);
    Pow2Splits(16, 16);
  }

  /** A block never crosses the top of the address space. */
  lemma BlockFits(c: Cidr)
    ensures Network(c) + BlockSize(c) <= 0x1_0000_0000
  {
    Pow2Of32();
    Pow2Splits(c.bits, 32 - c.bits);
    FloorFits(c.ip, Pow2(c.bits), BlockSize(c));
  }

  lemma FloorFits(x: nat, k: nat, d: nat)
    requires d > 0 && x < k * d
    ensures FloorTo(x, d) + d <= k * d
  {
    MultipleBelowFits(x / d, k, d);
  }

  /** Every address of the smaller block has the same high bits for the larger mask. */
  lemma SmallBlockStaysTogether(big: Cidr, small: Cidr, x: Addr, y: Addr)
    requires big.bits <= small.bits
    requires Contains(small, x) && Contains(small, y)
    ensures Contains(big, x) <==> Contains(big, y)
  {
    var k := Pow2(small.bits - big.bits);
    Pow2Splits(32 - small.bits, small.bits - big.bits);
    assert BlockSize(big) == BlockSize(small) * k;
    DivOfDiv(x, BlockSize(small), k);
    DivOfDiv(y, BlockSize(small), k);
  }

  /** Sharing one address means containing the other block whole. */
  lemma NestedOrDisjoint(a: Cidr, b: Cidr)
    requires ShareAddress(a, b)
    ensures
      || (forall x: Addr :: Contains(a, x) ==> Contains(b, x))
      || (forall x: Addr :: Contains(b, x) ==> Contains(a, x))
  {
    var w: Addr :| Contains(a, w) && Contains(b, w);
    if a.bits <= b.bits {
      forall x: Addr | Contains(b, x) ensures Contains(a, x) {
        SmallBlockStaysTogether(a, b, w, x);
      }
    } else {
      forall x: Addr | Contains(a, x) ensures Contains(b, x) {
        SmallBlockStaysTogether(b, a, w, x);
      }
    }
  }

  /** The two-point overlap test is exact: it holds when and only when the blocks share an address. */
  lemma OverlapIsExact(a: Cidr, b: Cidr)
    ensures Overlap(a, b) <==> ShareAddress(a, b)
  {
    ContainsIsInterval(a, Network(a));
    ContainsIsInterval(b, Network(b));
    if ShareAddress(a, b) {
      NestedOrDisjoint(a, b);
    }
  }
}

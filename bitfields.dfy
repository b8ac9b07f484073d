/**
 * The few operations of Vivado's unsigned arbitrary-precision integers
 * (`ap_uint<N>`) that the track handler uses, modelled on unbounded naturals:
 * bit-range extraction, conversion to a narrower width, left shift and
 * bitwise or.  Every operation is also characterised bit by bit through
 * `Bit`, an independent, recursive definition of "bit i of x is set".
 */
module BitFields {

  /** 2^n */
  function Pow2(n: nat): (p: nat)
    ensures p >= 1
  {
    if n == 0 then 1 else 2 * Pow2(n - 1)
  }

  /** Bit i of x is set (bit 0 is the least significant one). */
  predicate Bit(x: nat, i: nat)
  {
    if i == 0 then x % 2 == 1 else Bit(x / 2, i - 1)
  }

  /** `x >> l` */
  function Shr(x: nat, l: nat): nat
  {
    DivNonNegative(x, Pow2(l));
    x / Pow2(l)
  }

  /** `x.range(msb, lsb)`: bits lsb..msb of x, as a number. */
  function Range(x: nat, msb: nat, lsb: nat): (r: nat)
    requires lsb <= msb
    ensures r < Pow2(msb - lsb + 1)
  {
    Shr(x, lsb) % Pow2(msb - lsb + 1)
  }

  /** Conversion of x to `ap_uint<n>`: the n low bits of x. */
  function Trunc(x: nat, n: nat): (r: nat)
    ensures r < Pow2(n)
  {
    x % Pow2(n)
  }

  /** `x << k` before any truncation. */
  function Shl(x: nat, k: nat): nat
  {
    x * Pow2(k)
  }

  /** Bitwise or of two naturals. */
  function Or(a: nat, b: nat): nat
    decreases a + b
  {
    if a == 0 then b
    else if b == 0 then a
    else 2 * Or(a / 2, b / 2) + (if a % 2 == 1 || b % 2 == 1 then 1 else 0)
  }

  // ---------------------------------------------------------------------
  // Arithmetic facts the bit lemmas rest on

  lemma DivModUnique(x: int, d: int, q: int, r: int)
    requires d > 0 && 0 <= r < d && x == d * q + r
    ensures x / d == q && x % d == r
  {
    var q', r' := x / d, x % d;
    assert x == d * q' + r';
    if q' < q {
      assert d * (q - q') == r' - r;
      MulAtLeast(d, q - q');
    } else if q' > q {
      assert d * (q' - q) == r - r';
      MulAtLeast(d, q' - q);
    }
  }

  lemma DivNonNegative(x: int, d: int)
    requires x >= 0 && d > 0
    ensures x / d >= 0
  {
  }

  lemma MulAtLeast(d: int, e: int)
    requires d > 0 && e >= 1
    ensures d * e >= d
  {
    assert d * e == d * (e - 1) + d;
  }

  /** Dividing by 2p is halving, then dividing by p; likewise for the remainder. */
  lemma DivModDouble(x: nat, p: nat)
    requires p >= 1
    ensures x / (2 * p) == (x / 2) / p
    ensures x % (2 * p) == 2 * ((x / 2) % p) + x % 2
  {
    var q, r := (x / 2) / p, (x / 2) % p;
    assert x / 2 == p * q + r;
    assert x == (2 * p) * q + (2 * r + x % 2);
    DivModUnique(x, 2 * p, q, 2 * r + x % 2);
  }

  // ---------------------------------------------------------------------
  // Bit-by-bit characterisation of each operation

  lemma BitZero(i: nat)
    ensures !Bit(0, i)
  {
  }

  lemma {:induction false} BitOr(a: nat, b: nat, i: nat)
    ensures Bit(Or(a, b), i) == (Bit(a, i) || Bit(b, i))
    decreases a + b
  {
    if a == 0 {
      BitZero(i);
    } else if b == 0 {
      BitZero(i);
    } else {
      var c := if a % 2 == 1 || b % 2 == 1 then 1 else 0;
      var o := Or(a / 2, b / 2);
      assert Or(a, b) == 2 * o + c;
      assert (2 * o + c) / 2 == o && (2 * o + c) % 2 == c;
      if i > 0 {
        BitOr(a / 2, b / 2, i - 1);
      }
    }
  }

  lemma {:induction false} BitShl(x: nat, k: nat, i: nat)
    ensures Bit(Shl(x, k), i) == (k <= i && Bit(x, i - k))
  {
    if k > 0 {
      var y := Shl(x, k - 1);
      assert Shl(x, k) == 2 * y by {
        assert x * (2 * Pow2(k - 1)) == 2 * (x * Pow2(k - 1));
      }
      assert (2 * y) / 2 == y && (2 * y) % 2 == 0;
      if i > 0 {
        BitShl(x, k - 1, i - 1);
      }
    }
  }

  lemma {:induction false} BitTrunc(x: nat, n: nat, i: nat)
    ensures Bit(Trunc(x, n), i) == (i < n && Bit(x, i))
  {
    if n == 0 {
      BitZero(i);
    } else {
      DivModDouble(x, Pow2(n - 1));
      var t := Trunc(x / 2, n - 1);
      assert Trunc(x, n) == 2 * t + x % 2;
      assert (2 * t + x % 2) / 2 == t && (2 * t + x % 2) % 2 == x % 2;
      if i > 0 {
        BitTrunc(x / 2, n - 1, i - 1);
      }
    }
  }

  lemma {:induction false} BitShr(x: nat, l: nat, i: nat)
    ensures Bit(Shr(x, l), i) == Bit(x, l + i)
  {
    if l > 0 {
      DivModDouble(x, Pow2(l - 1));
      assert Shr(x, l) == Shr(x / 2, l - 1);
      BitShr(x / 2, l - 1, i);
    }
  }

  lemma BitRange(x: nat, msb: nat, lsb: nat, i: nat)
    requires lsb <= msb
    ensures Bit(Range(x, msb, lsb), i) == (i <= msb - lsb && Bit(x, lsb + i))
  {
    var y, w := Shr(x, lsb), msb - lsb + 1;
    assert Range(x, msb, lsb) == Trunc(y, w);
    BitTrunc(y, w, i);
    BitShr(x, lsb, i);
  }

  /** A number below 2^n has no bit at or above position n. */
  lemma {:induction false} BitsAbove(x: nat, n: nat, i: nat)
    requires x < Pow2(n) && n <= i
    ensures !Bit(x, i)
  {
    if n == 0 {
      BitZero(i);
    } else {
      BitsAbove(x / 2, n - 1, i - 1);
    }
  }

  /** Two numbers below 2^n with the same n low bits are equal. */
  lemma {:induction false} BitsEqual(x: nat, y: nat, n: nat)
    requires x < Pow2(n) && y < Pow2(n)
    requires forall i :: 0 <= i < n ==> Bit(x, i) == Bit(y, i)
    ensures x == y
  {
    if n > 0 {
      forall i | 0 <= i < n - 1
        ensures Bit(x / 2, i) == Bit(y / 2, i)
      {
        assert Bit(x, i + 1) == Bit(y, i + 1);
      }
      BitsEqual(x / 2, y / 2, n - 1);
      assert Bit(x, 0) == Bit(y, 0);
    }
  }

  /** 2^n - 1 has exactly the bits 0..n-1 set. */
  lemma {:induction false} BitAllOnes(n: nat, i: nat)
    ensures Bit(Pow2(n) - 1, i) == (i < n)
  {
    if n == 0 {
      BitZero(i);
    } else {
      assert (Pow2(n) - 1) / 2 == Pow2(n - 1) - 1;
      if i > 0 {
        BitAllOnes(n - 1, i - 1);
      }
    }
  }

  /** Conversion to a width the value already fits in changes nothing. */
  lemma TruncFits(x: nat, n: nat)
    requires x < Pow2(n)
    ensures Trunc(x, n) == x
  {
    DivModUnique(x, Pow2(n), 0, x);
  }

  /** Conversion to a narrower width never increases a value. */
  lemma TruncAtMost(x: nat, n: nat)
    ensures Trunc(x, n) <= x
  {
    if x < Pow2(n) {
      TruncFits(x, n);
    }
  }
}

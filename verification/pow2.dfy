/** Powers of two and the bit-level view of natural numbers that the
    allocator's address arithmetic relies on. Bits are read by repeated
    halving, so every proof here stays within linear arithmetic. */
module PowerOfTwo {

  /** 2^n, i.e. `1 << n`. */
  function Pow2(n: nat): (r: nat)
    ensures r >= 1
  {
    if n == 0 then 1 else 2 * Pow2(n - 1)
  }

  /** Bit number k of x (bit 0 is the least significant). */
  predicate Bit(x: nat, k: nat) {
    if k == 0 then x % 2 == 1 else Bit(x / 2, k - 1)
  }

  /** x ^ (1 << k): x with bit k inverted, defined one bit at a time. */
  function FlipBit(x: nat, k: nat): nat {
    if k == 0 then (if x % 2 == 0 then x + 1 else x - 1)
    else 2 * FlipBit(x / 2, k - 1) + x % 2
  }

  /** The k low bits of x are zero, i.e. x is a multiple of 2^k. */
  predicate Aligned(x: nat, k: nat) {
    if k == 0 then true else x % 2 == 0 && Aligned(x / 2, k - 1)
  }

  lemma {:induction false} Pow2Add(a: nat, b: nat)
    ensures Pow2(a + b) == Pow2(a) * Pow2(b)
  {
    if b > 0 {
      Pow2Add(a, b - 1);
      assert Pow2(a + b) == 2 * Pow2(a + b - 1);
    }
  }

  lemma {:induction false} Pow2Monotone(a: nat, b: nat)
    requires a < b
    ensures 2 * Pow2(a) <= Pow2(b)
  {
    if b > a + 1 {
      Pow2Monotone(a, b - 1);
    }
  }

  /** Flipping bit k adds 2^k when that bit is clear and subtracts it when set. */
  lemma {:induction false} FlipBitValue(x: nat, k: nat)
    ensures Bit(x, k) ==> x >= Pow2(k) && FlipBit(x, k) == x - Pow2(k)
    ensures !Bit(x, k) ==> FlipBit(x, k) == x + Pow2(k)
  {
    if k > 0 {
      FlipBitValue(x / 2, k - 1);
    }
  }

  lemma {:induction false} FlipBitFlips(x: nat, k: nat)
    ensures Bit(FlipBit(x, k), k) == !Bit(x, k)
  {
    if k > 0 {
      var y := FlipBit(x, k);
      assert y / 2 == FlipBit(x / 2, k - 1);
      FlipBitFlips(x / 2, k - 1);
    }
  }

  /** x ^ (1 << k) ^ (1 << k) == x */
  lemma {:induction false} FlipBitInvolution(x: nat, k: nat)
    ensures FlipBit(FlipBit(x, k), k) == x
  {
    if k > 0 {
      var y := FlipBit(x, k);
      assert y / 2 == FlipBit(x / 2, k - 1) && y % 2 == x % 2;
      FlipBitInvolution(x / 2, k - 1);
    }
  }

  /** 0 ^ (1 << k) == 1 << k */
  lemma {:induction false} FlipBitOfZero(k: nat)
    ensures FlipBit(0, k) == Pow2(k)
  {
    if k > 0 {
      FlipBitOfZero(k - 1);
    }
  }

  /** Flipping bit k leaves the bits below k alone. */
  lemma {:induction false} FlipBitKeepsAligned(x: nat, k: nat)
    requires Aligned(x, k)
    ensures Aligned(FlipBit(x, k), k)
  {
    if k > 0 {
      var y := FlipBit(x, k);
      assert y / 2 == FlipBit(x / 2, k - 1) && y % 2 == 0;
      FlipBitKeepsAligned(x / 2, k - 1);
    }
  }

  lemma {:induction false} AlignedWeaken(x: nat, i: nat, k: nat)
    requires Aligned(x, i) && k <= i
    ensures Aligned(x, k)
  {
    if k > 0 {
      AlignedWeaken(x / 2, i - 1, k - 1);
    }
  }

  /** A multiple of 2^i has every bit below i clear. */
  lemma {:induction false} AlignedBitClear(x: nat, i: nat, k: nat)
    requires Aligned(x, i) && k < i
    ensures !Bit(x, k)
  {
    if k > 0 {
      AlignedBitClear(x / 2, i - 1, k - 1);
    }
  }

  /** A multiple of 2^k whose bit k is clear is a multiple of 2^(k+1). */
  lemma {:induction false} AlignedExtend(x: nat, k: nat)
    requires Aligned(x, k) && !Bit(x, k)
    ensures Aligned(x, k + 1)
  {
    if k > 0 {
      AlignedExtend(x / 2, k - 1);
    }
  }

  /** A 2^k-aligned block that starts inside [0, 2^n) also ends inside it. */
  lemma {:induction false} AlignedFits(x: nat, k: nat, n: nat)
    requires Aligned(x, k) && k <= n && x < Pow2(n)
    ensures x + Pow2(k) <= Pow2(n)
  {
    if k > 0 {
      AlignedFits(x / 2, k - 1, n - 1);
    }
  }

  /** Flipping bit k of a 2^k-aligned x below 2^n, k < n, moves it by 2^k
      and keeps the 2^k block it heads below 2^n. */
  lemma FlipBitFits(x: nat, k: nat, n: nat)
    requires Aligned(x, k) && k < n && x < Pow2(n)
    ensures FlipBit(x, k) == x + Pow2(k) || FlipBit(x, k) + Pow2(k) == x
    ensures FlipBit(x, k) + Pow2(k) <= Pow2(n)
  {
    FlipBitValue(x, k);
    AlignedFits(x, k, n);
    if !Bit(x, k) {
      AlignedExtend(x, k);
      AlignedFits(x, k + 1, n);
      assert Pow2(k + 1) == 2 * Pow2(k);
    }
  }

  /** The distance between two multiples of 2^k is a multiple of 2^k. */
  lemma {:induction false} AlignedSub(x: nat, y: nat, k: nat)
    requires Aligned(x, k) && Aligned(y, k) && x <= y
    ensures Aligned(y - x, k)
  {
    if k > 0 {
      AlignedSub(x / 2, y / 2, k - 1);
      assert (y - x) / 2 == y / 2 - x / 2;
    }
  }

  /** A non-zero multiple of 2^k is at least 2^k. */
  lemma {:induction false} AlignedPositive(d: nat, k: nat)
    requires Aligned(d, k) && d > 0
    ensures d >= Pow2(k)
  {
    if k > 0 {
      AlignedPositive(d / 2, k - 1);
    }
  }

  /** The recursive notion of alignment is the usual one: 2^k divides x. */
  lemma {:induction false} AlignedIsMultiple(x: nat, k: nat)
    ensures Aligned(x, k) <==> x % Pow2(k) == 0
  {
    if k > 0 {
      AlignedIsMultiple(x / 2, k - 1);
      var d := Pow2(k - 1);
      var q := (x / 2) / d;
      var m := (x / 2) % d;
      assert Pow2(k) == 2 * d;
      var qd := q * d;
      assert x / 2 == qd + m;
      MulTwo(q, d);
      assert x == q * (2 * d) + (2 * m + x % 2);
      DivModUnique(x, 2 * d, q, 2 * m + x % 2);
    }
  }

  lemma DivModUnique(x: int, d: int, q: int, m: int)
    requires d > 0 && 0 <= m < d && x == q * d + m
    ensures x / d == q && x % d == m
  {
    var q0, m0 := x / d, x % d;
    MulDistributes(q, q0, d);
    if q > q0 {
      MulAtLeast(q - q0, d);
    } else if q < q0 {
      MulAtLeast(q0 - q, d);
    }
  }

  lemma MulDistributes(a: int, b: int, d: int)
    ensures (a - b) * d == a * d - b * d
  {
  }

  lemma MulAtLeast(t: int, d: int)
    requires t >= 1 && d > 0
    ensures t * d >= d
  {
  }

  lemma MulTwo(y: int, p: int)
    ensures y * (2 * p) == 2 * (y * p)
  {
  }

  /** Shifting left by m moves every bit up by m. */
  lemma {:induction false} ShiftBits(y: nat, k: nat, m: nat)
    ensures Aligned(y * Pow2(m), k + m) == Aligned(y, k)
    ensures Bit(y * Pow2(m), k + m) == Bit(y, k)
    ensures FlipBit(y * Pow2(m), k + m) == FlipBit(y, k) * Pow2(m)
  {
    if m > 0 {
      ShiftBits(y, k, m - 1);
      var p := Pow2(m - 1);
      var z := y * p;
      MulTwo(y, p);
      MulTwo(FlipBit(y, k), p);
      assert (2 * z) / 2 == z && (2 * z) % 2 == 0;
    }
  }

  /** ceil(log2(n)): the least r with n <= 2^r. */
  function CeilLog2(n: nat): (r: nat)
    requires n >= 1
    ensures n <= Pow2(r)
    ensures r == 0 || Pow2(r - 1) < n
  {
    if n == 1 then 0 else 1 + CeilLog2((n + 1) / 2)
  }

  /** Any r' with n <= 2^r' is at least CeilLog2(n). */
  lemma CeilLog2Least(n: nat, r': nat)
    requires n >= 1 && n <= Pow2(r')
    ensures CeilLog2(n) <= r'
  {
  }
}

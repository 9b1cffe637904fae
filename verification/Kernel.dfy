// The register stride (include/linux/regmap.h:498-505) and the bit arithmetic below it
// (include/linux/kernel.h:135-183).
module Kernel {
  import opened Arith

  function Pow2(k: nat): (r: nat)
    ensures r >= 1
  {
    if k == 0 then 1 else 2 * Pow2(k - 1)
  }

  lemma {:induction false} Pow2Add(a: nat, b: nat)
    ensures Pow2(a + b) == Pow2(a) * Pow2(b)
  {
    if a > 0 {
      Pow2Add(a - 1, b);
      Product(Pow2(a - 1), Pow2(b));
    }
  }

  lemma Product(p: nat, q: nat)
    ensures 2 * (p * q) == 2 * p * q
  {
  }

  lemma {:induction false} Pow2Less(a: nat, b: nat)
    requires a < b
    ensures 2 * Pow2(a) <= Pow2(b)
  {
    if a + 1 < b {
      Pow2Less(a, b - 1);
    }
  }

  lemma Powers()
    ensures Pow2(0) == 1 && Pow2(1) == 2 && Pow2(2) == 4 && Pow2(4) == 16 && Pow2(8) == 256
    ensures Pow2(16) == 65536 && Pow2(31) == 0x8000_0000
  {
    var p8 := Pow2(8);
    assert p8 == 256;
    Pow2Add(8, 8);
    Pow2Add(8, 7);
    Pow2Add(16, 15);
  }

  function Val(x: bv32): nat { x as int }

  // Shifting a clear top half, byte, nibble, pair or bit out multiplies the value, and
  // brings a bit of the non-zero rest into the next part that is looked at.
  lemma Shift16(x: bv32)
    requires x & 0xffff_0000 == 0
    ensures Val(x << 16) == Val(x) * 65536
  {
  }

  lemma Shift8(x: bv32)
    requires x & 0xff00_0000 == 0
    ensures Val(x << 8) == Val(x) * 256
  {
  }

  lemma Shift4(x: bv32)
    requires x & 0xf000_0000 == 0
    ensures Val(x << 4) == Val(x) * 16
  {
  }

  lemma Shift2(x: bv32)
    requires x & 0xc000_0000 == 0
    ensures Val(x << 2) == Val(x) * 4
  {
  }

  lemma Shift1(x: bv32)
    requires x & 0x8000_0000 == 0
    ensures Val(x << 1) == Val(x) * 2
  {
  }

  lemma Lift16(x: bv32)
    requires x != 0 && x & 0xffff_0000 == 0
    ensures (x << 16) & 0xffff_0000 != 0
  {
  }

  lemma Lift8(x: bv32)
    requires x & 0xffff_0000 != 0 && x & 0xff00_0000 == 0
    ensures (x << 8) & 0xff00_0000 != 0
  {
  }

  lemma Lift4(x: bv32)
    requires x & 0xff00_0000 != 0 && x & 0xf000_0000 == 0
    ensures (x << 4) & 0xf000_0000 != 0
  {
  }

  lemma Lift2(x: bv32)
    requires x & 0xf000_0000 != 0 && x & 0xc000_0000 == 0
    ensures (x << 2) & 0xc000_0000 != 0
  {
  }

  lemma Lift1(x: bv32)
    requires x & 0xc000_0000 != 0 && x & 0x8000_0000 == 0
    ensures (x << 1) & 0x8000_0000 != 0
  {
  }

  lemma TopBit(x: bv32)
    requires x & 0x8000_0000 != 0
    ensures Val(x) >= 0x8000_0000
  {
  }

  lemma BelowTwo32(x: bv32)
    ensures Val(x) < 0x1_0000_0000
  {
  }

  // The value has been multiplied once for every position taken off r.
  ghost predicate Shifted(v0: nat, v: nat, r: nat)
  {
    r <= 32 && v == v0 * Pow2(32 - r)
  }

  lemma ShiftBy(v0: nat, v: nat, r: nat, s: nat)
    requires Shifted(v0, v, r) && s <= r
    ensures Shifted(v0, v * Pow2(s), r - s)
  {
    Pow2Add(32 - r, s);
    Associate(v0, Pow2(32 - r), Pow2(s));
  }

  lemma Associate(a: nat, b: nat, c: nat)
    ensures a * b * c == a * (b * c)
  {
  }

  lemma Times(a: nat, b: nat, p: nat)
    requires a < b
    ensures a * p + p <= b * p
  {
    MulAtLeast(b - a, p);
    Distribute(b, a, p);
  }

  lemma ScaleDown(x: nat, p: nat, m: nat)
    requires p > 0 && m * p <= x * p < 2 * (m * p)
    ensures m <= x < 2 * m
  {
    if x < m {
      Times(x, m, p);
    }
    if x > 2 * m {
      Times(2 * m, x, p);
    }
    Product(m, p);
  }

  lemma HighestBit(v0: nat, v: nat, r: nat)
    requires Shifted(v0, v, r) && 1 <= r && 0x8000_0000 <= v < 0x1_0000_0000
    ensures Pow2(r - 1) <= v0 < Pow2(r)
  {
    Powers();
    Pow2Add(r - 1, 32 - r);
    ScaleDown(v0, Pow2(32 - r), Pow2(r - 1));
  }

  // fls: the position, counted from one, of the highest bit that is set.
  method Fls(x0: bv32) returns (r: nat)
    ensures x0 == 0 ==> r == 0
    ensures x0 != 0 ==> 1 <= r <= 32 && Pow2(r - 1) <= Val(x0) < Pow2(r)
  {
    hide Val, Shifted, Pow2;
    if x0 == 0 {
      return 0;
    }
    Powers();
    var x := x0;
    r := 32;
    Unshifted(Val(x0));
    if x & 0xffff_0000 == 0 {
      Lift16(x);
      Shift16(x);
      ShiftBy(Val(x0), Val(x), r, 16);
      x := x << 16;
      r := r - 16;
    } else {
      assert x & 0xffff_0000 != 0;
    }
    if x & 0xff00_0000 == 0 {
      Lift8(x);
      Shift8(x);
      ShiftBy(Val(x0), Val(x), r, 8);
      x := x << 8;
      r := r - 8;
    }
    if x & 0xf000_0000 == 0 {
      Lift4(x);
      Shift4(x);
      ShiftBy(Val(x0), Val(x), r, 4);
      x := x << 4;
      r := r - 4;
    }
    if x & 0xc000_0000 == 0 {
      Lift2(x);
      Shift2(x);
      ShiftBy(Val(x0), Val(x), r, 2);
      x := x << 2;
      r := r - 2;
    }
    if x & 0x8000_0000 == 0 {
      Lift1(x);
      Shift1(x);
      ShiftBy(Val(x0), Val(x), r, 1);
      x := x << 1;
      r := r - 1;
    }
    TopBit(x);
    BelowTwo32(x);
    HighestBit(Val(x0), Val(x), r);
  }

  lemma Unshifted(v: nat)
    ensures Shifted(v, v, 32)
  {
  }

  predicate IsPowerOf2(n: bv32)
  {
    n != 0 && n & (n - 1) == 0
  }

  // A value between two powers of two is a power of two only if it is the lower one.
  lemma Between(v: nat, k: nat, j: nat)
    requires Pow2(k) <= v < Pow2(k + 1) && v == Pow2(j)
    ensures j == k
  {
    if j < k {
      Pow2Less(j, k);
    }
    if j > k + 1 {
      Pow2Less(k + 1, j);
    }
  }

  lemma HalfPower(n: bv32)
    requires IsPowerOf2(n) && n != 1
    ensures IsPowerOf2(n >> 1)
  {
  }

  lemma HalfTwice(n: bv32)
    requires IsPowerOf2(n) && n != 1
    ensures (n >> 1) << 1 == n
  {
  }

  lemma HalfSmall(n: bv32)
    ensures (n >> 1) & 0x8000_0000 == 0
  {
  }

  lemma TwicePower(n: bv32)
    requires IsPowerOf2(n) && n & 0x8000_0000 == 0
    ensures IsPowerOf2(n << 1)
  {
  }

  lemma ValZero(n: bv32)
    ensures Val(n) == 0 <==> n == 0
  {
  }

  lemma {:induction false} PowerHasExponent(n: bv32) returns (k: nat)
    requires IsPowerOf2(n)
    ensures k < 32 && Val(n) == Pow2(k)
    decreases Val(n)
  {
    Powers();
    if n == 1 {
      k := 0;
    } else {
      HalfPower(n);
      HalfTwice(n);
      HalfSmall(n);
      Shift1(n >> 1);
      ValZero(n);
      hide Val, IsPowerOf2;
      var j := PowerHasExponent(n >> 1);
      k := j + 1;
      BelowTwo32(n);
      if k > 31 {
        Pow2Less(31, k);
      }
    }
  }

  lemma {:induction false} ExponentHasPower(k: nat) returns (n: bv32)
    requires k < 32
    ensures IsPowerOf2(n) && Val(n) == Pow2(k)
  {
    if k == 0 {
      n := 1;
    } else {
      n := ExponentHasPower(k - 1);
      hide Val, IsPowerOf2;
      Powers();
      if n & 0x8000_0000 != 0 {
        TopBit(n);
        if k - 1 < 31 {
          Pow2Less(k - 1, 31);
        }
      }
      Shift1(n);
      TwicePower(n);
      n := n << 1;
    }
  }

  lemma FromVal(a: bv32)
    ensures Val(a) < 0x1_0000_0000 && Val(a) as bv32 == a
  {
  }

  lemma ValInjective(a: bv32, b: bv32)
    requires Val(a) == Val(b)
    ensures a == b
  {
    hide Val;
    FromVal(a);
    FromVal(b);
  }

  // is_power_of_2 holds exactly for the powers of two.
  lemma PowersOf2(n: bv32)
    ensures IsPowerOf2(n) <==> exists k: nat :: k < 32 && Val(n) == Pow2(k)
  {
    hide Val, IsPowerOf2, Pow2;
    if IsPowerOf2(n) {
      var k := PowerHasExponent(n);
    } else if k: nat :| k < 32 && Val(n) == Pow2(k) {
      var m := ExponentHasPower(k);
      ValInjective(m, n);
      assert false;
    }
  }

  // IS_ALIGNED.
  predicate IsAligned(x: bv32, a: bv32)
  {
    x & (a - 1) == 0
  }

  lemma HalfOfEven(x: bv32)
    requires x & 1 == 0
    ensures (x >> 1) << 1 == x
  {
  }

  lemma HalfOfOdd(x: bv32)
    requires x & 1 != 0
    ensures ((x >> 1) << 1) | 1 == x
  {
  }

  lemma OddVal(x: bv32)
    ensures Val(((x >> 1) << 1) | 1) == 2 * Val(x >> 1) + 1
  {
  }

  // The last bit is the remainder by two.
  lemma LastBit(x: bv32)
    ensures Val(x) == 2 * Val(x >> 1) + if x & 1 == 0 then 0 else 1
  {
    hide Val;
    if x & 1 == 0 {
      HalfOfEven(x);
      HalfSmall(x);
      Shift1(x >> 1);
    } else {
      HalfOfOdd(x);
      OddVal(x);
    }
  }

  lemma HalfAligned(x: bv32, a: bv32)
    requires IsPowerOf2(a) && a & 0x8000_0000 == 0
    ensures IsAligned(x, a << 1) <==> x & 1 == 0 && IsAligned(x >> 1, a)
  {
  }

  lemma TwiceMultiple(u: nat, v: nat, r: nat)
    requires v > 0 && r <= 1
    ensures (2 * u + r) % (2 * v) == 0 <==> r == 0 && u % v == 0
  {
    var q, s := u / v, u % v;
    assert u == q * v + s;
    Product(q, v);
    Swap(q, v);
    ModOf(2 * u + r, q, 2 * v, 2 * s + r);
  }

  lemma Swap(q: nat, v: nat)
    ensures q * (2 * v) == 2 * (q * v)
  {
  }

  lemma AlignedToOne(x: bv32)
    ensures IsAligned(x, 1) && Val(1) == 1
  {
  }

  // On a power of two, the alignment test is divisibility.
  lemma {:induction false} AlignedDivides(x: bv32, a: bv32)
    requires IsPowerOf2(a)
    ensures Val(a) > 0 && (IsAligned(x, a) <==> Val(x) % Val(a) == 0)
    decreases Val(a)
  {
    hide Val, IsAligned, IsPowerOf2;
    if a == 1 {
      AlignedToOne(x);
    } else {
      var b := a >> 1;
      HalfPower(a);
      HalfTwice(a);
      HalfSmall(a);
      Shift1(b);
      PowerNotZero(b);
      ValZero(b);
      AlignedDivides(x >> 1, b);
      HalfAligned(x, b);
      LastBit(x);
      TwiceMultiple(Val(x >> 1), Val(b), if x & 1 == 0 then 0 else 1);
    }
  }

  // An int passed as unsigned long: the sign bit fills the upper half.
  function ToLong(x: bv32): bv64
  {
    if x & 0x8000_0000 != 0 then 0xffff_ffff_0000_0000 | (x as bv64) else x as bv64
  }

  predicate LongIsPowerOf2(n: bv64)
  {
    n != 0 && n & (n - 1) == 0
  }

  // Seen as unsigned long, no negative int is a power of two.
  lemma LongPower(x: bv32)
    ensures LongIsPowerOf2(ToLong(x)) <==> x & 0x8000_0000 == 0 && IsPowerOf2(x)
  {
  }

  lemma SignBit(x: bv32)
    ensures x & 0x8000_0000 == 0 <==> Val(x) < 0x8000_0000
  {
  }

  // The register stride and its order as __regmap_init sets them, for every int.
  method InitStride(regStride: bv32) returns (stride: bv32, order: int)
    ensures stride == if regStride != 0 then regStride else 1
    ensures order >= 0 <==> exists k: nat :: k < 31 && Val(stride) == Pow2(k)
    ensures order >= 0 ==> Val(stride) == Pow2(order)
    ensures order >= 0 ==> forall reg :: IsAligned(reg, stride) <==> Val(reg) % Pow2(order) == 0
    ensures order < 0 ==> order == -1
  {
    hide Val, Pow2, IsPowerOf2, LongIsPowerOf2, ToLong, IsAligned;
    if regStride != 0 {
      stride := regStride;
    } else {
      stride := 1;
    }
    LongPower(stride);
    StrideIsPower(stride);
    if LongIsPowerOf2(ToLong(stride)) {
      var r := Fls(stride);
      PowerNotZero(stride);
      var k := PowerHasExponent(stride);
      Between(Val(stride), r - 1, k);
      order := r - 1;
      forall reg
        ensures IsAligned(reg, stride) <==> Val(reg) % Pow2(order) == 0
      {
        AlignedDivides(reg, stride);
      }
    } else {
      order := -1;
    }
  }

  lemma StrideIsPower(n: bv32)
    ensures n & 0x8000_0000 == 0 && IsPowerOf2(n) <==> exists k: nat :: k < 31 && Val(n) == Pow2(k)
  {
    hide Val, IsPowerOf2, Pow2;
    PowersOf2(n);
    SignBit(n);
    Powers();
    if n & 0x8000_0000 == 0 && IsPowerOf2(n) {
      var k: nat :| k < 32 && Val(n) == Pow2(k);
      assert k != 31;
    } else if k: nat :| k < 31 && Val(n) == Pow2(k) {
      Pow2Less(k, 31);
    }
  }

  lemma PowerNotZero(n: bv32)
    requires IsPowerOf2(n)
    ensures n != 0
  {
  }
}

/** Machine-word arithmetic: what the source's masks, shifts and bit tests mean on numbers. */
module Bits {

  type byte = b: int | 0 <= b < 256

  function Pow2(k: nat): (r: nat)
    ensures r >= 1
  {
    if k == 0 then 1 else 2 * Pow2(k - 1)
  }

  predicate IsPow2(a: nat) {
    a == 1 || (a > 1 && a % 2 == 0 && IsPow2(a / 2))
  }

  /** Bitwise and, one binary digit at a time. */
  function And(x: nat, y: nat): nat {
    if x == 0 || y == 0 then 0
    else (if x % 2 == 1 && y % 2 == 1 then 1 else 0) + 2 * And(x / 2, y / 2)
  }

  /** Bitwise or, one binary digit at a time. */
  function Or(x: nat, y: nat): nat {
    if x == 0 then y
    else (if x % 2 == 1 || y % 2 == 1 then 1 else 0) + 2 * Or(x / 2, y / 2)
  }

  /** `v` rounded down to a multiple of `a`; also for negative `v`. */
  function FloorTo(v: int, a: nat): (r: int)
    requires a > 0
    ensures r <= v < r + a && r % a == 0
  {
    DivFacts(v, a);
    v - v % a
  }

  /** `(v + (a - 1)) & !(a - 1)` for a power of two `a`. */
  function AlignUp(v: int, a: nat): (r: int)
    requires a > 0
    ensures v <= r < v + a && r % a == 0
  {
    FloorTo(v + (a - 1), a)
  }

  /** Aligning a multiple of `a` changes nothing. */
  lemma AlignedFixed(v: int, a: nat)
    requires a > 0 && v % a == 0
    ensures AlignUp(v, a) == v
  {
    var r := AlignUp(v, a);
    assert r == a * (r / a) && v == a * (v / a);
    assert a * (r / a - v / a) == r - v;
    SmallMultiple(a, r / a - v / a);
  }

  lemma DivFacts(v: int, a: nat)
    requires a > 0
    ensures (v - v % a) % a == 0
  {
    assert v - v % a == a * (v / a);
    MultipleMod(v / a, a);
  }

  lemma MultipleMod(q: int, a: nat)
    requires a > 0
    ensures (a * q) % a == 0
  {
    DivUnique(a * q, a, q, 0);
  }

  lemma DivUnique(v: int, a: nat, q: int, r: int)
    requires a > 0 && v == a * q + r && 0 <= r < a
    ensures v % a == r && v / a == q
  {
    assert a * (q - v / a) == v % a - r;
    SmallMultiple(a, q - v / a);
  }

  lemma SmallMultiple(a: nat, n: int)
    requires -1 * a < a * n < a
    ensures n == 0
  {
    if n >= 1 {
      MulAtLeast(a, n);
    } else if n <= -1 {
      MulAtLeast(a, -n);
    }
  }

  lemma MulAtLeast(a: nat, n: int)
    requires n >= 1
    ensures a * n >= a
  {
  }

  lemma {:induction false} Pow2IsPow2(a: nat) returns (k: nat)
    requires IsPow2(a)
    ensures a == Pow2(k)
  {
    if a == 1 {
      k := 0;
    } else {
      var j := Pow2IsPow2(a / 2);
      k := j + 1;
    }
  }

  lemma AndUnfold(v: nat, y: nat)
    ensures And(v, y) == (if v % 2 == 1 && y % 2 == 1 then 1 else 0) + 2 * And(v / 2, y / 2)
  {
  }

  /** Masking with `2^k - 1` keeps the remainder modulo `2^k`. */
  lemma {:induction false} AndLow(v: nat, k: nat)
    ensures And(v, Pow2(k) - 1) == v % Pow2(k)
  {
    if k > 0 {
      var p := Pow2(k - 1);
      AndLow(v / 2, k - 1);
      HalfMod(v, p);
      AndUnfold(v, 2 * p - 1);
      assert (2 * p - 1) / 2 == p - 1;
    }
  }

  lemma HalfMod(v: nat, p: nat)
    requires p > 0
    ensures v % (2 * p) == v % 2 + 2 * ((v / 2) % p)
  {
    var h := v / 2;
    var q := h / p;
    var r := v % 2 + 2 * (h % p);
    assert v == (2 * p) * q + r by {
      assert h == p * q + h % p;
    }
    DivUnique(v, 2 * p, q, r);
  }

  /** Masking a `w`-bit word with the complement of `2^k - 1` rounds down to a multiple of `2^k`. */
  lemma {:induction false} AndHigh(v: nat, k: nat, w: nat)
    requires v < Pow2(w) && k <= w
    ensures Pow2(k) <= Pow2(w)
    ensures And(v, Pow2(w) - Pow2(k)) == v - v % Pow2(k)
  {
    if k == 0 {
      AndLow(v, w);
      SmallMod(v, Pow2(w));
    } else {
      var p, q := Pow2(k - 1), Pow2(w - 1);
      AndHigh(v / 2, k - 1, w - 1);
      AndDouble(v, q - p);
      HalfFloor(v, p);
    }
  }

  lemma AndDouble(v: nat, y: nat)
    ensures And(v, 2 * y) == 2 * And(v / 2, y)
  {
    AndUnfold(v, 2 * y);
    DivUnique(2 * y, 2, y, 0);
  }

  lemma HalfFloor(v: nat, p: nat)
    requires p > 0
    ensures v - v % (2 * p) == 2 * (v / 2 - (v / 2) % p)
  {
    HalfMod(v, p);
  }

  lemma SmallMod(v: nat, p: nat)
    requires v < p
    ensures v % p == v
  {
  }

  /** Or-ing a value shifted left by `k` with a `k`-bit value adds them. */
  lemma {:induction false} OrShifted(x: nat, y: nat, k: nat)
    requires y < Pow2(k)
    ensures Or(x * Pow2(k), y) == x * Pow2(k) + y
  {
    if x == 0 {
    } else if k == 0 {
      OrZero(x);
    } else {
      var p := Pow2(k - 1);
      assert x * Pow2(k) == 2 * (x * p);
      assert x * p > 0;
      OrShifted(x, y / 2, k - 1);
    }
  }

  lemma {:induction false} OrZero(x: nat)
    ensures Or(x, 0) == x
  {
    if x > 0 { OrZero(x / 2); }
  }

  const TWO63: int := 0x8000_0000_0000_0000

  lemma Pow2At63()
    ensures Pow2(63) == TWO63 && Pow2(64) == 2 * TWO63
  {
    assert Pow2(16) == 0x1_0000;
    Pow2Sum(16, 16);
    Pow2Sum(32, 16);
    assert Pow2(48) == 0x1_0000_0000_0000;
    assert Pow2(15) == 0x8000;
    Pow2Sum(48, 15);
  }

  lemma {:induction false} Pow2Sum(j: nat, k: nat)
    ensures Pow2(j + k) == Pow2(j) * Pow2(k)
  {
    if k > 0 {
      Pow2Sum(j, k - 1);
      assert Pow2(j) * (2 * Pow2(k - 1)) == 2 * (Pow2(j) * Pow2(k - 1));
    }
  }

  /** The bits of a 64-bit two's-complement integer. */
  function Encode64(v: int): (r: nat)
    requires -TWO63 <= v < TWO63
    ensures r < 2 * TWO63
  {
    if v >= 0 then v else v + 2 * TWO63
  }

  /** `v & !(a - 1)` on a 64-bit signed integer is `FloorTo(v, a)`, for every power of two `a`. */
  lemma MaskIsFloor(v: int, a: nat)
    requires IsPow2(a) && a <= TWO63
    requires -TWO63 <= v < TWO63
    ensures -TWO63 <= FloorTo(v, a) < TWO63
    ensures And(Encode64(v), 2 * TWO63 - a) == Encode64(FloorTo(v, a))
  {
    var k := Pow2IsPow2(a);
    Pow2At63();
    var q := Pow2Multiple(k, 63);
    AndHigh(Encode64(v), k, 64);
    EncodeFloor(v, a, q);
  }

  /** The integer a 64-bit pattern stands for. */
  function Decode64(n: nat): int { if n < TWO63 then n else n - 2 * TWO63 }

  /** `v & !(a - 1)` on an `isize`. */
  method MaskSigned(v: int, a: nat) returns (r: int)
    requires IsPow2(a) && a <= TWO63 && -TWO63 <= v < TWO63
    ensures -TWO63 <= r == FloorTo(v, a)
  {
    MaskIsFloor(v, a);
    r := Decode64(And(Encode64(v), 2 * TWO63 - a));
  }

  /** `v & !(a - 1)` on a `usize`. */
  method MaskUnsigned(v: nat, a: nat) returns (r: nat)
    requires IsPow2(a) && a <= TWO63 && v < 2 * TWO63
    ensures r == FloorTo(v, a)
  {
    UnsignedMaskIsFloor(v, a);
    r := And(v, 2 * TWO63 - a);
  }

  lemma UnsignedMaskIsFloor(v: nat, a: nat)
    requires IsPow2(a) && a <= TWO63 && v < 2 * TWO63
    ensures a > 0 && And(v, 2 * TWO63 - a) == FloorTo(v, a)
  {
    var k := Pow2IsPow2(a);
    Pow2At63();
    var q := Pow2Multiple(k, 63);
    AndHigh(v, k, 64);
  }

  const PAGE: nat := 4096

  lemma PageIsPow2()
    ensures IsPow2(PAGE)
  {
    assert IsPow2(16);
    assert IsPow2(256);
  }

  /** `v & !4095` on an `isize`. */
  method PageMask(v: int) returns (r: int)
    requires -TWO63 <= v < TWO63
    ensures r == FloorTo(v, PAGE)
  {
    PageIsPow2();
    r := MaskSigned(v, PAGE);
  }

  /** A positive multiple of `a` is at least `a`. */
  lemma MultipleAtLeast(r: int, a: nat)
    requires a > 0 && r > 0 && r % a == 0
    ensures r >= a
  {
    if r < a { SmallMod(r, a); }
  }

  /** Rounding down commutes with the encoding, as `a` divides 2^63. */
  lemma EncodeFloor(v: int, a: nat, q: nat)
    requires a > 0 && TWO63 == a * q && -TWO63 <= v < TWO63
    ensures -TWO63 <= FloorTo(v, a)
    ensures Encode64(v) - Encode64(v) % a == Encode64(FloorTo(v, a))
  {
    if v < 0 {
      assert a * (2 * q) == 2 * TWO63;
      ModShift(v, a, 2 * q);
      FloorAbove(v, a, q);
    } else {
      ModAtMost(v, a);
    }
  }

  lemma FloorAbove(v: int, a: nat, q: nat)
    requires a > 0 && v >= -1 * (a * q)
    ensures FloorTo(v, a) >= -1 * (a * q)
  {
    ModShift(v, a, q);
    assert (v + a * q) % a <= v + a * q by { ModAtMost(v + a * q, a); }
  }

  lemma ModAtMost(x: nat, a: nat)
    requires a > 0
    ensures x % a <= x
  {
    if x < a { SmallMod(x, a); }
  }

  lemma ModShift(v: int, a: nat, q: int)
    requires a > 0
    ensures (v + a * q) % a == v % a
  {
    assert v + a * q == a * (v / a + q) + v % a;
    DivUnique(v + a * q, a, v / a + q, v % a);
  }

  lemma {:induction false} Pow2Mono(j: nat, k: nat)
    requires j <= k
    ensures Pow2(j) <= Pow2(k)
  {
    if j < k { Pow2Mono(j, k - 1); }
  }

  lemma {:induction false} Pow2Multiple(j: nat, k: nat) returns (q: nat)
    requires Pow2(j) <= Pow2(k)
    ensures j <= k && Pow2(k) == Pow2(j) * q
  {
    if j > k {
      Pow2Mono(k + 1, j);
    } else if j < k {
      Pow2Mono(j, k - 1);
      var h := Pow2Multiple(j, k - 1);
      q := 2 * h;
      assert Pow2(j) * (2 * h) == 2 * (Pow2(j) * h);
    } else {
      q := 1;
    }
  }
}

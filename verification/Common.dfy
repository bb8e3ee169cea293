/** Machine integers, the 64-bit hash and the power-of-two rounding of src/core/common.c. */
module Common {

  datatype Option<+T> = None | Some(value: T)

  const WORD32: int := 0x1_0000_0000
  const WORD64: int := 0x1_0000_0000_0000_0000

  type Uint32 = x: int | 0 <= x < 0x1_0000_0000
  type Uint64 = x: int | 0 <= x < 0x1_0000_0000_0000_0000

  /** DSIM_INVALID_INDEX: the end of a chain, and "not found". */
  const INVALID: Uint32 := 0xFFFF_FFFF

  function Min(a: int, b: int): int { if a < b then a else b }

  function Max(a: int, b: int): int { if a > b then a else b }

  // ---------- Bits of naturals ----------

  function Pow2(n: nat): (p: nat)
    ensures p >= 1
  {
    if n == 0 then 1 else 2 * Pow2(n - 1)
  }

  /** The shift `a >> n` on naturals. */
  function Shr(a: nat, n: nat): (r: nat)
    ensures r <= a
  {
    if n == 0 then a else Shr(a / 2, n - 1)
  }

  /** The bitwise `a | b` on naturals. */
  function Or(a: nat, b: nat): nat {
    if a == 0 && b == 0 then 0
    else 2 * Or(a / 2, b / 2) + (if a % 2 == 1 || b % 2 == 1 then 1 else 0)
  }

  /** The bitwise `a ^ b` on naturals. */
  function Xor(a: nat, b: nat): nat {
    if a == 0 && b == 0 then 0
    else 2 * Xor(a / 2, b / 2) + (if a % 2 != b % 2 then 1 else 0)
  }

  lemma XorStep(a: nat, b: nat)
    ensures Xor(a, b) / 2 == Xor(a / 2, b / 2)
    ensures Xor(a, b) % 2 == if a % 2 != b % 2 then 1 else 0
  {
  }

  lemma OrStep(a: nat, b: nat)
    ensures Or(a, b) / 2 == Or(a / 2, b / 2)
    ensures Or(a, b) % 2 == if a % 2 == 1 || b % 2 == 1 then 1 else 0
  {
  }

  lemma {:induction false} XorAssociative(a: nat, b: nat, c: nat)
    ensures Xor(Xor(a, b), c) == Xor(a, Xor(b, c))
    decreases a + b + c
  {
    if a + b + c > 0 {
      XorAssociative(a / 2, b / 2, c / 2);
      XorStep(a, b);
      XorStep(b, c);
      XorStep(Xor(a, b), c);
      XorStep(a, Xor(b, c));
    }
  }

  lemma {:induction false} XorUnits(a: nat)
    ensures Xor(a, 0) == a == Xor(0, a)
    ensures Xor(a, a) == 0
  {
    if a > 0 {
      XorUnits(a / 2);
    }
  }

  lemma {:induction false} ShrXor(a: nat, b: nat, n: nat)
    ensures Shr(Xor(a, b), n) == Xor(Shr(a, n), Shr(b, n))
  {
    if n > 0 {
      XorStep(a, b);
      ShrXor(a / 2, b / 2, n - 1);
    }
  }

  lemma {:induction false} ShrAdds(a: nat, m: nat, n: nat)
    ensures Shr(Shr(a, m), n) == Shr(a, m + n)
  {
    if m > 0 {
      ShrAdds(a / 2, m - 1, n);
    }
  }

  lemma {:induction false} ShrVanishes(a: nat, n: nat)
    requires a < Pow2(n)
    ensures Shr(a, n) == 0
  {
    if n > 0 {
      ShrVanishes(a / 2, n - 1);
    }
  }

  lemma {:induction false} XorBound(a: nat, b: nat, n: nat)
    requires a < Pow2(n) && b < Pow2(n)
    ensures Xor(a, b) < Pow2(n)
  {
    if n > 0 {
      XorBound(a / 2, b / 2, n - 1);
    }
  }

  lemma {:induction false} Pow2Adds(a: nat, b: nat)
    ensures Pow2(a + b) == Pow2(a) * Pow2(b)
  {
    if a > 0 {
      Pow2Adds(a - 1, b);
    }
  }

  lemma Pow2Width(w: nat)
    requires w == 64
    ensures Pow2(w - 1) == 0x8000_0000_0000_0000
    ensures Pow2(w) == WORD64
  {
    var n := w / 64;
    assert Pow2(n) == 2 * Pow2(n - 1) == 2;
    Doubles(n, 2);
    Doubles(2 * n, 4);
    Doubles(4 * n, 16);
    Doubles(8 * n, 256);
    Doubles(16 * n, 0x1_0000);
    Doubles(32 * n, 0x1_0000_0000);
  }

  lemma Doubles(n: nat, p: nat)
    requires Pow2(n) == p
    ensures Pow2(2 * n) == p * p
  {
    Pow2Adds(n, n);
  }

  lemma XorStaysInWord(a: Uint64, b: Uint64)
    ensures Xor(a, b) < WORD64
  {
    var w := 64;
    Pow2Width(w);
    XorBound(a, b, w);
  }

  // ---------- dsim_hash64 ----------

  /** The source line `key ^= key >> s`. */
  function XorShift(key: Uint64, s: nat): Uint64 {
    XorStaysInWord(key, Shr(key, s));
    Xor(key, Shr(key, s))
  }

  /** The source line `key *= c`, wrapping at 64 bits. */
  function Times(key: Uint64, c: Uint64): Uint64 {
    (key * c) % WORD64
  }

  function Hash64(key: Uint64): Uint64 {
    var k1 := Times(XorShift(key, 30), 0xbf58476d1ce4e5b9);
    var k2 := Times(XorShift(k1, 27), 0x94d049bb133111eb);
    XorShift(k2, 31)
  }

  /** Undoes XorShift for shifts that reach the word width in three steps. */
  function UndoXorShift(h: Uint64, s: nat): Uint64 {
    XorStaysInWord(h, Shr(h, s));
    XorStaysInWord(Xor(h, Shr(h, s)), Shr(h, 2 * s));
    Xor(Xor(h, Shr(h, s)), Shr(h, 2 * s))
  }

  /** Undoes Hash64: the steps backwards, with the modular inverses of its two constants. */
  function Unhash64(h: Uint64): Uint64 {
    var k2 := Times(UndoXorShift(h, 31), 0x319642b2d24d8ec3);
    var k1 := Times(UndoXorShift(k2, 27), 0x96de1b173f119089);
    UndoXorShift(k1, 30)
  }

  lemma UndoesXorShift(x: Uint64, s: nat)
    requires 3 * s >= 64
    ensures UndoXorShift(XorShift(x, s), s) == x
    ensures XorShift(UndoXorShift(x, s), s) == x
  {
    hide Xor, Shr;
    var a, b, c := Shr(x, s), Shr(x, 2 * s), Shr(x, 3 * s);
    ShrAdds(x, s, s);
    ShrAdds(x, s, 2 * s);
    ShrAdds(x, 2 * s, s);
    ShrVanishesAtWidth(x, 3 * s);
    ShrXor(x, a, s);
    ShrXor(x, a, 2 * s);
    ShrXor(Xor(x, a), b, s);
    assert XorShift(x, s) == Xor(x, a);
    assert UndoXorShift(XorShift(x, s), s) == Xor(Xor(Xor(x, a), Xor(a, b)), Xor(b, c));
    assert XorShift(UndoXorShift(x, s), s) == Xor(Xor(Xor(x, a), b), Xor(Xor(a, b), c));
    Telescopes(x, a, b);
  }

  lemma ShrVanishesAtWidth(x: Uint64, n: nat)
    requires n >= 64
    ensures Shr(x, n) == 0
  {
    var w := 64;
    Pow2Width(w);
    ShrVanishes(x, w);
    ShrAdds(x, w, n - w);
    ShrVanishes(0, n - w);
  }

  lemma Telescopes(x: nat, a: nat, b: nat)
    ensures Xor(Xor(Xor(x, a), Xor(a, b)), Xor(b, 0)) == x
    ensures Xor(Xor(Xor(x, a), b), Xor(Xor(a, b), 0)) == x
  {
    XorAssociative(x, a, Xor(a, b));
    XorAssociative(a, a, b);
    XorAssociative(x, b, b);
    XorAssociative(x, a, b);
    XorAssociative(x, Xor(a, b), Xor(a, b));
    XorUnits(a);
    XorUnits(b);
    XorUnits(x);
    XorUnits(Xor(a, b));
  }

  lemma Rearrange(x: int, c: int, inv: int, q: int, k: int, y: int)
    requires x * c == q * WORD64 + y
    requires c * inv == k * WORD64 + 1
    ensures y * inv == x + WORD64 * (x * k - q * inv)
  {
    assert (x * c) * inv == x * (c * inv);
    assert (q * WORD64 + y) * inv == q * inv * WORD64 + y * inv;
    assert x * (k * WORD64 + 1) == x * k * WORD64 + x;
  }

  lemma ModOfSum(x: Uint64, m: int)
    ensures (x + WORD64 * m) % WORD64 == x
  {
  }

  lemma UndoesTimes(x: Uint64, c: Uint64, inv: Uint64)
    requires (c * inv) % WORD64 == 1
    ensures Times(Times(x, c), inv) == x
  {
    var q := (x * c) / WORD64;
    var k := (c * inv) / WORD64;
    var y := Times(x, c);
    assert y * inv == x + WORD64 * (x * k - q * inv) by {
      Rearrange(x, c, inv, q, k, y);
    }
    ModOfSum(x, x * k - q * inv);
  }

  /** Hash64 is a bijection on 64-bit words. */
  lemma HashIsBijection(x: Uint64)
    ensures Unhash64(Hash64(x)) == x
    ensures Hash64(Unhash64(x)) == x
  {
    hide Times, XorShift, UndoXorShift;
    UndoesXorShift(x, 30);
    var k1 := Times(XorShift(x, 30), 0xbf58476d1ce4e5b9);
    UndoesTimes(XorShift(x, 30), 0xbf58476d1ce4e5b9, 0x96de1b173f119089);
    UndoesXorShift(k1, 27);
    UndoesTimes(XorShift(k1, 27), 0x94d049bb133111eb, 0x319642b2d24d8ec3);
    UndoesXorShift(Times(XorShift(k1, 27), 0x94d049bb133111eb), 31);

    UndoesXorShift(x, 31);
    var u2 := Times(UndoXorShift(x, 31), 0x319642b2d24d8ec3);
    UndoesTimes(UndoXorShift(x, 31), 0x319642b2d24d8ec3, 0x94d049bb133111eb);
    UndoesXorShift(u2, 27);
    UndoesTimes(UndoXorShift(u2, 27), 0x96de1b173f119089, 0xbf58476d1ce4e5b9);
    UndoesXorShift(Times(UndoXorShift(u2, 27), 0x96de1b173f119089), 30);
  }

  // ---------- dsim_next_pow_2 ----------

  /** The source line `value |= value >> s`. */
  function OrShift(v: nat, s: nat): nat {
    Or(v, Shr(v, s))
  }

  /** dsim_next_pow_2, with its 64-bit wrap-around on both ends. */
  function NextPow2(value: Uint64): Uint64 {
    var v0 := if value == 0 then WORD64 - 1 else value - 1;
    var v6 := OrShift(OrShift(OrShift(OrShift(OrShift(OrShift(v0, 1), 2), 4), 8), 16), 32);
    (v6 + 1) % WORD64
  }

  ghost predicate IsPow2(p: nat) {
    exists n: nat :: p == Pow2(n)
  }

  /** v | v>>1 | ... | v>>(s-1). */
  function Smear(v: nat, s: nat): nat
    requires s >= 1
  {
    if s == 1 then v else Or(v, Smear(v / 2, s - 1))
  }

  lemma {:induction false} OrAssociative(a: nat, b: nat, c: nat)
    ensures Or(Or(a, b), c) == Or(a, Or(b, c))
    decreases a + b + c
  {
    if a + b + c > 0 {
      OrAssociative(a / 2, b / 2, c / 2);
      OrStep(a, b);
      OrStep(b, c);
      OrStep(Or(a, b), c);
      OrStep(a, Or(b, c));
    }
  }

  lemma {:induction false} ShrOr(a: nat, b: nat, n: nat)
    ensures Shr(Or(a, b), n) == Or(Shr(a, n), Shr(b, n))
  {
    if n > 0 {
      OrStep(a, b);
      ShrOr(a / 2, b / 2, n - 1);
    }
  }

  lemma {:induction false} ShrHalf(a: nat, n: nat)
    ensures Shr(a, n) / 2 == Shr(a / 2, n)
  {
    if n > 0 {
      ShrHalf(a / 2, n - 1);
    }
  }

  lemma {:induction false} ShrSmear(v: nat, s: nat, n: nat)
    requires s >= 1
    ensures Shr(Smear(v, s), n) == Smear(Shr(v, n), s)
  {
    if s > 1 {
      ShrOr(v, Smear(v / 2, s - 1), n);
      ShrSmear(v / 2, s - 1, n);
      ShrHalf(v, n);
    }
  }

  lemma {:induction false} SmearSplit(v: nat, a: nat, b: nat)
    requires a >= 1 && b >= 1
    ensures Smear(v, a + b) == Or(Smear(v, a), Smear(Shr(v, a), b))
  {
    if a == 1 {
      assert Shr(v, 1) == Shr(v / 2, 0) == v / 2;
    } else {
      SmearSplit(v / 2, a - 1, b);
      OrAssociative(v, Smear(v / 2, a - 1), Smear(Shr(v, a), b));
    }
  }

  /** One source line `value |= value >> s` doubles the smear. */
  lemma SmearDoubles(v: nat, s: nat)
    requires s >= 1
    ensures OrShift(Smear(v, s), s) == Smear(v, 2 * s)
  {
    ShrSmear(v, s, s);
    SmearSplit(v, s, s);
  }

  /** Smearing over the whole width turns v into ones up to its highest set bit. */
  lemma {:induction false} SmearFills(v: nat, s: nat) returns (n: nat)
    requires s >= 1 && v < Pow2(s)
    ensures n <= s && Smear(v, s) == Pow2(n) - 1 && v < Pow2(n)
    ensures n > 0 ==> v >= Pow2(n - 1)
  {
    if v == 0 {
      n := 0;
      SmearZero(s);
    } else if s == 1 {
      n := 1;
      assert Pow2(1) == 2 * Pow2(0);
    } else {
      var m := SmearFills(v / 2, s - 1);
      n := m + 1;
      OrOnes(v, m);
    }
  }

  lemma {:induction false} SmearZero(s: nat)
    requires s >= 1
    ensures Smear(0, s) == 0
  {
    if s > 1 {
      SmearZero(s - 1);
    }
  }

  /** A number below 2^(m+1), or-ed with m ones, where v/2 < 2^m and v != 0. */
  lemma {:induction false} OrOnes(v: nat, m: nat)
    requires v / 2 < Pow2(m) && v > 0
    requires m > 0 ==> v / 2 >= Pow2(m - 1)
    ensures Or(v, Pow2(m) - 1) == Pow2(m + 1) - 1
  {
    if m > 0 {
      assert (Pow2(m) - 1) / 2 == Pow2(m - 1) - 1;
      OrOnes(v / 2, m - 1);
    }
  }

  lemma {:induction false} Pow2Monotone(a: nat, b: nat)
    requires a < b
    ensures 2 * Pow2(a) <= Pow2(b)
  {
    if a + 1 < b {
      Pow2Monotone(a, b - 1);
    }
  }

  lemma SixLinesSmear(v: nat, s: nat)
    requires s == 1
    ensures OrShift(OrShift(OrShift(OrShift(OrShift(OrShift(v, 1), 2), 4), 8), 16), 32) == Smear(v, 64 * s)
  {
    hide OrShift, Or, Shr;
    assert Smear(v, s) == v;
    SmearDoubles(v, s);
    SmearDoubles(v, 2 * s);
    SmearDoubles(v, 4 * s);
    SmearDoubles(v, 8 * s);
    SmearDoubles(v, 16 * s);
    SmearDoubles(v, 32 * s);
  }

  /** What the six smearing lines and the two offsets compute. */
  lemma NextPow2Form(value: Uint64) returns (n: nat)
    ensures NextPow2(value) == Pow2(n) % WORD64
    ensures var v := if value == 0 then WORD64 - 1 else value - 1;
      n <= 64 && v < Pow2(n) && (n > 0 ==> v >= Pow2(n - 1))
  {
    hide OrShift, Smear;
    var v: nat := if value == 0 then WORD64 - 1 else value - 1;
    var s := 1;
    SixLinesSmear(v, s);
    Pow2Width(64 * s);
    n := SmearFills(v, 64 * s);
  }

  lemma Pow2Order(a: nat, b: nat)
    ensures a < b ==> 2 * Pow2(a) <= Pow2(b)
    ensures a <= b <==> Pow2(a) <= Pow2(b)
  {
    if a < b {
      Pow2Monotone(a, b);
    } else if b < a {
      Pow2Monotone(b, a);
    }
  }

  /** On 1..2^63 the result is the least power of two at or above the argument;
      0 and everything above 2^63 give 0. */
  lemma NextPow2IsLeast(value: Uint64)
    ensures 1 <= value <= 0x8000_0000_0000_0000 <==> NextPow2(value) != 0
    ensures NextPow2(value) != 0 ==>
      && IsPow2(NextPow2(value))
      && value <= NextPow2(value) < 2 * value
      && forall p: nat :: IsPow2(p) && value <= p ==> NextPow2(value) <= p
  {
    hide OrShift, NextPow2;
    var n := NextPow2Form(value);
    var w := 64;
    Pow2Width(w);
    Pow2Order(n, w - 1);
    Pow2Order(n, w);
    if n < w {
      assert NextPow2(value) == Pow2(n);
      forall p: nat | IsPow2(p) && value <= p
        ensures Pow2(n) <= p
      {
        var k: nat :| p == Pow2(k);
        Pow2Order(n, k);
        if n > 0 {
          Pow2Order(n - 1, k);
        }
      }
    }
  }
}

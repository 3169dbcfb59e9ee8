/** Unsigned machine words as bounded naturals, with the C bitwise operators
    defined digit by digit and the facts the kernel's bit tricks rely on. */
module Words {

  type U8 = x: int | 0 <= x < 256
  type U32 = x: int | 0 <= x < 0x1_0000_0000
  type U64 = x: int | 0 <= x < 0x1_0000_0000_0000_0000

  function Least(a: nat, b: nat): nat { if a < b then a else b }

  /** 32-bit addition */
  function Add32(a: U32, b: U32): U32 {
    if a + b < 0x1_0000_0000 then a + b else a + b - 0x1_0000_0000
  }

  /** 64-bit addition */
  function Add64(a: U64, b: U64): U64 {
    if a + b < 0x1_0000_0000_0000_0000 then a + b else a + b - 0x1_0000_0000_0000_0000
  }

  function Inc64(a: U64): U64 { Add64(a, 1) }

  /** A natural number reduced to 32 bits */
  function Wrap32(x: nat): U32 {
    if x < 0x1_0000_0000 then x else Wrap32(x - 0x1_0000_0000)
  }

  lemma {:induction false} WrapAdd(x: nat, y: nat)
    ensures Wrap32(Wrap32(x) + y) == Wrap32(x + y)
    decreases x
  {
    if x >= 0x1_0000_0000 { WrapAdd(x - 0x1_0000_0000, y); }
  }

  lemma WrapAdd32(a: U32, b: U32, c: nat)
    ensures Wrap32(Add32(a, b) + c) == Wrap32(a + (b + c))
  {
    WrapAdd(a + b, c);
  }

  /** Reading a 32-bit word as a two's complement number */
  function Signed32(a: U32): int { if a < 0x8000_0000 then a else a - 0x1_0000_0000 }

  /** All of these are arithmetic modulo the size of the word. */
  lemma WordSums(a: U32, b: U32, c: U64, d: U64)
    ensures Add32(a, b) == (a + b) % 0x1_0000_0000
    ensures Add64(c, d) == (c + d) % 0x1_0000_0000_0000_0000
    ensures Inc64(c) == (c + 1) % 0x1_0000_0000_0000_0000
    ensures -0x8000_0000 <= Signed32(a) < 0x8000_0000 && Signed32(a) % 0x1_0000_0000 == a
  {
  }

  lemma {:induction false} WrapIsMod(x: nat)
    ensures Wrap32(x) == x % 0x1_0000_0000
    decreases x
  {
    if x >= 0x1_0000_0000 { WrapIsMod(x - 0x1_0000_0000); }
  }

  /** A natural number reduced to 64 bits */
  function Wrap64(x: nat): U64 {
    if x < 0x1_0000_0000_0000_0000 then x else Wrap64(x - 0x1_0000_0000_0000_0000)
  }

  lemma {:induction false} Wrap64IsMod(x: nat)
    ensures Wrap64(x) == x % 0x1_0000_0000_0000_0000
    decreases x
  {
    if x >= 0x1_0000_0000_0000_0000 { Wrap64IsMod(x - 0x1_0000_0000_0000_0000); }
  }

  lemma IncThenAdd(x: U64, n: nat)
    ensures Wrap64(Inc64(x) + n) == Wrap64(x + (n + 1))
  {
  }

  /** Counting one more, or not, and then `n`. */
  lemma CountOn(x: U64, x': U64, more: bool, n: nat)
    requires x' == if more then Inc64(x) else x
    ensures Wrap64(x' + n) == Wrap64(x + ((if more then 1 else 0) + n))
  {
  }

  /** `1 << n` */
  function Pow2(n: nat): (r: nat)
    ensures r > 0
  {
    if n == 0 then 1 else 2 * Pow2(n - 1)
  }

  /** Digit `i` of `w`, that is `(w >> i) & 1`. */
  predicate Bit(w: nat, i: nat) {
    if i == 0 then w % 2 == 1 else Bit(w / 2, i - 1)
  }

  /** `a | b` */
  function Or(a: nat, b: nat): nat {
    if a == 0 then b
    else if b == 0 then a
    else 2 * Or(a / 2, b / 2) + (if a % 2 == 1 || b % 2 == 1 then 1 else 0)
  }

  /** `a & b` */
  function And(a: nat, b: nat): nat {
    if a == 0 || b == 0 then 0
    else 2 * And(a / 2, b / 2) + (if a % 2 == 1 && b % 2 == 1 then 1 else 0)
  }

  /** `~a` in a word of `n` bits */
  function Not(n: nat, a: nat): nat
    requires a < Pow2(n)
  {
    Pow2(n) - 1 - a
  }

  lemma {:induction false} BitOfZero(i: nat)
    ensures !Bit(0, i)
  {
    if i > 0 { BitOfZero(i - 1); }
  }

  lemma {:induction false} BitOfOr(a: nat, b: nat, i: nat)
    ensures Bit(Or(a, b), i) == (Bit(a, i) || Bit(b, i))
    decreases i
  {
    BitOfZero(i);
    if a != 0 && b != 0 && i > 0 {
      assert Or(a, b) / 2 == Or(a / 2, b / 2);
      BitOfOr(a / 2, b / 2, i - 1);
    }
  }

  lemma {:induction false} BitOfAnd(a: nat, b: nat, i: nat)
    ensures Bit(And(a, b), i) == (Bit(a, i) && Bit(b, i))
    decreases i
  {
    BitOfZero(i);
    if a != 0 && b != 0 && i > 0 {
      assert And(a, b) / 2 == And(a / 2, b / 2);
      BitOfAnd(a / 2, b / 2, i - 1);
    }
  }

  lemma {:induction false} BitOfPow2(n: nat, i: nat)
    ensures Bit(Pow2(n), i) == (n == i)
    decreases i
  {
    if n == 0 {
      if i > 0 { BitOfZero(i - 1); }
    } else if i > 0 {
      BitOfPow2(n - 1, i - 1);
    }
  }

  lemma {:induction false} BitOfNot(n: nat, a: nat, i: nat)
    requires a < Pow2(n) && i < n
    ensures Bit(Not(n, a), i) == !Bit(a, i)
    decreases i
  {
    if i > 0 {
      assert Not(n, a) / 2 == Not(n - 1, a / 2);
      BitOfNot(n - 1, a / 2, i - 1);
    }
  }

  lemma {:induction false} OrBound(a: nat, b: nat, n: nat)
    requires a < Pow2(n) && b < Pow2(n)
    ensures Or(a, b) < Pow2(n)
    decreases n
  {
    if a != 0 && b != 0 { OrBound(a / 2, b / 2, n - 1); }
  }

  lemma {:induction false} AndBound(a: nat, b: nat)
    ensures And(a, b) <= a && And(a, b) <= b
    decreases a
  {
    if a != 0 && b != 0 { AndBound(a / 2, b / 2); }
  }

  lemma {:induction false} Pow2Mono(m: nat, n: nat)
    requires m < n
    ensures Pow2(m) < Pow2(n)
  {
    if m + 1 < n { Pow2Mono(m, n - 1); }
  }

  /** A word is zero exactly when it has no set bit. */
  lemma {:induction false} SomeBit(w: nat, n: nat) returns (i: nat)
    requires 0 < w < Pow2(n)
    ensures i < n && Bit(w, i)
    decreases n
  {
    if w % 2 == 1 {
      i := 0;
    } else {
      i := SomeBit(w / 2, n - 1);
      i := i + 1;
    }
  }

  /** The all-ones word has every bit set. */
  lemma AllOnes(n: nat, i: nat)
    requires i < n
    ensures Bit(Pow2(n) - 1, i)
  {
    BitOfNot(n, 0, i);
    BitOfZero(i);
  }

  // ---- Setting and clearing one bit, as both bitmaps in the kernel do ----

  /** `w | (1 << b)` in a word of `n` bits */
  function SetBit(n: nat, w: nat, b: nat): (r: nat)
    requires w < Pow2(n) && b < n
    ensures r < Pow2(n)
  {
    Pow2Mono(b, n);
    OrBound(w, Pow2(b), n);
    Or(w, Pow2(b))
  }

  /** `w & ~(1 << b)` in a word of `n` bits */
  function ClearBit(n: nat, w: nat, b: nat): (r: nat)
    requires w < Pow2(n) && b < n
    ensures r < Pow2(n)
  {
    Pow2Mono(b, n);
    AndBound(w, Not(n, Pow2(b)));
    And(w, Not(n, Pow2(b)))
  }

  lemma SetBitBits(n: nat, w: nat, b: nat, i: nat)
    requires w < Pow2(n) && b < n && i < n
    ensures Bit(SetBit(n, w, b), i) == (i == b || Bit(w, i))
  {
    BitOfOr(w, Pow2(b), i);
    BitOfPow2(b, i);
  }

  lemma ClearBitBits(n: nat, w: nat, b: nat, i: nat)
    requires w < Pow2(n) && b < n && i < n
    ensures Bit(ClearBit(n, w, b), i) == (i != b && Bit(w, i))
  {
    Pow2Mono(b, n);
    BitOfAnd(w, Not(n, Pow2(b)), i);
    BitOfNot(n, Pow2(b), i);
    BitOfPow2(b, i);
  }

  /** `w & (1 << b)` is non-zero exactly when bit `b` is set. */
  lemma TestBit(w: nat, b: nat)
    ensures And(w, Pow2(b)) != 0 <==> Bit(w, b)
  {
    BitOfAnd(w, Pow2(b), b);
    BitOfPow2(b, b);
    BitOfZero(b);
    if And(w, Pow2(b)) != 0 {
      AndBound(w, Pow2(b));
      Pow2Mono(b, b + 1);
      var i := SomeBit(And(w, Pow2(b)), b + 1);
      BitOfAnd(w, Pow2(b), i);
      BitOfPow2(b, i);
    }
  }

  // ---- Masks: page-frame extraction and flag composition ----
  //
  // A word is written `q * 2^k + r` with `r < 2^k`: the high field `q`, the low field `r`.

  lemma Halve(q: nat, r: nat, k: nat)
    requires k > 0
    ensures (q * Pow2(k) + r) / 2 == q * Pow2(k - 1) + r / 2
    ensures (q * Pow2(k) + r) % 2 == r % 2
  {
    assert q * Pow2(k) == 2 * (q * Pow2(k - 1));
  }

  lemma Doubled(q: nat, k: nat)
    requires k > 0
    ensures q * Pow2(k) == 2 * (q * Pow2(k - 1))
  {
  }

  /** `q << k` */
  function Shifted(q: nat, k: nat): nat { if k == 0 then q else 2 * Shifted(q, k - 1) }

  lemma {:induction false} ShiftedIs(q: nat, k: nat)
    ensures Shifted(q, k) == q * Pow2(k)
  {
    if k > 0 {
      ShiftedIs(q, k - 1);
      Doubled(q, k);
    }
  }

  lemma OrLowHalf(h: nat, r: nat, b: nat)
    requires Or(h + r / 2, b / 2) == h + Or(r / 2, b / 2)
    ensures Or(2 * h + r, b) == 2 * h + Or(r, b)
  {
    OrDoubled(h + r / 2, b / 2, r % 2, b % 2);
    OrDoubled(r / 2, b / 2, r % 2, b % 2);
    assert 2 * (h + r / 2) + r % 2 == 2 * h + r;
  }

  /** `|` with a word below `2^k` leaves the high field alone. */
  lemma OrLow(q: nat, r: nat, b: nat, k: nat)
    requires r < Pow2(k) && b < Pow2(k)
    ensures Or(q * Pow2(k) + r, b) == q * Pow2(k) + Or(r, b)
  {
    ShiftedIs(q, k);
    OrBelow(q, r, b, k);
  }

  lemma {:induction false} OrBelow(q: nat, r: nat, b: nat, k: nat)
    requires r < Pow2(k) && b < Pow2(k)
    ensures Or(Shifted(q, k) + r, b) == Shifted(q, k) + Or(r, b)
    decreases k
  {
    if k > 0 {
      var h := Shifted(q, k - 1);
      OrBelow(q, r / 2, b / 2, k - 1);
      OrLowHalf(h, r, b);
    }
  }

  lemma {:induction false} OrSymmetric(a: nat, b: nat)
    ensures Or(a, b) == Or(b, a)
    decreases a
  {
    if a != 0 && b != 0 { OrSymmetric(a / 2, b / 2); }
  }

  lemma OrDoubled(x: nat, y: nat, p: nat, o: nat)
    requires p < 2 && o < 2
    ensures Or(2 * x + p, 2 * y + o) == 2 * Or(x, y) + if p == 1 || o == 1 then 1 else 0
  {
    assert (2 * x + p) / 2 == x && (2 * x + p) % 2 == p;
    assert (2 * y + o) / 2 == y && (2 * y + o) % 2 == o;
  }

  /** `|` works on the high fields when one low field is zero. */
  lemma {:induction false} OrHigh(q: nat, q': nat, r: nat, k: nat)
    requires r < Pow2(k)
    ensures Or(Shifted(q, k), Shifted(q', k) + r) == Shifted(Or(q, q'), k) + r
    decreases k
  {
    if k > 0 {
      OrHigh(q, q', r / 2, k - 1);
      OrDoubled(Shifted(q, k - 1), Shifted(q', k - 1) + r / 2, 0, r % 2);
      assert 2 * (Shifted(q', k - 1) + r / 2) + r % 2 == Shifted(q', k) + r;
    }
  }

  /** `|` with all ones. */
  lemma {:induction false} OrOnes(a: nat, n: nat)
    requires a < Pow2(n)
    ensures Or(a, Pow2(n) - 1) == Pow2(n) - 1
    decreases n
  {
    if n > 0 {
      OrOnes(a / 2, n - 1);
      assert (Pow2(n) - 1) / 2 == Pow2(n - 1) - 1;
      OrHalves(a, Pow2(n) - 1);
    }
  }

  lemma OrHalves(a: nat, b: nat)
    ensures Or(a, b) == 2 * Or(a / 2, b / 2) + (if a % 2 == 1 || b % 2 == 1 then 1 else 0)
  {
  }

  /** Masking with the low `k` ones keeps the low field. */
  lemma {:induction false} AndLowMask(q: nat, r: nat, k: nat)
    requires r < Pow2(k)
    ensures And(q * Pow2(k) + r, Pow2(k) - 1) == r
    decreases k
  {
    if k > 0 {
      Halve(q, r, k);
      AndLowMask(q, r / 2, k - 1);
      assert (Pow2(k) - 1) / 2 == Pow2(k - 1) - 1;
    }
  }

  /** Masking with the complement of the low `k` ones keeps the high field. */
  lemma {:induction false} AndHighMask(q: nat, r: nat, k: nat, n: nat)
    requires k <= n && r < Pow2(k) && q * Pow2(k) + r < Pow2(n)
    ensures Pow2(k) <= Pow2(n)
    ensures And(q * Pow2(k) + r, Pow2(n) - Pow2(k)) == q * Pow2(k)
    decreases n
  {
    if k < n { Pow2Mono(k, n); }
    if k == 0 {
      assert q * Pow2(0) + r == q == 0 * Pow2(n) + q;
      AndLowMask(0, q, n);
    } else {
      Halve(q, r, k);
      Halve(q, 0, k);
      AndHighMask(q, r / 2, k - 1, n - 1);
      assert (Pow2(n) - Pow2(k)) / 2 == Pow2(n - 1) - Pow2(k - 1);
    }
  }

  lemma Pow2Values()
    ensures Pow2(5) == 32 && Pow2(8) == 256 && Pow2(10) == 1024 && Pow2(12) == 4096
    ensures Pow2(32) == 0x1_0000_0000
  {
    assert Pow2(4) == 16 && Pow2(8) == 256;
    assert Pow2(12) == 4096 && Pow2(16) == 65536;
    assert Pow2(20) == 0x100000 && Pow2(24) == 0x1000000 && Pow2(28) == 0x10000000;
    assert Pow2(32) == 16 * Pow2(28);
  }
}

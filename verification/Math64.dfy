/** 64-bit arithmetic on 32-bit halves (LIB/ia32/math.c), against the direct forms of LIB/ipf/math.c. */
module Math64 {
  import opened EfiBase

  const W31 := 0x8000_0000
  const W32 := 0x1_0000_0000
  const W63 := 0x8000_0000_0000_0000
  const W64 := 0x1_0000_0000_0000_0000

  type U32 = x: int | 0 <= x < W32
  type U64 = x: int | 0 <= x < W64

  // ----- Division

  /** The dividend without its last `n` bits, as the division has read it with `n` bits to go. */
  function Top(d: nat, n: nat): nat {
    if n == 0 then d else Top(d, n - 1) / 2
  }

  /** Its last `n` bits. */
  function Low(d: nat, n: nat): (r: nat)
    ensures r < Pow2(n)
  {
    if n == 0 then 0 else Low(d, n - 1) + if Top(d, n - 1) % 2 == 1 then Pow2(n - 1) else 0
  }

  lemma DoubledPlus(t: int, b: int, p: int)
    ensures (2 * t + b) * p == t * (2 * p) + b * p
  {}

  lemma {:induction false} TopLow(d: nat, n: nat)
    ensures d == Top(d, n) * Pow2(n) + Low(d, n)
  {
    if n > 0 {
      TopLow(d, n - 1);
      DoubledPlus(Top(d, n), Top(d, n - 1) % 2, Pow2(n - 1));
    }
  }

  /** Dropping `n` bits one by one is dividing by `2^n`. */
  lemma TopIsQuotient(d: nat, n: nat)
    ensures d / Pow2(n) == Top(d, n) && d % Pow2(n) == Low(d, n)
  {
    TopLow(d, n);
    DivModUnique(d, Pow2(n), Top(d, n), Low(d, n));
  }

  /** Before the last `n` bits, some partial remainder needed all 32 bits, so that the left shift that
      followed dropped its top bit. */
  ghost predicate LostBefore(dividend: U64, divisor: U32, n: nat)
    requires divisor != 0
  {
    exists k :: n < k <= 64 && Top(dividend, k) % divisor >= W31
  }

  ghost predicate LosesBit(dividend: U64, divisor: U32)
    requires divisor != 0
  {
    LostBefore(dividend, divisor, 0)
  }

  lemma LossStep(dividend: U64, divisor: U32, n: nat)
    requires divisor != 0 && 0 < n <= 64
    ensures LostBefore(dividend, divisor, n - 1) <==>
            LostBefore(dividend, divisor, n) || Top(dividend, n) % divisor >= W31
  {}

  /** The working registers with `n` bits to go: unread dividend bits above the quotient bits `q`. */
  ghost predicate Registers(d: U64, n: nat, cur: nat, q: nat) {
    && n <= 64
    && q < Pow2(64 - n)
    && cur == Low(d, n) * Pow2(64 - n) + q
  }

  lemma Pow2Of63(n: nat)
    requires 0 < n <= 64
    ensures Pow2(n - 1) * Pow2(64 - n) == W63
    ensures Pow2(64 - n + 1) == 2 * Pow2(64 - n)
  {
    Pow2Add(n - 1, 64 - n);
    Pow2Values();
  }

  lemma Pow2Values()
    ensures Pow2(31) == W31 && Pow2(32) == W32 && Pow2(63) == W63 && Pow2(64) == W64
  {
    assert Pow2(8) == 0x100;
    Pow2Add(8, 8);
    Pow2Add(16, 15);
    Pow2Add(31, 1);
    Pow2Add(32, 31);
    assert Pow2(7) == 0x80;
    Pow2Add(8, 7);
  }

  lemma Distribute(b: nat, half: nat, low: nat, p: nat)
    ensures (b * half + low) * p == b * (half * p) + low * p
  {}

  lemma TopBitArithmetic(b: nat, half: nat, low: nat, p: nat, q: nat, cur: nat)
    requires b <= 1 && low < half && q < p && half * p == W63
    requires cur == (b * half + low) * p + q
    ensures cur == b * W63 + (low * p + q) && cur < W64 && cur / W63 == b
  {
    Distribute(b, half, low, p);
    MulGap(p, low, half);
    var rest: int := low * p + q;
    assert cur == b * W63 + rest && rest < W63;
    assert rest >= 0 by { NonNegative(low, p); }
    DivModUnique(cur, W63, b, rest);
  }

  /** With `n` bits to go the top bit of the registers is the next dividend bit. */
  lemma TopRegisterBit(d: U64, n: nat, cur: nat, q: nat) returns (b: nat)
    requires 0 < n && Registers(d, n, cur, q)
    ensures b <= 1 && Top(d, n - 1) == 2 * Top(d, n) + b
    ensures cur == b * W63 + (Low(d, n - 1) * Pow2(64 - n) + q)
    ensures cur < W64 && cur / W63 == b
  {
    b := Top(d, n - 1) % 2;
    Pow2Of63(n);
    assert Low(d, n) == b * Pow2(n - 1) + Low(d, n - 1);
    TopBitArithmetic(b, Pow2(n - 1), Low(d, n - 1), Pow2(64 - n), q, cur);
  }

  /** Shifting that bit out makes room for the quotient bit `x`. */
  lemma ShiftRegisters(d: U64, n: nat, cur: nat, q: nat, b: nat, x: nat)
    requires 0 < n && Registers(d, n, cur, q) && x <= 1
    requires cur == b * W63 + (Low(d, n - 1) * Pow2(64 - n) + q)
    ensures 2 * cur - b * W64 + x >= 0 && Registers(d, n - 1, 2 * cur - b * W64 + x, 2 * q + x)
  {
    hide Low, Pow2;
    Pow2Of63(n);
    ShiftArithmetic(Low(d, n - 1), Pow2(64 - n), q, b, x, cur);
  }

  lemma ShiftArithmetic(low: nat, p: nat, q: nat, b: nat, x: nat, cur: nat)
    requires cur == b * W63 + (low * p + q)
    ensures 2 * cur - b * W64 + x == low * (2 * p) + (2 * q + x)
    ensures low * (2 * p) >= 0
  {
    NonNegative(low, 2 * p);
    assert low * (2 * p) == 2 * (low * p);
  }

  /** The same shift on the two halves. */
  lemma ShiftHalves(lo: U32, hi: U32)
    ensures (hi * W32 + lo) / W63 == hi / W31
    ensures (2 * hi + lo / W31) % W32 * W32 + 2 * lo % W32 == 2 * (hi * W32 + lo) - hi / W31 * W64
    ensures 2 * lo % W32 + 1 < W32
  {
    var c, c2 := lo / W31, hi / W31;
    DivModUnique(hi * W32 + lo, W63, c2, hi % W31 * W32 + lo);
    DivModUnique(2 * hi + c, W32, c2, 2 * hi + c - c2 * W32);
    DivModUnique(2 * lo, W32, c, 2 * lo - c * W32);
  }

  /** One round on the remainder register: what the subtraction and a dropped top bit account for. */
  lemma RemainderRound(rem: U32, b: nat, divisor: U32)
    requires b <= 1 && rem < divisor
    ensures var r := (2 * rem + b) % W32;
            var x := if r >= divisor then 1 else 0;
            && 2 * rem + b == x * divisor + (r - x * divisor) + (if rem >= W31 then W32 else 0)
            && 0 <= r - x * divisor < divisor
  {
    if rem >= W31 {
      DivModUnique(2 * rem + b, W32, 1, 2 * rem + b - W32);
    } else {
      DivModUnique(2 * rem + b, W32, 0, 2 * rem + b);
    }
  }

  /** The quotient round: `deficit` counts what dropped bits have taken away. */
  lemma QuotientRound(top: nat, b: nat, q: nat, divisor: nat, rem: nat, deficit: nat, x: nat, rem': nat, dropped: nat)
    requires top == q * divisor + rem + deficit
    requires 2 * rem + b == x * divisor + rem' + dropped
    ensures 2 * top + b == (2 * q + x) * divisor + rem' + (2 * deficit + dropped)
  {
    assert (2 * q + x) * divisor == 2 * (q * divisor) + x * divisor;
  }

  /** The assembly of one round: rem:dividend shifted left, then a trial subtraction. */
  method DivideRound(lo: U32, hi: U32, rem: U32, divisor: U32)
    returns (lo': U32, hi': U32, rem': U32, ghost b: nat, ghost x: nat)
    requires rem < divisor
    ensures b == (hi * W32 + lo) / W63 && x <= 1 && rem' < divisor
    ensures hi' * W32 + lo' == 2 * (hi * W32 + lo) - b * W64 + x
    ensures 2 * rem + b == x * divisor + rem' + (if rem >= W31 then W32 else 0)
  {
    ShiftHalves(lo, hi);
    b := hi / W31;
    RemainderRound(rem, b, divisor);

    // shl Dividend[0]; rcl Dividend[4]; rcl Rem
    var carry := lo / W31;
    lo' := 2 * lo % W32;
    var carry2 := hi / W31;
    hi' := (2 * hi + carry) % W32;
    rem' := (2 * rem + carry2) % W32;

    // cmp, cmc, sbb: all ones when Rem >= Divisor, else zero
    var mask := if rem' >= divisor then W32 - 1 else 0;
    x := if mask == 0 then 0 else 1;
    lo' := (lo' - mask) % W32;
    rem' := if mask == 0 then rem' else rem' - divisor;
  }

  /** Divides by shifting the dividend through a 32-bit remainder register, one bit a round.  The result
      is the quotient and remainder exactly when no partial remainder outgrows the register. */
  method DivU64x32(dividend: U64, divisor: U32) returns (quotient: U64, remainder: U32)
    requires divisor != 0
    ensures quotient == dividend / divisor && remainder == dividend % divisor <==> !LosesBit(dividend, divisor)
  {
    var lo: U32, hi: U32, rem: U32 := dividend % W32, dividend / W32, 0;
    ghost var q: nat, deficit: nat := 0, 0;
    FirstRound(dividend);
    var bit := 0;
    while bit < 64
      invariant 0 <= bit <= 64 && rem < divisor
      invariant Registers(dividend, 64 - bit, hi * W32 + lo, q)
      invariant Top(dividend, 64 - bit) == q * divisor + rem + deficit
      invariant deficit > 0 <==> LostBefore(dividend, divisor, 64 - bit)
    {
      hide Pow2, Registers, Top, LostBefore;
      ghost var n, rem0, cur := 64 - bit, rem, hi * W32 + lo;
      ghost var top := TopRegisterBit(dividend, n, cur, q);
      LossStep(dividend, divisor, n);
      if deficit == 0 {
        DivModUnique(Top(dividend, n), divisor, q, rem);
      }
      ghost var b, x;
      lo, hi, rem, b, x := DivideRound(lo, hi, rem, divisor);
      ShiftRegisters(dividend, n, cur, q, b, x);
      ghost var dropped := if rem0 >= W31 then W32 else 0;
      QuotientRound(Top(dividend, n), b, q, divisor, rem0, deficit, x, rem, dropped);
      assert Top(dividend, n - 1) == (2 * q + x) * divisor + rem + (2 * deficit + dropped);
      q, deficit := 2 * q + x, 2 * deficit + dropped;
      bit := bit + 1;
    }
    quotient, remainder := hi * W32 + lo, rem;
    LastRound(dividend, quotient, q);
    if deficit == 0 {
      DivModUnique(dividend, divisor, q, rem);
    } else {
      DivModSum(dividend, divisor);
    }
  }

  lemma FirstRound(d: U64)
    ensures Registers(d, 64, d, 0) && Top(d, 64) == 0
  {
    Pow2Values();
    TopIsQuotient(d, 64);
    DivModUnique(d, W64, 0, d);
  }

  lemma LastRound(d: U64, cur: nat, q: nat)
    requires Registers(d, 0, cur, q)
    ensures cur == q && Top(d, 0) == d
  {}

  /** The divisors the source asks for, and one more, never lose a bit. */
  lemma SmallDivisorsExact(dividend: U64, divisor: U32)
    requires 0 < divisor <= W31
    ensures !LosesBit(dividend, divisor)
  {}

  /** Every larger divisor loses one for some dividend: the source's limit is a real one. */
  lemma LargeDivisorsLoseBits(divisor: U32)
    requires divisor > W31
    ensures LosesBit(W63, divisor)
  {
    Pow2Values();
    TopIsQuotient(W63, 32);
    DivModUnique(W31, divisor, 0, W31);
    assert Top(W63, 32) % divisor == W31;
  }

  // ----- Shifts and multiplication

  lemma Pow2Split(s: nat) returns (p: nat, m: nat)
    requires s < 32
    ensures p == Pow2(s) && m == Pow2(32 - s) && p > 0 && m > 0 && p * m == W32
    ensures Pow2(s + 32) == p * W32
  {
    p, m := Pow2(s), Pow2(32 - s);
    Pow2Add(s, 32 - s);
    Pow2Add(s, 32);
    Pow2Values();
  }

  /** A word shifted left by `p` splits into the part that stays and the part that leaves. */
  lemma ShiftedWord(x: U32, p: nat, m: nat)
    requires p > 0 && m > 0 && p * m == W32
    ensures x * p == x / m * W32 + x * p % W32
    ensures x * p % W32 == x % m * p
  {
    var q, r := x / m, x % m;
    assert x * p == q * W32 + r * p by {
      assert x == q * m + r;
      assert (q * m + r) * p == q * (p * m) + r * p;
    }
    MulGap(p, r, m);
    NonNegative(r, p);
    DivModUnique(x * p, W32, q, r * p);
  }

  /** The C operators `x << k` and `x >> k` before truncation. */
  function Shl(x: nat, k: nat): nat {
    NonNegative(x, Pow2(k));
    x * Pow2(k)
  }

  function Shr(x: nat, k: nat): nat {
    QuotientNatural(x, Pow2(k));
    x / Pow2(k)
  }

  /** `Operand << (Count mod 64)`, on halves: shld and shl take the count modulo 32. */
  method LShiftU64(operand: U64, count: nat) returns (result: U64)
    ensures result == Shl(operand, count % 64) % W64
  {
    hide Shl, Shr;
    var eax: U32, edx: U32 := operand % W32, operand / W32;
    var ecx := count % 64;
    var cl := ecx % 32;
    LeftShiftHalves(operand, eax, edx, cl);
    edx := (Shl(edx, cl) + Shr(eax, 32 - cl)) % W32;
    eax := Shl(eax, cl) % W32;
    if ecx >= 32 {
      edx := eax;
      eax := 0;
    }
    result := edx * W32 + eax;
  }

  lemma LeftShiftHalves(operand: U64, lo: U32, hi: U32, cl: nat)
    requires operand == hi * W32 + lo && cl < 32
    ensures Shl(operand, cl) % W64 == (Shl(hi, cl) + Shr(lo, 32 - cl)) % W32 * W32 + Shl(lo, cl) % W32
    ensures Shl(operand, cl + 32) % W64 == Shl(lo, cl) % W32 * W32
  {
    var p, m := Pow2Split(cl);
    LeftShiftArithmetic(operand, lo, hi, p, m);
  }

  lemma HalvesTimes(hi: int, lo: int, m: int)
    ensures (hi * W32 + lo) * m == hi * m * W32 + lo * m
  {}

  lemma LeftShiftArithmetic(operand: U64, lo: U32, hi: U32, p: nat, m: nat)
    requires operand == hi * W32 + lo && p > 0 && m > 0 && p * m == W32
    ensures operand * p % W64 == (hi * p + lo / m) % W32 * W32 + lo * p % W32
    ensures operand * (p * W32) % W64 == lo * p % W32 * W32
  {
    ShiftedWord(lo, p, m);
    NonNegative(hi, p);
    QuotientNatural(lo, m);
    var q, low := lo / m, lo * p % W32;
    LeftProduct(operand, hi, lo, p, q, low);
    WordsModulo(operand * p, hi * p + q, low);
    assert operand * (p * W32) == operand * p * W32;
  }

  lemma LeftProduct(operand: int, hi: int, lo: int, p: int, q: int, low: int)
    requires operand == hi * W32 + lo && lo * p == q * W32 + low
    ensures operand * p == (hi * p + q) * W32 + low
  {
    HalvesTimes(hi, lo, p);
  }

  /** Two words modulo 2^64, as they are and shifted by a word. */
  lemma WordsModulo(x: nat, upper: nat, low: nat)
    requires x == upper * W32 + low && low < W32
    ensures x % W64 == upper % W32 * W32 + low && x * W32 % W64 == low * W32
  {
    DivModUnique(x, W64, upper / W32, upper % W32 * W32 + low);
    DivModUnique(x * W32, W64, upper, low * W32);
  }

  /** `Operand >> (Count mod 64)`, on halves. */
  method RShiftU64(operand: U64, count: nat) returns (result: U64)
    ensures result == Shr(operand, count % 64)
  {
    hide Shl, Shr;
    var eax: U32, edx: U32 := operand % W32, operand / W32;
    var ecx := count % 64;
    var cl := ecx % 32;
    RightShiftHalves(operand, eax, edx, cl);
    eax := Shl(edx, 32 - cl) % W32 + Shr(eax, cl);
    edx := Shr(edx, cl);
    if ecx >= 32 {
      eax := edx;
      edx := 0;
    }
    result := edx * W32 + eax;
  }

  lemma RightShiftHalves(operand: U64, lo: U32, hi: U32, cl: nat)
    requires operand == hi * W32 + lo && cl < 32
    ensures Shl(hi, 32 - cl) % W32 + Shr(lo, cl) < W32 && Shr(hi, cl) < W32
    ensures Shr(operand, cl) == Shr(hi, cl) * W32 + (Shl(hi, 32 - cl) % W32 + Shr(lo, cl))
    ensures Shr(operand, cl + 32) == Shr(hi, cl)
  {
    var p, m := Pow2Split(cl);
    RightShiftArithmetic(operand, lo, hi, p, m);
  }

  lemma RightShiftArithmetic(operand: U64, lo: U32, hi: U32, p: nat, m: nat)
    requires operand == hi * W32 + lo && p > 0 && m > 0 && p * m == W32
    ensures hi * m % W32 + lo / p < W32 && hi / p < W32
    ensures operand / p == hi / p * W32 + (hi * m % W32 + lo / p)
    ensures operand / (p * W32) == hi / p
  {
    ShiftedWord(hi, m, p);
    var a, b, c, d := hi / p, hi % p, lo / p, lo % p;
    DivModSum(hi, p);
    DivModSum(lo, p);
    QuotientBelow(lo, p, m);
    WordBelow(b, c, p, m);
    ThreeFactor(a, b, c, p, m);
    WholeFromParts(operand, hi, lo, a, b, c, d, p, m);
    DivModUnique(operand, p, a * W32 + (b * m + c), d);
    DivModUnique(a * W32 + (b * m + c), W32, a, b * m + c);
    QuotientOfQuotient(operand, p);
  }

  lemma WordBelow(b: nat, c: nat, p: nat, m: nat)
    requires b < p && c < m && p * m == W32
    ensures 0 <= b * m && b * m + c < W32
  {
    MulGap(m, b, p);
    NonNegative(b, m);
  }

  lemma WholeFromParts(operand: nat, hi: nat, lo: nat, a: nat, b: nat, c: nat, d: nat, p: nat, m: nat)
    requires operand == hi * W32 + lo && hi == a * p + b && lo == c * p + d
    requires (a * W32 + (b * m + c)) * p == (a * p + b) * W32 + c * p
    ensures operand == (a * W32 + (b * m + c)) * p + d
  {}

  lemma QuotientBelow(x: nat, p: nat, m: nat)
    requires p > 0 && x < p * m
    ensures x / p < m
  {
    DivModSum(x, p);
    if m < x / p {
      MulGap(p, m, x / p);
    }
  }

  lemma ThreeFactor(a: nat, b: nat, c: nat, p: nat, m: nat)
    requires p * m == W32
    ensures (a * W32 + (b * m + c)) * p == (a * p + b) * W32 + c * p
  {
    assert (a * W32 + (b * m + c)) * p == a * p * W32 + b * (p * m) + c * p;
  }

  lemma QuotientOfQuotient(x: nat, p: nat)
    requires p > 0
    ensures p * W32 > 0 && x / (p * W32) == x / p / W32
  {
    var y := x / p;
    var q, r := y / W32, y % W32;
    DivModSum(x, p);
    assert x == q * (p * W32) + (r * p + x % p) by {
      assert (q * W32 + r) * p == q * (p * W32) + r * p;
    }
    MulGap(p, r, W32);
    NonNegative(r, p);
    DivModUnique(x, p * W32, q, r * p + x % p);
  }

  /** The product modulo 2^64, from two 32-bit multiplications. */
  method MultU64x32(multiplicand: U64, multiplier: U32) returns (result: U64)
    ensures result == multiplicand * multiplier % W64
  {
    var lo: U32, hi: U32 := multiplicand % W32, multiplicand / W32;
    ghost var m: int := multiplier;
    NonNegative(lo, multiplier);
    NonNegative(hi, multiplier);
    var first: nat := lo * multiplier;
    var eax, edx := first % W32, first / W32;
    var second: nat := hi * multiplier;
    var upper := (edx + second % W32) % W32;
    result := upper * W32 + eax;
    NonNegative(multiplicand, multiplier);
    ProductArithmetic(multiplicand, multiplier, lo, hi, first, second);
  }

  lemma ProductArithmetic(x: U64, m: U32, lo: U32, hi: U32, first: nat, second: nat)
    requires x == hi * W32 + lo && first == lo * m && second == hi * m && x * m >= 0
    ensures x * m % W64 == (first / W32 + second % W32) % W32 * W32 + first % W32
  {
    HalvesTimes(hi, lo, m);
    CombineWords(x * m, first, second);
  }

  lemma CombineWords(product: nat, first: nat, second: nat)
    requires product == second * W32 + first
    ensures product % W64 == (first / W32 + second % W32) % W32 * W32 + first % W32
  {
    var upper := first / W32 + second;
    assert upper % W32 == (first / W32 + second % W32) % W32;
    DivModUnique(product, W64, upper / W32, upper % W32 * W32 + first % W32);
  }
}

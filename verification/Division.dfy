/** Shift-and-subtract division of src/arch/riscv32/divdi3.c: exact for all 64-bit
    words, with no bit lost even for divisors above 2^63. */
module Division {
  import opened Powers

  const HALF := 0x8000_0000_0000_0000

  /** The number formed by the bits from one position up: a right shift. */
  function Top(n: nat, i: nat): nat {
    if i == 0 then n else Top(n, i - 1) / 2
  }

  function Bit(n: nat, i: nat): nat { Top(n, i) % 2 }

  lemma {:induction false} TopBelow(n: nat, i: nat, k: nat)
    requires n < Pow2(k) && i <= k
    ensures Top(n, i) < Pow2(k - i)
  {
    if i > 0 { TopBelow(n, i - 1, k); }
  }

  lemma {:induction false} TopSmall(n: nat, i: nat)
    requires n < WORD && i > 0
    ensures Top(n, i) < HALF
  {
    if i > 1 { TopSmall(n, i - 1); }
  }

  lemma PowWord()
    ensures Pow2(64) == WORD
  {
    assert Pow2(8) == 256;
    assert Pow2(16) == 256 * Pow2(8);
    assert Pow2(24) == 256 * Pow2(16);
    assert Pow2(32) == 256 * Pow2(24);
    assert Pow2(40) == 256 * Pow2(32);
    assert Pow2(48) == 256 * Pow2(40);
    assert Pow2(56) == 256 * Pow2(48);
    assert Pow2(64) == 256 * Pow2(56);
  }

  // ----- products, kept away from the other arithmetic -----

  function Times(a: int, b: int): int { a * b }

  lemma TimesZero(b: int)
    ensures Times(0, b) == 0 && Times(b, 0) == 0 && Times(1, b) == b && Times(b, 1) == b
  {
  }

  lemma TimesPlus(a: int, c: int, b: int)
    ensures Times(a + c, b) == Times(a, b) + Times(c, b)
  {
  }

  lemma TimesDouble(a: int, b: int)
    ensures Times(2 * a, b) == 2 * Times(a, b) && Times(a, 2 * b) == 2 * Times(a, b)
  {
  }

  lemma TimesSign(a: int, b: int)
    ensures Times(-a, b) == -Times(a, b) && Times(a, -b) == -Times(a, b)
  {
  }

  lemma {:induction false} TimesAtLeast(a: nat, b: nat)
    requires a > 0
    ensures Times(a, b) >= b
  {
    hide Times;
    if a == 1 {
      TimesZero(b);
    } else {
      TimesAtLeast(a - 1, b);
      TimesPlus(a - 1, 1, b);
      TimesZero(b);
    }
  }

  lemma DivTimes(n: nat, d: nat)
    requires d > 0
    ensures n == Times(n / d, d) + n % d && n % d < d && n / d >= 0
  {
  }

  lemma DivUnique(n: nat, d: nat, q: nat, r: nat)
    requires d > 0 && n == Times(q, d) + r && r < d
    ensures q == n / d && r == n % d
  {
    hide Times;
    DivTimes(n, d);
    var a := n / d;
    if a < q {
      TimesPlus(a, q - a, d);
      TimesAtLeast(q - a, d);
    } else if q < a {
      TimesPlus(q, a - q, d);
      TimesAtLeast(a - q, d);
    }
  }

  function Quotient(a: nat, b: nat): nat
    requires b > 0
  {
    a / b
  }

  function Remainder(a: nat, b: nat): nat
    requires b > 0
  {
    a % b
  }

  /** divmod_u64: the shift of the remainder is reduced to 64 bits, as the machine
      does it, and that never loses a bit. */
  method DivMod(n: nat, d: nat) returns (q: nat, r: nat)
    requires n < WORD && d < WORD
    ensures d == 0 ==> q == 0 && r == n
    ensures d > 0 ==> q == Quotient(n, d) && r == Remainder(n, d)
  {
    hide Times;
    if d == 0 { return 0, n; }
    q, r := 0, 0;
    ghost var high := 0;
    PowWord();
    TopBelow(n, 64, 64);
    TimesZero(d);
    TimesZero(Pow2(64));
    var i := 64;
    while i > 0
      invariant 0 <= i <= 64 && high >= 0 && r < d && q == Times(high, Pow2(i)) && Top(n, i) == Times(high, d) + r
    {
      TopSmall(n, i);
      NotNegative(high, d);
      i := i - 1;
      r := 2 * r % WORD + Bit(n, i);
      TimesDouble(high, d);
      TimesDouble(high, Pow2(i));
      if r >= d {
        r := r - d;
        q := q + Pow2(i);
        TimesPlus(2 * high, 1, d);
        TimesPlus(2 * high, 1, Pow2(i));
        TimesZero(d);
        TimesZero(Pow2(i));
        high := 2 * high + 1;
      } else {
        high := 2 * high;
      }
    }
    TimesZero(high);
    DivUnique(n, d, q, r);
  }

  lemma NotNegative(a: nat, b: nat)
    ensures Times(a, b) >= 0
  {
    if a > 0 { TimesAtLeast(a, b); }
  }

  // ----- signed division -----

  /** A word read as a signed number. */
  function Signed(w: nat): int
    requires w < WORD
  {
    if w < HALF then w else w - WORD
  }

  function Magnitude(n: int): nat
    requires -HALF <= n < HALF
  {
    if n < 0 then -n else n
  }

  function Negated(w: nat): (r: nat)
    requires w < WORD
    ensures r < WORD
  {
    (WORD - w) % WORD
  }

  /** The quotient rounded towards zero. */
  function Truncated(n: int, d: int): int
    requires -HALF <= n < HALF && -HALF <= d < HALF && d != 0
  {
    var q: int := Quotient(Magnitude(n), Magnitude(d));
    if (n < 0) != (d < 0) then -q else q
  }

  /** __divdi3 and __moddi3: the truncated quotient and the remainder with the sign of
      the dividend; only the one quotient that does not fit wraps around. */
  method DivModSigned(n: int, d: int) returns (q: int, r: int)
    requires -HALF <= n < HALF && -HALF <= d < HALF
    ensures d == 0 ==> q == 0 && r == n
    ensures d != 0 && !(n == -HALF && d == -1) ==> q == Truncated(n, d)
    ensures n == -HALF && d == -1 ==> q == -HALF
    ensures d != 0 ==> n == Times(Truncated(n, d), d) + r && (if n < 0 then -r else r) >= 0
    ensures d != 0 ==> (if r < 0 then -r else r) < Magnitude(d)
  {
    hide Quotient, Remainder, Times;
    var uq, ur := DivMod(Magnitude(n), Magnitude(d));
    if d != 0 { SignedFacts(n, d); }
    q := if (n < 0) != (d < 0) then Signed(Negated(uq)) else Signed(uq);
    r := if n < 0 then Signed(Negated(ur)) else Signed(ur);
  }

  lemma SignedFacts(n: int, d: int)
    requires -HALF <= n < HALF && -HALF <= d < HALF && d != 0
    ensures var a, b := Magnitude(n), Magnitude(d);
      && Quotient(a, b) <= a && Remainder(a, b) < b && Remainder(a, b) <= a
      && (Quotient(a, b) == HALF ==> n == -HALF && b == 1)
      && (b == 1 ==> Quotient(a, b) == a)
      && n == Times(Truncated(n, d), d) + if n < 0 then 0 - Remainder(a, b) else Remainder(a, b)
  {
    hide Times;
    var a, b := Magnitude(n), Magnitude(d);
    var t: int := Quotient(a, b);
    DivTimes(a, b);
    NotNegative(t, b);
    if b > 1 {
      TimesPlus2(t, b);
    } else {
      TimesZero(t);
    }
    TimesSign(t, d);
    TimesSign(-t, d);
    TimesSign(t, b);
  }

  lemma TimesPlus2(t: nat, b: nat)
    requires b > 1
    ensures Times(t, b) >= 2 * t
  {
    hide Times;
    Swapped(t, b);
    TimesPlus(2, b - 2, t);
    TimesDouble(1, t);
    TimesZero(t);
    NotNegative(b - 2, t);
  }

  lemma Swapped(a: int, b: int)
    ensures Times(a, b) == Times(b, a)
  {
  }
}

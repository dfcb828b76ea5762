/** Numbers as the wire carries them, and the whole number that a conversion to an integer takes out
    of them. A single is its IEEE 754 bit pattern: sign, 8 bits of exponent, 23 bits of fraction. */
module Numbers {
  import opened Bytes

  /** A Real, kept as the word it was read from. */
  datatype Number =
    | Single(bits: UInt32)
    | Int32(word: UInt32)
    | Char(word: UInt32)
    | Double(bits64: UInt64)

  function Exp2(n: nat): (r: nat)
    ensures r >= 1
  {
    if n == 0 then 1 else 2 * Exp2(n - 1)
  }

  /** The position of the leading bit. */
  function Log2(n: nat): (e: nat)
    requires n > 0
    ensures Exp2(e) <= n < 2 * Exp2(e)
  {
    if n == 1 then 0 else Log2(n / 2) + 1
  }

  /** n shifted left by k bits. */
  function ShiftLeft(n: nat, k: nat): nat {
    if k == 0 then n else 2 * ShiftLeft(n, k - 1)
  }

  /** n shifted right by k bits. */
  function ShiftRight(n: nat, k: nat): nat {
    if k == 0 then n else ShiftRight(n / 2, k - 1)
  }

  function Magnitude(n: int): nat {
    if n < 0 then -n else n
  }

  /** The whole numbers a single holds without rounding: at most 24 significant bits. */
  predicate SingleExact(n: int) {
    n == 0 ||
    var e := Log2(Magnitude(n));
    e < 128 && (e <= 23 || ShiftLeft(ShiftRight(Magnitude(n), e - 23), e - 23) == Magnitude(n))
  }

  /** The 24-bit significand of a positive number whose leading bit is at e. */
  function Significand(n: nat, e: nat): nat {
    if e <= 23 then ShiftLeft(n, 23 - e) else ShiftRight(n, e - 23)
  }

  /** The number whose `width + 1` bit significand is s and whose leading bit is at e, without its
      fraction. */
  function Whole(s: nat, e: nat, width: nat): nat {
    if e <= width then ShiftRight(s, width - e) else ShiftLeft(s, e - width)
  }

  lemma {:induction false} ShiftLeftBounds(n: nat, e: nat, k: nat)
    requires Exp2(e) <= n < 2 * Exp2(e)
    ensures Exp2(e + k) <= ShiftLeft(n, k) < 2 * Exp2(e + k)
  {
    if k > 0 {
      ShiftLeftBounds(n, e, k - 1);
    }
  }

  lemma {:induction false} ShiftRightBounds(n: nat, e: nat, k: nat)
    requires Exp2(e + k) <= n < 2 * Exp2(e + k)
    ensures Exp2(e) <= ShiftRight(n, k) < 2 * Exp2(e)
    decreases k
  {
    if k > 0 {
      ShiftRightBounds(n / 2, e, k - 1);
    }
  }

  lemma {:induction false} ShiftBack(n: nat, k: nat)
    ensures ShiftRight(ShiftLeft(n, k), k) == n
  {
    if k > 0 {
      ShiftBack(n, k - 1);
    }
  }

  lemma SignificandBounds(n: nat)
    requires n > 0
    ensures Exp2(23) <= Significand(n, Log2(n)) < 2 * Exp2(23)
  {
    hide Exp2, ShiftLeft, ShiftRight;
    var e := Log2(n);
    hide Log2;
    if e <= 23 {
      ShiftLeftBounds(n, e, 23 - e);
    } else {
      ShiftRightBounds(n, 23, e - 23);
    }
  }

  const HIDDEN_BIT: int := 0x80_0000
  const SIGN_BIT: int := 0x8000_0000

  lemma HiddenBit()
    ensures Exp2(23) == HIDDEN_BIT
  {
    assert Exp2(8) == 0x100;
    assert Exp2(16) == 0x1_0000;
  }

  /** (float)n. */
  function SingleBits(n: int): UInt32
    requires SingleExact(n)
  {
    if n == 0 then 0 else
      var m := Magnitude(n);
      SignificandBounds(m);
      HiddenBit();
      (if n < 0 then SIGN_BIT else 0) + (127 + Log2(m)) * HIDDEN_BIT + (Significand(m, Log2(m)) - HIDDEN_BIT)
  }

  function Signed(negative: bool, n: int): int {
    if negative then -n else n
  }

  function WholePart(x: Number): int {
    match x
    case Single(bits) =>
      var exponent := bits / HIDDEN_BIT % 0x100;
      Signed(bits >= SIGN_BIT, if exponent < 127 then 0 else Whole(HIDDEN_BIT + bits % HIDDEN_BIT, exponent - 127, 23))
    case Int32(w) => if w >= SIGN_BIT then w - 0x1_0000_0000 else w
    case Char(w) => if w % 0x100 >= 0x80 then w % 0x100 - 0x100 else w % 0x100
    case Double(UInt64(high, low)) =>
      var exponent := high / 0x10_0000 % 0x800;
      var significand := (0x10_0000 + high % 0x10_0000) * 0x1_0000_0000 + low;
      Signed(high >= SIGN_BIT, if exponent < 1023 then 0 else Whole(significand, exponent - 1023, 52))
  }

  /** A whole number that fits a single survives the trip through it. */
  lemma SingleRoundTrip(n: int)
    requires SingleExact(n)
    ensures WholePart(Single(SingleBits(n))) == n
  {
    hide Denotes, WholePart, SingleBits, SingleExact;
    SingleDenotes(n);
    DenotesWhole(Single(SingleBits(n)), n);
  }

  lemma FieldsOf(negative: bool, exponent: nat, fraction: nat, bits: nat)
    requires exponent < 0x100 && fraction < HIDDEN_BIT
    requires bits == (if negative then SIGN_BIT else 0) + exponent * HIDDEN_BIT + fraction
    ensures (bits >= SIGN_BIT <==> negative) && bits / HIDDEN_BIT % 0x100 == exponent && bits % HIDDEN_BIT == fraction
  {
  }

  lemma ByteIsExact(b: Byte)
    ensures SingleExact(b)
  {
    assert Exp2(8) == 0x100;
    if b != 0 {
      LogBelow(b, 8);
    }
  }

  lemma {:induction false} LogBelow(n: nat, k: nat)
    requires 0 < n < Exp2(k)
    ensures Log2(n) < k
  {
    if n > 1 {
      LogBelow(n / 2, k - 1);
    }
  }

  /* ---- which whole number a number is ---- */

  /** IEEE 754: sign, exponent with its bias, and a fraction of so many bits stand for the whole number n. */
  predicate Floating(negative: bool, exponent: nat, fraction: nat, width: nat, bias: nat, n: int) {
    if exponent == 0 then fraction == 0 && n == 0 else
      && exponent <= 2 * bias && n != 0 && (n < 0 <==> negative)
      && if exponent >= bias + width then (Exp2(width) + fraction) * Exp2(exponent - bias - width) == Magnitude(n)
         else Exp2(width) + fraction == Magnitude(n) * Exp2(bias + width - exponent)
  }

  /** The number is the whole number n: an int32 or a char in two's complement, or a float. */
  predicate Denotes(x: Number, n: int) {
    match x
    case Int32(w) => -0x8000_0000 <= n < 0x8000_0000 && (n == w || n == w - 0x1_0000_0000)
    case Char(w) => -0x80 <= n < 0x80 && (n - w) % 0x100 == 0
    case Single(bits) => Floating(bits >= SIGN_BIT, bits / HIDDEN_BIT % 0x100, bits % HIDDEN_BIT, 23, 127, n)
    case Double(UInt64(high, low)) =>
      Floating(high >= SIGN_BIT, high / 0x10_0000 % 0x800, (high % 0x10_0000) * 0x1_0000_0000 + low, 52, 1023, n)
  }

  lemma {:induction false} ShiftLeftIs(n: nat, k: nat)
    ensures ShiftLeft(n, k) == n * Exp2(k)
  {
    if k > 0 {
      ShiftLeftIs(n, k - 1);
      assert n * Exp2(k) == 2 * (n * Exp2(k - 1));
    }
  }

  lemma {:induction false} Exp2Adds(a: nat, b: nat)
    ensures Exp2(a + b) == Exp2(a) * Exp2(b)
  {
    if b > 0 {
      Exp2Adds(a, b - 1);
      assert Exp2(a) * Exp2(b) == 2 * (Exp2(a) * Exp2(b - 1));
    }
  }

  lemma {:induction false} Exp2Grows(a: nat, b: nat)
    requires a <= b
    ensures Exp2(a) <= Exp2(b)
  {
    if a < b {
      Exp2Grows(a, b - 1);
    }
  }

  lemma AtLeast(m: nat, p: nat, q: nat)
    requires m > 0 && p <= q
    ensures p <= m * q
  {
    assert m * q == q + (m - 1) * q;
  }

  /** The whole part of a float that is a whole number is that number. */
  lemma FloatingWhole(negative: bool, exponent: nat, fraction: nat, width: nat, bias: nat, n: int)
    requires Floating(negative, exponent, fraction, width, bias, n) && fraction < Exp2(width) && bias > 0
    ensures Signed(negative, if exponent < bias then 0 else Whole(Exp2(width) + fraction, exponent - bias, width)) == n
  {
    hide Exp2;
    if exponent != 0 {
      var s, m := Exp2(width) + fraction, Magnitude(n);
      if exponent >= bias + width {
        ShiftLeftIs(s, exponent - bias - width);
      } else if exponent >= bias {
        ShiftLeftIs(m, bias + width - exponent);
        ShiftBack(m, bias + width - exponent);
      } else {
        TooSmall(m, s, width, bias + width - exponent);
      }
    }
  }

  lemma TooSmall(m: nat, s: nat, width: nat, k: nat)
    requires k > width && s < 2 * Exp2(width)
    ensures m > 0 ==> s < m * Exp2(k)
  {
    Exp2Grows(width + 1, k);
    if m > 0 {
      AtLeast(m, 2 * Exp2(width), Exp2(k));
    }
  }

  lemma FractionBits()
    ensures Exp2(23) == HIDDEN_BIT && Exp2(52) == 0x10_0000 * 0x1_0000_0000
  {
    hide Exp2;
    HiddenBit();
    SmallExp2();
    Exp2Adds(20, 16);
    Exp2Adds(36, 16);
  }

  lemma SmallExp2()
    ensures Exp2(16) == 0x1_0000 && Exp2(20) == 0x10_0000
  {
    assert Exp2(8) == 0x100;
  }

  /** What denotes a whole number has it as its whole part: it denotes no other. */
  lemma DenotesWhole(x: Number, n: int)
    requires Denotes(x, n)
    ensures WholePart(x) == n
  {
    hide Floating, Whole, Exp2;
    FractionBits();
    match x
    case Int32(w) =>
    case Char(w) =>
    case Single(bits) =>
      FloatingWhole(bits >= SIGN_BIT, bits / HIDDEN_BIT % 0x100, bits % HIDDEN_BIT, 23, 127, n);
    case Double(UInt64(high, low)) =>
      FloatingWhole(high >= SIGN_BIT, high / 0x10_0000 % 0x800, (high % 0x10_0000) * 0x1_0000_0000 + low, 52, 1023, n);
  }

  /** n is what is left of the IEEE 754 number, cut toward zero. */
  predicate Cut(negative: bool, exponent: nat, fraction: nat, width: nat, bias: nat, n: int) {
    && (n == 0 || (n < 0 <==> negative))
    && if exponent == 0 then n == 0
       else if exponent >= bias + width then Magnitude(n) == (Exp2(width) + fraction) * Exp2(exponent - bias - width)
       else
         var unit := Exp2(bias + width - exponent);
         Magnitude(n) * unit <= Exp2(width) + fraction < Magnitude(n) * unit + unit
  }

  lemma {:induction false} ShiftRightIs(n: nat, k: nat)
    ensures ShiftRight(n, k) * Exp2(k) <= n < ShiftRight(n, k) * Exp2(k) + Exp2(k)
    decreases k
  {
    if k > 0 {
      var q := ShiftRight(n, k);
      ShiftRightIs(n / 2, k - 1);
      assert q * Exp2(k) == 2 * (q * Exp2(k - 1));
    }
  }

  lemma FloatingCut(negative: bool, exponent: nat, fraction: nat, width: nat, bias: nat)
    requires fraction < Exp2(width) && bias > 0
    ensures var n := Signed(negative, if exponent < bias then 0 else Whole(Exp2(width) + fraction, exponent - bias, width));
            Cut(negative, exponent, fraction, width, bias, n)
  {
    hide Exp2, ShiftRight, ShiftLeft;
    var s := Exp2(width) + fraction;
    if exponent >= bias + width {
      ShiftLeftIs(s, exponent - bias - width);
      if exponent == bias + width {
        NoShift(s);
      }
    } else if exponent >= bias {
      ShiftRightIs(s, bias + width - exponent);
    } else if exponent > 0 {
      Exp2Grows(width + 1, bias + width - exponent);
      Doubled(width);
    }
  }

  lemma NoShift(n: nat)
    ensures ShiftRight(n, 0) == ShiftLeft(n, 0) == n
  {
  }

  lemma Doubled(k: nat)
    ensures Exp2(k + 1) == 2 * Exp2(k)
  {
  }

  /** The whole part of a single is the single cut toward zero. */
  lemma SingleCut(bits: UInt32)
    ensures Cut(bits >= SIGN_BIT, bits / HIDDEN_BIT % 0x100, bits % HIDDEN_BIT, 23, 127, WholePart(Single(bits)))
  {
    hide Cut, Whole, Exp2;
    FractionBits();
    FloatingCut(bits >= SIGN_BIT, bits / HIDDEN_BIT % 0x100, bits % HIDDEN_BIT, 23, 127);
  }

  /** And that of a double is the double cut toward zero. */
  lemma DoubleCut(high: UInt32, low: UInt32)
    ensures Cut(high >= SIGN_BIT, high / 0x10_0000 % 0x800, (high % 0x10_0000) * 0x1_0000_0000 + low, 52, 1023,
                WholePart(Double(UInt64(high, low))))
  {
    hide Cut, Whole, Exp2;
    FractionBits();
    FloatingCut(high >= SIGN_BIT, high / 0x10_0000 % 0x800, (high % 0x10_0000) * 0x1_0000_0000 + low, 52, 1023);
  }

  /** (float)n is n. */
  lemma SingleDenotes(n: int)
    requires SingleExact(n)
    ensures Denotes(Single(SingleBits(n)), n)
  {
    if n != 0 {
      var m := Magnitude(n);
      var e := Log2(m);
      SignificandBounds(m);
      HiddenBit();
      FieldsOf(n < 0, 127 + e, Significand(m, e) - HIDDEN_BIT, SingleBits(n));
      SignificandIs(m, e);
    }
  }

  lemma SignificandIs(m: nat, e: nat)
    requires m > 0 && e == Log2(m) && SingleExact(m)
    ensures if e >= 23 then Significand(m, e) * Exp2(e - 23) == m else Significand(m, e) == m * Exp2(23 - e)
  {
    hide Exp2;
    if e >= 23 {
      ShiftLeftIs(Significand(m, e), e - 23);
    } else {
      ShiftLeftIs(m, 23 - e);
    }
  }

  /* ---- which whole numbers a single holds ---- */

  lemma {:induction false} ShiftRightOf(s: nat, k: nat, j: nat)
    requires j <= k
    ensures ShiftRight(s * Exp2(k), j) == s * Exp2(k - j)
  {
    if j > 0 {
      assert s * Exp2(k) == 2 * (s * Exp2(k - 1));
      ShiftRightOf(s, k - 1, j - 1);
    }
  }

  lemma {:induction false} LogAbove(n: nat, k: nat)
    requires n >= Exp2(k)
    ensures n > 0 && Log2(n) >= k
  {
    if k > 0 {
      LogAbove(n / 2, k - 1);
    }
  }

  lemma BelowScaled(s: nat, a: nat, k: nat)
    requires s < Exp2(a)
    ensures s * Exp2(k) < Exp2(a + k)
  {
    hide Exp2;
    Exp2Adds(a, k);
    assert (Exp2(a) - s) * Exp2(k) == Exp2(a) * Exp2(k) - s * Exp2(k);
    AtLeast(Exp2(a) - s, 1, Exp2(k));
  }

  /** Exactly the numbers with at most 24 significant bits and no more than 128 bits in all. */
  lemma SingleExactly(n: int, s: nat, k: nat)
    requires s < Exp2(24) && k <= 104 && Magnitude(n) == s * Exp2(k)
    ensures SingleExact(n)
  {
    hide Exp2, Log2;
    var m := Magnitude(n);
    if m > 0 {
      var e := Log2(m);
      BelowScaled(s, 24, k);
      Exp2Grows(24 + k, 128);
      LogBelow(m, 128);
      LogBelow(m, 24 + k);
      if e > 23 {
        ShiftsBack(s, k, e - 23);
      }
    }
  }

  lemma ShiftsBack(s: nat, k: nat, j: nat)
    requires j <= k
    ensures ShiftLeft(ShiftRight(s * Exp2(k), j), j) == s * Exp2(k)
  {
    hide Exp2;
    ShiftRightOf(s, k, j);
    ShiftLeftIs(s * Exp2(k - j), j);
    Exp2Adds(k - j, j);
    Regroup(s, Exp2(k - j), Exp2(j));
  }

  lemma Regroup(a: nat, b: nat, c: nat)
    ensures a * (b * c) == (a * b) * c
  {
  }
}

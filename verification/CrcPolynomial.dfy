/** The CRC as a polynomial remainder over GF(2), in the terms of section 8 of RFC 1952. A polynomial
    is the sequence of its coefficients, highest power first; a byte is sent lowest bit first. */
module CrcPolynomial {
  import opened Words
  import opened Crc32

  type Poly = seq<bool>

  function Zeros(n: nat): (p: Poly)
    ensures |p| == n && forall i :: 0 <= i < n ==> !p[i]
  {
    seq(n, _ => false)
  }

  function Ones(n: nat): (p: Poly)
    ensures |p| == n && forall i :: 0 <= i < n ==> p[i]
  {
    seq(n, _ => true)
  }

  function Add(p: Poly, q: Poly): (r: Poly)
    requires |p| == |q|
    ensures |r| == |p| && forall i :: 0 <= i < |p| ==> (r[i] <==> p[i] != q[i])
  {
    seq(|p|, i requires 0 <= i < |p| => p[i] != q[i])
  }

  /** The powers of x in the generator polynomial. */
  const EXPONENTS: set<nat> := {32, 26, 23, 22, 16, 12, 11, 10, 8, 7, 5, 4, 2, 1, 0}

  function Generator(): (g: Poly)
    ensures |g| == 33 && g[0]
  {
    seq(33, i requires 0 <= i < 33 => (32 - i) in EXPONENTS)
  }

  /** The generator times x to the n, or zero. */
  function Row(q: bool, n: nat): (r: Poly)
    ensures |r| == n + 33
  {
    if q then Generator() + Zeros(n) else Zeros(n + 33)
  }

  /** The product of q and the generator. */
  function TimesGenerator(q: Poly): (r: Poly)
    ensures |r| == |q| + 32
    decreases |q|
  {
    if q == [] then Zeros(32) else Add(Row(q[0], |q| - 1), [false] + TimesGenerator(q[1..]))
  }

  /** q times the generator plus r, where r has degree below 32. */
  function Dividend(q: Poly, r: Poly): (p: Poly)
    requires |r| == 32
    ensures |p| == |q| + 32
  {
    Add(TimesGenerator(q), Zeros(|q|) + r)
  }

  ghost predicate IsRemainder(p: Poly, r: Poly) {
    && |p| >= 32
    && |r| == 32
    && exists q: Poly :: |q| == |p| - 32 && p == Dividend(q, r)
  }

  lemma DividendStep(q: Poly, r: Poly)
    requires |r| == 32 && q != []
    ensures Dividend(q, r) == Add(Row(q[0], |q| - 1), [false] + Dividend(q[1..], r))
  {
  }

  lemma {:induction false} DividendInjective(q: Poly, r: Poly, t: Poly, s: Poly)
    requires |r| == |s| == 32 && |q| == |t|
    requires Dividend(q, r) == Dividend(t, s)
    ensures q == t && r == s
    decreases |q|
  {
    if q == [] {
      assert Dividend(q, r) == r;
      assert Dividend(t, s) == s;
    } else {
      DividendTails(q, r, t, s);
      DividendInjective(q[1..], r, t[1..], s);
      assert q == [q[0]] + q[1..] && t == [t[0]] + t[1..];
    }
  }

  lemma ShiftedSum(row: Poly, u: Poly)
    requires |row| == |u| + 1
    ensures var p := Add(row, [false] + u);
            p[0] == row[0] && forall i :: 0 <= i < |u| ==> p[i + 1] == (row[i + 1] != u[i])
  {
  }

  lemma DividendTails(q: Poly, r: Poly, t: Poly, s: Poly)
    requires |r| == |s| == 32 && |q| == |t| > 0
    requires Dividend(q, r) == Dividend(t, s)
    ensures q[0] == t[0] && Dividend(q[1..], r) == Dividend(t[1..], s)
  {
    hide Dividend, Row, Add;
    DividendStep(q, r);
    DividendStep(t, s);
    var n := |q| - 1;
    var p, u, v := Dividend(q, r), Dividend(q[1..], r), Dividend(t[1..], s);
    ShiftedSum(Row(q[0], n), u);
    ShiftedSum(Row(t[0], n), v);
    RowHead(q[0], n);
    RowHead(t[0], n);
    forall i | 0 <= i < |u| ensures u[i] == v[i] {
      assert p[i + 1] == (Row(q[0], n)[i + 1] != u[i]);
      assert p[i + 1] == (Row(q[0], n)[i + 1] != v[i]);
    }
    assert u == v;
  }

  lemma RowHead(q: bool, n: nat)
    ensures Row(q, n)[0] == q
  {
  }

  /** A polynomial has at most one remainder. */
  lemma RemainderUnique(p: Poly, r: Poly, s: Poly)
    requires IsRemainder(p, r) && IsRemainder(p, s)
    ensures r == s
  {
    var q :| |q| == |p| - 32 && p == Dividend(q, r);
    var t :| |t| == |p| - 32 && p == Dividend(t, s);
    DividendInjective(q, r, t, s);
  }

  // ---------- Words as polynomials ----------

  /** The lowest n bits, lowest first. */
  function BitsOf(c: bv32, n: nat): (p: Poly)
    ensures |p| == n
    decreases n
  {
    if n == 0 then [] else [Odd(c)] + BitsOf(Half(c), n - 1)
  }

  function MessageBits(data: seq<bv8>): (p: Poly)
    ensures |p| == 8 * |data|
    decreases |data|
  {
    if data == [] then [] else BitsOf(data[0] as bv32, 8) + MessageBits(data[1..])
  }

  /** The register's polynomial: bit 0 is the coefficient of x to the 31. */
  function RegisterPoly(c: bv32): (p: Poly)
    ensures |p| == 32
  {
    BitsOf(c, 32)
  }

  lemma {:induction false} BitsOfLinear(a: bv32, b: bv32, n: nat)
    ensures BitsOf(Xor(a, b), n) == Add(BitsOf(a, n), BitsOf(b, n))
    decreases n
  {
    hide Xor, Odd, Half;
    if n > 0 {
      OddLinear(a, b);
      HalfLinear(a, b);
      BitsOfLinear(Half(a), Half(b), n - 1);
    }
  }

  function Halves(c: bv32, n: nat): bv32
    decreases n
  {
    if n == 0 then c else Halves(Half(c), n - 1)
  }

  lemma {:induction false} BitsOfHalf(c: bv32, n: nat)
    requires Halves(c, n) == 0
    ensures n > 0 ==> BitsOf(Half(c), n) == BitsOf(c, n)[1..] + [false]
    decreases n
  {
    hide Odd, Half;
    if n > 0 {
      BitsOfHalf(Half(c), n - 1);
      if n == 1 {
        assert Half(c) == 0;
        ZeroIsEven();
      }
    }
  }

  lemma ZeroIsEven()
    ensures !Odd(0) && Half(0) == 0
  {
  }

  lemma HalfMonotone(c: bv32, m: bv32)
    requires c <= m
    ensures Half(c) <= Half(m)
  {
  }

  lemma {:induction false} HalvesMonotone(c: bv32, m: bv32, n: nat)
    requires c <= m
    ensures Halves(c, n) <= Halves(m, n)
    decreases n
  {
    hide Half;
    if n > 0 {
      HalfMonotone(c, m);
      HalvesMonotone(Half(c), Half(m), n - 1);
    }
  }

  lemma AllHalved(c: bv32)
    ensures Halves(c, 32) == 0
  {
    hide Halves;
    HalvesMonotone(c, 0xFFFF_FFFF, 32);
    FourHalves(0xFFFF_FFFF, 28); FourHalves(0xFFF_FFFF, 24); FourHalves(0xFF_FFFF, 20); FourHalves(0xF_FFFF, 16);
    FourHalves(0xFFFF, 12); FourHalves(0xFFF, 8); FourHalves(0xFF, 4); FourHalves(0xF, 0);
    NoHalves(0);
  }

  lemma FourHalves(c: bv32, n: nat)
    ensures Halves(c, n + 4) == Halves(c >> 4, n)
  {
    assert Halves(c, n + 4) == Halves(Half(c), n + 3) == Halves(Half(Half(c)), n + 2);
    assert Halves(Half(Half(c)), n + 2) == Halves(Half(Half(Half(c))), n + 1);
  }

  lemma NoHalves(c: bv32)
    ensures Halves(c, 0) == c
  {
  }

  lemma FourBits(c: bv32, n: nat, b0: bool, b1: bool, b2: bool, b3: bool)
    requires b0 == Odd(c) && b1 == Odd(c >> 1) && b2 == Odd(c >> 2) && b3 == Odd(c >> 3)
    ensures BitsOf(c, n + 4) == [b0, b1, b2, b3] + BitsOf(c >> 4, n)
  {
    hide Odd;
    assert Half(c) == c >> 1 && Half(c >> 1) == c >> 2 && Half(c >> 2) == c >> 3 && Half(c >> 3) == c >> 4;
    hide Half;
    assert BitsOf(c, n + 4) == [b0] + BitsOf(c >> 1, n + 3);
    assert BitsOf(c >> 1, n + 3) == [b1] + BitsOf(c >> 2, n + 2);
    assert BitsOf(c >> 2, n + 2) == [b2] + BitsOf(c >> 3, n + 1);
    assert BitsOf(c >> 3, n + 1) == [b3] + BitsOf(c >> 4, n);
  }

  lemma GeneratorBits()
    ensures RegisterPoly(POLYNOMIAL) == Generator()[1..]
  {
    hide BitsOf;
    FourBits(0xEDB8_8320, 28, false, false, false, false);
    FourBits(0xEDB_8832, 24, false, true, false, false);
    FourBits(0xED_B883, 20, true, true, false, false);
    FourBits(0xE_DB88, 16, false, false, false, true);
    FourBits(0xEDB8, 12, false, false, false, true);
    FourBits(0xEDB, 8, true, true, false, true);
    FourBits(0xED, 4, true, false, true, true);
    FourBits(0xE, 0, false, true, true, true);
  }

  // ---------- The register computes the remainder ----------

  function BitWord(m: bool): bv32 {
    if m then 1 else 0
  }

  /** The register after single message bits. */
  function BitUpdate(c: bv32, m: Poly): bv32
    decreases |m|
  {
    if m == [] then c else BitUpdate(Step(Xor(c, BitWord(m[0]))), m[1..])
  }

  function Quotient(c: bv32, m: Poly): (q: Poly)
    ensures |q| == |m|
    decreases |m|
  {
    if m == [] then [] else [Odd(c) != m[0]] + Quotient(Step(Xor(c, BitWord(m[0]))), m[1..])
  }

  /** The register ahead of the message that is still to come, times x to the 32. */
  function Pending(c: bv32, m: Poly): (p: Poly)
    ensures |p| == |m| + 32
  {
    Add(RegisterPoly(c) + Zeros(|m|), m + Zeros(32))
  }

  lemma BitWordBits(c: bv32, m: bool)
    ensures Odd(Xor(c, BitWord(m))) <==> Odd(c) != m
    ensures Half(Xor(c, BitWord(m))) == Half(c)
  {
  }

  lemma StepPoly(c: bv32, m: bool)
    ensures var next := RegisterPoly(Step(Xor(c, BitWord(m))));
            next == Add(RegisterPoly(c)[1..] + [false], Row(Odd(c) != m, 0)[1..])
  {
    hide Xor, Odd, Half, BitsOf, BitWord;
    BitWordBits(c, m);
    AllHalved(c);
    BitsOfHalf(c, 32);
    BitsOfLinear(Half(c), POLYNOMIAL, 32);
    GeneratorBits();
    assert Generator() + Zeros(0) == Generator();
  }

  lemma PendingAt(c: bv32, m: Poly, j: nat)
    requires j < |m| + 32
    ensures Pending(c, m)[j] == ((j < 32 && RegisterPoly(c)[j]) != (j < |m| && m[j]))
  {
    hide RegisterPoly;
  }

  lemma RowAt(q: bool, n: nat, j: nat)
    requires j < n + 33
    ensures Row(q, n)[j] == (q && j < 33 && Generator()[j])
  {
    hide Generator;
  }

  lemma NextRegisterAt(c: bv32, m: bool, i: nat)
    requires i < 32
    ensures RegisterPoly(Step(Xor(c, BitWord(m))))[i]
         == ((i < 31 && RegisterPoly(c)[i + 1]) != ((Odd(c) != m) && Generator()[i + 1]))
  {
    StepPoly(c, m);
    RowAt(Odd(c) != m, 0, i + 1);
    hide RegisterPoly, Step, Xor, Odd, Row, Generator, BitWord;
  }

  lemma PendingStepAt(c: bv32, m: Poly, i: nat)
    requires m != [] && i < |m| + 31
    ensures var q, next := Odd(c) != m[0], Step(Xor(c, BitWord(m[0])));
            Pending(c, m)[i + 1] == (Row(q, |m| - 1)[i + 1] != Pending(next, m[1..])[i])
  {
    hide Xor, Half, Odd, RegisterPoly, Step, BitWord, Pending, Row, Generator;
    PendingAt(c, m, i + 1);
    PendingAt(Step(Xor(c, BitWord(m[0]))), m[1..], i);
    RowAt(Odd(c) != m[0], |m| - 1, i + 1);
    if i < 32 { NextRegisterAt(c, m[0], i); }
  }

  lemma IsShiftedSum(p: Poly, row: Poly, u: Poly)
    requires |p| == |row| == |u| + 1 && p[0] == row[0]
    requires forall j :: 1 <= j < |p| ==> p[j] == (row[j] != u[j - 1])
    ensures p == Add(row, [false] + u)
  {
  }

  lemma PendingStep(c: bv32, m: Poly)
    requires m != []
    ensures var q, next := Odd(c) != m[0], Step(Xor(c, BitWord(m[0])));
            Pending(c, m) == Add(Row(q, |m| - 1), [false] + Pending(next, m[1..]))
  {
    hide Xor, Half, Odd, RegisterPoly, Step, BitWord, Pending, Row, Generator, Add;
    var q, next, n := Odd(c) != m[0], Step(Xor(c, BitWord(m[0]))), |m| - 1;
    var p, row, rest := Pending(c, m), Row(q, n), Pending(next, m[1..]);
    FirstBit(c);
    PendingAt(c, m, 0);
    RowAt(q, n, 0);
    forall j | 1 <= j < |p| ensures p[j] == (row[j] != rest[j - 1]) { PendingStepAt(c, m, j - 1); }
    IsShiftedSum(p, row, rest);
  }

  lemma FirstBit(c: bv32)
    ensures RegisterPoly(c)[0] == Odd(c)
  {
  }

  lemma {:induction false} BitUpdateDivides(c: bv32, m: Poly)
    ensures Pending(c, m) == Dividend(Quotient(c, m), RegisterPoly(BitUpdate(c, m)))
    decreases |m|
  {
    hide Xor, Odd, Step, BitsOf, BitWord;
    var q, r := Quotient(c, m), RegisterPoly(BitUpdate(c, m));
    if m == [] {
      assert Pending(c, m) == Dividend(q, r);
    } else {
      var next := Step(Xor(c, BitWord(m[0])));
      BitUpdateDivides(next, m[1..]);
      PendingStep(c, m);
      DividendStep(q, r);
      assert q[1..] == Quotient(next, m[1..]);
      hide Pending, Dividend, Row;
    }
  }

  // ---------- Bytes are eight single bits ----------

  lemma {:induction false} BitUpdateConcat(c: bv32, m: Poly, n: Poly)
    ensures BitUpdate(c, m + n) == BitUpdate(BitUpdate(c, m), n)
    decreases |m|
  {
    hide Step, Xor, BitWord;
    if m == [] {
      assert m + n == n;
    } else {
      assert (m + n)[1..] == m[1..] + n;
      BitUpdateConcat(Step(Xor(c, BitWord(m[0]))), m[1..], n);
    }
  }

  lemma SplitLowBit(v: bv32)
    ensures v == Xor(BitWord(Odd(v)), Half(v) << 1)
    ensures Half(v) <= 0x7FFF_FFFF
  {
  }

  /** Adding a word to the register at once is the same as adding its bits one step at a time. */
  lemma {:induction false} StepsAreBits(c: bv32, v: bv32, n: nat)
    requires Halves(v, n) == 0
    ensures Steps(Xor(c, v), n) == BitUpdate(c, BitsOf(v, n))
    decreases n
  {
    hide Xor, Odd, Half, Step, BitWord;
    if n == 0 {
      XorIdentity(c);
    } else {
      var h, c0 := Half(v), Xor(c, BitWord(Odd(v)));
      SplitLowBit(v);
      XorAssociative(c, BitWord(Odd(v)), h << 1);
      StepLinear(c0, h << 1);
      StepDoubled(h);
      StepsAreBits(Step(c0), h, n - 1);
    }
  }

  lemma ByteHalved(b: bv8)
    ensures Halves(b as bv32, 8) == 0
  {
  }

  lemma {:induction false} UpdateIsBitUpdate(c: bv32, data: seq<bv8>)
    ensures Update(c, data) == BitUpdate(c, MessageBits(data))
    decreases |data|
  {
    hide Xor, Steps, BitsOf;
    if data != [] {
      var b := data[0];
      ByteHalved(b);
      StepsAreBits(c, b as bv32, 8);
      BitUpdateConcat(c, BitsOf(b as bv32, 8), MessageBits(data[1..]));
      UpdateIsBitUpdate(Absorb(c, b), data[1..]);
    }
  }

  lemma OnesPoly()
    ensures RegisterPoly(Not(0)) == Ones(32)
  {
    hide BitsOf;
    FourBits(0xFFFF_FFFF, 28, true, true, true, true);
    FourBits(0x0FFF_FFFF, 24, true, true, true, true);
    FourBits(0x00FF_FFFF, 20, true, true, true, true);
    FourBits(0x000F_FFFF, 16, true, true, true, true);
    FourBits(0xFFFF, 12, true, true, true, true);
    FourBits(0xFFF, 8, true, true, true, true);
    FourBits(0xFF, 4, true, true, true, true);
    FourBits(0xF, 0, true, true, true, true);
  }

  /** With previous value 0, the complement of the checksum is the remainder of the message, its first
      32 bits complemented, times x to the 32. */
  lemma CrcIsRemainder(data: seq<bv8>)
    ensures IsRemainder(Add(Ones(32) + Zeros(8 * |data|), MessageBits(data) + Zeros(32)),
                        RegisterPoly(Not(Crc(data, 0))))
  {
    hide BitsOf, Update, Not, BitUpdate, MessageBits;
    var c, m := Not(0), MessageBits(data);
    OnesPoly();
    UpdateIsBitUpdate(c, data);
    NotTwice(Update(c, data));
    BitUpdateDivides(c, m);
    assert |Quotient(c, m)| == |Pending(c, m)| - 32;
  }
}

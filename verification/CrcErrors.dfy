/** Which errors the CRC-32 of wiced_crypto.c detects, bit by bit: exactly those whose polynomial, times x to
    the 32, is no multiple of the generator. */
module CrcErrors {
  import opened Words
  import opened Crc32
  import opened CrcPolynomial

  ghost predicate IsMultiple(p: Poly) {
    |p| >= 32 && exists q: Poly :: |q| == |p| - 32 && p == TimesGenerator(q)
  }

  ghost predicate AllFalse(p: Poly) {
    forall i :: 0 <= i < |p| ==> !p[i]
  }

  // ---------- The register and the difference of two messages ----------

  /** Messages of one length share a checksum exactly when their difference leaves the register at zero. */
  lemma SameCrcIffZero(x: seq<bv8>, y: seq<bv8>, prev: bv32)
    requires |x| == |y|
    ensures Crc(x, prev) == Crc(y, prev) <==> Update(0, Crc32.Sum(x, y)) == 0
  {
    hide Update, Xor, Not;
    var r := Not(prev);
    UpdateLinear(r, x, r, y);
    XorIdentity(r);
    XorZero(Update(r, x), Update(r, y));
    NotTwice(Update(r, x));
    NotTwice(Update(r, y));
  }

  lemma {:induction false} ZeroBits(n: nat)
    ensures BitsOf(0, n) == Zeros(n)
    decreases n
  {
    hide Odd, Half;
    ZeroIsEven();
    if n > 0 { ZeroBits(n - 1); }
  }

  lemma OnlyZeroHalves(c: bv32)
    requires !Odd(c) && Half(c) == 0
    ensures c == 0
  {
  }

  /** A word of n bits, all of them clear, is zero. */
  lemma {:induction false} ClearBits(c: bv32, n: nat)
    requires Halves(c, n) == 0 && AllFalse(BitsOf(c, n))
    ensures c == 0
    decreases n
  {
    hide Odd, Half;
    if n > 0 {
      var rest := BitsOf(Half(c), n - 1);
      assert BitsOf(c, n) == [Odd(c)] + rest;
      assert forall i :: 0 <= i < n - 1 ==> rest[i] == BitsOf(c, n)[i + 1];
      assert !BitsOf(c, n)[0];
      ClearBits(Half(c), n - 1);
      OnlyZeroHalves(c);
    }
  }

  lemma NoRemainder(q: Poly)
    ensures Dividend(q, Zeros(32)) == TimesGenerator(q)
  {
    hide TimesGenerator;
  }

  lemma PendingNothing(m: Poly)
    ensures Pending(0, m) == m + Zeros(32)
  {
    hide BitsOf;
    ZeroBits(32);
  }

  /** The register ends at zero exactly when the message times x to the 32 is a multiple of the generator. */
  lemma ZeroIffMultiple(m: Poly)
    ensures BitUpdate(0, m) == 0 <==> IsMultiple(m + Zeros(32))
  {
    hide BitUpdate, BitsOf, Pending, Dividend, TimesGenerator;
    var c, p := BitUpdate(0, m), m + Zeros(32);
    BitUpdateDivides(0, m);
    PendingNothing(m);
    assert IsRemainder(p, RegisterPoly(c)) by { assert p == Dividend(Quotient(0, m), RegisterPoly(c)); }
    if c == 0 {
      ZeroBits(32);
      NoRemainder(Quotient(0, m));
    }
    if IsMultiple(p) {
      var q: Poly :| |q| == |p| - 32 && p == TimesGenerator(q);
      NoRemainder(q);
      RemainderUnique(p, RegisterPoly(c), Zeros(32));
      AllHalved(c);
      ClearBits(c, 32);
    }
  }

  /** The exact condition for an error to go unnoticed. */
  lemma SameCrcIff(x: seq<bv8>, y: seq<bv8>, prev: bv32)
    requires |x| == |y|
    ensures Crc(x, prev) == Crc(y, prev) <==> IsMultiple(MessageBits(Crc32.Sum(x, y)) + Zeros(32))
  {
    hide Update, BitUpdate, MessageBits, Crc, IsMultiple;
    SameCrcIffZero(x, y, prev);
    UpdateIsBitUpdate(0, Crc32.Sum(x, y));
    ZeroIffMultiple(MessageBits(Crc32.Sum(x, y)));
  }

  // ---------- Differences bit by bit ----------

  lemma AddConcat(a: Poly, b: Poly, c: Poly, d: Poly)
    requires |a| == |b| && |c| == |d|
    ensures Add(a + c, b + d) == Add(a, b) + Add(c, d)
  {
  }

  function ByteBits(b: bv8): (p: Poly)
    ensures |p| == 8
  {
    BitsOf(b as bv32, 8)
  }

  lemma ByteDifference(b: bv8, c: bv8)
    ensures ByteBits(b ^ c) == Add(ByteBits(b), ByteBits(c))
  {
    hide BitsOf, Xor, Add;
    BitsOfLinear(b as bv32, c as bv32, 8);
    XorBytes(b, c);
  }

  lemma FirstByte(d: seq<bv8>)
    requires d != []
    ensures MessageBits(d) == ByteBits(d[0]) + MessageBits(d[1..])
  {
    hide BitsOf;
  }

  lemma {:induction false} DifferenceBits(x: seq<bv8>, y: seq<bv8>)
    requires |x| == |y|
    ensures MessageBits(Crc32.Sum(x, y)) == Add(MessageBits(x), MessageBits(y))
    decreases |x|
  {
    hide ByteBits, Add;
    if x == [] {
      assert Add([], []) == [];
    } else {
      var d := Crc32.Sum(x, y);
      assert d[1..] == Crc32.Sum(x[1..], y[1..]);
      DifferenceBits(x[1..], y[1..]);
      FirstByte(d);
      FirstByte(x);
      FirstByte(y);
      hide MessageBits;
      ByteDifference(x[0], y[0]);
      AddConcat(ByteBits(x[0]), ByteBits(y[0]), MessageBits(x[1..]), MessageBits(y[1..]));
    }
  }

  lemma {:induction false} ClearMessage(d: seq<bv8>)
    requires AllFalse(MessageBits(d))
    ensures forall i :: 0 <= i < |d| ==> d[i] == 0
    decreases |d|
  {
    hide BitsOf;
    if d != [] {
      var first, rest := ByteBits(d[0]), MessageBits(d[1..]);
      FirstByte(d);
      assert forall i :: 0 <= i < 8 ==> first[i] == MessageBits(d)[i];
      assert forall i :: 0 <= i < |rest| ==> rest[i] == MessageBits(d)[8 + i];
      ByteHalved(d[0]);
      ClearBits(d[0] as bv32, 8);
      ClearByte(d[0]);
      ClearMessage(d[1..]);
    }
  }

  lemma ClearByte(b: bv8)
    requires b as bv32 == 0
    ensures b == 0
  {
  }

  /** Different messages differ in some bit. */
  lemma DifferentBits(x: seq<bv8>, y: seq<bv8>)
    requires |x| == |y| && x != y
    ensures !AllFalse(MessageBits(Crc32.Sum(x, y)))
  {
    hide MessageBits;
    var d := Crc32.Sum(x, y);
    if AllFalse(MessageBits(d)) {
      ClearMessage(d);
      forall i | 0 <= i < |x| ensures x[i] == y[i] { XorBytesZero(x[i], y[i]); }
    }
  }

  // ---------- Short differences ----------

  lemma {:induction false} BitUpdateOverZeros(c: bv32, z: Poly)
    requires AllFalse(z)
    ensures c != 0 <==> BitUpdate(c, z) != 0
    decreases |z|
  {
    hide Xor, Step;
    if z != [] {
      XorIdentity(c);
      StepNonZero(c);
      BitUpdateOverZeros(Step(c), z[1..]);
    }
  }

  function Twice(v: bv32): bv32 {
    v << 1
  }

  /** Up to 32 bits as one word, the first one lowest. */
  function WordOf(m: Poly): bv32
    requires |m| <= 32
    decreases |m|
  {
    if m == [] then 0 else Xor(BitWord(m[0]), Twice(WordOf(m[1..])))
  }

  lemma LowBit(b: bool, v: bv32)
    requires v <= 0x7FFF_FFFF
    ensures Odd(Xor(BitWord(b), Twice(v))) == b && Half(Xor(BitWord(b), Twice(v))) == v
  {
  }

  lemma {:induction false} HalvesOfZero(m: nat)
    ensures Halves(0, m) == 0
    decreases m
  {
    hide Half;
    ZeroIsEven();
    if m > 0 { HalvesOfZero(m - 1); }
  }

  lemma {:induction false} HalvesMore(v: bv32, n: nat, m: nat)
    requires Halves(v, n) == 0 && n <= m
    ensures Halves(v, m) == 0
    decreases n
  {
    hide Half;
    if n == 0 { HalvesOfZero(m); } else { HalvesMore(Half(v), n - 1, m - 1); }
  }

  lemma TopHalved()
    ensures Halves(0x8000_0000, 31) == 1
  {
    hide Halves;
    FourHalves(0x8000_0000, 27); FourHalves(0x800_0000, 23); FourHalves(0x80_0000, 19); FourHalves(0x8_0000, 15);
    FourHalves(0x8000, 11); FourHalves(0x800, 7); FourHalves(0x80, 3);
    ThreeHalves();
  }

  lemma ThreeHalves()
    ensures Halves(8, 3) == 1
  {
    assert Halves(8, 3) == Halves(4, 2) == Halves(2, 1);
  }

  lemma ShortWordBounded(v: bv32, n: nat)
    requires Halves(v, n) == 0 && n <= 31
    ensures v <= 0x7FFF_FFFF
  {
    hide Halves;
    HalvesMore(v, n, 31);
    TopHalved();
    if v > 0x7FFF_FFFF { HalvesMonotone(0x8000_0000, v, 31); }
  }

  lemma {:induction false} WordOfBits(m: Poly)
    requires |m| <= 32
    ensures Halves(WordOf(m), |m|) == 0 && BitsOf(WordOf(m), |m|) == m
    decreases |m|
  {
    hide Xor, Odd, Half, BitWord, Twice;
    if m != [] {
      var v := WordOf(m[1..]);
      WordOfBits(m[1..]);
      ShortWordBounded(v, |m| - 1);
      LowBit(m[0], v);
    }
  }

  /** Up to 32 bits, not all clear, never leave the register at zero. */
  lemma ShortBitsDetected(m: Poly)
    requires |m| <= 32
    ensures BitUpdate(0, m) == 0 <==> AllFalse(m)
  {
    hide BitUpdate, Xor, Steps, BitsOf, WordOf, Halves;
    if AllFalse(m) {
      BitUpdateOverZeros(0, m);
    } else {
      var v := WordOf(m);
      WordOfBits(m);
      StepsAreBits(0, v, |m|);
      XorIdentity(v);
      StepsNonZero(v, |m|);
      ZeroBits(|m|);
    }
  }

  lemma {:induction false} BitUpdateLinear(c: bv32, m: Poly, d: bv32, n: Poly)
    requires |m| == |n|
    ensures BitUpdate(Xor(c, d), Add(m, n)) == Xor(BitUpdate(c, m), BitUpdate(d, n))
    decreases |m|
  {
    hide Step, Xor, BitWord;
    if m != [] {
      var a, b := BitWord(m[0]), BitWord(n[0]);
      BitWordAdds(m[0], n[0]);
      XorInterchange(c, d, a, b);
      StepLinear(Xor(c, a), Xor(d, b));
      assert Add(m, n)[1..] == Add(m[1..], n[1..]);
      BitUpdateLinear(Step(Xor(c, a)), m[1..], Step(Xor(d, b)), n[1..]);
    }
  }

  lemma BitWordAdds(a: bool, b: bool)
    ensures BitWord(a != b) == Xor(BitWord(a), BitWord(b))
  {
  }

  /** The generator itself leaves the register at zero. */
  lemma GeneratorUnnoticed()
    ensures BitUpdate(0, Generator()) == 0
  {
    hide BitUpdate, Steps, BitsOf, Halves;
    var g := Generator();
    FirstBitOfGenerator(g);
    GeneratorBits();
    AllHalved(POLYNOMIAL);
    StepsAreBits(POLYNOMIAL, POLYNOMIAL, 32);
    XorIdentity(POLYNOMIAL);
    StepsNonZero(0, 32);
  }

  lemma FirstBitOfGenerator(m: Poly)
    requires m != [] && m[0]
    ensures BitUpdate(0, m) == BitUpdate(POLYNOMIAL, m[1..])
  {
    assert Step(Xor(0, BitWord(true))) == POLYNOMIAL;
  }

  lemma FirstBitClear(m: Poly)
    requires m != [] && !m[0]
    ensures BitUpdate(0, m) == BitUpdate(0, m[1..])
  {
    assert Step(Xor(0, BitWord(false))) == 0;
  }

  /** Of all patterns of 33 bits, two leave the register at zero: none set, and the generator. */
  lemma LongestPattern(m: Poly)
    requires |m| == 33
    ensures BitUpdate(0, m) == 0 <==> AllFalse(m) || m == Generator()
  {
    hide BitUpdate, Xor;
    var g := Generator();
    GeneratorUnnoticed();
    if m[0] {
      var d := Add(m, g);
      BitUpdateLinear(0, m, 0, g);
      XorIdentity(0);
      XorIdentity(BitUpdate(0, m));
      FirstBitClear(d);
      ShortBitsDetected(d[1..]);
      if AllFalse(d[1..]) {
        forall i | 0 <= i < 33 ensures m[i] == g[i] { if i > 0 { assert !d[1..][i - 1]; } }
        assert m == g;
      }
      if m == g { assert forall i :: 0 <= i < 32 ==> !d[1..][i]; }
    } else {
      FirstBitClear(m);
      ShortBitsDetected(m[1..]);
      if AllFalse(m[1..]) { assert forall i :: 1 <= i < 33 ==> m[i] == m[1..][i - 1]; }
    }
  }

  lemma OnlyWithin(m: Poly, lo: nat, hi: nat)
    requires lo <= hi <= |m| && forall i :: 0 <= i < |m| && !(lo <= i < hi) ==> !m[i]
    ensures BitUpdate(0, m) == 0 <==> BitUpdate(0, m[lo..hi]) == 0
  {
    hide BitUpdate;
    var pre, mid, post := m[..lo], m[lo..hi], m[hi..];
    assert m == (pre + mid) + post;
    BitUpdateConcat(0, pre + mid, post);
    BitUpdateConcat(0, pre, mid);
    BitUpdateOverZeros(0, pre);
    BitUpdateOverZeros(BitUpdate(0, mid), post);
  }

  /** The bits in which two messages of one length differ. */
  function Errors(x: seq<bv8>, y: seq<bv8>): (e: Poly)
    requires |x| == |y|
    ensures |e| == 8 * |x|
  {
    Add(MessageBits(x), MessageBits(y))
  }

  ghost predicate Within(e: Poly, lo: nat, hi: nat) {
    lo <= hi <= |e| && forall i :: 0 <= i < |e| && !(lo <= i < hi) ==> !e[i]
  }

  /** Errors within 33 consecutive bits go unnoticed in one case only: when they are the generator's. */
  lemma LongBurstUnnoticedIff(x: seq<bv8>, y: seq<bv8>, prev: bv32, lo: nat)
    requires |x| == |y| && x != y && Within(Errors(x, y), lo, lo + 33)
    ensures Crc(x, prev) == Crc(y, prev) <==> Errors(x, y)[lo..lo + 33] == Generator()
  {
    hide Update, BitUpdate, MessageBits, Crc, Generator;
    var e := Errors(x, y);
    SameCrcIffZero(x, y, prev);
    UpdateIsBitUpdate(0, Crc32.Sum(x, y));
    DifferenceBits(x, y);
    DifferentBits(x, y);
    OnlyWithin(e, lo, lo + 33);
    LongestPattern(e[lo..lo + 33]);
    if AllFalse(e[lo..lo + 33]) { StillFalse(e, lo, lo + 33); }
  }

  lemma StillFalse(e: Poly, lo: nat, hi: nat)
    requires Within(e, lo, hi) && AllFalse(e[lo..hi])
    ensures AllFalse(e)
  {
    forall i | 0 <= i < |e| ensures !e[i] {
      if lo <= i < hi { assert !e[lo..hi][i - lo]; }
    }
  }

  /** Errors within 32 consecutive bits, wherever they start, are always noticed. */
  lemma BitBurstDetected(x: seq<bv8>, y: seq<bv8>, prev: bv32, lo: nat, hi: nat)
    requires |x| == |y| && x != y && Within(Errors(x, y), lo, hi) && hi - lo <= 32
    ensures Crc(x, prev) != Crc(y, prev)
  {
    hide Update, BitUpdate, MessageBits, Crc;
    var e := Errors(x, y);
    SameCrcIffZero(x, y, prev);
    UpdateIsBitUpdate(0, Crc32.Sum(x, y));
    DifferenceBits(x, y);
    DifferentBits(x, y);
    OnlyWithin(e, lo, hi);
    ShortBitsDetected(e[lo..hi]);
    if AllFalse(e[lo..hi]) { StillFalse(e, lo, hi); }
  }
}

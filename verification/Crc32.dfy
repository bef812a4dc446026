/** The bitwise CRC-32 of wiced_crypto.c: the register update, its algebra over GF(2), and the
    byte loop itself. */
module Crc32 {
  import opened Words

  const POLYNOMIAL: bv32 := 0xEDB8_8320

  /** One shift of the register. */
  function Step(c: bv32): bv32 {
    if Odd(c) then Xor(Half(c), POLYNOMIAL) else Half(c)
  }

  function Steps(c: bv32, n: nat): bv32
    decreases n
  {
    if n == 0 then c else Steps(Step(c), n - 1)
  }

  function Absorb(c: bv32, b: bv8): bv32 {
    Steps(Xor(c, b as bv32), 8)
  }

  /** The register after a whole message. */
  function Update(c: bv32, data: seq<bv8>): bv32
    decreases |data|
  {
    if data == [] then c else Update(Absorb(c, data[0]), data[1..])
  }

  function Crc(data: seq<bv8>, prev: bv32): bv32 {
    Not(Update(Not(prev), data))
  }

  method Crc32Calc(buffer: seq<bv8>, bufferLength: nat, prevCrc32: bv32) returns (result: bv32)
    requires bufferLength <= |buffer| && bufferLength < 0x1_0000
    ensures result == Crc(buffer[..bufferLength], prevCrc32)
  {
    hide Xor, Not, Odd, Half;
    var crc32 := Not(prevCrc32);
    ghost var data := buffer[..bufferLength];
    var i := 0;
    while i < bufferLength
      invariant 0 <= i <= bufferLength
      invariant Update(crc32, data[i..]) == Update(Not(prevCrc32), data)
    {
      ghost var target := Absorb(crc32, data[i]);
      crc32 := Xor(crc32, buffer[i] as bv32);
      var j := 0;
      while j < 8
        invariant 0 <= j <= 8
        invariant Steps(crc32, 8 - j) == target
      {
        if Odd(crc32) {
          crc32 := Xor(Half(crc32), 0xEDB8_8320);
        } else {
          crc32 := Half(crc32);
        }
        j := j + 1;
      }
      assert data[i..][1..] == data[i + 1..];
      i := i + 1;
    }
    return Not(crc32);
  }

  lemma StepsNone(c: bv32)
    ensures Steps(c, 0) == c
  {
  }

  // ---------- Composition ----------

  lemma {:induction false} UpdateConcat(c: bv32, a: seq<bv8>, b: seq<bv8>)
    ensures Update(c, a + b) == Update(Update(c, a), b)
    decreases |a|
  {
    hide Absorb;
    if a == [] {
      assert a + b == b;
    } else {
      assert (a + b)[1..] == a[1..] + b;
      UpdateConcat(Absorb(c, a[0]), a[1..], b);
    }
  }

  /** A message may be fed in pieces, each call taking the previous call's result. */
  lemma CrcConcat(a: seq<bv8>, b: seq<bv8>, prev: bv32)
    ensures Crc(a + b, prev) == Crc(b, Crc(a, prev))
  {
    UpdateConcat(Not(prev), a, b);
    NotTwice(Update(Not(prev), a));
    hide Not, Update;
  }

  // ---------- Linearity ----------

  /** Bytewise sum of two messages of one length. */
  function Sum(x: seq<bv8>, y: seq<bv8>): (z: seq<bv8>)
    requires |x| == |y|
    ensures |z| == |x| && forall i :: 0 <= i < |x| ==> z[i] == x[i] ^ y[i]
  {
    seq(|x|, i requires 0 <= i < |x| => x[i] ^ y[i])
  }

  lemma StepLinear(a: bv32, b: bv32)
    ensures Step(Xor(a, b)) == Xor(Step(a), Step(b))
  {
    HalfLinear(a, b);
    OddLinear(a, b);
    var h, k, p := Half(a), Half(b), POLYNOMIAL;
    XorInterchange(h, p, k, p);
    XorInterchange(h, p, k, 0);
    XorAssociative(h, k, p);
    XorIdentity(p);
    XorIdentity(k);
    XorIdentity(Xor(h, k));
    hide Xor, Half, Odd;
  }

  lemma {:induction false} StepsLinear(a: bv32, b: bv32, n: nat)
    ensures Steps(Xor(a, b), n) == Xor(Steps(a, n), Steps(b, n))
    decreases n
  {
    hide Step, Xor;
    if n > 0 {
      StepLinear(a, b);
      StepsLinear(Step(a), Step(b), n - 1);
    }
  }

  lemma AbsorbLinear(c: bv32, a: bv8, d: bv32, b: bv8)
    ensures Absorb(Xor(c, d), a ^ b) == Xor(Absorb(c, a), Absorb(d, b))
  {
    hide Steps, Xor;
    StepsLinear(Xor(c, a as bv32), Xor(d, b as bv32), 8);
    XorInterchange(c, d, a as bv32, b as bv32);
    XorBytes(a, b);
  }

  lemma XorBytes(a: bv8, b: bv8)
    ensures (a ^ b) as bv32 == Xor(a as bv32, b as bv32)
  {
  }

  /** Register and message together are linear: the update of a sum is the sum of the updates. */
  lemma {:induction false} UpdateLinear(c: bv32, x: seq<bv8>, d: bv32, y: seq<bv8>)
    requires |x| == |y|
    ensures Update(Xor(c, d), Sum(x, y)) == Xor(Update(c, x), Update(d, y))
    decreases |x|
  {
    hide Absorb, Xor;
    if x != [] {
      AbsorbLinear(c, x[0], d, y[0]);
      assert Sum(x, y)[1..] == Sum(x[1..], y[1..]);
      UpdateLinear(Absorb(c, x[0]), x[1..], Absorb(d, y[0]), y[1..]);
    }
  }

  /** The checksum is affine on messages of one length. */
  lemma CrcAffine(x: seq<bv8>, y: seq<bv8>, z: seq<bv8>, prev: bv32)
    requires |x| == |y| == |z|
    ensures Xor(Xor(Crc(x, prev), Crc(y, prev)), Crc(z, prev)) == Crc(Sum(Sum(x, y), z), prev)
  {
    hide Update, Not, Xor;
    var r := Not(prev);
    UpdateLinear(r, x, r, y);
    UpdateLinear(Xor(r, r), Sum(x, y), r, z);
    XorIdentity(r);
    NotsOfThree(Update(r, x), Update(r, y), Update(r, z));
  }

  lemma NotsOfThree(a: bv32, b: bv32, c: bv32)
    ensures Xor(Xor(Not(a), Not(b)), Not(c)) == Not(Xor(Xor(a, b), c))
  {
  }

  // ---------- Burst detection ----------

  lemma StepNonZero(c: bv32)
    ensures c != 0 <==> Step(c) != 0
  {
  }

  lemma {:induction false} StepsNonZero(c: bv32, n: nat)
    ensures c != 0 <==> Steps(c, n) != 0
    decreases n
  {
    hide Step;
    if n > 0 {
      StepNonZero(c);
      StepsNonZero(Step(c), n - 1);
    }
  }

  lemma {:induction false} StepsAdd(c: bv32, m: nat, n: nat)
    ensures Steps(c, m + n) == Steps(Steps(c, m), n)
    decreases m
  {
    hide Step;
    if m > 0 { StepsAdd(Step(c), m - 1, n); }
  }

  /** Up to four bytes as one little-endian word. */
  function Pack(b: seq<bv8>): bv32
    requires |b| <= 4
    decreases |b|
  {
    if b == [] then 0 else Prepend(b[0], Pack(b[1..]))
  }

  function Prepend(b: bv8, p: bv32): bv32 {
    Xor(b as bv32, p << 8)
  }

  lemma {:induction false} PackBounded(b: seq<bv8>)
    requires |b| <= 3
    ensures Pack(b) <= 0xFF_FFFF
    ensures |b| <= 2 ==> Pack(b) <= 0xFFFF
    ensures |b| <= 1 ==> Pack(b) <= 0xFF
    decreases |b|
  {
    hide Prepend;
    if b != [] {
      PackBounded(b[1..]);
      PrependBits(b[0], Pack(b[1..]));
    }
  }

  lemma PrependBits(b: bv8, p: bv32)
    ensures p <= 0xFFFF ==> Prepend(b, p) <= 0xFF_FFFF
    ensures p <= 0xFF ==> Prepend(b, p) <= 0xFFFF
    ensures p == 0 ==> Prepend(b, p) <= 0xFF
    ensures p <= 0xFF_FFFF && (b != 0 || p != 0) ==> Prepend(b, p) != 0
  {
  }

  lemma StepDoubled(x: bv32)
    requires x <= 0x7FFF_FFFF
    ensures Step(x << 1) == x
  {
  }

  /** Bytes above the lowest one are only moved down by eight steps. */
  lemma EightStepsDown(p: bv32)
    requires p <= 0xFF_FFFF
    ensures Steps(p << 8, 8) == p
  {
  }

  lemma AbsorbPrepended(c: bv32, b: bv8, p: bv32)
    requires p <= 0xFF_FFFF
    ensures Steps(Xor(c, Prepend(b, p)), 8) == Xor(Absorb(c, b), p)
  {
    EightStepsDown(p);
    XorAssociative(c, b as bv32, p << 8);
    StepsLinear(Xor(c, b as bv32), p << 8, 8);
    hide Xor, Steps;
  }

  /** Absorbing up to four bytes one by one is one exclusive-or of the packed word. */
  lemma {:induction false} UpdateIsPacked(c: bv32, b: seq<bv8>)
    requires |b| <= 4
    ensures Update(c, b) == Steps(Xor(c, Pack(b)), 8 * |b|)
    decreases |b|
  {
    hide Xor, Steps, Absorb, Prepend;
    if b == [] {
      XorIdentity(c);
      StepsNone(c);
    } else {
      PackBounded(b[1..]);
      AbsorbPrepended(c, b[0], Pack(b[1..]));
      StepsAdd(Xor(c, Pack(b)), 8, 8 * (|b| - 1));
      UpdateIsPacked(Absorb(c, b[0]), b[1..]);
    }
  }

  lemma {:induction false} PackNonZero(b: seq<bv8>, k: nat)
    requires k < |b| <= 4 && b[k] != 0
    ensures Pack(b) != 0
    decreases |b|
  {
    hide Prepend;
    PackBounded(b[1..]);
    if k > 0 { PackNonZero(b[1..], k - 1); }
    PrependBits(b[0], Pack(b[1..]));
  }

  lemma {:induction false} UpdateOverZeros(c: bv32, z: seq<bv8>)
    requires forall i :: 0 <= i < |z| ==> z[i] == 0
    ensures c != 0 <==> Update(c, z) != 0
    decreases |z|
  {
    hide Xor, Steps;
    if z != [] {
      XorIdentity(c);
      StepsNonZero(c, 8);
      UpdateOverZeros(Absorb(c, z[0]), z[1..]);
    }
  }

  /** Any change confined to four consecutive bytes changes the checksum, wherever it lies. */
  lemma BurstDetected(x: seq<bv8>, y: seq<bv8>, prev: bv32, w: nat)
    requires |x| == |y| && x != y
    requires forall i :: 0 <= i < |x| && !(w <= i < w + 4) ==> x[i] == y[i]
    ensures Crc(x, prev) != Crc(y, prev)
  {
    hide Update, Xor, Pack, Steps, Not;
    var n := |x|;
    var d := Sum(x, y);
    forall i | 0 <= i < n ensures d[i] == 0 <==> x[i] == y[i] { XorBytesZero(x[i], y[i]); }
    var k :| 0 <= k < n && x[k] != y[k];
    BurstChangesRegister(d, w, if w + 4 < n then w + 4 else n, k);
    var r := Not(prev);
    UpdateLinear(r, x, r, y);
    XorIdentity(r);
    XorZero(Update(r, x), Update(r, y));
    NotTwice(Update(r, x));
    NotTwice(Update(r, y));
  }

  /** A nonzero difference inside a short window leaves a nonzero register. */
  lemma BurstChangesRegister(d: seq<bv8>, lo: nat, hi: nat, k: nat)
    requires lo <= k < hi <= |d| && hi - lo <= 4 && d[k] != 0
    requires forall i :: 0 <= i < |d| && !(lo <= i < hi) ==> d[i] == 0
    ensures Update(0, d) != 0
  {
    hide Update, Xor, Pack, Steps;
    var pre, mid, post := d[..lo], d[lo..hi], d[hi..];
    assert d == (pre + mid) + post;
    forall i | 0 <= i < |pre| ensures pre[i] == 0 { assert pre[i] == d[i]; }
    forall i | 0 <= i < |post| ensures post[i] == 0 { assert post[i] == d[hi + i]; }
    UpdateConcat(0, pre + mid, post);
    UpdateConcat(0, pre, mid);
    UpdateOverZeros(0, pre);
    UpdateIsPacked(0, mid);
    PackNonZero(mid, k - lo);
    XorIdentity(Pack(mid));
    StepsNonZero(Pack(mid), 8 * |mid|);
    UpdateOverZeros(Update(0, mid), post);
  }

  lemma XorBytesZero(a: bv8, b: bv8)
    ensures a ^ b == 0 <==> a == b
  {
  }

  /** Four is the best bound: a change over five bytes, the generator polynomial itself, is missed. */
  lemma BurstBoundIsTight(prev: bv32)
    ensures Crc([0x41, 0x06, 0x71, 0xDB, 0x01], prev) == Crc([0, 0, 0, 0, 0], prev)
  {
    hide Update, Xor, Steps, Not;
    var g, z := [0x41 as bv8, 0x06, 0x71, 0xDB, 0x01], [0 as bv8, 0, 0, 0, 0];
    GeneratorVanishes();
    UpdateLinear(0, g, Not(prev), z);
    XorIdentity(Not(prev));
    XorIdentity(Update(Not(prev), z));
    assert Sum(g, z) == g;
  }

  lemma GeneratorVanishes()
    ensures Update(0, [0x41, 0x06, 0x71, 0xDB, 0x01]) == 0
  {
  }

  lemma PackFour(a: bv8, b: bv8, c: bv8, d: bv8)
    ensures Pack([a, b, c, d]) == Prepend(a, Prepend(b, Prepend(c, Prepend(d, 0))))
  {
    hide Prepend;
    assert [d][1..] == [] && Pack([]) == 0;
    assert [c, d][1..] == [d] && Pack([d]) == Prepend(d, 0);
    assert [b, c, d][1..] == [c, d] && Pack([c, d]) == Prepend(c, Pack([d]));
    assert [a, b, c, d][1..] == [b, c, d];
  }
}

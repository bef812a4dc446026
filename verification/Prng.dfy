/** The random source of wiced_crypto.c: the default WELL512 generator, its entropy input, the byte
    filler and the reseed counter. */
module Prng {
  import opened Words
  import opened Crc32
  import opened Well512

  const RESEED_BYTES: nat := 1024

  // ---------- Bytes of a run of draws ----------

  /** The word returned by the draw that leaves generator w behind. */
  function Drawn(w: Well): bv32
    requires w.Valid()
  {
    w.state[w.index]
  }

  /** Byte j of a word, lowest first, as the filler reaches it. */
  function Shifted(word: bv32, j: nat): bv32
    decreases j
  {
    if j == 0 then word else NextByte(Shifted(word, j - 1))
  }

  function NextByte(word: bv32): bv32 {
    word >> 8
  }

  function LowByte(word: bv32): bv8 {
    (word & 0xFF) as bv8
  }

  /** Byte k of the little-endian stream of successive draws. */
  function StreamByte(w: Well, k: nat): bv8
    requires w.Valid()
  {
    LowByte(Shifted(Drawn(Run(w, k / 4 + 1)), k % 4))
  }

  function Stream(w: Well, n: nat): (s: seq<bv8>)
    requires w.Valid()
    ensures |s| == n && forall k :: 0 <= k < n ==> s[k] == StreamByte(w, k)
  {
    seq(n, k requires 0 <= k < n => StreamByte(w, k))
  }

  /** The draws needed for n bytes. */
  function Draws(n: nat): nat {
    (n + 3) / 4
  }

  lemma {:induction false} RunAdd(w: Well, m: nat, n: nat)
    requires w.Valid()
    ensures Run(w, m + n) == Run(Run(w, m), n)
    decreases m
  {
    hide Next;
    if m > 0 { RunAdd(Next(w), m - 1, n); }
  }

  lemma RunNext(w: Well, n: nat)
    requires w.Valid()
    ensures Run(w, n + 1) == Next(Run(w, n))
  {
    RunAdd(w, n, 1);
    hide Next;
    assert Run(Run(w, n), 1) == Run(Next(Run(w, n)), 0);
  }

  // ---------- Entropy ----------

  /** The i-th chained checksum of the entropy buffer. */
  function Chain(buffer: seq<bv8>, i: nat): bv32
    decreases i
  {
    Crc(buffer, if i == 0 then 0 else Chain(buffer, i - 1))
  }

  lemma ChainNext(buffer: seq<bv8>, i: nat)
    ensures Chain(buffer, i) == Crc(buffer, if i == 0 then 0 else Chain(buffer, i - 1))
  {
  }

  function Entropy(buffer: seq<bv8>): (e: seq<bv32>)
    ensures |e| == 16 && forall i :: 0 <= i < 16 ==> e[i] == Chain(buffer, i)
  {
    seq(16, i requires 0 <= i < 16 => Chain(buffer, i))
  }

  function Stirred(w: Well, buffer: seq<bv8>): (r: Well)
    requires w.Valid()
    ensures r.Valid() && r.index == w.index
  {
    Well(Well512.Sum(w.state, Entropy(buffer)), w.index)
  }

  function Copies(buffer: seq<bv8>, n: nat): seq<bv8>
    decreases n
  {
    if n == 0 then [] else Copies(buffer, n - 1) + buffer
  }

  /** Word i of the entropy is the checksum of i + 1 copies of the buffer in a row. */
  lemma {:induction false} ChainIsCopies(buffer: seq<bv8>, i: nat)
    ensures Chain(buffer, i) == Crc(Copies(buffer, i + 1), 0)
    decreases i
  {
    hide Crc;
    assert Copies(buffer, i + 1) == Copies(buffer, i) + buffer;
    if i == 0 {
      assert [] + buffer == buffer;
    } else {
      ChainIsCopies(buffer, i - 1);
      CrcConcat(Copies(buffer, i), buffer, 0);
    }
  }

  /** Adding the same entropy a second time takes it out again. */
  lemma EntropyCancels(w: Well, buffer: seq<bv8>)
    requires w.Valid()
    ensures Stirred(Stirred(w, buffer), buffer) == w
  {
    hide Xor;
    var e := Entropy(buffer);
    var twice := Stirred(Stirred(w, buffer), buffer);
    forall i | 0 <= i < 16 ensures twice.state[i] == w.state[i] {
      XorCancel(w.state[i], e[i]);
    }
    assert twice.state == w.state;
  }

  /** Checksums of four-byte buffers are distinct. */
  lemma CrcOfFourInjective(x: seq<bv8>, y: seq<bv8>)
    requires |x| == |y| == 4 && Crc(x, 0) == Crc(y, 0)
    ensures x == y
  {
    hide Crc;
    if x != y { BurstDetected(x, y, 0, 0); }
  }

  /** The one cycle count whose checksum is 0. */
  const NULL_ENTROPY: seq<bv8> := [0x9D, 0x0A, 0xD9, 0x6D]

  lemma NullEntropyChecksum()
    ensures Crc(NULL_ENTROPY, 0) == 0
  {
    hide Steps, Update, Pack;
    UpdateIsPacked(Not(0), NULL_ENTROPY);
    PackFour(0x9D, 0x0A, 0xD9, 0x6D);
    NullEntropySteps();
  }

  lemma NullEntropySteps()
    ensures Steps(0x9226_F562, 32) == 0xFFFF_FFFF
  {
    hide Steps;
    FourSteps(0x9226_F562, 28); FourSteps(0x324C_4F9E, 24); FourSteps(0xA32E_2681, 20); FourSteps(0x1785_F20C, 16);
    FourSteps(0x9A1C_9D90, 12); FourSteps(0x09A1_C9D9, 8); FourSteps(0xF095_8FD9, 4); FourSteps(0xFF06_CBB9, 0);
    StepsNone(0xFFFF_FFFF);
  }

  lemma FourSteps(c: bv32, n: nat)
    ensures Steps(c, n + 4) == Steps(Step(Step(Step(Step(c)))), n)
  {
    hide Step;
    assert Steps(c, n + 4) == Steps(Step(c), n + 3) == Steps(Step(Step(c)), n + 2);
    assert Steps(Step(Step(c)), n + 2) == Steps(Step(Step(Step(c))), n + 1);
  }

  /** Entropy of four bytes stirred into the all-zero power-up state leaves it all zero for exactly
      one value. With any other value no run of draws ever reaches the all-zero state. */
  lemma ReseedFromZero(w: Well, entropy: seq<bv8>, n: nat)
    requires w.Valid() && AllZero(w) && |entropy| == 4
    ensures AllZero(Run(Stirred(w, entropy), n)) <==> entropy == NULL_ENTROPY
  {
    hide Run, Xor, Crc;
    var s := Stirred(w, entropy);
    RunKeepsNonZero(s, n);
    NullEntropyChecksum();
    forall i | 0 <= i < 16 ensures s.state[i] == Chain(entropy, i) {
      XorIdentity(Chain(entropy, i));
    }
    if entropy == NULL_ENTROPY {
      NullChain(15);
    } else {
      if Crc(entropy, 0) == 0 { CrcOfFourInjective(entropy, NULL_ENTROPY); }
      assert s.state[0] == Crc(entropy, 0);
    }
  }

  lemma {:induction false} NullChain(n: nat)
    ensures forall i :: 0 <= i <= n ==> Chain(NULL_ENTROPY, i) == 0
    decreases n
  {
    hide Crc;
    NullEntropyChecksum();
    if n > 0 { NullChain(n - 1); }
  }

  // ---------- The reseed counter over a run of requests ----------

  predicate Reseeds(counter: nat) {
    counter >= RESEED_BYTES
  }

  function AfterRequest(counter: nat, length: nat): nat {
    (if Reseeds(counter) then counter % RESEED_BYTES else counter) + length
  }

  function Total(lengths: seq<nat>): nat
    decreases |lengths|
  {
    if lengths == [] then 0 else Total(lengths[..|lengths| - 1]) + lengths[|lengths| - 1]
  }

  /** The counter after the given requests; it starts full, so that the first request reseeds. */
  function Counter(lengths: seq<nat>): nat
    decreases |lengths|
  {
    if lengths == [] then RESEED_BYTES
    else AfterRequest(Counter(lengths[..|lengths| - 1]), lengths[|lengths| - 1])
  }

  /** Bytes handed out by the latest reseeding request and those after it. */
  function SinceReseed(lengths: seq<nat>): nat
    decreases |lengths|
  {
    if lengths == [] then 0
    else
      var before, last := lengths[..|lengths| - 1], lengths[|lengths| - 1];
      if Reseeds(Counter(before)) then last else SinceReseed(before) + last
  }

  /** The counter holds the total modulo 1024 as it was before the latest request, plus that request. */
  lemma {:induction false} CounterIs(lengths: seq<nat>, last: nat)
    ensures Counter(lengths + [last]) == Total(lengths) % RESEED_BYTES + last
    decreases |lengths|
  {
    assert (lengths + [last])[..|lengths|] == lengths;
    if lengths != [] {
      var n := |lengths| - 1;
      CounterIs(lengths[..n], lengths[n]);
      assert lengths == lengths[..n] + [lengths[n]];
      ModStep(Total(lengths[..n]), lengths[n], Counter(lengths));
    }
  }

  lemma ModStep(a: nat, b: nat, c: nat)
    requires c == a % RESEED_BYTES + b
    ensures c % RESEED_BYTES == (a + b) % RESEED_BYTES
    ensures c >= RESEED_BYTES <==> (a + b) / RESEED_BYTES > a / RESEED_BYTES
  {
  }

  /** A request reseeds exactly if it is the first, or the one before it reached or crossed a multiple of
      1024 in the total; the counter is the total modulo 1024; and a request that does not reseed starts
      with fewer than 1024 bytes handed out since the last reseed. */
  lemma ReseedCadence(lengths: seq<nat>)
    ensures Counter(lengths) % RESEED_BYTES == Total(lengths) % RESEED_BYTES
    ensures Reseeds(Counter(lengths)) <==>
            lengths == [] ||
            Total(lengths) / RESEED_BYTES > Total(lengths[..|lengths| - 1]) / RESEED_BYTES
    ensures !Reseeds(Counter(lengths)) ==> SinceReseed(lengths) < RESEED_BYTES
  {
    hide Counter, Total, SinceReseed;
    SinceBounded(lengths);
    if lengths == [] {
      NoRequests();
    } else {
      var n := |lengths| - 1;
      CadenceAfter(lengths[..n], lengths[n], lengths);
    }
  }

  lemma NoRequests()
    ensures Counter([]) % RESEED_BYTES == 0 == Total([]) % RESEED_BYTES && Reseeds(Counter([]))
  {
  }

  lemma CadenceAfter(before: seq<nat>, last: nat, lengths: seq<nat>)
    requires lengths == before + [last]
    ensures Counter(lengths) % RESEED_BYTES == Total(lengths) % RESEED_BYTES
    ensures Reseeds(Counter(lengths)) <==> Total(lengths) / RESEED_BYTES > Total(before) / RESEED_BYTES
  {
    hide Counter, Total;
    CounterIs(before, last);
    TotalMore(before, last);
    ModStep(Total(before), last, Counter(lengths));
  }

  lemma TotalMore(lengths: seq<nat>, last: nat)
    ensures Total(lengths + [last]) == Total(lengths) + last
  {
    assert (lengths + [last])[..|lengths|] == lengths;
  }

  lemma {:induction false} SinceBounded(lengths: seq<nat>)
    ensures SinceReseed(lengths) <= Counter(lengths)
    decreases |lengths|
  {
    if lengths != [] { SinceBounded(lengths[..|lengths| - 1]); }
  }

  // ---------- The module state ----------

  function LittleEndian(word: bv32): (b: seq<bv8>)
    ensures |b| == 4 && forall j :: 0 <= j < 4 ==> b[j] == LowByte(Shifted(word, j))
  {
    seq(4, j requires 0 <= j < 4 => LowByte(Shifted(word, j)))
  }

  /** The generator and the reseed counter. */
  datatype Source = Source(well: Well, counter: nat)

  /** The generator a request draws from. */
  function Reseeded(s: Source, cycleCount: bv32): (w: Well)
    requires s.well.Valid()
    ensures w.Valid()
  {
    if Reseeds(s.counter) then Stirred(s.well, LittleEndian(cycleCount)) else s.well
  }

  function Requested(s: Source, length: nat, cycleCount: bv32): (next: Source)
    requires s.well.Valid()
    ensures next.well.Valid()
  {
    Source(Run(Reseeded(s, cycleCount), Draws(length)), AfterRequest(s.counter, length))
  }

  function Output(s: Source, length: nat, cycleCount: bv32): seq<bv8>
    requires s.well.Valid()
  {
    Stream(Reseeded(s, cycleCount), length)
  }

  class RandomSource {
    var state: array<bv32>
    var index: nat
    var entropyBytes: nat

    ghost predicate Valid()
      reads this, state
    {
      state.Length == 16 && index < 16 && entropyBytes < RESEED_BYTES + 0x1_0000
    }

    ghost function Value(): (w: Well)
      requires Valid()
      reads this, state
      ensures w.Valid()
    {
      Well(state[..], index)
    }

    /** Power-up: all state zero, the counter full. */
    constructor ()
      ensures Valid() && fresh(state)
      ensures AllZero(Value()) && index == 0 && entropyBytes == Counter([])
    {
      state := new bv32[16](_ => 0);
      index := 0;
      entropyBytes := RESEED_BYTES;
    }

    method GetRandom() returns (result: bv32)
      requires Valid()
      modifies state, this`index
      ensures Valid() && Value() == Next(old(Value())) && result == Drawn(Value())
    {
      hide Xor, Left16, Left15, Right11, Left5Masked, Left2, Left18, Left28, Slot;
      ghost var was := Value();
      SlotsDistinct(index);
      var a := state[index];
      var c := state[Slot(index, 13)];
      var b := Xor(Xor(a, c), Xor(Left16(a), Left15(c)));
      c := state[Slot(index, 9)];
      c := Xor(c, Right11(c));
      a := Xor(b, c);
      state[index] := a;
      var d := Xor(a, Left5Masked(a));
      index := Slot(index, 15);
      a := state[index];
      state[index] := Xor(Xor(a, Left2(a)), Xor(Xor(b, Left18(b)), Xor(d, Left28(c))));
      result := state[index];
      assert state[..] == Next(was).state;
    }

    method AddEntropy(buffer: seq<bv8>, bufferLength: nat)
      requires Valid() && bufferLength <= |buffer| && bufferLength < 0x1_0000
      modifies state
      ensures Valid() && Value() == Stirred(old(Value()), buffer[..bufferLength])
    {
      hide Xor, Crc, Chain;
      ghost var data, was := buffer[..bufferLength], state[..];
      var crc32 := new bv32[16];
      var current := 0;
      var i := 0;
      while i < 16
        invariant 0 <= i <= 16
        invariant current == if i == 0 then 0 else Chain(data, i - 1)
        invariant forall k :: 0 <= k < i ==> crc32[k] == Chain(data, k)
        invariant state[..] == was
      {
        current := Crc32Calc(buffer, bufferLength, current);
        ChainNext(data, i);
        crc32[i] := current;
        i := i + 1;
      }
      ghost var e := Entropy(data);
      i := 0;
      while i < 16
        invariant 0 <= i <= 16
        invariant crc32[..] == e
        invariant forall k :: 0 <= k < i ==> state[k] == Xor(was[k], e[k])
        invariant forall k :: i <= k < 16 ==> state[k] == was[k]
      {
        state[i] := Xor(state[i], crc32[i]);
        i := i + 1;
      }
      assert state[..] == Well512.Sum(was, e);
    }

    method IsAddCyclecntEntropy(bufferLength: nat) returns (addEntropy: bool)
      requires Valid() && bufferLength < 0x1_0000
      modifies this`entropyBytes
      ensures Valid() && addEntropy == Reseeds(old(entropyBytes))
      ensures entropyBytes == AfterRequest(old(entropyBytes), bufferLength)
    {
      addEntropy := false;
      if entropyBytes >= RESEED_BYTES {
        entropyBytes := entropyBytes % RESEED_BYTES;
        addEntropy := true;
      }
      entropyBytes := (entropyBytes + bufferLength) % 0x1_0000_0000;
    }

    ghost function Now(): (s: Source)
      requires Valid()
      reads this, state
      ensures s.well.Valid()
    {
      Source(Value(), entropyBytes)
    }

    method AddCyclecntEntropy(bufferLength: nat, cycleCount: bv32)
      requires Valid() && bufferLength < 0x1_0000
      modifies this`entropyBytes, state
      ensures Valid() && entropyBytes == AfterRequest(old(entropyBytes), bufferLength)
      ensures Value() == old(Reseeded(Now(), cycleCount))
    {
      hide Stirred;
      var add := IsAddCyclecntEntropy(bufferLength);
      if add {
        var bytes := LittleEndian(cycleCount);
        AddEntropy(bytes, 4);
        assert bytes[..4] == bytes;
      }
    }

    /** Fill the first bytes of a buffer. The cycle count is what the platform's counter would show. */
    method CryptoGetRandom(buffer: array<bv8>, bufferLength: nat, cycleCount: bv32)
      requires Valid() && bufferLength <= buffer.Length && bufferLength < 0x1_0000
      modifies this`index, this`entropyBytes, state, buffer
      ensures Valid() && Now() == Requested(old(Now()), bufferLength, cycleCount)
      ensures buffer[..bufferLength] == Output(old(Now()), bufferLength, cycleCount)
      ensures buffer[bufferLength..] == old(buffer[bufferLength..])
    {
      hide Next, Reseeded, StreamByte, Run, Draws, AfterRequest, Shifted, LowByte, Served;
      AddCyclecntEntropy(bufferLength, cycleCount);
      ghost var start, was := Value(), buffer[..];
      NothingServed(start, was);
      var remaining := bufferLength;
      var p := 0;
      ghost var d := 0;
      while remaining != 0
        invariant Valid() && p + remaining == bufferLength
        invariant entropyBytes == AfterRequest(old(entropyBytes), bufferLength)
        invariant remaining != 0 ==> p == 4 * d
        invariant Value() == Run(start, Draws(p))
        invariant Served(start, was, buffer[..], p)
        decreases remaining
      {
        ghost var n, before := if remaining < 4 then remaining else 4, buffer[..];
        NextDraw(start, d);
        DrawsFor(d, n);
        var rndVal := GetRandom();
        p, remaining := PutWord(buffer, p, remaining, rndVal);
        ServedMore(start, was, before, buffer[..], d, n);
        d := d + 1;
      }
      ServedAll(start, was, buffer[..], bufferLength);
    }
  }

  /** The first p bytes of a buffer are those of the stream, and the others are as they were. */
  ghost predicate Served(w: Well, was: seq<bv8>, now: seq<bv8>, p: nat)
    requires w.Valid()
  {
    && |now| == |was| && p <= |now|
    && (forall k :: 0 <= k < p ==> now[k] == StreamByte(w, k))
    && (forall k :: p <= k < |now| ==> now[k] == was[k])
  }

  lemma NothingServed(w: Well, was: seq<bv8>)
    requires w.Valid()
    ensures Served(w, was, was, 0) && Run(w, Draws(0)) == w
  {
  }

  /** One more draw, put in place. */
  lemma ServedMore(w: Well, was: seq<bv8>, before: seq<bv8>, after: seq<bv8>, d: nat, n: nat)
    requires w.Valid() && Served(w, was, before, 4 * d) && n <= 4 && 4 * d + n <= |before| == |after|
    requires forall k :: 4 * d <= k < 4 * d + n ==> after[k] == LowByte(Shifted(Drawn(Run(w, d + 1)), k - 4 * d))
    requires forall k :: 0 <= k < |after| && !(4 * d <= k < 4 * d + n) ==> after[k] == before[k]
    ensures Served(w, was, after, 4 * d + n)
  {
    hide StreamByte, Run, LowByte, Shifted, Drawn;
    forall k | 0 <= k < 4 * d + n ensures after[k] == StreamByte(w, k) {
      if k >= 4 * d { StreamByteAt(w, d, k - 4 * d); }
    }
  }

  lemma ServedAll(w: Well, was: seq<bv8>, now: seq<bv8>, n: nat)
    requires w.Valid() && Served(w, was, now, n)
    ensures now[..n] == Stream(w, n) && now[n..] == was[n..]
  {
    hide StreamByte;
  }

  /** The filler's inner loop: up to four bytes of one draw, lowest first. */
  method PutWord(buffer: array<bv8>, at: nat, length: nat, word: bv32) returns (p: nat, remaining: nat)
    requires 0 < length && at + length <= buffer.Length
    modifies buffer
    ensures var n := if length < 4 then length else 4;
            && p == at + n && remaining == length - n
            && (forall k :: at <= k < at + n ==> buffer[k] == LowByte(Shifted(word, k - at)))
            && (forall k :: 0 <= k < buffer.Length && !(at <= k < at + n) ==> buffer[k] == old(buffer[k]))
  {
    hide LowByte, NextByte;
    p, remaining := at, length;
    var rndVal := word;
    var i := 0;
    while i < 4
      invariant 0 <= i <= 4 && p == at + i && remaining == length - i && remaining != 0
      invariant rndVal == Shifted(word, i)
      invariant forall k :: at <= k < at + i ==> buffer[k] == LowByte(Shifted(word, k - at))
      invariant forall k :: 0 <= k < buffer.Length && !(at <= k < at + i) ==> buffer[k] == old(buffer[k])
    {
      buffer[p] := LowByte(rndVal);
      p := p + 1;
      remaining := remaining - 1;
      if remaining == 0 {
        break;
      }
      rndVal := NextByte(rndVal);
      i := i + 1;
    }
  }

  lemma DrawsFor(d: nat, n: nat)
    requires 0 < n <= 4
    ensures Draws(4 * d) == d && Draws(4 * d + n) == d + 1
  {
  }

  lemma NextDraw(w: Well, d: nat)
    requires w.Valid()
    ensures Next(Run(w, Draws(4 * d))) == Run(w, d + 1)
  {
    hide Next, Run;
    RunNext(w, d);
    DrawsFor(d, 4);
    hide Draws;
  }

  lemma StreamByteAt(w: Well, d: nat, i: nat)
    requires w.Valid() && i < 4
    ensures StreamByte(w, 4 * d + i) == LowByte(Shifted(Drawn(Run(w, d + 1)), i))
  {
    assert (4 * d + i) / 4 == d && (4 * d + i) % 4 == i;
  }

  // ---------- Runs of requests from power-up ----------

  datatype Request = Request(length: nat, cycleCount: bv32)

  function PowerUp(): (s: Source)
    ensures s.well.Valid()
  {
    Source(Well(seq(16, _ => 0), 0), 1024)
  }

  function AfterAll(requests: seq<Request>): (s: Source)
    ensures s.well.Valid()
    decreases |requests|
  {
    if requests == [] then PowerUp()
    else
      var n := |requests| - 1;
      Requested(AfterAll(requests[..n]), requests[n].length, requests[n].cycleCount)
  }

  function Lengths(requests: seq<Request>): (lengths: seq<nat>)
    ensures |lengths| == |requests|
  {
    seq(|requests|, i requires 0 <= i < |requests| => requests[i].length)
  }

  /** The bytes of a word, lowest first. */
  function WordBytes(word: bv32): (bytes: seq<bv8>)
    ensures |bytes| == 4
  {
    [(word & 0xFF) as bv8, ((word >> 8) & 0xFF) as bv8, ((word >> 16) & 0xFF) as bv8, (word >> 24) as bv8]
  }

  /** Sixteen words with the checksums of one, two, and so on up to sixteen copies of some bytes added. */
  function Mixed(w: Well, bytes: seq<bv8>): (r: Well)
    requires w.Valid()
    ensures r.Valid()
  {
    Well(seq(16, i requires 0 <= i < 16 => w.state[i] ^ Crc(Copies(bytes, i + 1), 0)), w.index)
  }

  /** A request after requests of these lengths reseeds: it is the first, or the one before it reached a
      multiple of 1024 in the total. */
  predicate Due(lengths: seq<nat>) {
    lengths == [] || Total(lengths) / 1024 > Total(lengths[..|lengths| - 1]) / 1024
  }

  /** The generator that the last request of a run draws from, and the one that the run leaves, from the
      requests alone. */
  function Drawing(requests: seq<Request>): (w: Well)
    requires requests != []
    ensures w.Valid()
    decreases |requests|, 0
  {
    var n := |requests| - 1;
    var before := Generator(requests[..n]);
    if Due(Lengths(requests[..n])) then Mixed(before, WordBytes(requests[n].cycleCount)) else before
  }

  function Generator(requests: seq<Request>): (w: Well)
    ensures w.Valid()
    decreases |requests|, 1
  {
    if requests == [] then Well(seq(16, _ => 0), 0)
    else Run(Drawing(requests), (requests[|requests| - 1].length + 3) / 4)
  }

  lemma BytesDown(word: bv32)
    ensures NextByte(word) == word >> 8 && NextByte(word >> 8) == word >> 16 && NextByte(word >> 16) == word >> 24
  {
  }

  lemma ShiftedBytes(word: bv32)
    ensures Shifted(word, 0) == word && Shifted(word, 1) == word >> 8
    ensures Shifted(word, 2) == word >> 16 && Shifted(word, 3) == word >> 24
  {
    hide NextByte;
    assert Shifted(word, 1) == NextByte(Shifted(word, 0));
    assert Shifted(word, 2) == NextByte(Shifted(word, 1));
    assert Shifted(word, 3) == NextByte(Shifted(word, 2));
    BytesDown(word);
  }

  lemma LittleEndianIs(word: bv32)
    ensures LittleEndian(word) == WordBytes(word)
  {
    ShiftedBytes(word);
    TopByte(word);
    hide Shifted;
  }

  lemma TopByte(word: bv32)
    ensures (word >> 24) & 0xFF == word >> 24
  {
  }

  lemma StirredIs(w: Well, bytes: seq<bv8>)
    requires w.Valid()
    ensures Stirred(w, bytes) == Mixed(w, bytes)
  {
    hide Crc, Chain, Copies;
    forall i | 0 <= i < 16 ensures Stirred(w, bytes).state[i] == Mixed(w, bytes).state[i] {
      ChainIsCopies(bytes, i);
    }
    assert Stirred(w, bytes).state == Mixed(w, bytes).state;
  }

  /** Over any run of requests from power-up: the generator is the one obtained by mixing in the cycle count's
      bytes at exactly the requests that are due and drawing once for every four bytes begun. */
  lemma {:induction false} RunOfRequests(requests: seq<Request>)
    ensures AfterAll(requests) == Source(Generator(requests), Counter(Lengths(requests)))
    decreases |requests|
  {
    hide Run, Stirred, Mixed, AfterRequest, Reseeds, Due;
    if requests == [] {
      assert Lengths(requests) == [];
    } else {
      var n := |requests| - 1;
      var before := requests[..n];
      RunOfRequests(before);
      LengthsMore(before, requests[n], requests);
      LastDrawing(requests);
    }
  }

  lemma LengthsMore(before: seq<Request>, last: Request, requests: seq<Request>)
    requires requests == before + [last]
    ensures Lengths(requests) == Lengths(before) + [last.length]
    ensures Counter(Lengths(requests)) == AfterRequest(Counter(Lengths(before)), last.length)
  {
    var l := Lengths(before);
    assert Lengths(requests) == l + [last.length];
    assert (l + [last.length])[..|l|] == l;
    hide AfterRequest;
  }

  lemma LastDrawing(requests: seq<Request>)
    requires requests != []
    requires var before := requests[..|requests| - 1];
             AfterAll(before) == Source(Generator(before), Counter(Lengths(before)))
    ensures Reseeded(AfterAll(requests[..|requests| - 1]), requests[|requests| - 1].cycleCount) == Drawing(requests)
  {
    hide Run, Stirred, Mixed, AfterAll, Generator, Counter, Total;
    var n := |requests| - 1;
    var before := requests[..n];
    ReseedCadence(Lengths(before));
    DueIs(Lengths(before));
    LittleEndianIs(requests[n].cycleCount);
    StirredIs(Generator(before), WordBytes(requests[n].cycleCount));
    hide Due, Reseeds;
  }

  lemma DueIs(lengths: seq<nat>)
    ensures Due(lengths) <==> Reseeds(Counter(lengths))
  {
    hide Counter, Total;
    ReseedCadence(lengths);
  }

  /** And its last request is given the first bytes of the words drawn from there, each word lowest byte
      first, each word the newest of the published recurrence. */
  lemma LastOutput(requests: seq<Request>, k: nat)
    requires requests != [] && k < requests[|requests| - 1].length
    ensures var n := |requests| - 1;
            var output := Output(AfterAll(requests[..n]), requests[n].length, requests[n].cycleCount);
            && |output| == requests[n].length
            && output[k] == WordBytes(Recurrences(Window(Drawing(requests)), k / 4 + 1)[0])[k % 4]
  {
    hide Run, Recurrences, Reseeded, Drawing, AfterAll, Generator, LittleEndian, WordBytes, Shifted, LowByte;
    var w := Drawing(requests);
    RunOfRequests(requests[..|requests| - 1]);
    LastDrawing(requests);
    RunIsRecurrence(w, k / 4 + 1);
    LittleEndianIs(Drawn(Run(w, k / 4 + 1)));
    WindowFirst(Run(w, k / 4 + 1));
    assert LittleEndian(Drawn(Run(w, k / 4 + 1)))[k % 4] == StreamByte(w, k);
  }

  lemma WindowFirst(w: Well)
    requires w.Valid()
    ensures Window(w)[0] == Drawn(w)
  {
  }

  /** The first request after power-up leaves the generator all zero for exactly one cycle count. */
  lemma FirstRequestZeroIff(length: nat, cycleCount: bv32)
    ensures AllZero(Requested(PowerUp(), length, cycleCount).well) <==> cycleCount == 0x6DD9_0A9D
  {
    hide Run, Stirred, LittleEndian;
    ReseedFromZero(PowerUp().well, LittleEndian(cycleCount), Draws(length));
    LittleEndianIs(cycleCount);
    NullCount(cycleCount);
    hide WordBytes;
  }

  lemma NullCount(cycleCount: bv32)
    ensures WordBytes(cycleCount) == NULL_ENTROPY <==> cycleCount == 0x6DD9_0A9D
  {
    var b := WordBytes(cycleCount);
    if b == NULL_ENTROPY {
      assert b[0] == 0x9D && b[1] == 0x0A && b[2] == 0xD9 && b[3] == 0x6D;
      FromBytes(cycleCount);
    }
  }

  lemma FromBytes(word: bv32)
    requires (word & 0xFF) as bv8 == 0x9D && ((word >> 8) & 0xFF) as bv8 == 0x0A
    requires ((word >> 16) & 0xFF) as bv8 == 0xD9 && (word >> 24) as bv8 == 0x6D
    ensures word == 0x6DD9_0A9D
  {
  }

  /** The same of the object: a source just powered up, after its first request. */
  method FirstRequest(buffer: array<bv8>, bufferLength: nat, cycleCount: bv32) returns (source: RandomSource)
    requires bufferLength <= buffer.Length && bufferLength < 0x1_0000
    modifies buffer
    ensures fresh(source) && source.Valid()
    ensures AllZero(source.Value()) <==> cycleCount == 0x6DD9_0A9D
  {
    hide Requested, Output;
    FirstRequestZeroIff(bufferLength, cycleCount);
    source := new RandomSource();
    StateZero(source.Value().state);
    assert source.Now() == PowerUp();
    source.CryptoGetRandom(buffer, bufferLength, cycleCount);
  }

  lemma StateZero(s: seq<bv32>)
    requires |s| == 16 && forall k :: 0 <= k < 16 ==> s[k] == 0
    ensures s == seq(16, _ => 0)
  {
  }
}

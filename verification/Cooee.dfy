/** Cooee reassembly in wiced_cooee.c: two-byte segments placed by frame length and tracked in a bitmap. */
module Cooee {
  import opened Common

  const BEACON: Bytes := [0x01, 0x00, 0x5E, 0x76, 0x00, 0x00]
  const UPPER: Bytes := [0x01, 0x00, 0x5E, 0x7E]
  const MAX_FRAME: nat := 512 + 80

  // ---------- The segment bitmap ----------

  type Bitmap = b: seq<bv32> | |b| == 32 witness seq(32, _ => 0)

  function Word(bit: nat): (w: nat)
    requires bit < 1024
    ensures w < 32
  {
    bit / 32
  }

  /** A one shifted left n times. */
  function Mask(n: nat): bv32
    decreases n
  {
    if n == 0 then 1 else Double(Mask(n - 1))
  }

  function Double(mask: bv32): bv32 {
    mask << 1
  }

  function MaskOf(bit: nat): bv32 {
    Mask(bit % 32)
  }

  predicate Has(word: bv32, mask: bv32) {
    word & mask != 0
  }

  function With(word: bv32, mask: bv32): bv32 {
    word | mask
  }

  predicate GetBit(bits: Bitmap, bit: nat)
    requires bit < 1024
  {
    Has(bits[Word(bit)], MaskOf(bit))
  }

  function SetBit(bits: Bitmap, bit: nat): Bitmap
    requires bit < 1024
  {
    bits[Word(bit) := With(bits[Word(bit)], MaskOf(bit))]
  }

  lemma WithHas(w: bv32, m: bv32)
    requires m != 0
    ensures Has(With(w, m), m)
  {
  }

  lemma WithKeeps(w: bv32, m: bv32, k: bv32)
    ensures Has(w, k) ==> Has(With(w, m), k)
  {
  }

  lemma WithAddsOne(w: bv32, m: bv32, k: bv32)
    requires !Has(m, k)
    ensures !Has(w, k) ==> !Has(With(w, m), k)
  {
  }

  lemma DoubledApart(m: bv32, k: bv32)
    ensures !Has(1, Double(k)) && !Has(Double(m), 1)
    ensures !Has(m, k) ==> !Has(Double(m), Double(k))
  {
  }

  lemma {:induction false} MasksApart(i: nat, j: nat)
    requires i != j
    ensures !Has(Mask(i), Mask(j))
    decreases i
  {
    hide Has, Double;
    DoubledApart(if i > 0 then Mask(i - 1) else 0, if j > 0 then Mask(j - 1) else 0);
    if i > 0 && j > 0 { MasksApart(i - 1, j - 1); }
  }

  lemma FourMasks(n: nat)
    ensures Mask(n + 4) == Mask(n) << 4
  {
    assert Mask(n + 4) == Double(Mask(n + 3)) == Double(Double(Mask(n + 2)));
    assert Mask(n + 2) == Double(Mask(n + 1)) == Double(Double(Mask(n)));
  }

  lemma TopMask()
    ensures Mask(31) == 0x8000_0000
  {
    hide Mask;
    assert Mask(3) == 8 by { FirstMasks(); }
    FourMasks(3); FourMasks(7); FourMasks(11); FourMasks(15); FourMasks(19); FourMasks(23); FourMasks(27);
  }

  lemma FirstMasks()
    ensures Mask(3) == 8
  {
    assert Mask(1) == 2 && Mask(2) == 4;
  }

  lemma {:induction false} MaskNonZero(n: nat)
    requires n < 32
    ensures Mask(n) != 0
    decreases 32 - n
  {
    TopMask();
    if n < 31 {
      MaskNonZero(n + 1);
      assert Mask(n + 1) == Double(Mask(n));
    }
  }

  lemma SamePlace(i: nat, j: nat)
    requires i < 1024 && j < 1024
    ensures Word(i) == Word(j) && i % 32 == j % 32 ==> i == j
  {
  }

  /** Setting a bit sets that bit only. */
  lemma SetThenGet(bits: Bitmap, i: nat, j: nat)
    requires i < 1024 && j < 1024
    ensures GetBit(SetBit(bits, i), j) <==> j == i || GetBit(bits, j)
  {
    hide Has, With, Word, Mask;
    SamePlace(i, j);
    MaskNonZero(i % 32);
    WithHas(bits[Word(i)], MaskOf(i));
    if i % 32 != j % 32 {
      MasksApart(i % 32, j % 32);
      WithKeeps(bits[Word(i)], MaskOf(i), MaskOf(j));
      WithAddsOne(bits[Word(i)], MaskOf(i), MaskOf(j));
    }
  }

  // ---------- Frames ----------

  datatype Frame = Frame(address1: Bytes, address2: Bytes, address3: Bytes, size: nat) {
    predicate Valid() {
      |address1| == |address2| == |address3| == 6 && 24 <= size < 0x1_0000
    }
  }

  datatype Kind = BeaconThird | BeaconFirst | DataThird | DataFirst | Other

  function KindOf(f: Frame): Kind
    requires f.Valid()
  {
    if f.address3 == BEACON then BeaconThird
    else if f.address1 == BEACON then BeaconFirst
    else if f.address3[..4] == UPPER then DataThird
    else if f.address1[..4] == UPPER then DataFirst
    else Other
  }

  function ExtraOffset(f: Frame): nat
    requires f.Valid()
  {
    if KindOf(f) == DataThird then 2 else 0
  }

  function Data(f: Frame): (d: Bytes)
    requires f.Valid()
    ensures |d| == 2
  {
    if KindOf(f) == DataThird then f.address3[4..] else f.address1[4..]
  }

  // ---------- The workspace as a value ----------

  datatype State = State(count: nat, data: Bytes, bits: Bitmap, initiator: Bytes, bssid: Bytes,
                         complete: bool, zeroSize: nat) {
    ghost predicate Valid() {
      |data| == 512 && zeroSize < 0x1_0000 && count < 0x1_0000
    }
  }

  /** Where a data frame's bytes go, in 16 bits. */
  function Index(s: State, f: Frame): nat
    requires f.Valid()
  {
    (f.size - s.zeroSize - ExtraOffset(f)) % 0x1_0000
  }

  predicate IsData(s: State, f: Frame)
    requires f.Valid()
  {
    KindOf(f) in {DataThird, DataFirst} && s.zeroSize != 0 && f.size < MAX_FRAME
  }

  /** The frame's bytes lie inside the buffer; the source relies on it. */
  predicate InBuffer(s: State, f: Frame)
    requires f.Valid()
  {
    !s.complete && IsData(s, f) ==> Index(s, f) + 1 < 512
  }

  predicate AllReceived(bits: Bitmap, n: nat)
    requires n <= 1024
  {
    forall a :: 0 <= a < n ==> GetBit(bits, a)
  }

  /** The transmitter and the access point of a data frame. */
  function SenderOf(f: Frame): (Bytes, Bytes)
    requires f.Valid()
  {
    if KindOf(f) == DataThird then (f.address2, f.address1) else (f.address3, f.address2)
  }

  function WithSender(s: State, f: Frame): State
    requires f.Valid()
  {
    if s.count != 0 then s else s.(initiator := SenderOf(f).0, bssid := SenderOf(f).1)
  }

  function Stored(s: State, index: nat, bytes: Bytes): State
    requires s.Valid() && index + 1 < 512 && |bytes| == 2
  {
    s.(data := s.data[index := bytes[0]][index + 1 := bytes[1]],
       bits := SetBit(s.bits, index / 2),
       count := (s.count + 2) % 0x1_0000)
  }

  predicate IsComplete(s: State)
    requires s.Valid()
  {
    var total := s.data[1] as int;
    total != 0 && s.count >= total && AllReceived(s.bits, total / 2)
  }

  function Process(s: State, f: Frame): (t: State)
    requires s.Valid() && f.Valid() && InBuffer(s, f)
    ensures t.Valid()
  {
    if s.complete then s
    else if KindOf(f) == BeaconThird then (if s.zeroSize == 0 then s.(zeroSize := f.size - 2) else s)
    else if KindOf(f) == BeaconFirst then (if s.zeroSize == 0 then s.(zeroSize := f.size) else s)
    else if !IsData(s, f) then s
    else
      var heard := WithSender(s, f);
      var index := Index(s, f);
      if GetBit(s.bits, index / 2) then heard
      else
        var stored := Stored(heard, index, Data(f));
        stored.(complete := IsComplete(stored))
  }

  // ---------- The workspace ----------

  class Workspace {
    var receivedByteCount: nat
    const receivedData: array<bv8>
    const bitmap: array<bv32>
    var initiatorMac: Bytes
    var apBssid: Bytes
    var cooeeComplete: bool
    var sizeOfZeroDataPacket: nat

    ghost predicate Valid()
      reads this, receivedData, bitmap
    {
      && receivedData.Length == 512 && bitmap.Length == 32
      && State(receivedByteCount, receivedData[..], bitmap[..], initiatorMac, apBssid, cooeeComplete,
               sizeOfZeroDataPacket).Valid()
    }

    ghost function Value(): (s: State)
      requires Valid()
      reads this, receivedData, bitmap
      ensures s.Valid()
    {
      State(receivedByteCount, receivedData[..], bitmap[..], initiatorMac, apBssid, cooeeComplete,
            sizeOfZeroDataPacket)
    }

    constructor ()
      ensures Valid() && fresh(receivedData) && fresh(bitmap)
      ensures Value() == Start(0)
    {
      receivedData := new bv8[512](_ => 0);
      bitmap := new bv32[32](_ => 0);
      receivedByteCount, cooeeComplete, sizeOfZeroDataPacket := 0, false, 0;
      initiatorMac, apBssid := NO_MAC, NO_MAC;
      new;
      assert receivedData[..] == seq(512, _ => 0);
      assert bitmap[..] == seq(32, _ => 0);
    }

    method ProcessRawPacket(f: Frame)
      requires Valid() && f.Valid() && InBuffer(Value(), f)
      modifies this, receivedData, bitmap
      ensures Valid() && Value() == Process(old(Value()), f)
    {
      if !cooeeComplete {
        ProcessPacket(f);
      }
    }

    method ProcessPacket(f: Frame)
      requires Valid() && !cooeeComplete && f.Valid() && InBuffer(Value(), f)
      modifies this, receivedData, bitmap
      ensures Valid() && Value() == Process(old(Value()), f)
    {
      hide GetBit, Index, Stored, IsComplete;
      if f.address3 == BEACON {
        if sizeOfZeroDataPacket == 0 {
          sizeOfZeroDataPacket := f.size - 2;
        }
        return;
      } else if f.address1 == BEACON {
        if sizeOfZeroDataPacket == 0 {
          sizeOfZeroDataPacket := f.size;
        }
        return;
      }
      if sizeOfZeroDataPacket == 0 {
        return;
      }
      if f.address3[..4] == UPPER {
        TakeSegment(f, f.address3[4..], f.address2, f.address1, 2);
      } else if f.address1[..4] == UPPER {
        TakeSegment(f, f.address1[4..], f.address3, f.address2, 0);
      }
    }

    /** The second half of packet processing, for a frame found to carry a segment. */
    method TakeSegment(f: Frame, data: Bytes, initiator: Bytes, bssid: Bytes, extraOffset: nat)
      requires Valid() && !cooeeComplete && f.Valid() && InBuffer(Value(), f)
      requires KindOf(f) in {DataThird, DataFirst} && sizeOfZeroDataPacket != 0
      requires data == Data(f) && extraOffset == ExtraOffset(f)
      requires (initiator, bssid) == SenderOf(f)
      modifies this, receivedData, bitmap
      ensures Valid() && Value() == Process(old(Value()), f)
    {
      hide GetBit, KindOf, Data, ExtraOffset, Stored, IsComplete, Has, Word, MaskOf, SenderOf;
      if f.size < MAX_FRAME {
        if receivedByteCount == 0 {
          initiatorMac, apBssid := initiator, bssid;
        }
        var index := (f.size - sizeOfZeroDataPacket - extraOffset) % 0x1_0000;
        GetBitIs(bitmap[..], index / 2);
        if !Has(bitmap[Word(index / 2)], MaskOf(index / 2)) {
          Store(index, data);
          CheckComplete();
        }
      }
    }

    /** Put a segment in place and mark it. */
    method Store(index: nat, data: Bytes)
      requires Valid() && index + 1 < 512 && |data| == 2
      modifies this`receivedByteCount, receivedData, bitmap
      ensures Valid() && Value() == Stored(old(Value()), index, data)
    {
      receivedData[index] := data[0];
      receivedData[index + 1] := data[1];
      var bit := index / 2;
      bitmap[Word(bit)] := With(bitmap[Word(bit)], MaskOf(bit));
      receivedByteCount := (receivedByteCount + 2) % 0x1_0000;
    }

    /** Once enough bytes are counted, look for a missing segment. */
    method CheckComplete()
      requires Valid() && !cooeeComplete
      modifies this`cooeeComplete
      ensures Valid() && Value() == old(Value()).(complete := IsComplete(old(Value())))
    {
      hide GetBit, Has, Word, MaskOf;
      var total := receivedData[1] as int;
      if total != 0 && receivedByteCount >= total {
        var a := 0;
        while a < total / 2
          invariant 0 <= a <= total / 2
          invariant AllReceived(bitmap[..], a) && Value() == old(Value())
        {
          GetBitIs(bitmap[..], a);
          if !Has(bitmap[Word(a)], MaskOf(a)) {
            assert !AllReceived(bitmap[..], total / 2);
            return;
          }
          a := a + 1;
        }
        cooeeComplete := true;
      }
    }
  }

  lemma GetBitIs(bits: Bitmap, bit: nat)
    requires bit < 1024
    ensures GetBit(bits, bit) <==> Has(bits[Word(bit)], MaskOf(bit))
  {
  }

  const NO_MAC: Bytes := [0, 0, 0, 0, 0, 0]

  /** A workspace with a zeroed buffer that has heard a beacon of the given size (0 if none yet). */
  function Start(zeroSize: nat): State {
    State(0, seq(512, _ => 0), seq(32, _ => 0), NO_MAC, NO_MAC, false, zeroSize)
  }

  // ---------- Where a frame's bytes go ----------

  /** The place of a frame's bytes lies inside the buffer exactly for these sizes: up to 510 bytes more than
      a frame without data, or so much shorter that the 16-bit place wraps around into the buffer. */
  lemma InBufferIff(s: State, f: Frame)
    requires s.Valid() && f.Valid() && !s.complete && IsData(s, f)
    ensures var excess := f.size - s.zeroSize - ExtraOffset(f);
            InBuffer(s, f) <==> 0 <= excess <= 510 || excess <= 510 - 0x1_0000
  {
    hide KindOf;
  }

  /** The source's size test keeps every frame of a kind that is no shorter than one without data inside. */
  ghost predicate TestSuffices(zeroSize: nat, kind: Kind) {
    forall f: Frame :: f.Valid() && KindOf(f) == kind && zeroSize + ExtraOffset(f) <= f.size < MAX_FRAME ==>
                         InBuffer(Start(zeroSize), f)
  }

  /** A data frame in the form with the segment in the first or in the third address. */
  function DataFrame(kind: Kind, bytes: Bytes, access: Bytes, sender: Bytes, size: nat): Frame {
    if kind == DataThird then Frame(access, sender, UPPER + bytes, size) else Frame(UPPER + bytes, access, sender, size)
  }

  lemma DataFrameIs(kind: Kind, bytes: Bytes, access: Bytes, sender: Bytes, size: nat)
    requires kind in {DataThird, DataFirst} && |bytes| == 2 && |access| == |sender| == 6 && 24 <= size < 0x1_0000
    requires access[0] != 1 && sender[0] != 1
    ensures var f := DataFrame(kind, bytes, access, sender, size);
            f.Valid() && f.size == size && KindOf(f) == kind && Data(f) == bytes && SenderOf(f) == (sender, access)
  {
    var f, segment := DataFrame(kind, bytes, access, sender, size), UPPER + bytes;
    assert segment[..4] == UPPER && segment[4..] == bytes && segment[3] != BEACON[3];
    assert access[..4][0] != UPPER[0] && sender[..4][0] != UPPER[0];
  }

  /** That is so exactly when the beacon is long enough: by the test's 80 bytes over the buffer's size, and
      one more. Otherwise the longest frame that passes the test lies outside. */
  lemma TestSufficesIff(zeroSize: nat, kind: Kind)
    requires 0 < zeroSize < 0x1_0000 && kind in {DataThird, DataFirst}
    ensures TestSuffices(zeroSize, kind) <==> zeroSize + (if kind == DataThird then 2 else 0) >= 81
  {
    DataFrameIs(kind, [0, 0], NO_MAC, NO_MAC, MAX_FRAME - 1);
    hide KindOf, DataFrame, Data, SenderOf;
    var long := DataFrame(kind, [0, 0], NO_MAC, NO_MAC, MAX_FRAME - 1);
    assert IsData(Start(zeroSize), long);
    InBufferIff(Start(zeroSize), long);
    forall f: Frame | f.Valid() && KindOf(f) == kind && zeroSize + ExtraOffset(f) <= f.size < MAX_FRAME
      ensures zeroSize + (if kind == DataThird then 2 else 0) >= 81 ==> InBuffer(Start(zeroSize), f)
    {
      InBufferIff(Start(zeroSize), f);
    }
  }

  /** A frame shorter than one without data passes the source's test and lies outside. */
  lemma ShortFrameOutside()
    ensures var f := DataFrame(DataFirst, [0, 0], NO_MAC, NO_MAC, 50);
            f.Valid() && IsData(Start(100), f) && !InBuffer(Start(100), f)
  {
    DataFrameIs(DataFirst, [0, 0], NO_MAC, NO_MAC, 50);
    hide KindOf, DataFrame, Data, SenderOf;
    InBufferIff(Start(100), DataFrame(DataFirst, [0, 0], NO_MAC, NO_MAC, 50));
  }

  // ---------- Frames from another sender ----------

  /** A frame from another sender than the one recorded is ignored exactly when any sender's would be: after
      completion, when it carries nothing that can be taken, or when its segment is there already. */
  lemma OtherSenderIgnoredIff(s: State, f: Frame)
    requires s.Valid() && s.count != 0 && f.Valid() && InBuffer(s, f)
    requires KindOf(f) in {DataThird, DataFirst} && SenderOf(f) != (s.initiator, s.bssid)
    ensures Process(s, f) == s <==> s.complete || !IsData(s, f) || GetBit(s.bits, Index(s, f) / 2)
  {
    hide KindOf, GetBit, ExtraOffset, Data, SenderOf, IsComplete;
    if !s.complete && IsData(s, f) { SetThenGetHere(s.bits, Index(s, f) / 2); }
  }

  lemma SetThenGetHere(bits: Bitmap, i: nat)
    requires i < 1024
    ensures GetBit(SetBit(bits, i), i)
  {
    SetThenGet(bits, i, i);
  }

  /** The first two segments from any two senders: both are stored, and only the first sender is recorded. */
  lemma SecondSenderStored(f: Frame, g: Frame, zeroSize: nat)
    requires f.Valid() && g.Valid() && KindOf(f) == KindOf(g) == DataFirst && SenderOf(f) != SenderOf(g)
    requires 0 < zeroSize == f.size && g.size == f.size + 2 < MAX_FRAME && Data(f)[1] > 2
    ensures InBuffer(Start(zeroSize), f)
    ensures var s := Process(Start(zeroSize), f);
            && InBuffer(s, g)
            && SenderOf(g) != (s.initiator, s.bssid) == SenderOf(f)
            && var t := Process(s, g);
            && t.data[..4] == Data(f) + Data(g) && t.count == 4 && (t.initiator, t.bssid) == SenderOf(f)
  {
    hide KindOf, Data, SenderOf, GetBit, Process, IsComplete, Stored, WithSender;
    FirstTaken(f, zeroSize);
    var s := Process(Start(zeroSize), f);
    SegmentTaken(s, g);
    assert WithSender(s, g) == s by { AlreadyHeard(s, g); }
    SecondStored(Start(zeroSize), Data(f), Data(g));
    StoredKeeps(s, 2, Data(g));
    StoredKeeps(Start(zeroSize), 0, Data(f));
  }

  lemma AlreadyHeard(s: State, f: Frame)
    requires f.Valid() && s.count != 0
    ensures WithSender(s, f) == s
  {
  }

  lemma FirstTaken(f: Frame, zeroSize: nat)
    requires f.Valid() && KindOf(f) == DataFirst && 0 < zeroSize == f.size < MAX_FRAME && Data(f)[1] > 2
    ensures InBuffer(Start(zeroSize), f)
    ensures var s := Process(Start(zeroSize), f);
            && s.data == Stored(Start(zeroSize), 0, Data(f)).data && s.count == 2 && !s.complete
            && s.zeroSize == zeroSize && (s.initiator, s.bssid) == SenderOf(f) && !GetBit(s.bits, 1)
  {
    hide KindOf, Data, SenderOf, GetBit, SetBit, Process, IsComplete, Stored;
    NoBitSet(0);
    NoBitSet(1);
    SegmentTaken(Start(zeroSize), f);
    var start := WithSender(Start(zeroSize), f);
    FirstStored(start, Data(f));
    SetThenGet(start.bits, 0, 1);
    StoredKeeps(start, 0, Data(f));
    StoredKeeps(Start(zeroSize), 0, Data(f));
  }

  lemma StoredKeeps(s: State, index: nat, bytes: Bytes)
    requires s.Valid() && index + 1 < 512 && |bytes| == 2
    ensures var t := Stored(s, index, bytes);
            && t.zeroSize == s.zeroSize && t.initiator == s.initiator && t.bssid == s.bssid && t.complete == s.complete
            && t.data == s.data[index := bytes[0]][index + 1 := bytes[1]] && t.count == (s.count + 2) % 0x1_0000
  {
    hide SetBit;
  }

  /** Two such frames. */
  lemma TwoSenders()
    ensures var access: Bytes := [2, 0, 0, 0, 0, 9];
            var f := DataFrame(DataFirst, [7, 12], access, [2, 0, 0, 0, 0, 1], 100);
            var g := DataFrame(DataFirst, [8, 9], access, [2, 0, 0, 0, 0, 2], 102);
            && f.Valid() && g.Valid() && InBuffer(Start(100), f) && InBuffer(Process(Start(100), f), g)
            && SenderOf(f) != SenderOf(g) && Process(Process(Start(100), f), g).data[..4] == [7, 12, 8, 9]
  {
    var a, b, access: Bytes := [2, 0, 0, 0, 0, 1], [2, 0, 0, 0, 0, 2], [2, 0, 0, 0, 0, 9];
    assert a[5] != b[5];
    DataFrameIs(DataFirst, [7, 12], access, a, 100);
    DataFrameIs(DataFirst, [8, 9], access, b, 102);
    hide KindOf, Data, SenderOf, DataFrame, Process, InBuffer;
    SecondSenderStored(DataFrame(DataFirst, [7, 12], access, a, 100),
                       DataFrame(DataFirst, [8, 9], access, b, 102), 100);
  }

  lemma SegmentTaken(s: State, f: Frame)
    requires s.Valid() && f.Valid() && !s.complete && IsData(s, f) && InBuffer(s, f) && !GetBit(s.bits, Index(s, f) / 2)
    ensures var stored := Stored(WithSender(s, f), Index(s, f), Data(f));
            Process(s, f) == stored.(complete := IsComplete(stored))
  {
    hide KindOf, GetBit, SetBit, IsComplete;
  }

  /** A first segment alone completes nothing that announces more than its own two bytes. */
  lemma FirstStored(s: State, bytes: Bytes)
    requires s.Valid() && |bytes| == 2 && s.count == 0 && bytes[1] > 2
    ensures var t := Stored(s, 0, bytes); !IsComplete(t) && t.count == 2 && t.bits == SetBit(s.bits, 0)
  {
    hide GetBit, SetBit;
  }

  lemma SecondStored(s: State, bytes: Bytes, more: Bytes)
    requires s.Valid() && |bytes| == |more| == 2
    ensures var data := Stored(s, 0, bytes).data;
            data[2 := more[0]][3 := more[1]][..4] == bytes + more
  {
    hide SetBit;
  }

  lemma NoBitSet(j: nat)
    requires j < 1024
    ensures !GetBit(seq(32, _ => 0), j)
  {
  }

  // ---------- Reassembly of one message ----------

  /** A message as one conforming sender sends it: of even length, which its second byte repeats. */
  ghost predicate IsMessage(m: Bytes) {
    10 <= |m| <= 254 && |m| % 2 == 0 && m[1] as int == |m|
  }

  /** The frame carries segment k, its length counted from the zero-data frame's. */
  ghost predicate Carries(f: Frame, m: Bytes, zeroSize: nat, k: nat)
    requires f.Valid()
  {
    && KindOf(f) in {DataThird, DataFirst} && f.size < MAX_FRAME
    && 2 * k + 1 < |m|
    && f.size == zeroSize + 2 * k + ExtraOffset(f)
    && Data(f) == m[2 * k..2 * k + 2]
  }

  /** Any frame the receiver may meet: one of the message's, a further beacon, or foreign traffic. */
  ghost predicate MayArrive(f: Frame, m: Bytes, zeroSize: nat) {
    && f.Valid()
    && (KindOf(f) in {DataThird, DataFirst} ==> exists k: nat :: Carries(f, m, zeroSize, k))
  }

  /** The segment a frame supplies, if it supplies one. */
  ghost function Supplied(f: Frame, m: Bytes, zeroSize: nat): (ks: set<nat>)
    requires MayArrive(f, m, zeroSize)
    ensures KindOf(f) in {DataThird, DataFirst} ==> exists k: nat :: ks == {k} && Carries(f, m, zeroSize, k)
    ensures KindOf(f) !in {DataThird, DataFirst} ==> ks == {}
  {
    if KindOf(f) in {DataThird, DataFirst}
    then var k: nat :| Carries(f, m, zeroSize, k); {k}
    else {}
  }

  ghost function UpTo(n: nat): (s: set<nat>)
    ensures forall k: nat :: k in s <==> k < n
    ensures |s| == n
    decreases n
  {
    if n == 0 then {} else UpTo(n - 1) + {n - 1}
  }

  ghost function AllSegments(m: Bytes): set<nat> {
    UpTo(|m| / 2)
  }

  ghost predicate InPlace(data: Bytes, m: Bytes, k: nat) {
    2 * k + 1 < |m| && 2 * k + 1 < |data| && data[2 * k] == m[2 * k] && data[2 * k + 1] == m[2 * k + 1]
  }

  /** What the workspace holds when exactly the segments in `got` have been supplied. */
  ghost predicate Holds(s: State, m: Bytes, zeroSize: nat, got: set<nat>) {
    && s.Valid() && s.zeroSize == zeroSize
    && got <= AllSegments(m)
    && (forall k :: 0 <= k < 1024 ==> (GetBit(s.bits, k) <==> k in got))
    && (forall k :: k in got ==> InPlace(s.data, m, k))
    && (0 !in got ==> s.data[1] == 0)
    && s.count == 2 * |got|
    && (s.complete <==> got == AllSegments(m))
  }

  /** Data heard before the first beacon is dropped; the first beacon, in either address, fixes the size
      of a frame without data. */
  lemma FirstBeacon(f: Frame)
    requires f.Valid()
    ensures InBuffer(Start(0), f)
    ensures Process(Start(0), f)
         == if KindOf(f) == BeaconThird then Start(f.size - 2)
            else if KindOf(f) == BeaconFirst then Start(f.size)
            else Start(0)
  {
  }

  lemma HoldsAtStart(m: Bytes, zeroSize: nat)
    requires IsMessage(m) && 0 < zeroSize < 0x1_0000
    ensures Holds(Start(zeroSize), m, zeroSize, {})
  {
  }

  lemma IndexOf(s: State, f: Frame, m: Bytes, k: nat)
    requires f.Valid() && IsMessage(m) && s.zeroSize > 0 && Carries(f, m, s.zeroSize, k)
    ensures IsData(s, f) && Index(s, f) == 2 * k && k < |m| / 2 && 2 * k + 1 < 512
  {
    hide KindOf, Data;
    assert f.size - s.zeroSize - ExtraOffset(f) == 2 * k;
    SmallPlace(2 * k);
  }

  lemma SmallPlace(n: nat)
    requires n < 0x1_0000
    ensures n % 0x1_0000 == n
  {
  }

  lemma CountBounded(m: Bytes, got: set<nat>)
    requires IsMessage(m) && got <= AllSegments(m)
    ensures |AllSegments(m)| == |m| / 2 && |got| <= 127
  {
    SubsetSize(got, AllSegments(m));
  }

  lemma {:induction false} SubsetSize(a: set<nat>, b: set<nat>)
    requires a <= b
    ensures |a| <= |b|
    decreases |a|
  {
    if a != {} {
      var x :| x in a;
      SubsetSize(a - {x}, b - {x});
    }
  }

  /** A new segment: the buffer, the bitmap and the count follow, and completion is found at once. */
  lemma StoreHolds(s: State, f: Frame, m: Bytes, k: nat, got: set<nat>)
    requires IsMessage(m) && s.zeroSize > 0 && Holds(s, m, s.zeroSize, got) && !s.complete && k !in got
    requires f.Valid() && Carries(f, m, s.zeroSize, k)
    ensures 2 * k + 1 < 512
    ensures var stored := Stored(s, 2 * k, Data(f));
            Holds(stored.(complete := IsComplete(stored)), m, s.zeroSize, got + {k})
  {
    hide GetBit, SetBit, KindOf, ExtraOffset, AllSegments, IsComplete, InPlace;
    SegmentsAre(m);
    var stored, more := Stored(s, 2 * k, Data(f)), got + {k};
    CountBounded(m, more);
    assert |more| == |got| + 1;
    StoredBits(s, Data(f), k, got);
    StoredInPlace(s, f, m, k);
    forall j | j in more ensures InPlace(stored.data, m, j) { OtherInPlace(s, f, m, k, j); }
    if 0 in more { InPlaceMeans(stored.data, m, 0); }
    CompleteIff(stored, m, more);
  }

  lemma SegmentsAre(m: Bytes)
    requires IsMessage(m)
    ensures forall k: nat :: k in AllSegments(m) <==> 2 * k + 1 < |m|
  {
  }

  lemma InPlaceMeans(data: Bytes, m: Bytes, k: nat)
    requires InPlace(data, m, k)
    ensures 2 * k + 1 < |m| && 2 * k + 1 < |data| && data[2 * k] == m[2 * k] && data[2 * k + 1] == m[2 * k + 1]
  {
  }

  lemma StoredBits(s: State, bytes: Bytes, k: nat, got: set<nat>)
    requires s.Valid() && |bytes| == 2 && 2 * k + 1 < 512
    requires forall j :: 0 <= j < 1024 ==> (GetBit(s.bits, j) <==> j in got)
    ensures forall j :: 0 <= j < 1024 ==> (GetBit(Stored(s, 2 * k, bytes).bits, j) <==> j in got + {k})
  {
    hide GetBit, SetBit;
    forall j | 0 <= j < 1024 ensures GetBit(Stored(s, 2 * k, bytes).bits, j) <==> j in got + {k} {
      SetThenGet(s.bits, k, j);
      assert (2 * k) / 2 == k;
    }
  }

  lemma StoredInPlace(s: State, f: Frame, m: Bytes, k: nat)
    requires IsMessage(m) && s.Valid() && f.Valid() && Carries(f, m, s.zeroSize, k)
    ensures 2 * k + 1 < 512 && InPlace(Stored(s, 2 * k, Data(f)).data, m, k)
    ensures k != 0 ==> Stored(s, 2 * k, Data(f)).data[1] == s.data[1]
  {
  }

  lemma OtherInPlace(s: State, f: Frame, m: Bytes, k: nat, j: nat)
    requires IsMessage(m) && s.Valid() && f.Valid() && Carries(f, m, s.zeroSize, k)
    requires 2 * k + 1 < 512 && (j == k || InPlace(s.data, m, j))
    ensures InPlace(Stored(s, 2 * k, Data(f)).data, m, j)
  {
    hide GetBit, SetBit, KindOf, ExtraOffset, Data;
    StoredInPlace(s, f, m, k);
  }

  lemma ReceivedIff(bits: Bitmap, m: Bytes, got: set<nat>)
    requires IsMessage(m) && got <= AllSegments(m)
    requires forall k :: 0 <= k < 1024 ==> (GetBit(bits, k) <==> k in got)
    ensures AllReceived(bits, |m| / 2) <==> got == AllSegments(m)
  {
    hide GetBit, AllSegments;
    SegmentsAre(m);
    if AllReceived(bits, |m| / 2) {
      forall k | k in AllSegments(m) ensures k in got { assert GetBit(bits, k); }
      assert got == AllSegments(m);
    } else {
      var k :| 0 <= k < |m| / 2 && !GetBit(bits, k);
      assert k in AllSegments(m) && k !in got;
    }
  }

  lemma CompleteIff(s: State, m: Bytes, got: set<nat>)
    requires IsMessage(m) && s.Valid() && got <= AllSegments(m) && s.count == 2 * |got|
    requires forall k :: 0 <= k < 1024 ==> (GetBit(s.bits, k) <==> k in got)
    requires 0 in got ==> s.data[1] == m[1]
    requires 0 !in got ==> s.data[1] == 0
    ensures IsComplete(s) <==> got == AllSegments(m)
  {
    hide GetBit, AllSegments, AllReceived;
    CountBounded(m, got);
    SegmentsAre(m);
    ReceivedIff(s.bits, m, got);
    assert 0 in AllSegments(m);
  }

  lemma ProcessIdle(s: State, f: Frame)
    requires s.Valid() && s.zeroSize > 0 && f.Valid() && (s.complete || KindOf(f) !in {DataThird, DataFirst})
    ensures InBuffer(s, f) && Process(s, f) == s
  {
  }

  lemma ProcessData(s: State, f: Frame, m: Bytes, k: nat)
    requires IsMessage(m) && s.Valid() && s.zeroSize > 0 && !s.complete && f.Valid() && Carries(f, m, s.zeroSize, k)
    ensures InBuffer(s, f) && 2 * k + 1 < 512 && k < 1024
    ensures var heard := WithSender(s, f);
            var stored := Stored(heard, 2 * k, Data(f));
            Process(s, f) == if GetBit(s.bits, k) then heard else stored.(complete := IsComplete(stored))
  {
    hide Index, ExtraOffset, Data, GetBit, Stored, IsComplete;
    IndexOf(s, f, m, k);
    assert (2 * k) / 2 == k;
  }

  lemma HeardHolds(s: State, f: Frame, m: Bytes, zeroSize: nat, got: set<nat>)
    requires f.Valid() && Holds(s, m, zeroSize, got)
    ensures Holds(WithSender(s, f), m, zeroSize, got)
  {
  }

  lemma HoldsBit(s: State, m: Bytes, zeroSize: nat, got: set<nat>, k: nat)
    requires k < 1024 && Holds(s, m, zeroSize, got)
    ensures s.Valid() && s.zeroSize == zeroSize && (GetBit(s.bits, k) <==> k in got)
    ensures s.complete && 2 * k + 1 < |m| ==> k in got
  {
  }

  /** One more frame: nothing else happens than that its segment, if new, is added. */
  lemma ProcessHolds(s: State, f: Frame, m: Bytes, zeroSize: nat, got: set<nat>)
    requires IsMessage(m) && zeroSize > 0 && Holds(s, m, zeroSize, got) && MayArrive(f, m, zeroSize)
    ensures InBuffer(s, f)
    ensures Holds(Process(s, f), m, zeroSize, got + Supplied(f, m, zeroSize))
  {
    hide Holds, KindOf, Process, InBuffer, Stored, WithSender, IsComplete;
    var ks := Supplied(f, m, zeroSize);
    HoldsBit(s, m, zeroSize, got, 0);
    if KindOf(f) !in {DataThird, DataFirst} {
      assert got + ks == got;
      ProcessIdle(s, f);
    } else {
      var k: nat :| ks == {k} && Carries(f, m, zeroSize, k);
      HoldsBit(s, m, zeroSize, got, k);
      HeardHolds(s, f, m, zeroSize, got);
      if s.complete {
        assert got + ks == got;
        ProcessIdle(s, f);
      } else {
        ProcessData(s, f, m, k);
        if k in got {
          assert got + ks == got;
        } else {
          HeardSame(s, f);
          StoreHolds(WithSender(s, f), f, m, k, got);
        }
      }
    }
  }

  lemma HeardSame(s: State, f: Frame)
    requires f.Valid()
    ensures WithSender(s, f).zeroSize == s.zeroSize && WithSender(s, f).complete == s.complete
  {
  }

  ghost predicate AllMayArrive(frames: seq<Frame>, m: Bytes, zeroSize: nat) {
    forall i :: 0 <= i < |frames| ==> MayArrive(frames[i], m, zeroSize)
  }

  ghost function AllSupplied(frames: seq<Frame>, m: Bytes, zeroSize: nat): set<nat>
    requires AllMayArrive(frames, m, zeroSize)
    decreases |frames|
  {
    if frames == [] then {}
    else AllSupplied(frames[..|frames| - 1], m, zeroSize) + Supplied(frames[|frames| - 1], m, zeroSize)
  }

  /** The workspace after a run of frames. At every point of every run, whatever the order and repetition
      of the frames, it holds exactly the segments supplied so far. */
  ghost function Reassembled(frames: seq<Frame>, m: Bytes, zeroSize: nat): (s: State)
    requires IsMessage(m) && 0 < zeroSize < 0x1_0000 && AllMayArrive(frames, m, zeroSize)
    ensures Holds(s, m, zeroSize, AllSupplied(frames, m, zeroSize))
    decreases |frames|
  {
    if frames == [] then
      HoldsAtStart(m, zeroSize);
      Start(zeroSize)
    else
      var n := |frames| - 1;
      var before := Reassembled(frames[..n], m, zeroSize);
      ProcessHolds(before, frames[n], m, zeroSize, AllSupplied(frames[..n], m, zeroSize));
      Process(before, frames[n])
  }

  /** Completion is set exactly by the frame that supplies the last missing segment; then the buffer
      starts with the message. */
  lemma CompletedByLastMissing(frames: seq<Frame>, f: Frame, m: Bytes, zeroSize: nat)
    requires IsMessage(m) && 0 < zeroSize < 0x1_0000 && AllMayArrive(frames + [f], m, zeroSize)
    ensures AllMayArrive(frames, m, zeroSize) && MayArrive(f, m, zeroSize)
    ensures var got := AllSupplied(frames, m, zeroSize);
            var before, after := Reassembled(frames, m, zeroSize), Reassembled(frames + [f], m, zeroSize);
            && (!before.complete && after.complete <==>
                got != AllSegments(m) && got + Supplied(f, m, zeroSize) == AllSegments(m))
            && (after.complete ==> after.data[..|m|] == m && after.count == |m|)
  {
    var all := frames + [f];
    assert all[|frames|] == f && forall i :: 0 <= i < |frames| ==> all[i] == frames[i];
    assert all[..|frames|] == frames;
    var before, after := Reassembled(frames, m, zeroSize), Reassembled(all, m, zeroSize);
    assert AllSupplied(all, m, zeroSize) == AllSupplied(frames, m, zeroSize) + Supplied(f, m, zeroSize);
    if after.complete { CompleteBuffer(after, m, zeroSize); }
  }

  lemma CompleteBuffer(s: State, m: Bytes, zeroSize: nat)
    requires IsMessage(m) && Holds(s, m, zeroSize, AllSegments(m))
    ensures s.data[..|m|] == m && s.count == |m|
  {
    hide GetBit, AllSegments, InPlace;
    CountBounded(m, AllSegments(m));
    SegmentsAre(m);
    forall k: nat | 2 * k + 1 < |m| ensures InPlace(s.data, m, k) { assert k in AllSegments(m); }
    AllInPlace(s.data, m);
  }

  lemma AllInPlace(data: Bytes, m: Bytes)
    requires |m| % 2 == 0 && |m| <= |data| && forall k: nat :: 2 * k + 1 < |m| ==> InPlace(data, m, k)
    ensures data[..|m|] == m
  {
    forall i | 0 <= i < |m| ensures data[i] == m[i] {
      var k := i / 2;
      assert (i == 2 * k || i == 2 * k + 1) && InPlace(data, m, k);
    }
  }

  // ---------- From power-up, by addresses ----------

  /** The frame's addresses are a beacon's. */
  predicate BeaconAddressed(f: Frame) {
    f.address3 == [0x01, 0x00, 0x5E, 0x76, 0x00, 0x00] || f.address1 == [0x01, 0x00, 0x5E, 0x76, 0x00, 0x00]
  }

  predicate DataAddress(address: Bytes)
    requires |address| == 6
  {
    address[..4] == [0x01, 0x00, 0x5E, 0x7E]
  }

  /** A beacon of the sender whose frames without data are z long: two bytes longer in the form that has its
      address in the third field, as long in the form that has it in the first. */
  predicate IsBeacon(f: Frame, z: nat) {
    if f.address3 == [0x01, 0x00, 0x5E, 0x76, 0x00, 0x00] then f.size == z + 2
    else f.address1 == [0x01, 0x00, 0x5E, 0x76, 0x00, 0x00] && f.size == z
  }

  /** A frame of that sender with segment k of the message, in one of the two forms. */
  predicate IsSegment(f: Frame, m: Bytes, z: nat, k: nat)
    requires f.Valid()
  {
    && 2 * k + 1 < |m| && f.size < 592 && !BeaconAddressed(f)
    && if DataAddress(f.address3) then f.address3[4..] == m[2 * k..2 * k + 2] && f.size == z + 2 * k + 2
       else DataAddress(f.address1) && f.address1[4..] == m[2 * k..2 * k + 2] && f.size == z + 2 * k
  }

  predicate IsForeign(f: Frame)
    requires f.Valid()
  {
    !BeaconAddressed(f) && !DataAddress(f.address3) && !DataAddress(f.address1)
  }

  /** What may be heard: the sender's beacons and segments, and frames of others. */
  ghost predicate MayBeHeard(f: Frame, m: Bytes, z: nat) {
    f.Valid() && (IsBeacon(f, z) || IsForeign(f) || exists k: nat :: IsSegment(f, m, z, k))
  }

  ghost predicate AllMayBeHeard(frames: seq<Frame>, m: Bytes, z: nat) {
    forall i :: 0 <= i < |frames| ==> MayBeHeard(frames[i], m, z)
  }

  ghost predicate BeaconHeard(frames: seq<Frame>, z: nat) {
    exists b :: 0 <= b < |frames| && IsBeacon(frames[b], z)
  }

  /** Segment k has been heard after a beacon. */
  ghost predicate Heard(frames: seq<Frame>, m: Bytes, z: nat, k: nat)
    requires AllMayBeHeard(frames, m, z)
  {
    exists i :: 0 <= i < |frames| && BeaconHeard(frames[..i], z) && IsSegment(frames[i], m, z, k)
  }

  ghost function AllHeard(frames: seq<Frame>, m: Bytes, z: nat): (ks: set<nat>)
    requires AllMayBeHeard(frames, m, z)
    ensures forall k: nat :: k in ks <==> 2 * k + 1 < |m| && Heard(frames, m, z, k)
  {
    set k: nat | k < |m| && 2 * k + 1 < |m| && Heard(frames, m, z, k)
  }

  lemma SegmentCarries(f: Frame, m: Bytes, z: nat, k: nat)
    requires f.Valid()
    ensures IsSegment(f, m, z, k) <==> Carries(f, m, z, k)
  {
    if f.address1 == BEACON { assert f.address1[..4][3] == 0x76; }
    if f.address3 == BEACON { assert f.address3[..4][3] == 0x76; }
  }

  lemma BeaconIs(f: Frame, z: nat)
    requires f.Valid() && 0 < z
    ensures IsBeacon(f, z) ==> KindOf(f) in {BeaconThird, BeaconFirst} && Process(Start(0), f) == Start(z)
    ensures KindOf(f) in {BeaconThird, BeaconFirst} <==> BeaconAddressed(f)
    ensures InBuffer(Start(0), f)
    ensures !BeaconAddressed(f) ==> Process(Start(0), f) == Start(0)
  {
    FirstBeacon(f);
  }

  lemma HeardMayArrive(f: Frame, m: Bytes, z: nat)
    requires MayBeHeard(f, m, z)
    ensures MayArrive(f, m, z)
    ensures forall k: nat :: k in Supplied(f, m, z) <==> IsSegment(f, m, z, k)
    ensures BeaconAddressed(f) ==> IsBeacon(f, z)
  {
    forall k: nat ensures IsSegment(f, m, z, k) <==> Carries(f, m, z, k) { SegmentCarries(f, m, z, k); }
    HeardKinds(f, m, z);
    hide IsSegment, KindOf;
    if KindOf(f) in {DataThird, DataFirst} {
      var k: nat :| IsSegment(f, m, z, k);
      forall j: nat | Carries(f, m, z, j) ensures j == k { }
    }
  }

  lemma HeardKinds(f: Frame, m: Bytes, z: nat)
    requires MayBeHeard(f, m, z)
    ensures KindOf(f) in {DataThird, DataFirst} <==> exists k: nat :: IsSegment(f, m, z, k)
    ensures BeaconAddressed(f) ==> IsBeacon(f, z)
  {
    if exists k: nat :: IsSegment(f, m, z, k) {
      var k: nat :| IsSegment(f, m, z, k);
      SegmentCarries(f, m, z, k);
    }
  }

  /** One more frame, by what is heard. */
  lemma HeardMore(frames: seq<Frame>, f: Frame, m: Bytes, z: nat)
    requires AllMayBeHeard(frames + [f], m, z)
    ensures AllMayBeHeard(frames, m, z) && MayBeHeard(f, m, z) && MayArrive(f, m, z)
    ensures BeaconHeard(frames + [f], z) <==> BeaconHeard(frames, z) || IsBeacon(f, z)
    ensures AllHeard(frames + [f], m, z)
         == if BeaconHeard(frames, z) then AllHeard(frames, m, z) + Supplied(f, m, z) else {}
  {
    var all := frames + [f];
    assert all[|frames|] == f && forall i :: 0 <= i < |frames| ==> all[i] == frames[i];
    assert all[..|frames|] == frames && forall i :: 0 <= i < |frames| ==> all[..i] == frames[..i];
    HeardMayArrive(f, m, z);
    hide IsSegment, IsBeacon;
    assert BeaconHeard(all, z) <==> BeaconHeard(frames, z) || IsBeacon(f, z) by {
      if BeaconHeard(frames, z) {
        var b :| 0 <= b < |frames| && IsBeacon(frames[b], z);
        assert IsBeacon(all[b], z);
      }
      if IsBeacon(f, z) { assert IsBeacon(all[|frames|], z); }
    }
    forall k: nat ensures Heard(all, m, z, k) <==>
                          Heard(frames, m, z, k) || (BeaconHeard(frames, z) && IsSegment(f, m, z, k))
    {
      HeardStep(frames, f, m, z, k);
    }
    if !BeaconHeard(frames, z) {
      forall k: nat ensures !Heard(frames, m, z, k) { NothingHeard(frames, m, z, k); }
    }
    SegmentsInside(f, m, z);
  }

  lemma SegmentsInside(f: Frame, m: Bytes, z: nat)
    requires MayBeHeard(f, m, z)
    ensures forall k: nat :: IsSegment(f, m, z, k) ==> 2 * k + 1 < |m|
  {
  }

  lemma HeardStep(frames: seq<Frame>, f: Frame, m: Bytes, z: nat, k: nat)
    requires AllMayBeHeard(frames + [f], m, z) && AllMayBeHeard(frames, m, z) && f.Valid()
    ensures Heard(frames + [f], m, z, k) <==>
            Heard(frames, m, z, k) || (BeaconHeard(frames, z) && IsSegment(f, m, z, k))
  {
    hide IsSegment, BeaconHeard;
    var all := frames + [f];
    assert all[..|frames|] == frames && forall i :: 0 <= i < |frames| ==> all[..i] == frames[..i];
    if Heard(frames, m, z, k) {
      var i :| 0 <= i < |frames| && BeaconHeard(frames[..i], z) && IsSegment(frames[i], m, z, k);
      assert BeaconHeard(all[..i], z) && IsSegment(all[i], m, z, k);
    }
    if BeaconHeard(frames, z) && IsSegment(f, m, z, k) {
      assert BeaconHeard(all[..|frames|], z) && IsSegment(all[|frames|], m, z, k);
    }
  }

  lemma NothingHeard(frames: seq<Frame>, m: Bytes, z: nat, k: nat)
    requires AllMayBeHeard(frames, m, z) && !BeaconHeard(frames, z)
    ensures !Heard(frames, m, z, k)
  {
    hide IsSegment;
  }

  /** The workspace after a run of frames from power-up. Nothing is taken before the first beacon; from then on
      it holds exactly the segments heard since, whatever the order, repetition and form of the frames. */
  ghost function FromPowerUp(frames: seq<Frame>, m: Bytes, z: nat): (s: State)
    requires IsMessage(m) && 0 < z < 0x1_0000 && AllMayBeHeard(frames, m, z)
    ensures if BeaconHeard(frames, z) then Holds(s, m, z, AllHeard(frames, m, z)) else s == Start(0)
    decreases |frames|
  {
    if frames == [] then Start(0)
    else
      var n := |frames| - 1;
      var before := FromPowerUp(frames[..n], m, z);
      assert frames == frames[..n] + [frames[n]];
      HeardMore(frames[..n], frames[n], m, z);
      if BeaconHeard(frames[..n], z) then
        ProcessHolds(before, frames[n], m, z, AllHeard(frames[..n], m, z));
        Process(before, frames[n])
      else
        BeaconIs(frames[n], z);
        HeardMayArrive(frames[n], m, z);
        HoldsAtStart(m, z);
        Process(before, frames[n])
  }

  /** What that means: the bits set, the bytes in place, the count, and completion. */
  lemma FromPowerUpTells(frames: seq<Frame>, m: Bytes, z: nat)
    requires IsMessage(m) && 0 < z < 0x1_0000 && AllMayBeHeard(frames, m, z)
    ensures var s := FromPowerUp(frames, m, z);
            && (!BeaconHeard(frames, z) ==> s == Start(0))
            && (BeaconHeard(frames, z) ==>
                  && s.zeroSize == z && s.Valid()
                  && (forall k: nat :: k < 1024 ==> (GetBit(s.bits, k) <==> 2 * k + 1 < |m| && Heard(frames, m, z, k)))
                  && (forall k: nat :: 2 * k + 1 < |m| && Heard(frames, m, z, k) ==>
                        s.data[2 * k] == m[2 * k] && s.data[2 * k + 1] == m[2 * k + 1])
                  && s.count == 2 * |AllHeard(frames, m, z)|
                  && (s.complete <==> forall k: nat :: 2 * k + 1 < |m| ==> Heard(frames, m, z, k))
                  && (s.complete ==> s.data[..|m|] == m))
  {
    hide FromPowerUp, Heard, GetBit, AllSegments;
    var s := FromPowerUp(frames, m, z);
    if BeaconHeard(frames, z) {
      var got := AllHeard(frames, m, z);
      SegmentsAre(m);
      if got == AllSegments(m) { CompleteBuffer(s, m, z); }
      if forall k: nat :: 2 * k + 1 < |m| ==> Heard(frames, m, z, k) { assert got == AllSegments(m); }
    }
  }
}

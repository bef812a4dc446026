/** The number printers and parsers of wiced_lib.c. */
module NumberText {
  import opened Common
  import opened Numerals

  // ---------- Printing ----------

  /** The size of the printers' digit buffers: ten or eight zeros and a terminator. */
  function BufferSize(r: Radix): nat {
    if r.Decimal? then 11 else 9
  }

  function PrintedLength(value: nat, r: Radix, min: nat, max: nat): (n: nat)
    requires min <= max
    ensures min <= n <= max
  {
    Max(min, Min(max, NumDigits(value, r)))
  }

  /** The width limit lets in the buffer's own terminator, which is printed for the value 0. */
  predicate PrintsTerminator(value: nat, r: Radix, min: nat, max: nat) {
    value == 0 && min > 0 && max >= BufferSize(r)
  }

  /** What a printer writes, without the terminator. */
  function Printed(value: nat, r: Radix, min: nat, max: nat): (s: seq<char>)
    requires min <= Min(max, BufferSize(r))
  {
    var n := PrintedLength(value, r, min, Min(max, BufferSize(r)));
    if PrintsTerminator(value, r, min, max) then Digits(0, n - 1, r) + [NUL] else Digits(value, n, r)
  }

  /** The part of an array from `at` is replaced by `text`; nothing else changes. */
  ghost predicate Spliced(before: seq<char>, after: seq<char>, at: nat, text: seq<char>) {
    && |after| == |before|
    && at + |text| <= |after|
    && (forall k :: 0 <= k < |text| ==> after[at + k] == text[k])
    && (forall k :: 0 <= k < |after| && !(at <= k < at + |text|) ==> after[k] == before[k])
  }

  /** The first n characters of a digit buffer are as they were initialised. */
  ghost predicate Untouched(b: seq<char>, n: nat) {
    n <= |b| && forall i :: 0 <= i < n ==> b[i] == if i == |b| - 1 then NUL else '0'
  }

  /** The digit buffer with its k lowest places filled. */
  ghost predicate Filled(b: seq<char>, v: nat, r: Radix, m: nat, k: nat) {
    && |b| == BufferSize(r) && k <= m <= |b|
    && Untouched(b, m - k)
    && b[m - k..m] == Digits(v, k, r)
  }

  lemma FilledStart(b: seq<char>, v: nat, r: Radix, m: nat)
    requires |b| == BufferSize(r) && m <= |b|
    requires forall i :: 0 <= i < |b| ==> b[i] == if i == |b| - 1 then NUL else '0'
    ensures Filled(b, v, r, m, 0)
  {
  }

  lemma UntouchedLess(b: seq<char>, n: nat, c: char)
    requires Untouched(b, n + 1)
    ensures Untouched(b[n := c], n)
  {
  }

  lemma OneMoreDigit(v: nat, k: nat, r: Radix)
    ensures Digits(v, k + 1, r) == [NibbleToHexchar(r.Remainder(Drop(v, k, r)))] + Digits(v, k, r)
  {
    DigitsSplit(v, 1, k, r);
    OneDigit(Drop(v, k, r), r);
    hide Digits, Drop, NibbleToHexchar;
  }

  lemma FilledNext(b: seq<char>, v: nat, r: Radix, m: nat, k: nat)
    requires Filled(b, v, r, m, k) && k < m
    ensures Filled(b[m - k - 1 := NibbleToHexchar(r.Remainder(Drop(v, k, r)))], v, r, m, k + 1)
  {
    hide NibbleToHexchar, Digits, Drop, Untouched, Radix.Remainder;
    var c := NibbleToHexchar(r.Remainder(Drop(v, k, r)));
    OneMoreDigit(v, k, r);
    UntouchedLess(b, m - k - 1, c);
    assert b[m - k - 1 := c][m - k..m] == b[m - k..m];
    TwoParts(b[m - k - 1 := c], m - k - 1, m - k, m, [c], Digits(v, k, r));
  }

  lemma OneDigit(v: nat, r: Radix)
    ensures Digits(v, 1, r) == [NibbleToHexchar(r.Remainder(v))]
  {
  }

  /** The last n places of the filled buffer are what is to be printed. */
  lemma FilledPrints(b: seq<char>, v: nat, r: Radix, min: nat, max: nat, k: nat)
    requires min <= Min(max, BufferSize(r))
    requires var m := Min(max, BufferSize(r));
             Filled(b, v, r, m, k) && k == Min(m, NumDigits(v, r))
    ensures var m := Min(max, BufferSize(r));
            var n := PrintedLength(v, r, min, m);
            b[m - n..m] == Printed(v, r, min, max)
  {
    hide Digits, NumDigits;
    var m := Min(max, BufferSize(r));
    var n := PrintedLength(v, r, min, m);
    NumDigitsPositive(v, r);
    if PrintsTerminator(v, r, min, max) {
      DigitsOfZero(n - 1, r);
      assert b[m - n..m] == Digits(0, n - 1, r) + [NUL];
    } else if n > k {
      Padded(v, k, n, r);
      DigitsOfZero(n - k, r);
      TwoParts(b, m - n, m - k, m, Digits(0, n - k, r), Digits(v, k, r));
    }
  }

  lemma Padded(v: nat, k: nat, n: nat, r: Radix)
    requires NumDigits(v, r) <= k <= n
    ensures Digits(v, n, r) == Digits(0, n - k, r) + Digits(v, k, r)
  {
    hide Digits, NumDigits;
    DropAll(v, k, r);
    DigitsSplit(v, n - k, k, r);
  }

  lemma TwoParts(b: seq<char>, lo: nat, mid: nat, hi: nat, x: seq<char>, y: seq<char>)
    requires lo <= mid <= hi <= |b| && |x| == mid - lo && b[mid..hi] == y
    requires forall i :: 0 <= i < |x| ==> b[lo + i] == x[i]
    ensures b[lo..hi] == x + y
  {
  }

  lemma NumDigitsPositive(v: nat, r: Radix)
    ensures NumDigits(v, r) == 0 <==> v == 0
  {
  }

  method UnsignedToDecimalString(value: nat, output: array?<char>, at: nat, minLength: nat, maxLength: nat)
    returns (written: nat)
    requires value < U32 && maxLength < 256 && minLength <= Min(maxLength, 11)
    requires output != null ==> at + PrintedLength(value, Decimal, minLength, Min(maxLength, 11)) < output.Length
    modifies output
    ensures output == null ==> written == 0
    ensures output != null ==>
            && written == PrintedLength(value, Decimal, minLength, Min(maxLength, 11))
            && Spliced(old(output[..]), output[..], at, Printed(value, Decimal, minLength, maxLength) + [NUL])
  {
    hide Filled, NumDigits, Digits;
    if output == null {
      return 0;
    }
    var buffer := new char[11](i => if i == 10 then NUL else '0');
    var max := Min(maxLength, 11);
    var digitsLeft := max;
    var v := value;
    ghost var k := 0;
    FilledStart(buffer[..], value, Decimal, max);
    while v != 0 && digitsLeft != 0
      invariant digitsLeft == max - k && 0 <= k <= max
      invariant v == Drop(value, k, Decimal)
      invariant NumDigits(value, Decimal) == k + NumDigits(v, Decimal)
      invariant Filled(buffer[..], value, Decimal, max, k)
      invariant output[..] == old(output[..])
      decreases digitsLeft
    {
      DropNext(value, k, Decimal);
      NumDigitsNext(v, Decimal);
      FilledNext(buffer[..], value, Decimal, max, k);
      digitsLeft := digitsLeft - 1;
      buffer[digitsLeft] := NibbleToHexchar(v % 10);
      v := v / 10;
      k := k + 1;
    }
    NumDigitsZero(Decimal);
    FilledPrints(buffer[..], value, Decimal, minLength, maxLength, k);
    written := CopyOut(buffer, Min(max - minLength, digitsLeft), max, output, at);
  }

  lemma NumDigitsNext(v: nat, r: Radix)
    requires v > 0
    ensures NumDigits(v, r) == 1 + NumDigits(r.Quotient(v), r)
  {
  }

  lemma NumDigitsZero(r: Radix)
    ensures NumDigits(0, r) == 0
  {
  }

  /** The copy and terminator that end both printers. */
  method CopyOut(buffer: array<char>, lo: nat, hi: nat, output: array<char>, at: nat) returns (written: nat)
    requires lo <= hi <= buffer.Length && at + (hi - lo) < output.Length && buffer != output
    modifies output
    ensures written == hi - lo
    ensures Spliced(old(output[..]), output[..], at, old(buffer[lo..hi]) + [NUL])
  {
    forall k | 0 <= k < hi - lo {
      output[at + k] := buffer[lo + k];
    }
    output[at + (hi - lo)] := NUL;
    written := hi - lo;
  }

  method UnsignedToHexString(value: nat, output: array<char>, at: nat, minLength: nat, maxLength: nat)
    returns (written: nat)
    requires value < U32 && maxLength < 256 && minLength <= Min(maxLength, 9)
    requires at + PrintedLength(value, Hex, minLength, Min(maxLength, 9)) < output.Length
    modifies output
    ensures written == PrintedLength(value, Hex, minLength, Min(maxLength, 9))
    ensures Spliced(old(output[..]), output[..], at, Printed(value, Hex, minLength, maxLength) + [NUL])
  {
    hide Filled, NumDigits, Digits;
    var buffer := new char[9](i => if i == 8 then NUL else '0');
    var max := Min(maxLength, 9);
    var digitsLeft := max;
    var v := value;
    ghost var k := 0;
    FilledStart(buffer[..], value, Hex, max);
    while v != 0 && digitsLeft != 0
      invariant digitsLeft == max - k && 0 <= k <= max
      invariant v == Drop(value, k, Hex)
      invariant NumDigits(value, Hex) == k + NumDigits(v, Hex)
      invariant Filled(buffer[..], value, Hex, max, k)
      invariant output[..] == old(output[..])
      decreases digitsLeft
    {
      DropNext(value, k, Hex);
      NumDigitsNext(v, Hex);
      FilledNext(buffer[..], value, Hex, max, k);
      digitsLeft := digitsLeft - 1;
      buffer[digitsLeft] := NibbleToHexchar(v % 16);
      v := v / 16;
      k := k + 1;
    }
    NumDigitsZero(Hex);
    FilledPrints(buffer[..], value, Hex, minLength, maxLength, k);
    written := CopyOut(buffer, Min(max - minLength, digitsLeft), max, output, at);
  }

  const INT_MIN: int := -0x8000_0000

  predicate IsInt32(v: int) {
    INT_MIN <= v < 0x8000_0000
  }

  /** The widths signed printing can honour: the sign takes one place of the maximum, none of the minimum. */
  predicate SignedWidths(value: int, min: nat, max: nat) {
    if value < 0 && max > 0 then min <= Min(max - 1, 11) else min <= Min(max, 11)
  }

  function SignedPrinted(value: int, min: nat, max: nat): (s: seq<char>)
    requires IsInt32(value) && SignedWidths(value, min, max)
  {
    if value < 0 && max > 0 then ['-'] + Printed(-value, Decimal, min, max - 1)
    else Printed(if value < 0 then value + U32 else value, Decimal, min, max)
  }

  lemma PrintedSize(value: nat, r: Radix, min: nat, max: nat)
    requires min <= Min(max, BufferSize(r))
    ensures |Printed(value, r, min, max)| == PrintedLength(value, r, min, Min(max, BufferSize(r)))
  {
  }

  /** The least int32 is excluded: its negation overflows. */
  method SignedToDecimalString(value: int, output: array?<char>, at: nat, minLength: nat, maxLength: nat)
    returns (written: nat)
    requires IsInt32(value) && value != INT_MIN && maxLength < 256 && SignedWidths(value, minLength, maxLength)
    requires output != null ==> at + |SignedPrinted(value, minLength, maxLength)| < output.Length
    modifies output
    ensures output == null ==> written == 0
    ensures output != null ==>
            && written == |SignedPrinted(value, minLength, maxLength)|
            && Spliced(old(output[..]), output[..], at, SignedPrinted(value, minLength, maxLength) + [NUL])
  {
    hide Printed, PrintedLength, Spliced;
    written := 0;
    if output == null {
      return;
    }
    var v, p, max := value, at, maxLength;
    if value < 0 && maxLength > 0 {
      output[p] := '-';
      assert output[..] == old(output[..])[at := '-'];
      p := p + 1;
      max := max - 1;
      v := -v;
      written := 1;
    }
    var unsigned := if v < 0 then v + U32 else v;
    PrintedSize(unsigned, Decimal, minLength, max);
    var n := UnsignedToDecimalString(unsigned, output, p, minLength, max);
    written := written + n;
    if value < 0 && maxLength > 0 {
      var digits := Printed(unsigned, Decimal, minLength, max);
      SplicePrefix(old(output[..]), output[..], at, '-', digits + [NUL]);
      assert ['-'] + (digits + [NUL]) == SignedPrinted(value, minLength, maxLength) + [NUL];
    }
  }

  lemma SplicePrefix(before: seq<char>, after: seq<char>, at: nat, c: char, text: seq<char>)
    requires at < |before| && Spliced(before[at := c], after, at + 1, text)
    ensures Spliced(before, after, at, [c] + text)
  {
  }

  // ---------- Parsing ----------

  /** Above this, a further digit is refused. */
  function Limit(isUnsigned: bool, r: Radix): nat {
    match r
    case Hex => if isUnsigned then 0xFFFF_FFFF / 16 else 0x7FFF_FFFF / 16
    case Decimal => if isUnsigned then 0xFFFF_FFFF / 10 else 0x7FFF_FFFF / 10
  }

  /** Why the parsing loop ends. The count of characters is kept in 8 bits. */
  predicate Halts(s: seq<char>, i: nat, v: nat, length: nat, limit: nat, r: Radix)
    requires i <= |s|
  {
    i % 256 == length || i == |s| || !IsDigit(s[i], r) || v > limit
  }

  /** The parsing loop from position i with value v: the position reached and the value there. */
  function ParseFrom(s: seq<char>, i: nat, v: nat, length: nat, limit: nat, r: Radix): (p: (nat, nat))
    requires i <= |s|
    ensures i <= p.0 <= |s|
    decreases |s| - i
  {
    if Halts(s, i, v, length, limit, r) then (i, v)
    else ParseFrom(s, i + 1, (r.Scale(v) + HexcharToNibble(s[i])) % U32, length, limit, r)
  }

  /** The number of characters converted (kept in 8 bits), and the value. */
  function Parse(s: seq<char>, length: nat, isUnsigned: bool, r: Radix): (nat, nat) {
    var p := ParseFrom(s, 0, 0, length, Limit(isUnsigned, r), r);
    (p.0 % 256, p.1)
  }

  /** A text without terminator inside; reading past it finds the terminator. */
  method StringToGeneric(text: seq<char>, length: nat, isUnsigned: bool, isHex: bool) returns (count: nat, value: nat)
    requires length < 0x1_0000
    ensures (count, value) == Parse(text, length, isUnsigned, if isHex then Hex else Decimal)
  {
    hide ParseFrom, HexcharToNibble, IsDigit;
    ghost var r := if isHex then Hex else Decimal;
    ghost var limit := Limit(isUnsigned, r);
    ghost var result := ParseFrom(text, 0, 0, length, limit, r);
    var i := 0;
    count, value := 0, 0;
    while count != length && i < |text| && IsDigit(text[i], Hex) && (isHex || HexcharToNibble(text[i]) < 10)
      invariant 0 <= i <= |text| && count == i % 256
      invariant ParseFrom(text, i, value, length, limit, r) == result
      decreases |text| - i
    {
      DecimalNibble(text[i]);
      ParseUnfold(text, i, value, length, limit, r);
      var nibble := HexcharToNibble(text[i]);
      if isHex {
        if (value > 0x7FFF_FFFF / 16 && !isUnsigned) || value > 0xFFFF_FFFF / 16 {
          break;
        }
        value := (value * 16 + nibble) % U32;
      } else {
        if (value > 0x7FFF_FFFF / 10 && !isUnsigned) || value > 0xFFFF_FFFF / 10 {
          break;
        }
        value := (value * 10 + nibble) % U32;
      }
      i := i + 1;
      count := (count + 1) % 256;
    }
    if i < |text| { DecimalNibble(text[i]); }
    ParseUnfold(text, i, value, length, limit, r);
  }

  lemma DecimalNibble(c: char)
    ensures IsDigit(c, Decimal) <==> IsDigit(c, Hex) && HexcharToNibble(c) < 10
  {
  }

  lemma ParseUnfold(s: seq<char>, i: nat, v: nat, length: nat, limit: nat, r: Radix)
    requires i <= |s|
    ensures ParseFrom(s, i, v, length, limit, r)
         == if Halts(s, i, v, length, limit, r) then (i, v)
            else ParseFrom(s, i + 1, (r.Scale(v) + HexcharToNibble(s[i])) % U32, length, limit, r)
  {
  }

  method StringToUnsigned(text: seq<char>, length: nat, isHex: bool) returns (count: nat, value: nat)
    requires length < 256
    ensures (count, value) == Parse(text, length, true, if isHex then Hex else Decimal)
  {
    count, value := StringToGeneric(text, length, true, isHex);
  }

  function AsInt32(v: nat): int {
    if v < 0x8000_0000 then v else v - U32
  }

  /** Negation of an int32; the least one is its own negation. */
  function NegateInt32(v: int): int {
    if v == INT_MIN then v else -v
  }

  predicate HasSign(text: seq<char>) {
    text != [] && (text[0] == '-' || text[0] == '+')
  }

  function ParseSigned(text: seq<char>, length: nat, r: Radix): (nat, int) {
    var signed := HasSign(text);
    var (n, v) := Parse(if signed then text[1..] else text,
                        if signed then (length + 0xFFFF) % 0x1_0000 else length, false, r);
    if n == 0 then (0, AsInt32(v))
    else if text[0] == '-' then ((1 + n) % 256, NegateInt32(AsInt32(v)))
    else (((if signed then 1 else 0) + n) % 256, AsInt32(v))
  }

  method StringToSigned(text: seq<char>, length: nat, isHex: bool) returns (count: nat, value: int)
    requires length < 0x1_0000
    ensures (count, value) == ParseSigned(text, length, if isHex then Hex else Decimal)
  {
    var processed, rest, left := 0, text, length;
    var firstChar := if text == [] then NUL else text[0];
    if firstChar == '-' || firstChar == '+' {
      processed := 1;
      rest := rest[1..];
      left := (left + 0xFFFF) % 0x1_0000;
    }
    var n, v := StringToGeneric(rest, left, false, isHex);
    value := AsInt32(v);
    if n == 0 {
      return 0, value;
    }
    if firstChar == '-' {
      value := NegateInt32(value);
    }
    count := (processed + n) % 256;
  }

  // ---------- Round trips ----------

  ghost predicate RunEnds(s: seq<char>, m: nat, length: nat, r: Radix) {
    && m <= |s|
    && AllDigits(s[..m], r)
    && (m == length || m == |s| || !IsDigit(s[m], r))
  }

  lemma ValueNext(s: seq<char>, i: nat, r: Radix)
    requires i < |s| && AllDigits(s[..i + 1], r)
    ensures AllDigits(s[..i], r)
    ensures Value(s[..i + 1], r) == r.Scale(Value(s[..i], r)) + HexcharToNibble(s[i])
  {
    assert forall k :: 0 <= k < i ==> s[..i + 1][k] == s[..i][k];
    assert s[..i + 1][..i] == s[..i];
    assert s[..i + 1][i] == s[i];
  }

  lemma {:induction false} PrefixValue(s: seq<char>, i: nat, m: nat, r: Radix)
    requires i <= m <= |s| && AllDigits(s[..m], r)
    ensures AllDigits(s[..i], r) && Value(s[..i], r) <= Value(s[..m], r)
    ensures i < m ==> r.Scale(Value(s[..i], r)) <= Value(s[..m], r)
    decreases m - i
  {
    hide Value;
    assert forall k :: 0 <= k < i ==> s[..m][k] == s[..i][k];
    if i < m {
      assert forall k :: 0 <= k < i + 1 ==> s[..m][k] == s[..i + 1][k];
      ValueNext(s, i, r);
      PrefixValue(s, i + 1, m, r);
    }
  }

  /** A run of digits that fits in 32 bits is read in full and exactly. */
  lemma {:induction false} ParseRun(s: seq<char>, i: nat, m: nat, length: nat, limit: nat, r: Radix)
    requires RunEnds(s, m, length, r) && i <= m <= length && m < 256
    requires Value(s[..m], r) < U32 && Value(s[..m], r) < r.Scale(limit + 1)
    ensures AllDigits(s[..i], r)
    ensures ParseFrom(s, i, Value(s[..i], r), length, limit, r) == (m, Value(s[..m], r))
    decreases m - i
  {
    hide Value, ParseFrom, IsDigit, HexcharToNibble;
    PrefixValue(s, i, m, r);
    if i < m {
      assert s[..m][i] == s[i];
      PrefixValue(s, i + 1, m, r);
      ValueNext(s, i, r);
      ScaleBelow(r, Value(s[..i], r), limit);
      ParseStep(s, i, Value(s[..i], r), length, limit, r);
      ParseRun(s, i + 1, m, length, limit, r);
    } else {
      ParseStops(s, m, Value(s[..m], r), length, limit, r);
    }
  }

  lemma ScaleBelow(r: Radix, v: nat, limit: nat)
    requires r.Scale(v) < r.Scale(limit + 1)
    ensures v <= limit
  {
  }

  lemma ParseStep(s: seq<char>, i: nat, v: nat, length: nat, limit: nat, r: Radix)
    requires i < |s| && i < 256 && i < length && IsDigit(s[i], r) && v <= limit
    requires r.Scale(v) + HexcharToNibble(s[i]) < U32
    ensures ParseFrom(s, i, v, length, limit, r)
         == ParseFrom(s, i + 1, r.Scale(v) + HexcharToNibble(s[i]), length, limit, r)
  {
    ParseUnfold(s, i, v, length, limit, r);
    hide ParseFrom, HexcharToNibble, IsDigit, Radix.Scale;
    BelowWrap(r.Scale(v) + HexcharToNibble(s[i]));
  }

  lemma ParseStops(s: seq<char>, i: nat, v: nat, length: nat, limit: nat, r: Radix)
    requires i <= |s| && i < 256 && (i == length || i == |s| || !IsDigit(s[i], r))
    ensures ParseFrom(s, i, v, length, limit, r) == (i, v)
  {
  }

  /** The whole digit run is read, with its true value, exactly when that value fits in 32 bits. */
  lemma UnsignedExactIff(s: seq<char>, m: nat, length: nat, r: Radix)
    requires RunEnds(s, m, length, r) && m <= length < 256
    ensures Parse(s, length, true, r) == (m, Value(s[..m], r)) <==> Value(s[..m], r) < U32
  {
    if Value(s[..m], r) < U32 {
      EmptyValue(s, r);
      ParseRun(s, 0, m, length, Limit(true, r), r);
    } else {
      ParseSmall(s, 0, 0, length, Limit(true, r), r);
    }
  }

  lemma EmptyValue(s: seq<char>, r: Radix)
    ensures AllDigits(s[..0], r) && Value(s[..0], r) == 0
  {
  }

  lemma {:induction false} ParseSmall(s: seq<char>, i: nat, v: nat, length: nat, limit: nat, r: Radix)
    requires i <= |s| && v < U32
    ensures ParseFrom(s, i, v, length, limit, r).1 < U32
    decreases |s| - i
  {
    if !Halts(s, i, v, length, limit, r) {
      ParseSmall(s, i + 1, (r.Scale(v) + HexcharToNibble(s[i])) % U32, length, limit, r);
    }
  }

  /** Parsing undoes unsigned printing in both radices exactly when the digits fit the width and something
      is printed at all. */
  lemma UnsignedRoundTrip(value: nat, r: Radix, min: nat, max: nat, length: nat)
    requires value < U32 && min <= max < BufferSize(r)
    requires PrintedLength(value, r, min, max) <= length < 256
    ensures var text := Printed(value, r, min, max);
            text != [] && Parse(text, length, true, r) == (|text|, value)
            <==> NumDigits(value, r) <= max && (value > 0 || min > 0)
  {
    hide NumDigits, Digits, Value;
    NumDigitsPositive(value, r);
    var n := PrintedLength(value, r, min, max);
    var text := Printed(value, r, min, max);
    assert text == Digits(value, n, r);
    DigitsExact(value, n, r);
    DigitsDenote(value, n, r);
    NeverLess(Drop(value, n, r), r.Power(n));
    assert text[..n] == text;
    UnsignedExactIff(text, n, length, r);
  }

  lemma NeverLess(a: nat, b: nat)
    ensures a * b >= 0
  {
  }

  /** Ten decimal places and eight hexadecimal ones hold every 32-bit value. */
  lemma WidestPrints(value: nat)
    requires value < U32
    ensures NumDigits(value, Decimal) <= 10 && NumDigits(value, Hex) <= 8
  {
    assert Decimal.Power(5) == 10_0000 && Decimal.Power(10) == 100_0000_0000;
    assert Hex.Power(4) == 0x1_0000 && Hex.Power(8) == U32;
    NumDigitsBound(value, 10, Decimal);
    NumDigitsBound(value, 8, Hex);
  }

  /** Printing is numerically right, modulo the power of ten or sixteen that the width leaves, except
      that a limit beyond the digit buffer prints the value 0 with a terminator for its last digit. */
  lemma PrintedDenotes(value: nat, r: Radix, min: nat, max: nat)
    requires min <= Min(max, BufferSize(r))
    ensures var text, n := Printed(value, r, min, max), PrintedLength(value, r, min, Min(max, BufferSize(r)));
            && |text| == n
            && (AllDigits(text, r) && Value(text, r) == value % r.Power(n) <==> !PrintsTerminator(value, r, min, max))
  {
    hide Digits, Value, NumDigits;
    var n := PrintedLength(value, r, min, Min(max, BufferSize(r)));
    var text := Printed(value, r, min, max);
    DigitsDenoteModulo(value, n, r);
    if PrintsTerminator(value, r, min, max) {
      assert text[n - 1] == NUL;
    }
  }

  /** A width-limited printer keeps the value modulo the power of the radix for its limit. */
  lemma PrintedModuloLimit(value: nat, r: Radix, min: nat, max: nat)
    requires value < U32 && min <= Min(max, BufferSize(r))
    ensures var text := Printed(value, r, min, max);
            AllDigits(text, r) && Value(text, r) == value % r.Power(max) <==> !PrintsTerminator(value, r, min, max)
  {
    hide Digits, Value, NumDigits, Printed;
    WidestPrints(value);
    var n := PrintedLength(value, r, min, Min(max, BufferSize(r)));
    PrintedDenotes(value, r, min, max);
    if n < max {
      BelowPower(value, n, r);
      BelowPower(value, max, r);
    }
  }

  lemma BelowPower(value: nat, n: nat, r: Radix)
    requires NumDigits(value, r) <= n
    ensures value % r.Power(n) == value
  {
    hide NumDigits;
    NumDigitsBound(value, n, r);
    ModUnique(0, r.Power(n), value);
  }

  /** Signed printing is undone by signed parsing exactly when the width holds the digits besides the sign
      and something is printed at all. */
  lemma SignedRoundTrip(value: int, min: nat, max: nat, length: nat)
    requires IsInt32(value) && value != INT_MIN && SignedWidths(value, min, max) && max <= 10
    requires |SignedPrinted(value, min, max)| <= length < 0x1_0000
    ensures var text := SignedPrinted(value, min, max);
            text != [] && ParseSigned(text, length, Decimal) == (|text|, value)
            <==> if value < 0 then NumDigits(-value, Decimal) < max
                 else NumDigits(value, Decimal) <= max && (value > 0 || min > 0)
  {
    hide NumDigits, Digits, Value, Parse, Printed;
    var text := SignedPrinted(value, min, max);
    NumDigitsPositive(if value < 0 then -value else value, Decimal);
    if value >= 0 {
      PrintedParsesSigned(value, min, max, length);
    } else if max > 0 {
      PrintedParsesSigned(-value, min, max - 1, length - 1);
      assert text[1..] == Printed(-value, Decimal, min, max - 1);
      LessOne(length);
    } else {
      PrintedSize(value + U32, Decimal, min, max);
    }
  }

  lemma LessOne(length: nat)
    requires 0 < length < 0x1_0000
    ensures (length + 0xFFFF) % 0x1_0000 == length - 1
  {
  }

  /** What the signed parser makes of digits printed in at most ten places. */
  lemma PrintedParsesSigned(value: nat, min: nat, max: nat, length: nat)
    requires value < 0x8000_0000 && min <= max <= 10
    requires |Printed(value, Decimal, min, max)| <= length < 0x1_0000
    ensures var text := Printed(value, Decimal, min, max);
            var p := Parse(text, length, false, Decimal);
            && |text| <= 10 && (text != [] <==> max > 0 && (value > 0 || min > 0))
            && (text != [] ==> IsDigit(text[0], Decimal))
            && p.0 == |text| && p.1 < 0x8000_0000
            && (p.1 == value <==> NumDigits(value, Decimal) <= max)
  {
    hide Digits, Value, ParseFrom, NumDigits;
    NumDigitsPositive(value, Decimal);
    var n := PrintedLength(value, Decimal, min, max);
    var text := Digits(value, n, Decimal);
    assert text == Printed(value, Decimal, min, max) && text[..n] == text;
    DigitsExact(value, n, Decimal);
    DigitsDenote(value, n, Decimal);
    NeverLess(Drop(value, n, Decimal), Decimal.Power(n));
    EmptyValue(text, Decimal);
    ParseRun(text, 0, n, length, Limit(false, Decimal), Decimal);
  }

  /** In one to ten places that is every value except those below -999999999, whose tenth digit gives way
      to the sign. */
  lemma SignedRoundTripFullWidth(value: int, length: nat)
    requires IsInt32(value) && value != INT_MIN && |SignedPrinted(value, 1, 10)| <= length < 0x1_0000
    ensures var text := SignedPrinted(value, 1, 10);
            ParseSigned(text, length, Decimal) == (|text|, value) <==> value >= -9_9999_9999
  {
    hide NumDigits, Digits, Parse, Printed;
    var v := if value < 0 then -value else value;
    assert Decimal.Power(5) == 10_0000 && Decimal.Power(9) == 10_0000_0000 && Decimal.Power(10) == 100_0000_0000;
    NumDigitsBound(v, 9, Decimal);
    NumDigitsBound(v, 10, Decimal);
    SignedRoundTrip(value, 1, 10, length);
    if value >= 0 { PrintedSize(value, Decimal, 1, 10); }
  }

  /** The shape of what is printed: between the widths, in upper case, all digits if they fit, and then no
      zero in front beyond the minimum width. */
  lemma PrintedShape(value: nat, r: Radix, min: nat, max: nat)
    requires min <= max < BufferSize(r)
    ensures var text := Printed(value, r, min, max);
            && min <= |text| <= max
            && (forall i :: 0 <= i < |text| ==> text[i] in (if r.Hex? then "0123456789ABCDEF" else "0123456789"))
            && (NumDigits(value, r) <= max ==> NumDigits(value, r) <= |text| && (|text| > min ==> text[0] != '0'))
            && (NumDigits(value, r) > max ==> |text| == max)
  {
    hide NumDigits, Digits;
    NumDigitsPositive(value, r);
    UpperCase(value, PrintedLength(value, r, min, max), r);
    if value > 0 { NoLeadingZero(value, r); }
  }

  lemma ScaleModU32(x: nat, d: nat, r: Radix)
    ensures (r.Scale(x % U32) + d) % U32 == (r.Scale(x) + d) % U32
  {
    var q, rest := x / U32, x % U32;
    assert r.Scale(x) == r.Scale(rest) + U32 * r.Scale(q);
    WholeWraps(r.Scale(rest) + d, r.Scale(q));
  }

  lemma WholeWraps(a: nat, k: nat)
    ensures (a + U32 * k) % U32 == a % U32
  {
    assert (a + U32 * k) / U32 == a / U32 + k;
  }

  /** Above this value of the digits so far, a further digit is refused. */
  function LastValue(isUnsigned: bool, r: Radix): nat {
    (if isUnsigned then 0xFFFF_FFFF else 0x7FFF_FFFF) / (if r.Hex? then 16 else 10)
  }

  /** What the parser reads of any text: digits only; up to the length, the end, a character that is no digit,
      or a value beyond the limit, whichever comes first; and their value in 32 bits, overflow included. */
  lemma ParseReads(s: seq<char>, length: nat, isUnsigned: bool, r: Radix)
    ensures var (i, v) := ParseFrom(s, 0, 0, length, Limit(isUnsigned, r), r);
            && Parse(s, length, isUnsigned, r) == (i % 256, v)
            && AllDigits(s[..i], r) && v == Value(s[..i], r) % U32
            && (i % 256 == length || i == |s| || !IsDigit(s[i], r) || v > LastValue(isUnsigned, r))
            && forall j :: 0 <= j < i ==>
                 j % 256 != length && AllDigits(s[..j], r) && Value(s[..j], r) % U32 <= LastValue(isUnsigned, r)
  {
    hide Value, IsDigit;
    EmptyValue(s, r);
    ParseReadsFrom(s, 0, length, Limit(isUnsigned, r), r);
  }

  lemma {:induction false} ParseReadsFrom(s: seq<char>, i: nat, length: nat, limit: nat, r: Radix)
    requires i <= |s| && AllDigits(s[..i], r)
    ensures var (m, v) := ParseFrom(s, i, Value(s[..i], r) % U32, length, limit, r);
            && i <= m <= |s| && AllDigits(s[..m], r) && v == Value(s[..m], r) % U32
            && (m % 256 == length || m == |s| || !IsDigit(s[m], r) || v > limit)
            && forall j :: i <= j < m ==> j % 256 != length && AllDigits(s[..j], r) && Value(s[..j], r) % U32 <= limit
    decreases |s| - i
  {
    hide Value, IsDigit, HexcharToNibble, ParseFrom;
    var v := Value(s[..i], r) % U32;
    ParseUnfold(s, i, v, length, limit, r);
    if !Halts(s, i, v, length, limit, r) {
      MoreDigits(s, i, r);
      ValueNext(s, i, r);
      DigitIsHex(s[i], r);
      ScaleModU32(Value(s[..i], r), HexcharToNibble(s[i]), r);
      ParseReadsFrom(s, i + 1, length, limit, r);
    }
  }

  lemma DigitIsHex(c: char, r: Radix)
    requires IsDigit(c, r)
    ensures IsDigit(c, Hex)
  {
  }

  lemma MoreDigits(s: seq<char>, i: nat, r: Radix)
    requires i < |s| && AllDigits(s[..i], r) && IsDigit(s[i], r)
    ensures AllDigits(s[..i + 1], r)
  {
    assert forall k :: 0 <= k < i ==> s[..i + 1][k] == s[..i][k];
  }

  /** What signed printing writes: no sign but a minus, and the digits of the absolute value behind it in one
      place less. Without a place for the sign, the number is taken as unsigned. */
  lemma SignedShape(value: int, min: nat, max: nat)
    requires IsInt32(value) && SignedWidths(value, min, max)
    ensures value >= 0 ==> SignedPrinted(value, min, max) == Printed(value, Decimal, min, max)
    ensures value < 0 && max > 0 ==>
              var text := SignedPrinted(value, min, max);
              text != [] && text[0] == '-' && text[1..] == Printed(-value, Decimal, min, max - 1)
    ensures value < 0 && max == 0 ==> SignedPrinted(value, min, max) == []
  {
    if value < 0 && max == 0 { PrintedSize(value + U32, Decimal, min, max); }
  }

  /** What a sign means: one more character, and for a minus the opposite number. Without a digit after it,
      nothing is read. */
  lemma SignRead(text: seq<char>, length: nat, r: Radix)
    requires 0 < length < 0x1_0000 && text != [] && text[0] in {'+', '-'}
    ensures var (n, v) := Parse(text[1..], length - 1, false, r);
            var value: int := v;
            && (n == 0 ==> ParseSigned(text, length, r).0 == 0)
            && (0 < n < 255 && v < 0x8000_0000 ==>
                  ParseSigned(text, length, r) == (n + 1, if text[0] == '-' then -value else value))
  {
    hide ParseFrom;
    LessOne(length);
    assert HasSign(text);
  }

  /** Without a sign, what is read is the number in the clear. */
  lemma NoSignRead(text: seq<char>, length: nat, r: Radix)
    requires length < 0x1_0000 && (text == [] || text[0] !in {'+', '-'})
    ensures var (n, v) := Parse(text, length, false, r);
            && (n == 0 ==> ParseSigned(text, length, r).0 == 0)
            && (n > 0 && v < 0x8000_0000 ==> ParseSigned(text, length, r) == (n, v))
  {
    hide ParseFrom;
  }
}

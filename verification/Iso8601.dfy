/** The ISO 8601 text of time.c: fields printed one after another into a packed 27-byte structure, each
    field's terminator falling on the separator that is written last. */
module Iso8601 {
  import opened Common
  import opened Numerals
  import opened NumberText
  import opened Calendar

  /** The microseconds as the source keeps them, in 16 bits. */
  function SubSecond(utcTimeMs: nat): nat {
    ((utcTimeMs % 1000) * 1000) % 0x1_0000
  }

  /** A field of the structure and the character after it. */
  function Field(value: nat, width: nat, separator: char): (s: seq<char>)
    ensures |s| == width + 1
  {
    Digits(value, width, Decimal) + [separator]
  }

  function DateText(d: DateTime): (s: seq<char>)
    ensures |s| == 11
  {
    Field(d.year, 4, '-') + Field(d.month, 2, '-') + Field(d.day, 2, 'T')
  }

  function TimeText(d: DateTime): (s: seq<char>)
    ensures |s| == 9
  {
    Field(d.hour, 2, ':') + Field(d.minute, 2, ':') + Field(d.second, 2, '.')
  }

  function IsoText(d: DateTime, subSecond: nat): (s: seq<char>)
    ensures |s| == 27
  {
    DateText(d) + TimeText(d) + Field(subSecond, 6, 'Z')
  }

  /** One printer call at full width, seen from the text already in place before it. */
  method PrintField(value: nat, output: array<char>, at: nat, width: nat)
    requires value < U32 && 0 < width <= 10 && at + width < output.Length
    modifies output
    ensures output[..at + width + 1] == old(output[..at]) + Field(value, width, NUL)
  {
    hide Digits;
    assert PrintedLength(value, Decimal, width, width) == width;
    var _ := UnsignedToDecimalString(value, output, at, width, width);
    assert Printed(value, Decimal, width, width) + [NUL] == Field(value, width, NUL);
    SplicedPrefix(old(output[..]), output[..], at, Field(value, width, NUL));
  }

  lemma SplicedPrefix(before: seq<char>, after: seq<char>, at: nat, text: seq<char>)
    requires Spliced(before, after, at, text)
    ensures after[..at + |text|] == before[..at] + text
  {
  }

  /** The seven printer calls. */
  method PrintFields(d: DateTime, subSecond: nat, iso: array<char>)
    requires d.Valid() && d.year < U32 && subSecond < U32 && iso.Length == 27
    modifies iso
    ensures iso[..] == Field(d.year, 4, NUL) + Field(d.month, 2, NUL) + Field(d.day, 2, NUL) + Field(d.hour, 2, NUL)
                     + Field(d.minute, 2, NUL) + Field(d.second, 2, NUL) + Field(subSecond, 6, NUL)
  {
    hide Field;
    PrintField(d.year, iso, 0, 4);
    assert iso[..5] == Field(d.year, 4, NUL);
    PrintField(d.month, iso, 5, 2);
    PrintField(d.day, iso, 8, 2);
    PrintField(d.hour, iso, 11, 2);
    PrintField(d.minute, iso, 14, 2);
    PrintField(d.second, iso, 17, 2);
    PrintField(subSecond, iso, 20, 6);
    assert iso[..27] == iso[..];
  }

  method ConvertUtcMsToIso8601(utcTimeMs: nat, iso: array<char>)
    requires utcTimeMs / 1000 < MAX_SECONDS && iso.Length == 27
    modifies iso
    ensures exists d: DateTime :: d.Valid() && Seconds(d) == utcTimeMs / 1000
                               && iso[..] == IsoText(d, SubSecond(utcTimeMs))
  {
    hide Field, Seconds, IsoText;
    var d := CalendarFields(utcTimeMs / 1000);
    var subSecond := ((utcTimeMs % 1000) * 1000) % 0x1_0000;
    PrintFields(d, subSecond, iso);
    ghost var before := iso[..];
    iso[10] := 'T';
    iso[26] := 'Z';
    iso[13] := ':';
    iso[16] := ':';
    iso[4] := '-';
    iso[7] := '-';
    iso[19] := '.';
    assert iso[..] == before[10 := 'T'][26 := 'Z'][13 := ':'][16 := ':'][4 := '-'][7 := '-'][19 := '.'];
    SeparatorsReplaceTerminators(d, subSecond, before, iso[..]);
  }

  lemma SeparatorsReplaceTerminators(d: DateTime, subSecond: nat, before: seq<char>, after: seq<char>)
    requires before == Field(d.year, 4, NUL) + Field(d.month, 2, NUL) + Field(d.day, 2, NUL) + Field(d.hour, 2, NUL)
                     + Field(d.minute, 2, NUL) + Field(d.second, 2, NUL) + Field(subSecond, 6, NUL)
    requires after == before[10 := 'T'][26 := 'Z'][13 := ':'][16 := ':'][4 := '-'][7 := '-'][19 := '.']
    ensures after == IsoText(d, subSecond)
  {
    hide Digits;
    var y, mo, da := Digits(d.year, 4, Decimal), Digits(d.month, 2, Decimal), Digits(d.day, 2, Decimal);
    var h, mi, s := Digits(d.hour, 2, Decimal), Digits(d.minute, 2, Decimal), Digits(d.second, 2, Decimal);
    assert after[..4] == y && after[4] == '-' && after[5..7] == mo && after[7] == '-';
    assert after[8..10] == da && after[10] == 'T';
    assert after[..11] == DateText(d);
    assert after[11..13] == h && after[13] == ':' && after[14..16] == mi && after[16] == ':';
    assert after[17..19] == s && after[19] == '.';
    assert after[11..20] == TimeText(d);
    assert after[20..] == Field(subSecond, 6, 'Z');
    assert after == after[..11] + after[11..20] + after[20..];
  }

  // ---------- What the text says ----------

  predicate IsDecimalDigit(c: char) {
    '0' <= c <= '9'
  }

  /** The shape of a date-time in section 5.6 of RFC 3339, with six fraction digits. */
  ghost predicate Rfc3339Shape(s: seq<char>) {
    && |s| == 27
    && s[4] == '-' && s[7] == '-' && s[10] == 'T' && s[13] == ':' && s[16] == ':' && s[19] == '.' && s[26] == 'Z'
    && forall k :: 0 <= k < 27 && k !in {4, 7, 10, 13, 16, 19, 26} ==> IsDecimalDigit(s[k])
  }

  lemma FieldShape(value: nat, width: nat, separator: char)
    ensures var s := Field(value, width, separator);
            s[width] == separator && forall k :: 0 <= k < width ==> IsDecimalDigit(s[k])
  {
  }

  lemma IsoTextShape(d: DateTime, subSecond: nat)
    ensures Rfc3339Shape(IsoText(d, subSecond))
  {
    hide Field;
    FieldShape(d.year, 4, '-'); FieldShape(d.month, 2, '-'); FieldShape(d.day, 2, 'T');
    FieldShape(d.hour, 2, ':'); FieldShape(d.minute, 2, ':'); FieldShape(d.second, 2, '.');
    FieldShape(subSecond, 6, 'Z');
    var s, date, time := IsoText(d, subSecond), DateText(d), TimeText(d);
    assert forall k :: 0 <= k < 11 && k !in {4, 7, 10} ==> IsDecimalDigit(date[k]);
    assert forall k :: 0 <= k < 9 && k !in {2, 5, 8} ==> IsDecimalDigit(time[k]);
    forall k | 0 <= k < 27 && k !in {4, 7, 10, 13, 16, 19, 26} ensures IsDecimalDigit(s[k]) {
      if k < 11 {
        assert s[k] == date[k];
      } else if k < 20 {
        assert s[k] == time[k - 11];
      } else {
        assert s[k] == Field(subSecond, 6, 'Z')[k - 20];
      }
    }
  }

  /** Lexicographic order of texts of one length. */
  predicate TextLess(a: seq<char>, b: seq<char>)
    requires |a| == |b|
    decreases |a|
  {
    a != [] && (a[0] < b[0] || (a[0] == b[0] && TextLess(a[1..], b[1..])))
  }

  lemma {:induction false} TextLessConcat(a: seq<char>, b: seq<char>, c: seq<char>, d: seq<char>)
    requires |a| == |b| && |c| == |d|
    ensures TextLess(a + c, b + d) <==> TextLess(a, b) || (a == b && TextLess(c, d))
    decreases |a|
  {
    if a == [] {
      assert a + c == c && b + d == d;
    } else {
      assert (a + c)[1..] == a[1..] + c && (b + d)[1..] == b[1..] + d;
      TextLessConcat(a[1..], b[1..], c, d);
      assert a == [a[0]] + a[1..] && b == [b[0]] + b[1..];
    }
  }

  lemma OneDigitOrder(v: nat, u: nat)
    requires v < 10 && u < 10
    ensures TextLess([NibbleToHexchar(v)], [NibbleToHexchar(u)]) <==> v < u
    ensures NibbleToHexchar(v) == NibbleToHexchar(u) <==> v == u
  {
  }

  /** Numerals of one width are ordered as the numbers. */
  lemma {:induction false} DigitsOrder(v: nat, u: nat, w: nat)
    requires v < Decimal.Power(w) && u < Decimal.Power(w)
    ensures TextLess(Digits(v, w, Decimal), Digits(u, w, Decimal)) <==> v < u
    ensures Digits(v, w, Decimal) == Digits(u, w, Decimal) <==> v == u
    decreases w
  {
    hide NibbleToHexchar, TextLess;
    if w == 0 {
      NothingLess();
    } else {
      var q, p := v / 10, u / 10;
      DigitsOrder(q, p, w - 1);
      OneDigitOrder(v % 10, u % 10);
      var c, d := [NibbleToHexchar(v % 10)], [NibbleToHexchar(u % 10)];
      TextLessConcat(Digits(q, w - 1, Decimal), Digits(p, w - 1, Decimal), c, d);
      SplitLast(Digits(q, w - 1, Decimal), Digits(p, w - 1, Decimal), c, d);
    }
  }

  lemma NothingLess()
    ensures !TextLess([], [])
  {
  }

  lemma SplitLast(a: seq<char>, b: seq<char>, c: seq<char>, d: seq<char>)
    requires |a| == |b|
    ensures a + c == b + d <==> a == b && c == d
  {
    assert (a + c)[..|a|] == a && (b + d)[..|b|] == b;
    assert (a + c)[|a|..] == c && (b + d)[|b|..] == d;
  }

  lemma FieldOrder(v: nat, u: nat, w: nat, separator: char)
    requires v < Decimal.Power(w) && u < Decimal.Power(w)
    ensures TextLess(Field(v, w, separator), Field(u, w, separator)) <==> v < u
    ensures Field(v, w, separator) == Field(u, w, separator) <==> v == u
  {
    hide TextLess, Digits;
    DigitsOrder(v, u, w);
    TextLessConcat(Digits(v, w, Decimal), Digits(u, w, Decimal), [separator], [separator]);
    NotLessThanItself(separator);
    SplitLast(Digits(v, w, Decimal), Digits(u, w, Decimal), [separator], [separator]);
  }

  lemma NotLessThanItself(c: char)
    ensures !TextLess([c], [c])
  {
  }

  /** Three fields in a row compare as their numbers do, first field first. */
  lemma ThreeFieldsOrder(a: seq<char>, a': seq<char>, b: seq<char>, b': seq<char>, c: seq<char>, c': seq<char>)
    requires |a| == |a'| && |b| == |b'| && |c| == |c'|
    ensures TextLess(a + b + c, a' + b' + c') <==>
            TextLess(a, a') || (a == a' && (TextLess(b, b') || (b == b' && TextLess(c, c'))))
    ensures a + b + c == a' + b' + c' <==> a == a' && b == b' && c == c'
  {
    hide TextLess;
    TextLessConcat(a + b, a' + b', c, c');
    TextLessConcat(a, a', b, b');
    SplitLast(a + b, a' + b', c, c');
    SplitLast(a, a', b, b');
  }

  lemma SmallPowers()
    ensures Decimal.Power(2) == 100 && Decimal.Power(4) == 10000
  {
  }

  /** Before the year 10000, texts to the second are ordered as the times. */
  lemma TextOrderIsTimeOrder(a: DateTime, b: DateTime, sa: nat, sb: nat)
    requires a.Valid() && b.Valid() && a.year < 10000 && b.year < 10000
    ensures TextLess(IsoText(a, sa)[..19], IsoText(b, sb)[..19]) <==> Seconds(a) < Seconds(b)
  {
    hide TextLess, Field, Seconds;
    SmallPowers();
    FieldOrder(a.year, b.year, 4, '-'); FieldOrder(a.month, b.month, 2, '-'); FieldOrder(a.day, b.day, 2, 'T');
    FieldOrder(a.hour, b.hour, 2, ':'); FieldOrder(a.minute, b.minute, 2, ':'); FieldOrder(a.second, b.second, 2, '.');
    ThreeFieldsOrder(Field(a.year, 4, '-'), Field(b.year, 4, '-'), Field(a.month, 2, '-'), Field(b.month, 2, '-'),
                     Field(a.day, 2, 'T'), Field(b.day, 2, 'T'));
    ThreeFieldsOrder(Field(a.hour, 2, ':'), Field(b.hour, 2, ':'), Field(a.minute, 2, ':'), Field(b.minute, 2, ':'),
                     Field(a.second, 2, '.'), Field(b.second, 2, '.'));
    TextLessConcat(DateText(a), DateText(b), TimeText(a), TimeText(b));
    OrderedBySeconds(a, b);
    DropPoint(a, sa);
    DropPoint(b, sb);
    TextLessConcat(IsoText(a, sa)[..19], IsoText(b, sb)[..19], ['.'], ['.']);
    NotLessThanItself('.');
  }

  lemma DropPoint(d: DateTime, subSecond: nat)
    ensures IsoText(d, subSecond)[..19] + ['.'] == DateText(d) + TimeText(d)
  {
  }

  /** The end of the year 9999. */
  lemma LastFourDigitYear(d: DateTime)
    requires d.Valid()
    ensures d.year < 10000 <==> Seconds(d) < 253402300800
  {
    DaysInYear(d);
    LeapYearsCount(10000);
    assert DaysBeforeYear(10000) == 2932897;
    if d.year < 10000 { YearsMonotone(d.year + 1, 10000); } else { YearsMonotone(10000, d.year); }
    hide DaysBeforeYear, Days;
  }

  lemma FieldReads(value: nat, width: nat, separator: char)
    ensures var s := Field(value, width, separator);
            && AllDigits(s[..width], Decimal)
            && Value(s[..width], Decimal) == value % Decimal.Power(width)
  {
    hide Digits, Value;
    assert Field(value, width, separator)[..width] == Digits(value, width, Decimal);
    DigitsDenoteModulo(value, width, Decimal);
  }

  /** The number in some places of a text. */
  ghost predicate Reads(s: seq<char>, from: nat, to: nat, value: nat) {
    from <= to <= |s| && AllDigits(s[from..to], Decimal) && Value(s[from..to], Decimal) == value
  }

  lemma ReadsInside(s: seq<char>, part: seq<char>, at: nat, from: nat, to: nat, value: nat)
    requires at + |part| <= |s| && s[at..at + |part|] == part && Reads(part, from, to, value)
    ensures Reads(s, at + from, at + to, value)
  {
    var x, y := s[at + from..at + to], part[from..to];
    forall k | 0 <= k < to - from ensures x[k] == y[k] { assert s[at..at + |part|][from + k] == s[at + from + k]; }
    assert x == y;
  }

  lemma FieldInside(s: seq<char>, at: nat, value: nat, width: nat, separator: char)
    requires at + width + 1 <= |s| && s[at..at + width + 1] == Field(value, width, separator)
    ensures Reads(s, at, at + width, value % Decimal.Power(width))
  {
    FieldReads(value, width, separator);
    var f := Field(value, width, separator);
    assert f[0..width] == f[..width];
    hide Field, Value;
    ReadsInside(s, f, at, 0, width, value % Decimal.Power(width));
  }

  lemma DateReads(d: DateTime)
    requires d.Valid()
    ensures var s := DateText(d); Reads(s, 0, 4, d.year % 10000) && Reads(s, 5, 7, d.month) && Reads(s, 8, 10, d.day)
  {
    hide Field, Reads;
    SmallPowers();
    var s := DateText(d);
    assert s[0..5] == Field(d.year, 4, '-') && s[5..8] == Field(d.month, 2, '-') && s[8..11] == Field(d.day, 2, 'T');
    FieldInside(s, 0, d.year, 4, '-');
    FieldInside(s, 5, d.month, 2, '-');
    FieldInside(s, 8, d.day, 2, 'T');
  }

  lemma TimeReads(d: DateTime)
    requires d.Valid()
    ensures var s := TimeText(d); Reads(s, 0, 2, d.hour) && Reads(s, 3, 5, d.minute) && Reads(s, 6, 8, d.second)
  {
    hide Field, Reads;
    SmallPowers();
    var s := TimeText(d);
    assert s[0..3] == Field(d.hour, 2, ':') && s[3..6] == Field(d.minute, 2, ':') && s[6..9] == Field(d.second, 2, '.');
    FieldInside(s, 0, d.hour, 2, ':');
    FieldInside(s, 3, d.minute, 2, ':');
    FieldInside(s, 6, d.second, 2, '.');
  }

  lemma PartsRead(d: DateTime, u: nat)
    requires d.Valid() && u < 0x1_0000
    ensures var s := IsoText(d, u);
            && Reads(s, 0, 4, d.year % 10000) && Reads(s, 5, 7, d.month) && Reads(s, 8, 10, d.day)
            && Reads(s, 11, 13, d.hour) && Reads(s, 14, 16, d.minute) && Reads(s, 17, 19, d.second)
            && Reads(s, 20, 26, u)
  {
    hide DateTime.Valid, Field, Reads, DateText, TimeText, IsoText, Radix.Power;
    DateReads(d);
    TimeReads(d);
    IsoParts(d, u);
    var s, date, time := IsoText(d, u), DateText(d), TimeText(d);
    ReadsInside(s, date, 0, 0, 4, d.year % 10000);
    ReadsInside(s, date, 0, 5, 7, d.month);
    ReadsInside(s, date, 0, 8, 10, d.day);
    ReadsInside(s, time, 11, 0, 2, d.hour);
    ReadsInside(s, time, 11, 3, 5, d.minute);
    ReadsInside(s, time, 11, 6, 8, d.second);
    FieldInside(s, 20, u, 6, 'Z');
    SmallRemainder(u);
  }

  /** The numbers in the text, place by place, are the date, the time and the microseconds kept. */
  lemma IsoTextReads(d: DateTime, utcTimeMs: nat)
    requires d.Valid()
    ensures var s := IsoText(d, SubSecond(utcTimeMs));
            && Reads(s, 0, 4, d.year % 10000) && Reads(s, 5, 7, d.month) && Reads(s, 8, 10, d.day)
            && Reads(s, 11, 13, d.hour) && Reads(s, 14, 16, d.minute) && Reads(s, 17, 19, d.second)
            && Reads(s, 20, 26, ((utcTimeMs % 1000) * 1000) % 0x1_0000)
  {
    PartsRead(d, SubSecond(utcTimeMs));
    hide DateTime.Valid, Reads, IsoText;
  }

  lemma SmallRemainder(u: nat)
    requires u < 0x1_0000
    ensures u % Decimal.Power(6) == u
  {
    SixDigits();
  }

  lemma IsoParts(d: DateTime, subSecond: nat)
    ensures var s := IsoText(d, subSecond);
            s[0..11] == DateText(d) && s[11..20] == TimeText(d) && s[20..27] == Field(subSecond, 6, 'Z')
  {
    hide DateText, TimeText, Field;
  }

  lemma SixDigits()
    ensures Decimal.Power(6) == 100_0000
  {
    assert Decimal.Power(3) == 1000;
  }

  /** The printed fraction is the true number of microseconds exactly for the first 66 milliseconds. */
  lemma FractionExactIff(utcTimeMs: nat)
    ensures Value(Digits(SubSecond(utcTimeMs), 6, Decimal), Decimal) == (utcTimeMs % 1000) * 1000
            <==> utcTimeMs % 1000 <= 65
  {
    hide Value, Digits, NumDigits;
    var s := SubSecond(utcTimeMs);
    assert Decimal.Power(3) == 1000 && Decimal.Power(6) == 100_0000;
    NumDigitsBound(s, 6, Decimal);
    DigitsExact(s, 6, Decimal);
  }
}

/** Positional numerals in the two radices of wiced_lib.c. */
module Numerals {
  datatype Radix = Decimal | Hex {
    function Base(): nat {
      if Decimal? then 10 else 16
    }

    function Scale(v: nat): nat {
      if Decimal? then 10 * v else 16 * v
    }

    function Quotient(v: nat): nat {
      if Decimal? then v / 10 else v / 16
    }

    function Remainder(v: nat): (d: nat)
      ensures d < Base()
    {
      if Decimal? then v % 10 else v % 16
    }

    function Power(n: nat): (p: nat)
      ensures p > 0
      decreases n
    {
      if n == 0 then 1 else Scale(Power(n - 1))
    }
  }

  lemma Division(r: Radix, v: nat)
    ensures v == r.Scale(r.Quotient(v)) + r.Remainder(v)
  {
  }

  function NibbleToHexchar(nibble: nat): char
    requires nibble < 16
  {
    if nibble > 9 then ('A' as int + (nibble - 10)) as char else ('0' as int + nibble) as char
  }

  predicate IsDigit(c: char, r: Radix) {
    '0' <= c <= '9' || (r.Hex? && ('A' <= c <= 'F' || 'a' <= c <= 'f'))
  }

  function HexcharToNibble(c: char): (d: nat)
    requires IsDigit(c, Hex)
    ensures d < 16
    ensures forall r: Radix :: IsDigit(c, r) ==> d < r.Base()
  {
    if '0' <= c <= '9' then c as int - '0' as int
    else if 'A' <= c <= 'F' then c as int - 'A' as int + 10
    else c as int - 'a' as int + 10
  }

  lemma NibbleRoundTrip(r: Radix, d: nat)
    requires d < r.Base()
    ensures IsDigit(NibbleToHexchar(d), r) && HexcharToNibble(NibbleToHexchar(d)) == d
  {
  }

  ghost predicate AllDigits(s: seq<char>, r: Radix) {
    forall i :: 0 <= i < |s| ==> IsDigit(s[i], r)
  }

  /** The number a digit string denotes. */
  function Value(s: seq<char>, r: Radix): nat
    requires AllDigits(s, r)
    decreases |s|
  {
    if s == [] then 0 else r.Scale(Value(s[..|s| - 1], r)) + HexcharToNibble(s[|s| - 1])
  }

  lemma {:induction false} ValueBound(s: seq<char>, r: Radix)
    requires AllDigits(s, r)
    ensures Value(s, r) < r.Power(|s|)
    decreases |s|
  {
    if s != [] { ValueBound(s[..|s| - 1], r); }
  }

  /** The lowest w digits of a number. */
  function Digits(v: nat, w: nat, r: Radix): (s: seq<char>)
    ensures |s| == w && AllDigits(s, r)
    decreases w
  {
    if w == 0 then []
    else
      NibbleRoundTrip(r, r.Remainder(v));
      Digits(r.Quotient(v), w - 1, r) + [NibbleToHexchar(r.Remainder(v))]
  }

  function NumDigits(v: nat, r: Radix): nat
    decreases v
  {
    if v == 0 then 0 else 1 + NumDigits(r.Quotient(v), r)
  }

  /** v with its lowest n digits dropped. */
  function Drop(v: nat, n: nat, r: Radix): nat
    decreases n
  {
    if n == 0 then v else Drop(r.Quotient(v), n - 1, r)
  }

  lemma {:induction false} DropNext(v: nat, n: nat, r: Radix)
    ensures Drop(v, n + 1, r) == r.Quotient(Drop(v, n, r))
    decreases n
  {
    if n > 0 { DropNext(r.Quotient(v), n - 1, r); }
  }

  lemma {:induction false} DigitsSplit(v: nat, m: nat, n: nat, r: Radix)
    ensures Digits(v, m + n, r) == Digits(Drop(v, n, r), m, r) + Digits(v, n, r)
    decreases n
  {
    hide NibbleToHexchar;
    if n == 0 {
      assert Digits(v, m, r) + [] == Digits(v, m, r);
    } else {
      var q, last := r.Quotient(v), [NibbleToHexchar(r.Remainder(v))];
      DigitsSplit(q, m, n - 1, r);
      var high := Digits(Drop(v, n, r), m, r);
      assert (high + Digits(q, n - 1, r)) + last == high + (Digits(q, n - 1, r) + last);
    }
  }

  lemma {:induction false} DigitsOfZero(w: nat, r: Radix)
    ensures forall i :: 0 <= i < w ==> Digits(0, w, r)[i] == '0'
    decreases w
  {
    if w > 0 { DigitsOfZero(w - 1, r); }
  }

  /** The lowest w digits denote the number modulo the w-th power of the radix. */
  lemma {:induction false} DigitsDenote(v: nat, w: nat, r: Radix)
    ensures Value(Digits(v, w, r), r) < r.Power(w)
    ensures v == Drop(v, w, r) * r.Power(w) + Value(Digits(v, w, r), r)
    decreases w
  {
    if w > 0 {
      var q := r.Quotient(v);
      DigitsDenote(q, w - 1, r);
      Division(r, v);
      NibbleRoundTrip(r, r.Remainder(v));
      var s := Digits(v, w, r);
      assert s[..w - 1] == Digits(q, w - 1, r);
      assert Value(s, r) == r.Scale(Value(Digits(q, w - 1, r), r)) + r.Remainder(v);
      ScaleProduct(r, Drop(q, w - 1, r), r.Power(w - 1));
    }
  }

  lemma ScaleProduct(r: Radix, a: nat, b: nat)
    ensures r.Scale(a * b) == a * r.Scale(b)
  {
  }

  lemma DigitsDenoteModulo(v: nat, w: nat, r: Radix)
    ensures Value(Digits(v, w, r), r) == v % r.Power(w)
  {
    DigitsDenote(v, w, r);
    ModUnique(Drop(v, w, r), r.Power(w), Value(Digits(v, w, r), r));
  }

  lemma AtLeastOnce(a: nat, b: nat)
    requires a > 0
    ensures a * b >= b
  {
  }

  lemma ModUnique(q: nat, m: nat, k: nat)
    requires k < m
    ensures (q * m + k) % m == k
  {
    var n := q * m + k;
    var q', k' := n / m, n % m;
    assert n == q' * m + k' && k' < m;
    if q > q' {
      AtLeastOnce(q - q', m);
    } else if q < q' {
      AtLeastOnce(q' - q, m);
    }
  }

  lemma {:induction false} DropAll(v: nat, w: nat, r: Radix)
    ensures NumDigits(v, r) <= w <==> Drop(v, w, r) == 0
    decreases w
  {
    if w > 0 {
      DropAll(r.Quotient(v), w - 1, r);
      if v == 0 { assert NumDigits(0, r) == 0; DropZero(w, r); }
    }
  }

  lemma {:induction false} DropZero(n: nat, r: Radix)
    ensures Drop(0, n, r) == 0
    decreases n
  {
    if n > 0 { DropZero(n - 1, r); }
  }

  /** With room for every digit the string denotes the number itself, and only then. */
  lemma DigitsExact(v: nat, w: nat, r: Radix)
    ensures Value(Digits(v, w, r), r) == v <==> NumDigits(v, r) <= w
  {
    DigitsDenote(v, w, r);
    DropAll(v, w, r);
    hide Drop, Value, Digits, NumDigits;
    if Drop(v, w, r) > 0 { AtLeastOnce(Drop(v, w, r), r.Power(w)); }
  }

  lemma {:induction false} NumDigitsBound(v: nat, n: nat, r: Radix)
    ensures v < r.Power(n) <==> NumDigits(v, r) <= n
    decreases n
  {
    if n > 0 { NumDigitsBound(r.Quotient(v), n - 1, r); }
  }

  /** What the characters stand for: upper case is written, either case is read. */
  lemma DigitMeaning(d: nat)
    requires d < 16
    ensures NibbleToHexchar(d) == "0123456789ABCDEF"[d]
    ensures IsDigit("0123456789ABCDEF"[d], Hex) && HexcharToNibble("0123456789ABCDEF"[d]) == d
    ensures IsDigit("0123456789abcdef"[d], Hex) && HexcharToNibble("0123456789abcdef"[d]) == d
    ensures IsDigit("0123456789ABCDEF"[d], Decimal) <==> d < 10
  {
  }

  /** And no other character is a digit. */
  lemma DigitsAre(c: char)
    ensures IsDigit(c, Hex) <==> exists d: nat :: d < 16 && c in ["0123456789ABCDEF"[d], "0123456789abcdef"[d]]
    ensures IsDigit(c, Decimal) <==> exists d: nat :: d < 10 && c == "0123456789"[d]
  {
    if '0' <= c <= '9' {
      var d := c as int - '0' as int;
      assert c == "0123456789"[d] && c == "0123456789ABCDEF"[d];
    } else if 'A' <= c <= 'F' {
      assert c == "0123456789ABCDEF"[c as int - 'A' as int + 10];
    } else if 'a' <= c <= 'f' {
      assert c == "0123456789abcdef"[c as int - 'a' as int + 10];
    }
  }

  lemma {:induction false} UpperCase(v: nat, w: nat, r: Radix)
    ensures forall i :: 0 <= i < w ==> Digits(v, w, r)[i] in (if r.Hex? then "0123456789ABCDEF" else "0123456789")
    decreases w
  {
    if w > 0 {
      UpperCase(r.Quotient(v), w - 1, r);
      DigitMeaning(r.Remainder(v));
      hide NibbleToHexchar;
    }
  }

  /** A number written with just its own digits does not start with a zero. */
  lemma {:induction false} NoLeadingZero(v: nat, r: Radix)
    requires v > 0
    ensures NumDigits(v, r) > 0 && Digits(v, NumDigits(v, r), r)[0] != '0'
    decreases v
  {
    var q := r.Quotient(v);
    if q > 0 { NoLeadingZero(q, r); }
  }
}

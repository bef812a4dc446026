/** The IPv4 address parser of wiced_network_common.c, over the number parser. */
module DottedQuad {
  import opened Common
  import opened NumberText
  import opened Numerals

  // ---------- What the parser accepts ----------

  function Join(groups: seq<seq<char>>): (s: seq<char>)
    requires groups != []
    decreases |groups|
  {
    if |groups| == 1 then groups[0] else groups[0] + ['.'] + Join(groups[1..])
  }

  ghost predicate DigitGroups(groups: seq<seq<char>>) {
    forall g :: 0 <= g < |groups| ==> AllDigits(groups[g], Decimal)
  }

  ghost predicate Follows(rest: seq<char>) {
    rest == [] || rest[0] == '.'
  }

  /** The text starts with these digit groups, any of which may be empty, joined by dots and followed by
      the end or a further dot. */
  ghost predicate StartsWith(s: seq<char>, groups: seq<seq<char>>) {
    && groups != [] && DigitGroups(groups)
    && Join(groups) <= s && Follows(s[|Join(groups)|..])
  }

  /** The number read for a group: its first three digits. */
  function GroupValue(g: seq<char>): (v: nat)
    requires AllDigits(g, Decimal)
  {
    var m := Min(3, |g|);
    assert forall k :: 0 <= k < m ==> g[..m][k] == g[k];
    Value(g[..m], Decimal)
  }

  /** Base 256, in 32 bits. */
  function Address(groups: seq<seq<char>>): (a: nat)
    requires DigitGroups(groups)
    ensures a < U32
    decreases |groups|
  {
    if groups == [] then 0
    else
      var n := |groups| - 1;
      (Address(groups[..n]) * 256 + GroupValue(groups[n])) % U32
  }

  // ---------- How it reads ----------

  /** The length of the first group: everything up to a dot or the end. */
  function First(s: seq<char>): (e: nat)
    ensures e <= |s| && Follows(s[e..])
    ensures forall k :: 0 <= k < e ==> s[k] != '.'
    decreases |s|
  {
    if s == [] || s[0] == '.' then 0
    else
      assert s[1..][First(s[1..])..] == s[1 + First(s[1..])..];
      1 + First(s[1..])
  }

  lemma {:induction false} FirstOf(g: seq<char>, rest: seq<char>)
    requires Follows(rest) && forall k :: 0 <= k < |g| ==> g[k] != '.'
    ensures First(g + rest) == |g|
    decreases |g|
  {
    if g == [] {
      assert g + rest == rest;
    } else {
      assert (g + rest)[1..] == g[1..] + rest;
      FirstOf(g[1..], rest);
    }
  }

  predicate IsDigits(s: seq<char>) {
    forall k :: 0 <= k < |s| ==> IsDigit(s[k], Decimal)
  }

  function Prefixed(done: seq<seq<char>>, rest: Option<seq<seq<char>>>): Option<seq<seq<char>>> {
    if rest.None? then None else Some(done + rest.value)
  }

  /** The first n groups of a text. */
  function Groups(s: seq<char>, n: nat): (r: Option<seq<seq<char>>>)
    requires n > 0
    ensures r.Some? ==> |r.value| == n && DigitGroups(r.value)
    decreases n
  {
    var e := First(s);
    if !IsDigits(s[..e]) then None
    else if n == 1 then Some([s[..e]])
    else if e == |s| then None
    else Prefixed([s[..e]], Groups(s[e + 1..], n - 1))
  }

  lemma JoinMore(g: seq<char>, groups: seq<seq<char>>)
    requires groups != []
    ensures Join([g] + groups) == g + (['.'] + Join(groups))
  {
  }

  lemma JoinOne(g: seq<char>)
    ensures Join([g]) == g
  {
  }

  /** The groups the reader finds are what the text starts with. */
  lemma {:induction false} GroupsSound(s: seq<char>, n: nat)
    requires n > 0 && Groups(s, n).Some?
    ensures var groups := Groups(s, n).value;
            Join(groups) <= s && s == Join(groups) + s[|Join(groups)|..] && Follows(s[|Join(groups)|..])
    decreases n
  {
    hide Join;
    var e := First(s);
    if n == 1 {
      JoinOne(s[..e]);
      assert s == s[..e] + s[e..];
    } else {
      assert s[e] == '.' by { assert s[e] == s[e..][0]; }
      GroupsSound(s[e + 1..], n - 1);
      var rest := Groups(s[e + 1..], n - 1).value;
      JoinMore(s[..e], rest);
      SplitAtDot(s, e, Join(rest), s[e + 1..][|Join(rest)|..]);
      assert Groups(s, n).value == [s[..e]] + rest;
      hide Groups, First;
    }
  }

  lemma SplitAtDot(s: seq<char>, e: nat, joined: seq<char>, after: seq<char>)
    requires e < |s| && s[e] == '.' && s[e + 1..] == joined + after
    ensures var all := s[..e] + (['.'] + joined); all <= s && s == all + s[|all|..] && s[|all|..] == after
  {
  }

  /** The reader finds whatever digit groups a text starts with. */
  lemma {:induction false} GroupsComplete(groups: seq<seq<char>>, rest: seq<char>)
    requires groups != [] && DigitGroups(groups) && Follows(rest)
    ensures Groups(Join(groups) + rest, |groups|) == Some(groups)
    decreases |groups|
  {
    hide Join, First;
    var g, more := groups[0], groups[1..];
    assert AllDigits(g, Decimal);
    assert groups == [g] + more;
    if more == [] {
      JoinOne(g);
      FirstOf(g, rest);
      assert (g + rest)[..|g|] == g && groups == [g];
    } else {
      JoinMore(g, more);
      var tail := Join(more) + rest;
      var s := g + (['.'] + tail);
      assert Join(groups) + rest == s;
      FirstOf(g, ['.'] + tail);
      assert s[..|g|] == g && s[|g| + 1..] == tail;
      GroupsComplete(more, rest);
    }
  }

  /** The number parser, limited to three characters, reads a group's value. */
  lemma GroupRead(s: seq<char>)
    requires IsDigits(s[..First(s)])
    ensures Parse(s, 3, true, Decimal).1 == GroupValue(s[..First(s)])
  {
    hide Value, ParseFrom, First;
    var e := First(s);
    var m := Min(3, e);
    assert s[..m] == s[..e][..m];
    assert forall k :: 0 <= k < m ==> s[..m][k] == s[..e][k];
    ShortValue(s[..m]);
    if m < 3 && m < |s| { assert s[m] == s[e..][0] == '.'; }
    EmptyValue(s, Decimal);
    ParseRun(s, 0, m, 3, Limit(true, Decimal), Decimal);
  }

  lemma ShortValue(s: seq<char>)
    requires AllDigits(s, Decimal) && |s| <= 3
    ensures Value(s, Decimal) < 1000
  {
    hide Value;
    ValueBound(s, Decimal);
    assert Decimal.Power(3) == 1000 && Decimal.Power(2) == 100 && Decimal.Power(1) == 10 && Decimal.Power(0) == 1;
  }

  lemma AddressNext(groups: seq<seq<char>>, g: seq<char>)
    requires DigitGroups(groups) && AllDigits(g, Decimal)
    ensures DigitGroups(groups + [g])
    ensures Address(groups + [g]) == (Address(groups) * 256 + GroupValue(g)) % U32
  {
  }

  lemma GroupsUnfold(s: seq<char>, n: nat)
    requires n > 0
    ensures var e := First(s);
            && (!IsDigits(s[..e]) ==> Groups(s, n).None?)
            && (IsDigits(s[..e]) && n == 1 ==> Groups(s, n) == Some([s[..e]]))
            && (n > 1 && e == |s| ==> Groups(s, n).None?)
            && (IsDigits(s[..e]) && n > 1 && e < |s| ==>
                  Groups(s, n) == Prefixed([s[..e]], Groups(s[e + 1..], n - 1)))
  {
  }

  lemma PrefixedNone(rest: Option<seq<seq<char>>>)
    ensures Prefixed([], rest) == rest
  {
    if rest.Some? { assert [] + rest.value == rest.value; }
  }

  lemma PrefixedTwice(a: seq<seq<char>>, b: seq<seq<char>>, rest: Option<seq<seq<char>>>)
    ensures Prefixed(a, Prefixed(b, rest)) == Prefixed(a + b, rest)
  {
    if rest.Some? { assert a + (b + rest.value) == (a + b) + rest.value; }
  }

  /** What one turn of the reader does with a good group. */
  lemma GroupTaken(rest: seq<char>, done: seq<seq<char>>, left: nat)
    requires DigitGroups(done) && left > 0 && IsDigits(rest[..First(rest)])
    ensures var e, more := First(rest), done + [rest[..First(rest)]];
            && DigitGroups(more)
            && Address(more) == ((Address(done) * 256) % U32 + Parse(rest, 3, true, Decimal).1) % U32
            && Prefixed(done, Groups(rest, left))
            == if left == 1 then Some(more)
               else if e == |rest| then None
               else Prefixed(more, Groups(rest[e + 1..], left - 1))
  {
    hide Groups, Address, GroupValue, Parse;
    var e := First(rest);
    GroupRead(rest);
    AddressNext(done, rest[..e]);
    ShiftedSum(Address(done), Parse(rest, 3, true, Decimal).1);
    GroupsUnfold(rest, left);
    if left > 1 && e < |rest| { PrefixedTwice(done, [rest[..e]], Groups(rest[e + 1..], left - 1)); }
  }

  lemma GroupRefused(rest: seq<char>, done: seq<seq<char>>, left: nat, k: nat)
    requires left > 0 && k < First(rest) && !IsDigit(rest[k], Decimal)
    ensures Prefixed(done, Groups(rest, left)) == None
  {
  }

  method StrToIp(arg: seq<char>) returns (result: int, addr: nat, versionSet: bool)
    ensures result == 0 <==> Groups(arg, 4).Some?
    ensures result == 0 || result == -1
    ensures versionSet <==> result == 0
    ensures result == 0 ==> addr == Address(Groups(arg, 4).value)
  {
    hide Groups, Address, Parse, First, Prefixed;
    ghost var done: seq<seq<char>> := [];
    AddressEmpty();
    var num, pos := 0, -1;
    addr := 0;
    versionSet := false;
    assert arg[0..] == arg;
    PrefixedNone(Groups(arg, 4));
    while true
      invariant 0 <= num < 4 && num == |done| && -1 <= pos < |arg|
      invariant DigitGroups(done) && addr == Address(done)
      invariant Groups(arg, 4) == Prefixed(done, Groups(arg[pos + 1..], 4 - num))
      decreases 4 - num
    {
      addr := (addr * 256) % U32;
      pos := pos + 1;
      ghost var rest, start := arg[pos..], pos;
      var _, value := StringToUnsigned(arg[pos..], 3, false);
      addr := (addr + value) % U32;
      while pos < |arg| && arg[pos] != '.'
        invariant start <= pos <= start + First(rest) && IsDigits(rest[..pos - start])
        decreases |arg| - pos
      {
        BeforeGroupEnd(arg, start, pos);
        if !('0' <= arg[pos] <= '9') {
          GroupRefused(rest, done, 4 - num, pos - start);
          return -1, addr, false;
        }
        assert rest[..pos + 1 - start] == rest[..pos - start] + [arg[pos]];
        pos := pos + 1;
      }
      AtGroupEnd(arg, start, pos);
      GroupTaken(rest, done, 4 - num);
      done := done + [rest[..pos - start]];
      num := num + 1;
      if !(num < 4 && pos < |arg|) {
        break;
      }
      assert rest[pos - start + 1..] == arg[pos + 1..];
    }
    if num == 4 {
      return 0, addr, true;
    }
    return -1, addr, false;
  }

  lemma BeforeGroupEnd(s: seq<char>, start: nat, pos: nat)
    requires start <= pos < |s| && pos - start <= First(s[start..]) && s[pos] != '.'
    ensures pos - start < First(s[start..])
    ensures s[start..][pos - start] == s[pos]
  {
  }

  lemma AtGroupEnd(s: seq<char>, start: nat, pos: nat)
    requires start <= pos <= |s| && pos - start <= First(s[start..])
    requires pos == |s| || s[pos] == '.'
    ensures pos - start == First(s[start..])
  {
  }

  lemma AddressEmpty()
    ensures Address([]) == 0
  {
  }

  lemma ShiftedSum(a: nat, v: nat)
    ensures ((a * 256) % U32 + v) % U32 == (a * 256 + v) % U32
  {
  }

  /** Success means exactly that the text starts with four digit groups, and then they are unique. */
  lemma AcceptedIff(s: seq<char>)
    ensures Groups(s, 4).Some? <==> exists groups :: |groups| == 4 && StartsWith(s, groups)
    ensures forall groups :: |groups| == 4 && StartsWith(s, groups) ==> Groups(s, 4) == Some(groups)
  {
    hide Groups, Join;
    if Groups(s, 4).Some? {
      GroupsSound(s, 4);
      assert StartsWith(s, Groups(s, 4).value);
    }
    forall groups | |groups| == 4 && StartsWith(s, groups) ensures Groups(s, 4) == Some(groups) {
      var rest := s[|Join(groups)|..];
      assert s == Join(groups) + rest;
      GroupsComplete(groups, rest);
    }
  }

  /** An address as it is usually written. */
  function Canonical(a: nat, b: nat, c: nat, d: nat): seq<char>
    requires a < 256 && b < 256 && c < 256 && d < 256
  {
    Join(Quad(a, b, c, d))
  }

  function Octet(v: nat): (s: seq<char>)
    requires v < 256
  {
    Printed(v, Decimal, 1, 3)
  }

  function Quad(a: nat, b: nat, c: nat, d: nat): seq<seq<char>>
    requires a < 256 && b < 256 && c < 256 && d < 256
  {
    [Octet(a), Octet(b), Octet(c), Octet(d)]
  }

  lemma OctetRead(v: nat)
    requires v < 256
    ensures AllDigits(Octet(v), Decimal) && GroupValue(Octet(v)) == v
  {
    hide Digits, Value, NumDigits;
    assert Decimal.Power(3) == 1000;
    NumDigitsBound(v, 3, Decimal);
    var n := PrintedLength(v, Decimal, 1, 3);
    DigitsExact(v, n, Decimal);
    assert Octet(v)[..n] == Octet(v);
  }

  /** Reading undoes writing: every dotted quad gives its four bytes. */
  lemma CanonicalRead(a: nat, b: nat, c: nat, d: nat)
    requires a < 256 && b < 256 && c < 256 && d < 256
    ensures var r := Groups(Canonical(a, b, c, d), 4);
            r.Some? && Address(r.value) == a * 0x100_0000 + b * 0x1_0000 + c * 0x100 + d
  {
    hide Octet, GroupValue, Address, Groups, Join;
    OctetRead(a); OctetRead(b); OctetRead(c); OctetRead(d);
    var q, s := Quad(a, b, c, d), Canonical(a, b, c, d);
    GroupsComplete(q, []);
    assert s + [] == s;
    FourBytes(q, a, b, c, d);
  }

  lemma FourBytes(q: seq<seq<char>>, a: nat, b: nat, c: nat, d: nat)
    requires |q| == 4 && DigitGroups(q) && a < 256 && b < 256 && c < 256 && d < 256
    requires GroupValue(q[0]) == a && GroupValue(q[1]) == b && GroupValue(q[2]) == c && GroupValue(q[3]) == d
    ensures Address(q) == a * 0x100_0000 + b * 0x1_0000 + c * 0x100 + d
  {
    hide GroupValue, Address;
    FourGroups(q, a, b, c, d);
    BelowWrap(a * 0x100_0000 + b * 0x1_0000 + c * 0x100 + d);
  }

  lemma FourGroups(q: seq<seq<char>>, a: nat, b: nat, c: nat, d: nat)
    requires |q| == 4 && DigitGroups(q)
    requires GroupValue(q[0]) == a && GroupValue(q[1]) == b && GroupValue(q[2]) == c && GroupValue(q[3]) == d
    ensures Address(q) == (a * 0x100_0000 + b * 0x1_0000 + c * 0x100 + d) % U32
  {
    hide GroupValue, Address, DigitGroups;
    AddressEmpty();
    assert q[..0] == [] && q[..4] == q;
    AddressTake(q, 0); AddressTake(q, 1); AddressTake(q, 2); AddressTake(q, 3);
    SumMod(a, b, c, d, Address(q[..1]), Address(q[..2]), Address(q[..3]), Address(q));
  }

  lemma SumMod(a: nat, b: nat, c: nat, d: nat, u: nat, v: nat, w: nat, x: nat)
    requires u == (0 * 256 + a) % U32 && v == (u * 256 + b) % U32
    requires w == (v * 256 + c) % U32 && x == (w * 256 + d) % U32
    ensures x == (a * 0x100_0000 + b * 0x1_0000 + c * 0x100 + d) % U32
  {
    Base256(a, b, u);
    Base256(a * 256 + b, c, v);
    Base256((a * 256 + b) * 256 + c, d, w);
  }

  lemma AddressTake(q: seq<seq<char>>, n: nat)
    requires n < |q| && DigitGroups(q)
    ensures DigitGroups(q[..n]) && DigitGroups(q[..n + 1])
    ensures Address(q[..n + 1]) == (Address(q[..n]) * 256 + GroupValue(q[n])) % U32
  {
    hide GroupValue;
    AddressNext(q[..n], q[n]);
    assert q[..n] + [q[n]] == q[..n + 1];
  }

  /** At most three characters. */
  function First3(s: seq<char>): seq<char> {
    if |s| < 3 then s else s[..3]
  }

  /** The address of any four groups, longer or larger than a byte included: the base-256 sum, in 32 bits, of
      the numbers in their first three digits. */
  lemma AddressSum(g: seq<seq<char>>)
    requires |g| == 4 && DigitGroups(g)
    ensures forall i :: 0 <= i < 4 ==> AllDigits(First3(g[i]), Decimal)
    ensures Address(g) == (Value(First3(g[0]), Decimal) * 0x100_0000 + Value(First3(g[1]), Decimal) * 0x1_0000
                           + Value(First3(g[2]), Decimal) * 0x100 + Value(First3(g[3]), Decimal)) % U32
  {
    hide Value, GroupValue, Address, First3;
    FirstThree(g[0]); FirstThree(g[1]); FirstThree(g[2]); FirstThree(g[3]);
    FourGroups(g, GroupValue(g[0]), GroupValue(g[1]), GroupValue(g[2]), GroupValue(g[3]));
  }

  lemma FirstThree(s: seq<char>)
    requires AllDigits(s, Decimal)
    ensures AllDigits(First3(s), Decimal) && GroupValue(s) == Value(First3(s), Decimal)
  {
    hide Value;
    assert s[..|s|] == s;
  }

  lemma Base256(x: nat, v: nat, y: nat)
    requires y == x % U32
    ensures (y * 256 + v) % U32 == (x * 256 + v) % U32
  {
  }
}

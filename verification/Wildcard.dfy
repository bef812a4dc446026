/** The wildcard matcher of wiced_lib.c, proved complete against the exhaustive meaning of a pattern. */
module Wildcard {
  import opened Common

  /** A C string: the characters before the terminator. */
  ghost predicate IsCString(p: seq<char>) {
    forall i :: 0 <= i < |p| ==> p[i] != NUL
  }

  /** Reading a C string; the terminator may be read, nothing after it. */
  function At(p: seq<char>, i: nat): char
    requires i <= |p|
  {
    if i < |p| then p[i] else NUL
  }

  /** The language of a pattern: '*' stands for any characters, none included, '?' for exactly one. */
  ghost predicate Matches(p: seq<char>, s: seq<char>)
    decreases |p|
  {
    if p == [] then s == []
    else if p[0] == '*' then exists k :: 0 <= k <= |s| && Matches(p[1..], s[k..])
    else s != [] && (p[0] == '?' || p[0] == s[0]) && Matches(p[1..], s[1..])
  }

  /** The rest of the pattern from j matches the rest of the string from i. */
  ghost predicate From(p: seq<char>, s: seq<char>, j: nat, i: nat)
    requires j <= |p| && i <= |s|
  {
    Matches(p[j..], s[i..])
  }

  ghost predicate FromAny(p: seq<char>, s: seq<char>, j: nat, i: nat)
    requires j <= |p|
  {
    exists k :: i <= k <= |s| && From(p, s, j, k)
  }

  lemma FromStart(p: seq<char>, s: seq<char>)
    ensures From(p, s, 0, 0) == Matches(p, s)
  {
  }

  lemma FromEnd(p: seq<char>, s: seq<char>, i: nat)
    requires i <= |s|
    ensures From(p, s, |p|, i) <==> i == |s|
  {
  }

  lemma FromStar(p: seq<char>, s: seq<char>, j: nat, i: nat)
    requires j < |p| && i <= |s| && p[j] == '*'
    ensures From(p, s, j, i) <==> FromAny(p, s, j + 1, i)
  {
    assert p[j..][1..] == p[j + 1..];
    assert forall k :: 0 <= k <= |s| - i ==> s[i..][k..] == s[i + k..];
    if From(p, s, j, i) {
      var k :| 0 <= k <= |s[i..]| && Matches(p[j..][1..], s[i..][k..]);
      assert From(p, s, j + 1, i + k);
    }
    if FromAny(p, s, j + 1, i) {
      var k :| i <= k <= |s| && From(p, s, j + 1, k);
      assert s[i..][k - i..] == s[k..];
    }
  }

  lemma FromOne(p: seq<char>, s: seq<char>, j: nat, i: nat)
    requires j < |p| && i <= |s| && p[j] != '*'
    ensures From(p, s, j, i) <==> i < |s| && (p[j] == '?' || p[j] == s[i]) && From(p, s, j + 1, i + 1)
  {
  }

  /** The star-free stretch p[t..j] fits the string exactly at a. */
  ghost predicate Fits(p: seq<char>, s: seq<char>, t: nat, j: nat, a: nat) {
    && t <= j <= |p|
    && a + (j - t) <= |s|
    && forall m :: t <= m < j ==> p[m] != '*' && (p[m] == '?' || p[m] == s[a + (m - t)])
  }

  ghost predicate StarFree(p: seq<char>, t: nat, j: nat) {
    t <= j <= |p| && forall m :: t <= m < j ==> p[m] != '*'
  }

  /** Matching over a star-free stretch is fitting it and going on after it. */
  lemma {:induction false} FromStretch(p: seq<char>, s: seq<char>, t: nat, j: nat, a: nat)
    requires StarFree(p, t, j) && a <= |s|
    ensures From(p, s, t, a) <==> Fits(p, s, t, j, a) && From(p, s, j, a + (j - t))
    decreases j - t
  {
    hide From;
    if t < j {
      FromOne(p, s, t, a);
      if a < |s| {
        FromStretch(p, s, t + 1, j, a + 1);
        FitsStep(p, s, t, j, a);
      }
    }
  }

  lemma FitsStep(p: seq<char>, s: seq<char>, t: nat, j: nat, a: nat)
    requires StarFree(p, t, j) && t < j && a < |s|
    ensures Fits(p, s, t, j, a) <==> (p[t] == '?' || p[t] == s[a]) && Fits(p, s, t + 1, j, a + 1)
  {
  }

  /** Only one backtrack point is needed: when the stretch since the latest star fits at the earliest
      place and a further star follows, later places for the stretch add nothing. */
  lemma LatestStarSuffices(p: seq<char>, s: seq<char>, t: nat, j: nat, a: nat)
    requires Fits(p, s, t, j, a) && j < |p| && p[j] == '*'
    ensures FromAny(p, s, t, a) <==> FromAny(p, s, j + 1, a + (j - t))
  {
    hide From, Fits;
    assert StarFree(p, t, j) by { FitsStarFree(p, s, t, j, a); }
    var i := a + (j - t);
    FitsInside(p, s, t, j, a);
    if FromAny(p, s, t, a) {
      var k :| a <= k <= |s| && From(p, s, t, k);
      FromStretch(p, s, t, j, k);
      FitsInside(p, s, t, j, k);
      FromStar(p, s, j, k + (j - t));
      var k' :| k + (j - t) <= k' <= |s| && From(p, s, j + 1, k');
    }
    if FromAny(p, s, j + 1, i) {
      FromStar(p, s, j, i);
      FromStretch(p, s, t, j, a);
    }
  }

  lemma FitsStarFree(p: seq<char>, s: seq<char>, t: nat, j: nat, a: nat)
    requires Fits(p, s, t, j, a)
    ensures StarFree(p, t, j)
  {
  }

  lemma FitsInside(p: seq<char>, s: seq<char>, t: nat, j: nat, a: nat)
    requires Fits(p, s, t, j, a)
    ensures a + (j - t) <= |s|
  {
  }

  /** A mismatch after a fitting stretch rules out the present place only. */
  lemma MismatchMovesOn(p: seq<char>, s: seq<char>, t: nat, j: nat, a: nat)
    requires Fits(p, s, t, j, a) && a + (j - t) < |s|
    requires j < |p| ==> p[j] != '*' && p[j] != '?' && p[j] != s[a + (j - t)]
    ensures FromAny(p, s, t, a) <==> FromAny(p, s, t, a + 1)
  {
    hide From, Fits;
    FitsStarFree(p, s, t, j, a);
    FromStretch(p, s, t, j, a);
    if j < |p| {
      FromOne(p, s, j, a + (j - t));
    } else {
      FromEnd(p, s, a + (j - t));
    }
  }

  /** When the stretch uses up the string, later places leave too few characters. */
  lemma ExhaustedString(p: seq<char>, s: seq<char>, t: nat, j: nat, a: nat)
    requires Fits(p, s, t, j, a) && a + (j - t) == |s|
    ensures FromAny(p, s, t, a) <==> From(p, s, j, |s|)
  {
    hide From, Fits;
    FitsStarFree(p, s, t, j, a);
    FromStretch(p, s, t, j, a);
    if FromAny(p, s, t, a) {
      var k :| a <= k <= |s| && From(p, s, t, k);
      FromStretch(p, s, t, j, k);
      FitsInside(p, s, t, j, k);
    }
  }

  /** Nothing left of the string: only stars may be left of the pattern. */
  lemma EmptyRest(p: seq<char>, s: seq<char>, j: nat)
    requires j <= |p|
    ensures j < |p| && p[j] == '*' ==> (From(p, s, j, |s|) <==> From(p, s, j + 1, |s|))
    ensures At(p, j) != '*' ==> (From(p, s, j, |s|) <==> j == |p|)
  {
    hide From;
    if j == |p| {
      FromEnd(p, s, |s|);
    } else if p[j] == '*' {
      FromStar(p, s, j, |s|);
    } else {
      FromOne(p, s, j, |s|);
    }
  }

  // ---------- The state of the search ----------

  /** Where the matcher stands: before any star it has compared character by character; afterwards the stretch
      since the latest star (t) fits at the present place (a, the restart position, is one further on). -1 is
      NULL. */
  ghost predicate Search(p: seq<char>, s: seq<char>, t: int, a: int, j: nat, i: nat) {
    && j <= |p| && i <= |s|
    && (t == -1 ==> From(p, s, j, i) == Matches(p, s))
    && (t != -1 ==>
          && 0 < t <= j && 0 < a <= i + 1 && i == a - 1 + (j - t)
          && Fits(p, s, t, j, a - 1) && FromAny(p, s, t, a - 1) == Matches(p, s))
  }

  lemma SearchStart(p: seq<char>, s: seq<char>)
    ensures Search(p, s, -1, -1, 0, 0)
  {
    hide From, Matches;
    FromStart(p, s);
  }

  lemma SearchStar(p: seq<char>, s: seq<char>, t: int, a: int, j: nat, i: nat)
    requires Search(p, s, t, a, j, i) && j < |p| && p[j] == '*'
    ensures Search(p, s, j + 1, i + 1, j + 1, i)
  {
    hide From, Matches;
    FromStar(p, s, j, i);
    if t != -1 { LatestStarSuffices(p, s, t, j, a - 1); }
  }

  lemma SearchOn(p: seq<char>, s: seq<char>, t: int, a: int, j: nat, i: nat)
    requires Search(p, s, t, a, j, i) && j < |p| && i < |s| && p[j] != '*' && (p[j] == '?' || p[j] == s[i])
    ensures Search(p, s, t, a, j + 1, i + 1)
  {
    hide From, Matches;
    FromOne(p, s, j, i);
  }

  lemma SearchBack(p: seq<char>, s: seq<char>, t: int, a: int, j: nat, i: nat)
    requires Search(p, s, t, a, j, i) && i < |s| && (j < |p| ==> p[j] != '*' && p[j] != '?' && p[j] != s[i])
    ensures t == -1 ==> !Matches(p, s)
    ensures t != -1 ==> Search(p, s, t, a + 1, t, a)
  {
    hide From, Matches;
    if t == -1 {
      if j < |p| { FromOne(p, s, j, i); } else { FromEnd(p, s, i); }
    } else {
      MismatchMovesOn(p, s, t, j, a - 1);
    }
  }

  lemma SearchExhausted(p: seq<char>, s: seq<char>, t: int, a: int, j: nat)
    requires Search(p, s, t, a, j, |s|)
    ensures From(p, s, j, |s|) == Matches(p, s)
  {
    hide From, Matches;
    if t != -1 { ExhaustedString(p, s, t, j, a - 1); }
  }

  lemma SearchSucceeds(p: seq<char>, s: seq<char>, t: int, a: int, j: nat, i: nat)
    requires Search(p, s, t, a, j, i) && From(p, s, j, i)
    ensures Matches(p, s)
  {
    hide From, Matches, Fits;
    if t != -1 {
      FitsStarFree(p, s, t, j, a - 1);
      FromStretch(p, s, t, j, a - 1);
    }
  }

  // ---------- Stepping past the pattern ----------

  predicate EndsInStar(p: seq<char>) {
    p != [] && p[|p| - 1] == '*'
  }

  /** When the source steps past the pattern's terminator: a terminator inside the string follows a part of it
      that the whole pattern matches, and the pattern does not end in a star. */
  ghost predicate Overruns(p: seq<char>, s: seq<char>) {
    !EndsInStar(p) && exists k :: 0 <= k < |s| && s[k] == NUL && Matches(p, s[..k])
  }

  /** The pattern as it is read by a matcher that takes the terminator for a character. */
  function Terminated(p: seq<char>): (q: seq<char>)
    ensures |q| == |p| + 2 && q[|p|] == NUL && q[|p| + 1] == '*' && q[..|p|] == p
    ensures forall j :: 0 <= j < |p| ==> q[j] == p[j]
  {
    p + [NUL, '*']
  }

  ghost predicate SplitMatch(p: seq<char>, r: seq<char>, s: seq<char>, k: nat)
    requires k <= |s|
  {
    Matches(p, s[..k]) && Matches(r, s[k..])
  }

  /** One pattern after another matches a string that can be divided between them. */
  lemma {:induction false} MatchesConcat(p: seq<char>, r: seq<char>, s: seq<char>)
    ensures Matches(p + r, s) <==> exists k :: 0 <= k <= |s| && SplitMatch(p, r, s, k)
    decreases |p|
  {
    hide SplitMatch;
    if p == [] {
      assert p + r == r;
      EmptySplit(r, s);
    } else if p[0] == '*' {
      StarSplit(p, r, s);
    } else if s != [] && (p[0] == '?' || p[0] == s[0]) {
      assert (p + r)[1..] == p[1..] + r;
      MatchesConcat(p[1..], r, s[1..]);
      forall k | 0 <= k <= |s| ensures SplitMatch(p, r, s, k) <==> k > 0 && SplitMatch(p[1..], r, s[1..], k - 1) {
        OneSplit(p, r, s, k);
      }
      if exists k :: 0 <= k <= |s[1..]| && SplitMatch(p[1..], r, s[1..], k) {
        var k :| 0 <= k <= |s[1..]| && SplitMatch(p[1..], r, s[1..], k);
        assert SplitMatch(p, r, s, k + 1);
      }
    } else {
      forall k | 0 <= k <= |s| ensures !SplitMatch(p, r, s, k) { NoSplit(p, r, s, k); }
    }
  }

  lemma EmptySplit(r: seq<char>, s: seq<char>)
    ensures Matches(r, s) <==> exists k :: 0 <= k <= |s| && SplitMatch([], r, s, k)
  {
    assert s[0..] == s;
    if Matches(r, s) { assert SplitMatch([], r, s, 0); }
    if exists k :: 0 <= k <= |s| && SplitMatch([], r, s, k) {
      var k :| 0 <= k <= |s| && SplitMatch([], r, s, k);
      assert k == 0;
    }
  }

  lemma OneSplit(p: seq<char>, r: seq<char>, s: seq<char>, k: nat)
    requires p != [] && p[0] != '*' && s != [] && (p[0] == '?' || p[0] == s[0]) && k <= |s|
    ensures SplitMatch(p, r, s, k) <==> k > 0 && SplitMatch(p[1..], r, s[1..], k - 1)
  {
    if k > 0 { assert s[..k][1..] == s[1..][..k - 1] && s[k..] == s[1..][k - 1..]; }
  }

  lemma NoSplit(p: seq<char>, r: seq<char>, s: seq<char>, k: nat)
    requires p != [] && p[0] != '*' && !(s != [] && (p[0] == '?' || p[0] == s[0])) && k <= |s|
    ensures !SplitMatch(p, r, s, k)
  {
  }

  lemma {:induction false} StarSplit(p: seq<char>, r: seq<char>, s: seq<char>)
    requires p != [] && p[0] == '*'
    ensures Matches(p + r, s) <==> exists k :: 0 <= k <= |s| && SplitMatch(p, r, s, k)
    decreases |p|, 0
  {
    hide SplitMatch;
    assert (p + r)[1..] == p[1..] + r;
    if Matches(p + r, s) {
      var m :| 0 <= m <= |s| && Matches((p + r)[1..], s[m..]);
      MatchesConcat(p[1..], r, s[m..]);
      var k :| 0 <= k <= |s[m..]| && SplitMatch(p[1..], r, s[m..], k);
      StarJoin(p, r, s, m, k);
    }
    if exists k :: 0 <= k <= |s| && SplitMatch(p, r, s, k) {
      var k :| 0 <= k <= |s| && SplitMatch(p, r, s, k);
      var m := StarPart(p, r, s, k);
      MatchesConcat(p[1..], r, s[m..]);
      assert Matches((p + r)[1..], s[m..]);
    }
  }

  lemma StarJoin(p: seq<char>, r: seq<char>, s: seq<char>, m: nat, k: nat)
    requires p != [] && p[0] == '*' && m + k <= |s| && SplitMatch(p[1..], r, s[m..], k)
    ensures SplitMatch(p, r, s, m + k)
  {
    assert s[m..][..k] == s[..m + k][m..] && s[m..][k..] == s[m + k..];
  }

  lemma StarPart(p: seq<char>, r: seq<char>, s: seq<char>, k: nat) returns (m: nat)
    requires p != [] && p[0] == '*' && k <= |s| && SplitMatch(p, r, s, k)
    ensures m <= k && SplitMatch(p[1..], r, s[m..], k - m)
  {
    m :| 0 <= m <= k && Matches(p[1..], s[..k][m..]);
    assert s[m..][..k - m] == s[..k][m..] && s[m..][k - m..] == s[k..];
  }

  /** So the terminated pattern matches exactly what makes the source overrun. */
  lemma TerminatedMatches(p: seq<char>, s: seq<char>)
    ensures Matches(Terminated(p), s) <==> exists k :: 0 <= k < |s| && s[k] == NUL && Matches(p, s[..k])
  {
    MatchesConcat(p, [NUL, '*'], s);
    forall k | 0 <= k <= |s|
      ensures SplitMatch(p, [NUL, '*'], s, k) <==> k < |s| && s[k] == NUL && Matches(p, s[..k])
    {
      TailMatches(s[k..]);
    }
    hide SplitMatch;
    if exists k :: 0 <= k < |s| && s[k] == NUL && Matches(p, s[..k]) {
      var k :| 0 <= k < |s| && s[k] == NUL && Matches(p, s[..k]);
      assert SplitMatch(p, [NUL, '*'], s, k);
    }
  }

  lemma TailMatches(s: seq<char>)
    ensures Matches([NUL, '*'], s) <==> s != [] && s[0] == NUL
  {
    assert [NUL, '*'][1..] == ['*'] && ['*'][1..] == [];
    if s != [] {
      var rest := s[1..];
      assert Matches([], rest[|rest|..]);
      assert Matches(['*'], rest);
    }
  }

  lemma TerminatorReached(p: seq<char>, s: seq<char>, i: nat)
    requires i < |s| && s[i] == NUL
    ensures From(Terminated(p), s, |p|, i)
  {
    var q := Terminated(p);
    FromOne(q, s, |p|, i);
    FromStar(q, s, |p| + 1, i + 1);
    FromEnd(q, s, |s|);
    hide From;
  }

  lemma {:induction false} NoTerminatorLeft(p: seq<char>, s: seq<char>, j: nat)
    requires j <= |p|
    ensures !From(Terminated(p), s, j, |s|)
    decreases |p| - j
  {
    hide From;
    EmptyRest(Terminated(p), s, j);
    if j < |p| { NoTerminatorLeft(p, s, j + 1); }
  }

  // ---------- The matcher ----------

  /** The string is given by its length and may hold any characters; `overrun` stands for the source's stepping
      past the pattern's terminator. */
  method MatchStringWithWildcardPattern(text: seq<char>, length: nat, pattern: seq<char>)
    returns (result: nat, overrun: bool)
    requires length <= |text| && length < 0x1_0000_0000 && IsCString(pattern)
    ensures overrun <==> Overruns(pattern, text[..length])
    ensures !overrun ==> result == if Matches(pattern, text[..length]) then 1 else 0
  {
    hide From, Fits, Matches, Search;
    ghost var p, q, s := pattern, Terminated(pattern), text[..length];
    SearchStart(p, s);
    SearchStart(q, s);
    TerminatedMatches(p, s);
    overrun := false;
    var currentLength, tempLength := length, 0;
    var i, j := 0, 0;  // positions of current_string and current_pattern
    var tempString, tempPattern: int := -1, -1;  // -1 is NULL

    while currentLength != 0 && At(pattern, j) != '*'
      invariant 0 <= i <= length && i + currentLength == length && 0 <= j <= |p|
      invariant j > 0 ==> p[j - 1] != '*'
      invariant Search(p, s, -1, -1, j, i) && Search(q, s, -1, -1, j, i)
    {
      if At(pattern, j) != text[i] && At(pattern, j) != '?' {
        SearchBack(p, s, -1, -1, j, i);
        SearchBack(q, s, -1, -1, j, i);
        return 0, false;
      }
      if j == |pattern| {
        TerminatorReached(p, s, i);
        SearchSucceeds(q, s, -1, -1, j, i);
        return 0, true;
      }
      SearchOn(p, s, -1, -1, j, i);
      SearchOn(q, s, -1, -1, j, i);
      j := j + 1;
      i := i + 1;
      currentLength := currentLength - 1;
    }

    while currentLength != 0
      invariant 0 <= i <= length && i + currentLength == length && 0 <= j <= |p|
      invariant Search(p, s, tempPattern, tempString, j, i) && Search(q, s, tempPattern, tempString, j, i)
      invariant tempPattern == -1 ==> currentLength != 0 ==> At(p, j) == '*'
      invariant tempPattern != -1 ==>
                && 0 < tempPattern <= j && tempPattern < |p| && 0 < tempString <= i + 1
                && tempLength == (if tempString <= length then length - tempString else 0xFFFF_FFFF)
                && (j > tempPattern ==> p[j - 1] != '*')
      decreases |p| - tempPattern, length - tempString, currentLength
    {
      if At(pattern, j) == '*' {
        SearchStar(p, s, tempPattern, tempString, j, i);
        SearchStar(q, s, tempPattern, tempString, j, i);
        j := j + 1;
        if At(pattern, j) == NUL {
          LastStar(p, s, j, i);
          return 1, false;
        }
        tempPattern := j;
        tempLength := currentLength - 1;
        tempString := i + 1;
      } else if At(pattern, j) == '?' {
        SearchOn(p, s, tempPattern, tempString, j, i);
        SearchOn(q, s, tempPattern, tempString, j, i);
        j := j + 1;
        i := i + 1;
        currentLength := currentLength - 1;
      } else if At(pattern, j) == text[i] {
        if j == |pattern| {
          TerminatorReached(p, s, i);
          SearchSucceeds(q, s, tempPattern, tempString, j, i);
          return 0, true;
        }
        SearchOn(p, s, tempPattern, tempString, j, i);
        SearchOn(q, s, tempPattern, tempString, j, i);
        j := j + 1;
        i := i + 1;
        currentLength := currentLength - 1;
      } else {
        SearchBack(p, s, tempPattern, tempString, j, i);
        SearchBack(q, s, tempPattern, tempString, j, i);
        j := tempPattern;
        i := tempString;
        tempString := tempString + 1;
        currentLength := tempLength;
        tempLength := if tempLength == 0 then 0xFFFF_FFFF else tempLength - 1;
      }
    }
    SearchExhausted(p, s, tempPattern, tempString, j);
    SearchExhausted(q, s, tempPattern, tempString, j);
    NoTerminatorLeft(p, s, j);

    while At(pattern, j) == '*'
      invariant j <= |p| && From(p, s, j, |s|) == Matches(p, s)
      decreases |p| - j
    {
      EmptyRest(p, s, j);
      j := j + 1;
    }
    EmptyRest(p, s, j);
    return if At(pattern, j) == NUL then 1 else 0, false;
  }

  /** A star at the end of the pattern matches whatever is left. */
  lemma LastStar(p: seq<char>, s: seq<char>, j: nat, i: nat)
    requires j == |p| && i <= |s| && Search(p, s, j, i + 1, j, i)
    ensures Matches(p, s)
  {
    FromEnd(p, s, |s|);
    hide From, Matches;
  }

  /** An overrun: the empty pattern against a string that consists of a terminator. */
  lemma EmptyPatternOverruns()
    ensures Overruns([], [NUL])
  {
    assert [NUL][..0] == [];
  }

  /** Without a terminator inside the string there is none. */
  lemma NoOverrun(p: seq<char>, s: seq<char>)
    requires NUL !in s || EndsInStar(p)
    ensures !Overruns(p, s)
  {
  }
}

/** The UTC clock of time.c: milliseconds accumulated from a 32-bit tick that wraps. */
module Clock {
  import opened Common

  const U64: nat := 0x1_0000_0000_0000_0000

  datatype ClockState = ClockState(utc: nat, reference: nat)

  /** The tick shown at a true time in milliseconds. */
  function Tick(time: nat): nat {
    time % U32
  }

  function AfterGet(s: ClockState, tick: nat): ClockState
    requires tick < U32
  {
    ClockState((s.utc + (tick - s.reference) % U32) % U64, tick)
  }

  function AfterSet(tick: nat, utc: nat): ClockState {
    ClockState(utc, tick)
  }

  class UtcClock {
    var currentUtcTime: nat
    var lastReference: nat

    ghost predicate Valid()
      reads this
    {
      currentUtcTime < U64 && lastReference < U32
    }

    ghost function State(): ClockState
      reads this
    {
      ClockState(currentUtcTime, lastReference)
    }

    constructor ()
      ensures Valid() && State() == AfterSet(0, 0)
    {
      currentUtcTime, lastReference := 0, 0;
    }

    method GetUtcTimeMs(tick: nat) returns (utcTimeMs: nat)
      requires Valid() && tick < U32
      modifies this
      ensures Valid() && State() == AfterGet(old(State()), tick)
      ensures utcTimeMs == State().utc
    {
      var sinceReference := (tick - lastReference) % U32;
      if sinceReference != 0 {
        currentUtcTime := (currentUtcTime + sinceReference) % U64;
        lastReference := tick;
      }
      utcTimeMs := currentUtcTime;
    }

    method SetUtcTimeMs(tick: nat, utcTimeMs: nat)
      requires Valid() && tick < U32 && utcTimeMs < U64
      modifies this
      ensures Valid() && State() == AfterSet(tick, utcTimeMs)
    {
      lastReference := tick;
      currentUtcTime := utcTimeMs;
    }
  }

  // ---------- Runs of calls ----------

  /** A call, made `wait` milliseconds of true time after the one before it. */
  datatype Call = Get(wait: nat) | Set(wait: nat, utc: nat)

  ghost predicate SetsFit(calls: seq<Call>) {
    forall k :: 0 <= k < |calls| && calls[k].Set? ==> calls[k].utc < U64
  }

  ghost predicate SinceSet(calls: seq<Call>, k: nat) {
    forall j :: k <= j < |calls| ==> calls[j].Get?
  }

  /** Every get since the last set came less than one wrap after the call before it. */
  ghost predicate Prompt(calls: seq<Call>) {
    forall k :: 0 <= k < |calls| && SinceSet(calls, k) ==> calls[k].wait < U32
  }

  function Now(calls: seq<Call>): nat
    decreases |calls|
  {
    if calls == [] then 0 else Now(calls[..|calls| - 1]) + calls[|calls| - 1].wait
  }

  /** The clock after a run of calls from power-up at time 0. */
  function Run(calls: seq<Call>): ClockState
    decreases |calls|
  {
    if calls == [] then AfterSet(0, 0)
    else
      var last, tick := calls[|calls| - 1], Tick(Now(calls));
      match last
      case Get(_) => AfterGet(Run(calls[..|calls| - 1]), tick)
      case Set(_, utc) => AfterSet(tick, utc)
  }

  /** What an ideal clock shows: the value last set plus the true time since then. */
  function Ideal(calls: seq<Call>): nat
    decreases |calls|
  {
    if calls == [] then 0
    else
      match calls[|calls| - 1]
      case Get(wait) => Ideal(calls[..|calls| - 1]) + wait
      case Set(_, utc) => utc
  }

  /** What the clock shows: of every wait since the last set, what remains after whole wraps. */
  function Shown(calls: seq<Call>): nat
    decreases |calls|
  {
    if calls == [] then 0
    else
      match calls[|calls| - 1]
      case Get(wait) => Shown(calls[..|calls| - 1]) + wait % U32
      case Set(_, utc) => utc
  }

  lemma AddModU64(a: nat, b: nat)
    ensures (a % U64 + b) % U64 == (a + b) % U64
  {
  }

  /** One get after any wait: it adds the wait, less whole wraps. */
  lemma GetAdds(shown: nat, time: nat, wait: nat)
    ensures AfterGet(ClockState(shown % U64, Tick(time)), Tick(time + wait))
         == ClockState((shown + wait % U32) % U64, Tick(time + wait))
  {
    WrappedDifference(time, wait);
    AddModU64(shown, wait % U32);
  }

  /** The clock after any run of calls, however late they are. */
  lemma {:induction false} ClockShows(calls: seq<Call>)
    requires SetsFit(calls)
    ensures Run(calls) == ClockState(Shown(calls) % U64, Tick(Now(calls)))
    decreases |calls|
  {
    hide AfterGet, Tick;
    if calls == [] {
      PowerUp();
    } else {
      var n := |calls| - 1;
      var before, last := calls[..n], calls[n];
      ClockShows(before);
      if last.Get? {
        GetAdds(Shown(before), Now(before), last.wait);
      } else {
        SmallMod(last.utc);
      }
    }
  }

  lemma PowerUp()
    ensures AfterSet(0, 0) == ClockState(0 % U64, Tick(0))
  {
  }

  lemma PromptNext(calls: seq<Call>)
    requires calls != []
    ensures var n := |calls| - 1;
            Prompt(calls) <==> calls[n].Set? || (calls[n].wait < U32 && Prompt(calls[..n]))
  {
    var n := |calls| - 1;
    var before := calls[..n];
    if calls[n].Set? {
      assert forall k :: 0 <= k < |calls| ==> !SinceSet(calls, k);
    } else {
      assert SinceSet(calls, n);
      forall k | 0 <= k < n ensures SinceSet(calls, k) <==> SinceSet(before, k) {
        assert forall j :: k <= j < n ==> calls[j] == before[j];
      }
    }
  }

  lemma Remainder(wait: nat)
    ensures wait % U32 <= wait && (wait % U32 == wait <==> wait < U32)
  {
  }

  /** The clock never shows more than an ideal one, and as much exactly if every get since the last set was
      prompt. */
  lemma {:induction false} ShownIsIdealIff(calls: seq<Call>)
    ensures Shown(calls) <= Ideal(calls)
    ensures Shown(calls) == Ideal(calls) <==> Prompt(calls)
    decreases |calls|
  {
    hide Prompt;
    if calls == [] {
      NoCalls();
    } else {
      var last := calls[|calls| - 1];
      ShownIsIdealIff(calls[..|calls| - 1]);
      PromptNext(calls);
      Remainder(last.wait);
    }
  }

  lemma NoCalls()
    ensures Prompt([])
  {
  }

  lemma SmallMod(a: nat)
    requires a < U64
    ensures a % U64 == a
  {
  }

  /** However often the tick wraps, the clock is the ideal one (in 64 bits), as long as each get since the last
      set comes less than one wrap after the call before it. */
  lemma ClockIsIdeal(calls: seq<Call>)
    requires SetsFit(calls) && Prompt(calls)
    ensures Run(calls) == ClockState(Ideal(calls) % U64, Tick(Now(calls)))
  {
    hide Run, Tick, Shown, Ideal, Prompt;
    ClockShows(calls);
    ShownIsIdealIff(calls);
  }

  /** And only then: while true time fits in 64 bits, the clock is right after a run of calls exactly if every
      get since the last set was prompt. A set makes it right again. */
  lemma ClockIsIdealIff(calls: seq<Call>)
    requires SetsFit(calls) && Ideal(calls) < U64
    ensures Run(calls).utc == Ideal(calls) <==> Prompt(calls)
  {
    hide Run, Tick, Shown, Ideal, Prompt;
    ClockShows(calls);
    ShownIsIdealIff(calls);
    SmallMod(Shown(calls));
  }

  /** A get that comes late after a prompt run loses the whole wraps in its wait. */
  lemma LateCallLoses(calls: seq<Call>, wait: nat)
    requires SetsFit(calls) && Prompt(calls)
    ensures Run(calls + [Get(wait)]).utc == (Ideal(calls) + wait % U32) % U64
  {
    assert (calls + [Get(wait)])[..|calls|] == calls;
    hide Run, Tick, Prompt;
    ClockShows(calls + [Get(wait)]);
    ShownIsIdealIff(calls);
  }

  /** The true time of a run never goes back. */
  lemma {:induction false} NowMonotone(calls: seq<Call>, i: nat)
    requires i <= |calls|
    ensures Now(calls[..i]) <= Now(calls)
    decreases |calls|
  {
    if i < |calls| {
      NowMonotone(calls[..|calls| - 1], i);
      assert calls[..|calls| - 1][..i] == calls[..i];
    } else {
      assert calls[..i] == calls;
    }
  }

  /** Between sets the clock moves by exactly the true time, so readings never decrease. */
  lemma ReadingsFollowTime(calls: seq<Call>, i: nat)
    requires SetsFit(calls) && Prompt(calls) && i <= |calls| && Ideal(calls) < U64 && SinceSet(calls, i)
    ensures Run(calls).utc - Run(calls[..i]).utc == Now(calls) - Now(calls[..i]) >= 0
  {
    PromptBefore(calls, i);
    hide Run, Ideal, Now, Tick, Prompt;
    ClockIsIdeal(calls);
    ClockIsIdeal(calls[..i]);
    NowMonotone(calls, i);
    IdealFollowsTime(calls, i);
    SmallMod(Ideal(calls));
    SmallMod(Ideal(calls[..i]));
  }

  lemma PromptBefore(calls: seq<Call>, i: nat)
    requires Prompt(calls) && i <= |calls| && SinceSet(calls, i)
    ensures Prompt(calls[..i])
  {
    forall k | 0 <= k < i && SinceSet(calls[..i], k) ensures calls[k].wait < U32 {
      forall j | k <= j < |calls| ensures calls[j].Get? {
        if j < i { assert calls[..i][j] == calls[j]; }
      }
      assert SinceSet(calls, k);
    }
  }

  lemma {:induction false} IdealFollowsTime(calls: seq<Call>, i: nat)
    requires i <= |calls| && SinceSet(calls, i)
    ensures Ideal(calls) - Ideal(calls[..i]) == Now(calls) - Now(calls[..i])
    decreases |calls|
  {
    if i < |calls| {
      IdealFollowsTime(calls[..|calls| - 1], i);
      assert calls[..|calls| - 1][..i] == calls[..i];
    } else {
      assert calls[..i] == calls;
    }
  }
}

/** The watchdog's monitors in system_monitor.c: deadlines on a wrapping 32-bit tick, kept by registering,
    updating and scanning, each taken as one step. */
module SystemMonitor {
  import opened Common

  const SLOTS: nat := 5

  /** A monitor structure, by address. */
  type Handle = nat

  datatype Record = Record(lastUpdate: nat, longestPermittedDelay: nat)

  /** The table of monitors and the structures themselves. */
  datatype State = State(slots: seq<Option<Handle>>, records: map<Handle, Record>) {
    ghost predicate Valid() {
      && |slots| == SLOTS
      && forall a :: 0 <= a < SLOTS && slots[a].Some? ==> slots[a].value in records
    }

    ghost predicate Watched(m: Handle) {
      Some(m) in slots
    }
  }

  function Elapsed(tick: nat, lastUpdate: nat): (e: nat)
    ensures e < U32
  {
    (tick - lastUpdate) % U32
  }

  predicate Overdue(r: Record, tick: nat) {
    Elapsed(tick, r.lastUpdate) > r.longestPermittedDelay
  }

  // ---------- The steps as functions ----------

  ghost predicate FirstFree(slots: seq<Option<Handle>>, a: nat) {
    a < |slots| && slots[a] == None && forall b :: 0 <= b < a ==> slots[b] != None
  }

  function Registered(s: State, a: nat, m: Handle, delay: nat, tick: nat): State
    requires a < |s.slots|
  {
    State(s.slots[a := Some(m)], s.records[m := Record(tick, delay)])
  }

  function Updated(s: State, m: Handle, delay: nat, tick: nat): State
    requires m in s.records
  {
    if Overdue(s.records[m], tick) then s else s.(records := s.records[m := Record(tick, delay)])
  }

  ghost predicate AllInTime(s: State, tick: nat)
    requires s.Valid()
  {
    forall a :: 0 <= a < SLOTS && s.slots[a].Some? ==> !Overdue(s.records[s.slots[a].value], tick)
  }

  class SystemMonitors {
    const slots: array<Option<Handle>>
    var records: map<Handle, Record>

    ghost function Value(): State
      reads this, slots
    {
      State(slots[..], records)
    }

    ghost predicate Valid()
      reads this, slots
    {
      Value().Valid()
    }

    constructor (records: map<Handle, Record>)
      ensures Valid() && fresh(slots) && this.records == records
      ensures forall a :: 0 <= a < SLOTS ==> slots[a] == None
    {
      slots := new Option<Handle>[SLOTS](_ => None);
      this.records := records;
    }

    /** One turn of the monitor thread: reboot at the first overdue monitor, or kick the watchdog. */
    method Scan(currentTime: nat) returns (kicked: bool)
      requires Valid() && currentTime < U32
      ensures kicked == AllInTime(Value(), currentTime)
    {
      var a := 0;
      while a < SLOTS
        invariant 0 <= a <= SLOTS
        invariant forall b :: 0 <= b < a && slots[b].Some? ==> !Overdue(records[slots[b].value], currentTime)
      {
        if slots[a].Some? {
          var r := records[slots[a].value];
          if (currentTime - r.lastUpdate) % U32 > r.longestPermittedDelay {
            assert Value().slots[a] == slots[a];
            return false;
          }
        }
        a := a + 1;
      }
      return true;
    }

    method Register(m: Handle, initialPermittedDelay: nat, currentTime: nat) returns (ok: bool)
      requires Valid()
      modifies this`records, slots
      ensures Valid()
      ensures ok <==> None in old(Value()).slots
      ensures !ok ==> Value() == old(Value())
      ensures ok ==> exists a :: FirstFree(old(Value()).slots, a)
                              && Value() == Registered(old(Value()), a, m, initialPermittedDelay, currentTime)
    {
      var a := 0;
      while a < SLOTS
        invariant 0 <= a <= SLOTS
        invariant forall b :: 0 <= b < a ==> slots[b] != None
        invariant Value() == old(Value())
      {
        if slots[a] == None {
          assert FirstFree(old(Value()).slots, a);
          records := records[m := Record(currentTime, initialPermittedDelay)];
          slots[a] := Some(m);
          assert Value() == Registered(old(Value()), a, m, initialPermittedDelay, currentTime);
          return true;
        }
        a := a + 1;
      }
      return false;
    }

    method Update(m: Handle, permittedDelay: nat, currentTime: nat)
      requires Valid() && m in records
      modifies this`records
      ensures Valid() && Value() == Updated(old(Value()), m, permittedDelay, currentTime)
    {
      var r := records[m];
      if (currentTime - r.lastUpdate) % U32 <= r.longestPermittedDelay {
        records := records[m := Record(currentTime, permittedDelay)];
      }
    }
  }

  // ---------- Runs in true time ----------

  datatype Step = RegisterStep(m: Handle, delay: nat) | UpdateStep(m: Handle, delay: nat) | ScanStep

  datatype CheckIn = CheckIn(time: nat, delay: nat, byUpdate: bool)

  /** The monitors in true time: the moment, the latest scan, the table, every check-in that took effect
      and every kick so far, and whether the device has been rebooted. */
  datatype World = World(now: nat, lastScan: nat, state: State, log: map<Handle, seq<CheckIn>>,
                         kicks: seq<nat>, rebooted: bool) {
    function Last(m: Handle): CheckIn
      requires m in log && log[m] != []
    {
      log[m][|log[m]| - 1]
    }

    /** The true deadline of a monitor has passed. */
    predicate Late(m: Handle)
      requires m in log && log[m] != []
    {
      now > Last(m).time + Last(m).delay
    }
  }

  function Noted(w: World, m: Handle, c: CheckIn): World {
    w.(log := w.log[m := (if m in w.log then w.log[m] else []) + [c]])
  }

  ghost function Free(slots: seq<Option<Handle>>): (a: nat)
    requires None in slots
    ensures FirstFree(slots, a)
    decreases |slots|
  {
    if slots[0] == None then 0
    else
      assert slots == [slots[0]] + slots[1..];
      var a := Free(slots[1..]);
      assert slots[1..][a] == slots[a + 1] && forall b :: 1 <= b < a + 1 ==> slots[b] == slots[1..][b - 1];
      a + 1
  }

  /** A step at the present moment. Once rebooted, nothing happens any more. An update of a structure
      never registered does not concern the watchdog. */
  ghost function Taken(w: World, step: Step): (v: World)
    requires w.state.Valid()
    ensures v.state.Valid()
  {
    var tick := w.now % U32;
    if w.rebooted then w
    else
      match step
      case RegisterStep(m, delay) =>
        if None !in w.state.slots then w
        else
          Noted(w.(state := Registered(w.state, Free(w.state.slots), m, delay, tick)), m, CheckIn(w.now, delay, false))
      case UpdateStep(m, delay) =>
        if m !in w.log || m !in w.state.records || Overdue(w.state.records[m], tick) then w
        else Noted(w.(state := Updated(w.state, m, delay, tick)), m, CheckIn(w.now, delay, true))
      case ScanStep =>
        if AllInTime(w.state, tick) then w.(lastScan := w.now, kicks := w.kicks + [w.now])
        else w.(rebooted := true)
  }

  function Waited(w: World, wait: nat): World {
    w.(now := w.now + wait)
  }

  // ---------- What every run keeps ----------

  /** Scans at most `gap` apart and delays of at most `longest`, so that no true elapsed time can reach a
      whole wrap of the tick before a scan sees it. */
  datatype Timing = Timing(gap: nat, longest: nat) {
    ghost predicate Valid() {
      gap + longest < U32
    }
  }

  ghost predicate Prompt(w: World, step: Step, t: Timing) {
    && (w.rebooted || w.now <= w.lastScan + t.gap)
    && (step.RegisterStep? || step.UpdateStep? ==> step.delay <= t.longest)
  }

  /** Each accepted update came within the delay in force since the check-in before it. */
  ghost predicate Spaced(h: seq<CheckIn>) {
    forall i :: 0 < i < |h| && h[i].byUpdate ==> h[i].time - h[i - 1].time <= h[i - 1].delay
  }

  /** At every kick, the check-in then in force was no older than its delay. */
  ghost predicate Justified(h: seq<CheckIn>, kick: nat) {
    forall i :: 0 <= i < |h| && h[i].time <= kick && (i + 1 < |h| ==> kick < h[i + 1].time) ==>
                  kick - h[i].time <= h[i].delay
  }

  /** The log of one monitor agrees with its structure. */
  ghost predicate Tracks(w: World, m: Handle, t: Timing)
    requires m in w.log
  {
    && w.log[m] != [] && m in w.state.records
    && w.state.records[m] == Record(w.Last(m).time % U32, w.Last(m).delay)
    && w.Last(m).delay <= t.longest
    && (forall i :: 0 <= i < |w.log[m]| ==> w.log[m][i].time <= w.now)
    && (!w.rebooted ==> w.lastScan <= w.Last(m).time + w.Last(m).delay)
    && Spaced(w.log[m])
    && forall k :: 0 <= k < |w.kicks| ==> Justified(w.log[m], w.kicks[k])
  }

  ghost predicate Sound(w: World, t: Timing) {
    && w.state.Valid() && w.lastScan <= w.now
    && (forall k :: 0 <= k < |w.kicks| ==> w.kicks[k] <= w.now)
    && (forall m :: m in w.log ==> Tracks(w, m, t))
    && (forall m :: m in w.log <==> w.state.Watched(m))
  }

  /** What the comparison of ticks really tests: the true time since the check-in, less whole wraps. A late
      monitor is taken for one in time exactly if it is late by so many wraps that the rest is within its
      delay, which is why scans have to come often enough. */
  lemma OverdueModuloWrap(start: nat, wait: nat, delay: nat)
    ensures Overdue(Record(start % U32, delay), (start + wait) % U32) <==> wait % U32 > delay
  {
  }

  /** On a tick that wraps, a registered monitor is found overdue exactly when it truly is. */
  lemma OverdueIffLate(w: World, m: Handle, t: Timing)
    requires t.Valid() && Sound(w, t) && m in w.log && !w.rebooted && w.now <= w.lastScan + t.gap
    ensures Overdue(w.state.records[m], w.now % U32) <==> w.Late(m)
  {
    hide Overdue, Spaced, Justified;
    assert Tracks(w, m, t);
    var c := w.Last(m);
    assert c.time <= w.now;
    OverdueModuloWrap(c.time, w.now - c.time, c.delay);
    BelowWrap(w.now - c.time);
  }

  /** A scan kicks exactly when every registered monitor is truly in time. */
  lemma KickIffAllInTime(w: World, t: Timing)
    requires t.Valid() && Sound(w, t) && !w.rebooted && w.now <= w.lastScan + t.gap
    ensures AllInTime(w.state, w.now % U32) <==> forall m :: m in w.log ==> !w.Late(m)
  {
    hide Overdue, World.Late;
    var tick := w.now % U32;
    forall m | m in w.log ensures Overdue(w.state.records[m], tick) <==> w.Late(m) { OverdueIffLate(w, m, t); }
    if AllInTime(w.state, tick) {
      forall m | m in w.log ensures !w.Late(m) {
        assert w.state.Watched(m);
        var a :| 0 <= a < SLOTS && w.state.slots[a] == Some(m);
      }
    }
    if forall m :: m in w.log ==> !w.Late(m) {
      forall a | 0 <= a < SLOTS && w.state.slots[a].Some?
        ensures !Overdue(w.state.records[w.state.slots[a].value], tick)
      {
        assert w.state.Watched(w.state.slots[a].value);
      }
    }
  }

  lemma WaitingKeeps(w: World, wait: nat, t: Timing)
    requires Sound(w, t)
    ensures Sound(Waited(w, wait), t)
  {
  }

  /** A new check-in at the present moment keeps the spacing and the kicks justified. */
  lemma CheckInKeeps(h: seq<CheckIn>, c: CheckIn, kick: nat)
    requires kick <= c.time && (h != [] ==> Justified(h, kick))
    ensures Justified(h + [c], kick)
  {
  }

  lemma SpacedKeeps(h: seq<CheckIn>, c: CheckIn)
    requires Spaced(h) && (c.byUpdate && h != [] ==> c.time - h[|h| - 1].time <= h[|h| - 1].delay)
    ensures Spaced(h + [c])
  {
  }

  /** A check-in written to the table and to the log. */
  lemma NotedKeeps(w: World, s: State, m: Handle, delay: nat, byUpdate: bool, t: Timing)
    requires t.Valid() && Sound(w, t) && !w.rebooted && delay <= t.longest && s.Valid()
    requires s.records == w.state.records[m := Record(w.now % U32, delay)]
    requires forall n :: s.Watched(n) <==> n == m || w.state.Watched(n)
    requires byUpdate ==> m in w.log && !w.Late(m)
    ensures Sound(Noted(w.(state := s), m, CheckIn(w.now, delay, byUpdate)), t)
  {
    var c := CheckIn(w.now, delay, byUpdate);
    var v := Noted(w.(state := s), m, c);
    var h := if m in w.log then w.log[m] else [];
    if m in w.log { assert Tracks(w, m, t); }
    SpacedKeeps(h, c);
    forall k | 0 <= k < |v.kicks| ensures Justified(h + [c], v.kicks[k]) { CheckInKeeps(h, c, v.kicks[k]); }
    assert v.log[m] == h + [c];
    assert Tracks(v, m, t);
    forall n | n in v.log ensures Tracks(v, n, t) {
      if n != m { assert Tracks(w, n, t); }
    }
    assert forall n :: s.Watched(n) == v.state.Watched(n);
  }

  lemma RegisteredWatched(s: State, a: nat, m: Handle, delay: nat, tick: nat)
    requires s.Valid() && FirstFree(s.slots, a)
    ensures Registered(s, a, m, delay, tick).Valid()
    ensures forall n :: Registered(s, a, m, delay, tick).Watched(n) <==> n == m || s.Watched(n)
  {
    var r := Registered(s, a, m, delay, tick);
    forall n ensures r.Watched(n) <==> n == m || s.Watched(n) {
      assert r.slots[a] == Some(m);
      if s.Watched(n) {
        var b :| 0 <= b < SLOTS && s.slots[b] == Some(n);
        assert r.slots[b] == Some(n);
      }
    }
  }

  lemma ScanKeeps(w: World, t: Timing)
    requires t.Valid() && Sound(w, t) && Prompt(w, ScanStep, t) && !w.rebooted
    ensures Sound(Taken(w, ScanStep), t)
  {
    var v := Taken(w, ScanStep);
    KickIffAllInTime(w, t);
    forall m | m in v.log ensures Tracks(v, m, t) {
      assert Tracks(w, m, t);
      var h := w.log[m];
      if !v.rebooted {
        assert !w.Late(m);
        assert Justified(h, w.now);
        forall k | 0 <= k < |v.kicks| ensures Justified(h, v.kicks[k]) {
          if k < |w.kicks| { assert v.kicks[k] == w.kicks[k]; }
        }
      }
    }
    assert forall m :: w.state.Watched(m) == v.state.Watched(m);
  }

  /** Every step, in any order, keeps the world sound: accepted updates never further apart than the delay
      then in force, and no kick with a registered monitor past its deadline. */
  lemma StepKeeps(w: World, step: Step, t: Timing)
    requires t.Valid() && Sound(w, t) && Prompt(w, step, t)
    ensures Sound(Taken(w, step), t)
  {
    if !w.rebooted {
      match step
      case RegisterStep(m, delay) =>
        if None in w.state.slots {
          var a := Free(w.state.slots);
          RegisteredWatched(w.state, a, m, delay, w.now % U32);
          NotedKeeps(w, Registered(w.state, a, m, delay, w.now % U32), m, delay, false, t);
        }
      case UpdateStep(m, delay) =>
        if m in w.log {
          assert Tracks(w, m, t);
          OverdueIffLate(w, m, t);
          if !w.Late(m) {
            var s := Updated(w.state, m, delay, w.now % U32);
            assert forall n :: s.Watched(n) == w.state.Watched(n);
            assert w.state.Watched(m);
            NotedKeeps(w, s, m, delay, true, t);
          }
        }
      case ScanStep =>
        ScanKeeps(w, t);
    }
  }

  /** What a step does, in true time. A registration takes effect exactly if there is a free slot; an update of
      a registered monitor exactly if it is not late; and a check-in that takes effect is the last one, with
      the moment and the delay it brings. */
  lemma StepTakesEffect(w: World, m: Handle, delay: nat, t: Timing)
    requires t.Valid() && Sound(w, t) && !w.rebooted && w.now <= w.lastScan + t.gap && delay <= t.longest
    ensures var v := Taken(w, RegisterStep(m, delay));
            if None in w.state.slots then
              v.log == w.log[m := (if m in w.log then w.log[m] else []) + [CheckIn(w.now, delay, false)]]
            else v == w
    ensures var v := Taken(w, UpdateStep(m, delay));
            if m in w.log && !w.Late(m) then v.log == w.log[m := w.log[m] + [CheckIn(w.now, delay, true)]] else v == w
  {
    if m in w.log {
      assert Tracks(w, m, t);
      OverdueIffLate(w, m, t);
    }
    hide Overdue, World.Late, Registered, Updated;
  }

  datatype Turn = Turn(wait: nat, step: Step)

  ghost function Played(w: World, turns: seq<Turn>): (v: World)
    requires w.state.Valid()
    ensures v.state.Valid()
    decreases |turns|
  {
    if turns == [] then w else Played(Taken(Waited(w, turns[0].wait), turns[0].step), turns[1..])
  }

  /** Every step of the run comes within the gap since the latest scan. */
  ghost predicate PromptRun(w: World, turns: seq<Turn>, t: Timing)
    requires w.state.Valid()
    decreases |turns|
  {
    turns == [] ||
    var v := Waited(w, turns[0].wait);
    Prompt(v, turns[0].step, t) && PromptRun(Taken(v, turns[0].step), turns[1..], t)
  }

  lemma {:induction false} PlayedSound(w: World, turns: seq<Turn>, t: Timing)
    requires t.Valid() && Sound(w, t) && PromptRun(w, turns, t)
    ensures Sound(Played(w, turns), t)
    decreases |turns|
  {
    hide Sound;
    if turns != [] {
      PromptFirst(w, turns, t);
      WaitingKeeps(w, turns[0].wait, t);
      StepKeeps(Waited(w, turns[0].wait), turns[0].step, t);
      PlayedSound(Taken(Waited(w, turns[0].wait), turns[0].step), turns[1..], t);
    }
  }

  /** The monitors at the start of the thread. */
  function Booted(records: map<Handle, Record>): World {
    World(0, 0, State(seq(SLOTS, _ => None), records), map[], [], false)
  }

  /** Over any run from the start: accepted updates are never further apart than the delay then in force, and
      at every kick no check-in still in force was older than its delay (unless a newer one came with the same
      tick). */
  lemma RunSafety(records: map<Handle, Record>, turns: seq<Turn>, t: Timing, m: Handle)
    requires t.Valid() && PromptRun(Booted(records), turns, t)
    ensures var w := Played(Booted(records), turns);
            m in w.log ==> Spaced(w.log[m]) && forall k :: 0 <= k < |w.kicks| ==> Justified(w.log[m], w.kicks[k])
  {
    BootedSound(records, t);
    PlayedSound(Booted(records), turns, t);
    var w := Played(Booted(records), turns);
    hide Played, PromptRun;
    if m in w.log { assert Tracks(w, m, t); }
  }

  lemma BootedSound(records: map<Handle, Record>, t: Timing)
    ensures Sound(Booted(records), t)
  {
  }

  /** Once a monitor has missed its deadline, nothing but registering it anew helps: no update revives it,
      there is no further kick, and the first scan reboots the device. */
  lemma {:induction false} LateIsFinal(w: World, turns: seq<Turn>, t: Timing, m: Handle)
    requires t.Valid() && Sound(w, t) && PromptRun(w, turns, t) && m in w.log && w.log[m] != [] && w.Late(m)
    requires forall i :: 0 <= i < |turns| && turns[i].step.RegisterStep? ==> turns[i].step.m != m
    ensures var v := Played(w, turns);
            && v.kicks == w.kicks && m in v.log && v.log[m] == w.log[m]
            && ((exists i :: 0 <= i < |turns| && turns[i].step == ScanStep) ==> v.rebooted)
    decreases |turns|
  {
    hide Sound, PromptRun;
    if turns != [] {
      var v := Waited(w, turns[0].wait);
      PromptFirst(w, turns, t);
      WaitingKeeps(w, turns[0].wait, t);
      StepKeeps(v, turns[0].step, t);
      var u := Taken(v, turns[0].step);
      LateStep(v, turns[0].step, t, m);
      LateIsFinal(u, turns[1..], t, m);
      if w.rebooted || turns[0].step == ScanStep { RebootedStays(u, turns[1..], t); }
      assert forall i :: 1 <= i < |turns| ==> turns[1..][i - 1] == turns[i];
    }
  }

  lemma PromptFirst(w: World, turns: seq<Turn>, t: Timing)
    requires Sound(w, t) && turns != [] && PromptRun(w, turns, t)
    ensures var v := Waited(w, turns[0].wait);
            && w.state.Valid() && Prompt(v, turns[0].step, t)
            && Taken(v, turns[0].step).state.Valid()
            && PromptRun(Taken(v, turns[0].step), turns[1..], t)
  {
  }

  lemma LateStep(w: World, step: Step, t: Timing, m: Handle)
    requires t.Valid() && Sound(w, t) && Prompt(w, step, t) && m in w.log && w.log[m] != [] && w.Late(m)
    requires w.state.Valid() && (step.RegisterStep? ==> step.m != m)
    ensures var v := Taken(w, step);
            && v.kicks == w.kicks && m in v.log && v.log[m] == w.log[m] && v.Late(m)
            && (w.rebooted || step == ScanStep ==> v.rebooted)
  {
    hide Sound, Overdue, AllInTime, Registered, Updated;
    if !w.rebooted {
      OverdueIffLate(w, m, t);
      KickIffAllInTime(w, t);
    }
  }

  lemma {:induction false} RebootedStays(w: World, turns: seq<Turn>, t: Timing)
    requires t.Valid() && Sound(w, t) && PromptRun(w, turns, t) && w.rebooted
    ensures Played(w, turns).rebooted
    decreases |turns|
  {
    hide Sound, PromptRun;
    if turns != [] {
      PromptFirst(w, turns, t);
      WaitingKeeps(w, turns[0].wait, t);
      StepKeeps(Waited(w, turns[0].wait), turns[0].step, t);
      RebootedStays(Taken(Waited(w, turns[0].wait), turns[0].step), turns[1..], t);
    }
  }

  // ---------- What each scan decides ----------

  ghost predicate NoneLate(w: World) {
    forall m :: m in w.log ==> w.log[m] != [] && !w.Late(m)
  }

  /** A scan at this moment kicks exactly if every registered monitor is truly in time, and reboots
      otherwise. */
  ghost predicate Honest(w: World)
    requires w.state.Valid()
  {
    var v := Taken(w, ScanStep);
    && (v.kicks == w.kicks + [w.now] <==> NoneLate(w))
    && (v.rebooted <==> !NoneLate(w))
  }

  /** The world in which step k of a run is taken. */
  ghost function Before(w: World, turns: seq<Turn>, k: nat): (v: World)
    requires w.state.Valid() && k < |turns|
    ensures v.state.Valid()
  {
    Waited(Played(w, turns[..k]), turns[k].wait)
  }

  lemma HonestWhenPrompt(w: World, t: Timing)
    requires t.Valid() && Sound(w, t) && Prompt(w, ScanStep, t) && !w.rebooted
    ensures Honest(w)
  {
    KickIffAllInTime(w, t);
    forall m | m in w.log ensures w.log[m] != [] { assert Tracks(w, m, t); }
    hide Sound, AllInTime, World.Late;
  }

  /** In every prompt run each scan decides rightly, until one reboots the device. */
  lemma {:induction false} ScansDecide(w: World, turns: seq<Turn>, t: Timing, k: nat)
    requires t.Valid() && Sound(w, t) && PromptRun(w, turns, t)
    requires k < |turns| && turns[k].step == ScanStep && !Before(w, turns, k).rebooted
    ensures Honest(Before(w, turns, k))
    decreases |turns|
  {
    hide Sound, Honest, PromptRun;
    PromptFirst(w, turns, t);
    var v := Waited(w, turns[0].wait);
    WaitingKeeps(w, turns[0].wait, t);
    if k == 0 {
      HonestWhenPrompt(v, t);
    } else {
      StepKeeps(v, turns[0].step, t);
      assert turns[..k][1..] == turns[1..][..k - 1];
      ScansDecide(Taken(v, turns[0].step), turns[1..], t, k - 1);
    }
  }

  // ---------- The exact bound ----------

  /** With this timing every scan of every run from the start decides rightly. */
  ghost predicate SafeTiming(t: Timing) {
    forall records: map<Handle, Record>, turns: seq<Turn>, k: nat ::
      && PromptRun(Booted(records), turns, t)
      && k < |turns| && turns[k].step == ScanStep && !Before(Booted(records), turns, k).rebooted ==>
        Honest(Before(Booted(records), turns, k))
  }

  lemma {:induction false} PlayedOn(w: World, a: seq<Turn>, b: seq<Turn>, t: Timing)
    requires w.state.Valid()
    ensures Played(w, a + b) == Played(Played(w, a), b)
    ensures PromptRun(w, a + b, t) <==> PromptRun(w, a, t) && PromptRun(Played(w, a), b, t)
    decreases |a|
  {
    hide Prompt, Taken;
    if a == [] {
      assert a + b == b;
    } else {
      assert (a + b)[1..] == a[1..] + b;
      PlayedOn(Taken(Waited(w, a[0].wait), a[0].step), a[1..], b, t);
    }
  }

  /** One monitor, checked in at time 0, and scans in time ever since. */
  ghost predicate Marching(w: World, delay: nat, n: nat) {
    && w.now == w.lastScan == n && !w.rebooted
    && w.state == State([Some(0), None, None, None, None], map[0 := Record(0, delay)])
    && w.log == map[0 := [CheckIn(0, delay, false)]]
  }

  function Scans(n: nat): (turns: seq<Turn>)
    ensures |turns| == n
  {
    seq(n, _ => Turn(1, ScanStep))
  }

  lemma MarchStep(w: World, t: Timing, delay: nat, n: nat)
    requires Marching(w, delay, n) && n < delay < U32 && t.gap >= 1
    ensures Prompt(Waited(w, 1), ScanStep, t) && Marching(Taken(Waited(w, 1), ScanStep), delay, n + 1)
  {
    BelowWrap(n + 1);
  }

  lemma {:induction false} March(w: World, t: Timing, delay: nat, n: nat, more: nat)
    requires Marching(w, delay, n) && n + more <= delay < U32 && t.gap >= 1
    ensures PromptRun(w, Scans(more), t) && Marching(Played(w, Scans(more)), delay, n + more)
    decreases more
  {
    hide Marching, Taken, Prompt;
    if more > 0 {
      MarchValid(w, delay, n);
      MarchStep(w, t, delay, n);
      assert Scans(more)[1..] == Scans(more - 1);
      March(Taken(Waited(w, 1), ScanStep), t, delay, n + 1, more - 1);
    } else {
      MarchValid(w, delay, n);
    }
  }

  lemma MarchValid(w: World, delay: nat, n: nat)
    requires Marching(w, delay, n)
    ensures w.state.Valid()
  {
  }

  lemma MarchStarts(delay: nat)
    ensures Marching(Taken(Waited(Booted(map[]), 0), RegisterStep(0, delay)), delay, 0)
  {
    var w := Booted(map[]);
    assert w.state.slots[0] == None;
    assert Free(w.state.slots) == 0;
    var s := Registered(w.state, 0, 0, delay, 0);
    assert s.slots == [Some(0), None, None, None, None] && s.records == map[0 := Record(0, delay)];
    var v := Noted(w.(state := s), 0, CheckIn(0, delay, false));
    assert v.log[0] == [CheckIn(0, delay, false)];
    assert Taken(Waited(w, 0), RegisterStep(0, delay)) == v;
  }

  /** A scan at this moment kicks although a registered monitor is late. */
  ghost predicate Deceived(w: World)
    requires w.state.Valid()
  {
    !w.rebooted && !NoneLate(w) && Taken(w, ScanStep).kicks == w.kicks + [w.now]
  }

  /** One whole wrap after its check-in a late monitor is taken for one in time. */
  lemma WrapDeceives(w: World, delay: nat)
    requires Marching(w, delay, delay) && delay < U32
    ensures w.state.Valid() && Deceived(Waited(w, U32 - delay))
  {
    var v := Waited(w, U32 - delay);
    assert v.now == U32 && v.now % U32 == 0;
    assert 0 in v.log && v.Late(0);
    assert AllInTime(v.state, 0);
  }

  /** The bound on the timing is exact: scans decide rightly in every run exactly if gap and longest delay
      together stay below one wrap of the tick. */
  lemma SafeTimingIff(t: Timing)
    requires t.longest < U32
    ensures SafeTiming(t) <==> t.Valid()
  {
    hide Honest, PromptRun, Played, Sound;
    if t.Valid() {
      forall records: map<Handle, Record>, turns: seq<Turn>, k: nat |
        && PromptRun(Booted(records), turns, t)
        && k < |turns| && turns[k].step == ScanStep && !Before(Booted(records), turns, k).rebooted
        ensures Honest(Before(Booted(records), turns, k))
      {
        BootedSound(records, t);
        ScansDecide(Booted(records), turns, t, k);
      }
    } else {
      Deception(t);
      DeceivedNotHonest(Before(Booted(map[]), DeceptiveRun(t.longest), t.longest + 1));
    }
  }

  lemma DeceivedNotHonest(w: World)
    requires w.state.Valid() && Deceived(w)
    ensures !w.rebooted && !Honest(w)
  {
    hide NoneLate;
  }

  /** A monitor checks in once, is scanned in time, and is scanned again one wrap of the tick after that. */
  function DeceptiveRun(delay: nat): (turns: seq<Turn>)
    requires delay < U32
    ensures |turns| == delay + 2
  {
    [Turn(0, RegisterStep(0, delay))] + Scans(delay) + [Turn(U32 - delay, ScanStep)]
  }

  /** At or beyond the bound that run is prompt and ends in a kick with a late monitor. */
  lemma Deception(t: Timing)
    requires t.longest < U32 && !t.Valid()
    ensures PromptRun(Booted(map[]), DeceptiveRun(t.longest), t)
    ensures var turns, k := DeceptiveRun(t.longest), t.longest + 1;
            turns[k].step == ScanStep && Deceived(Before(Booted(map[]), turns, k))
  {
    hide Deceived;
    var w, d := Booted(map[]), t.longest;
    var first, last := [Turn(0, RegisterStep(0, d))], [Turn(U32 - d, ScanStep)];
    var turns := DeceptiveRun(d);
    MarchStarts(d);
    var u := Taken(Waited(w, 0), RegisterStep(0, d));
    FirstPlayed(w, first, u, t);
    hide Taken, Played, PromptRun;
    March(u, t, d, 0, d);
    PlayedOn(w, first, Scans(d), t);
    var v := Played(w, first + Scans(d));
    WrapDeceives(v, d);
    LastPrompt(v, last, t, d);
    PlayedOn(w, first + Scans(d), last, t);
    assert turns[..|turns| - 1] == first + Scans(d);
  }

  lemma FirstPlayed(w: World, first: seq<Turn>, u: World, t: Timing)
    requires w == Booted(map[]) && first == [Turn(0, RegisterStep(0, t.longest))]
    requires u == Taken(Waited(w, 0), RegisterStep(0, t.longest))
    ensures Played(w, first) == u && PromptRun(w, first, t)
  {
    hide Taken;
    assert first[1..] == [];
  }

  lemma LastPrompt(v: World, last: seq<Turn>, t: Timing, d: nat)
    requires Marching(v, d, d) && d == t.longest < U32 && !t.Valid() && last == [Turn(U32 - d, ScanStep)]
    ensures v.state.Valid() && PromptRun(v, last, t)
  {
    hide Taken;
    assert last[1..] == [];
  }
}

/** The station's link state in wifi.c: driver events, the handshake timer, joining and leaving, each taken
    as one step, and what they post to the networking worker. */
module StationLink {
  import opened Common

  datatype Security =
    | OPEN | IBSS_OPEN | WPS_OPEN | WPS_SECURE | WEP_PSK | WEP_SHARED
    | WPA_TKIP_PSK | WPA_AES_PSK | WPA_MIXED_PSK | WPA2_AES_PSK | WPA2_TKIP_PSK | WPA2_MIXED_PSK
    | WPA_TKIP_ENT | WPA_AES_ENT | WPA_MIXED_ENT | WPA2_TKIP_ENT | WPA2_AES_ENT | WPA2_MIXED_ENT
    | UNKNOWN | FORCE_32_BIT
  {
    /** No EAPOL exchange follows the link event. */
    predicate Immediate() {
      OPEN? || IBSS_OPEN? || WPS_OPEN? || WPS_SECURE? || WEP_PSK? || WEP_SHARED?
    }

    /** The link is up only after the key handshake. */
    predicate Handshake() {
      !Immediate() && !UNKNOWN? && !FORCE_32_BIT?
    }
  }

  datatype Event = LinkEvent(flagUp: bool) | DeauthInd | DisassocInd | PskSup(keyed: bool) | OtherEvent

  /** What happened: posts to the worker (the first four), and the occasions for them. */
  datatype Note =
    | UpPost | RenewPost | DownPost | ErrorPost
    | Joined | Left
    | HandshakeLink  // a link event that now waits for its key handshake
    | Announced      // a handshake completed
    | ErrorRun       // the worker runs the error callback

  datatype Link = Link(up: bool, security: Security, eventReceived: bool, timer: bool, handler: bool,
                       trace: seq<Note>)

  function Noted(s: Link, n: Note): Link {
    s.(trace := s.trace + [n])
  }

  // ---------- The steps as functions ----------

  function LinkUp(s: Link): Link {
    if !s.up then Noted(s, UpPost).(up := true) else Noted(s, RenewPost)
  }

  function LinkDown(s: Link): Link {
    if s.up then Noted(s, DownPost).(up := false) else s
  }

  /** A driver event reaches the handler only while it is set, and only counts for the station. */
  function Handled(s: Link, station: bool, e: Event): Link {
    if !s.handler || !station then s
    else
      match e
      case LinkEvent(flagUp) =>
        if !flagUp then LinkDown(s)
        else if s.security.Immediate() then LinkUp(s)
        else if s.security.Handshake() then Noted(s, HandshakeLink).(eventReceived := true, timer := true)
        else s
      case DeauthInd => LinkDown(s)
      case DisassocInd => LinkDown(s)
      case PskSup(keyed) =>
        if keyed && s.eventReceived
        then LinkUp(Noted(s, Announced).(timer := false)).(eventReceived := false)
        else s
      case OtherEvent => s
  }

  function TimedOut(s: Link): Link {
    if s.timer then Noted(s, ErrorPost).(timer := false) else s
  }

  function LeftAp(s: Link, station: bool): Link {
    if station then Noted(s, Left).(up := false, handler := false) else s
  }

  function JoinedAp(s: Link, security: Security): Link {
    Noted(s, Joined).(up := true, security := security, handler := true)
  }

  /** The error callback: leave, then rejoin the first access point that accepts, if one does. */
  function ErrorHandled(s: Link, rejoined: Option<Security>): Link {
    if Queued(s.trace) == 0 then s
    else
      var left := LeftAp(Noted(s, ErrorRun), true);
      if rejoined.None? then left
      else LinkUp(left).(security := rejoined.value, handler := true)
  }

  /** Error callbacks posted and not yet run. */
  function Queued(trace: seq<Note>): int
    decreases |trace|
  {
    if trace == [] then 0
    else
      var last := trace[|trace| - 1];
      Queued(trace[..|trace| - 1]) + (if last == ErrorPost then 1 else if last == ErrorRun then -1 else 0)
  }

  // ---------- Joining ----------

  /** A stored access point: whether the entry is in use, and whether address and channel are known. */
  datatype Entry = Entry(used: bool, direct: bool, security: Security)

  /** What the driver and the flash do: whether entry a can be read in a round of tries, and whether a join
      to it, direct or by scanning, succeeds in that round. */
  datatype Outcomes = Outcomes(readable: (nat, nat) -> bool, joins: (nat, nat, bool) -> bool)

  predicate JoinSucceeds(e: Entry, retry: nat, a: nat, outcomes: Outcomes) {
    (e.direct && outcomes.joins(retry, a, true)) || outcomes.joins(retry, a, false)
  }

  /** The first access point that accepts, over the remaining rounds; a failed read ends the search. */
  function FirstJoin(aps: seq<Entry>, retries: nat, a: nat, outcomes: Outcomes): Option<Security>
    requires a <= |aps|
    decreases retries, |aps| - a
  {
    if retries == 0 then None
    else if a == |aps| then FirstJoin(aps, retries - 1, 0, outcomes)
    else if !outcomes.readable(retries, a) then None
    else if aps[a].used && JoinSucceeds(aps[a], retries, a, outcomes) then Some(aps[a].security)
    else FirstJoin(aps, retries, a + 1, outcomes)
  }

  const JOIN_RETRIES: nat := 3

  // ---------- The module ----------

  class Station {
    var staLinkUp: bool
    var staSecurityType: Security
    var linkUpEventReceived: bool
    var timerRunning: bool
    var handlerSet: bool
    var trace: seq<Note>

    ghost function Value(): Link
      reads this
    {
      Link(staLinkUp, staSecurityType, linkUpEventReceived, timerRunning, handlerSet, trace)
    }

    constructor ()
      ensures Value() == Initial()
    {
      staLinkUp, staSecurityType, linkUpEventReceived := false, UNKNOWN, false;
      timerRunning, handlerSet, trace := false, false, [];
    }

    method Post(n: Note)
      modifies this`trace
      ensures Value() == Noted(old(Value()), n)
    {
      trace := trace + [n];
    }

    method LinkUpHandler()
      modifies this`staLinkUp, this`trace
      ensures Value() == LinkUp(old(Value()))
    {
      if !staLinkUp {
        Post(UpPost);
        staLinkUp := true;
      } else {
        Post(RenewPost);
      }
    }

    method LinkDownHandler()
      modifies this`staLinkUp, this`trace
      ensures Value() == LinkDown(old(Value()))
    {
      if staLinkUp {
        Post(DownPost);
        staLinkUp := false;
      }
    }

    method LinkEventsHandler(station: bool, e: Event)
      requires handlerSet
      modifies this
      ensures Value() == Handled(old(Value()), station, e)
    {
      if !station {
        return;
      }
      match e {
        case LinkEvent(flagUp) =>
          if flagUp {
            if staSecurityType.Immediate() {
              LinkUpHandler();
            } else if staSecurityType.Handshake() {
              linkUpEventReceived := true;
              timerRunning := true;
              Post(HandshakeLink);
            }
          } else {
            LinkDownHandler();
          }
        case DeauthInd =>
          LinkDownHandler();
        case DisassocInd =>
          LinkDownHandler();
        case PskSup(keyed) =>
          if keyed && linkUpEventReceived {
            Post(Announced);
            timerRunning := false;
            LinkUpHandler();
            linkUpEventReceived := false;
          }
        case OtherEvent =>
      }
    }

    method HandshakeTimeoutHandler()
      requires timerRunning
      modifies this
      ensures Value() == TimedOut(old(Value()))
    {
      timerRunning := false;
      Post(ErrorPost);
    }

    method LeaveAp(station: bool)
      modifies this
      ensures Value() == LeftAp(old(Value()), station)
    {
      if station {
        handlerSet := false;
        staLinkUp := false;
        Post(Left);
      }
    }

    /** Join directly if address and channel are known, and otherwise or failing that by scanning. */
    method TryJoin(e: Entry, retry: nat, a: nat, outcomes: Outcomes) returns (ok: bool)
      ensures ok == JoinSucceeds(e, retry, a, outcomes)
    {
      ok := false;
      if e.direct {
        ok := outcomes.joins(retry, a, true);
      }
      if !ok {
        ok := outcomes.joins(retry, a, false);
      }
    }

    method JoinApSpecific(details: Entry, outcomes: Outcomes) returns (ok: bool)
      modifies this
      ensures ok == JoinSucceeds(details, 0, 0, outcomes)
      ensures Value() == if ok then JoinedAp(old(Value()), details.security) else old(Value())
    {
      ok := TryJoin(details, 0, 0, outcomes);
      if ok {
        staLinkUp := true;
        staSecurityType := details.security;
        handlerSet := true;
        Post(Joined);
      }
    }

    method HandshakeErrorCallback(aps: seq<Entry>, outcomes: Outcomes) returns (ok: bool)
      requires Queued(trace) > 0
      modifies this
      ensures var rejoined := FirstJoin(aps, JOIN_RETRIES, 0, outcomes);
              ok == rejoined.Some? && Value() == ErrorHandled(old(Value()), rejoined)
    {
      hide JoinSucceeds, FirstJoin, Queued;
      Post(ErrorRun);
      LeaveAp(true);
      ghost var left := Value();
      var retries := JOIN_RETRIES;
      while retries != 0
        invariant 0 <= retries && Value() == left
        invariant FirstJoin(aps, JOIN_RETRIES, 0, outcomes) == FirstJoin(aps, retries, 0, outcomes)
      {
        RoundEnds(aps, retries, outcomes);
        var a := 0;
        while a < |aps|
          invariant 0 <= a <= |aps| && Value() == left
          invariant FirstJoin(aps, JOIN_RETRIES, 0, outcomes) == FirstJoin(aps, retries, a, outcomes)
        {
          FirstJoinNext(aps, retries, a, outcomes);
          if !outcomes.readable(retries, a) {
            return false;
          }
          if aps[a].used {
            var joined := TryJoin(aps[a], retries, a, outcomes);
            if joined {
              LinkUpHandler();
              staSecurityType := aps[a].security;
              handlerSet := true;
              return true;
            }
          }
          a := a + 1;
        }
        retries := retries - 1;
      }
      NoRoundsLeft(aps, outcomes);
      return false;
    }
  }

  lemma FirstJoinNext(aps: seq<Entry>, retries: nat, a: nat, outcomes: Outcomes)
    requires retries > 0 && a < |aps|
    ensures FirstJoin(aps, retries, a, outcomes)
         == if !outcomes.readable(retries, a) then None
            else if aps[a].used && JoinSucceeds(aps[a], retries, a, outcomes) then Some(aps[a].security)
            else FirstJoin(aps, retries, a + 1, outcomes)
  {
  }

  lemma RoundEnds(aps: seq<Entry>, retries: nat, outcomes: Outcomes)
    requires retries > 0
    ensures FirstJoin(aps, retries, |aps|, outcomes) == FirstJoin(aps, retries - 1, 0, outcomes)
  {
  }

  lemma NoRoundsLeft(aps: seq<Entry>, outcomes: Outcomes)
    ensures FirstJoin(aps, 0, 0, outcomes) == None
  {
  }

  function Initial(): Link {
    Link(false, UNKNOWN, false, false, false, [])
  }

  // ---------- Runs ----------

  datatype Input =
    | Driver(station: bool, e: Event)
    | Timeout
    | ErrorCallback(rejoined: Option<Security>)
    | Join(accepted: Option<Security>)
    | Leave(station: bool)

  function Step(s: Link, i: Input): Link {
    match i
    case Driver(station, e) => Handled(s, station, e)
    case Timeout => TimedOut(s)
    case ErrorCallback(rejoined) => ErrorHandled(s, rejoined)
    case Join(accepted) => if accepted.Some? then JoinedAp(s, accepted.value) else s
    case Leave(station) => LeftAp(s, station)
  }

  function Run(inputs: seq<Input>): Link
    decreases |inputs|
  {
    if inputs == [] then Initial() else Step(Run(inputs[..|inputs| - 1]), inputs[|inputs| - 1])
  }

  /** Whether the link is up, read off the trace. */
  function UpIn(trace: seq<Note>): bool
    decreases |trace|
  {
    if trace == [] then false
    else
      match trace[|trace| - 1]
      case UpPost => true
      case Joined => true
      case DownPost => false
      case Left => false
      case _ => UpIn(trace[..|trace| - 1])
  }

  /** Whether a link event waits for its handshake. */
  function WaitingIn(trace: seq<Note>): bool
    decreases |trace|
  {
    if trace == [] then false
    else
      match trace[|trace| - 1]
      case HandshakeLink => true
      case Announced => false
      case _ => WaitingIn(trace[..|trace| - 1])
  }

  /** Whether the handshake timer runs. */
  function TimerIn(trace: seq<Note>): bool
    decreases |trace|
  {
    if trace == [] then false
    else
      match trace[|trace| - 1]
      case HandshakeLink => true
      case Announced => false
      case ErrorPost => false
      case _ => TimerIn(trace[..|trace| - 1])
  }

  /** A note may follow a trace: posts only on a change, announcements only for a waiting link event,
      error posts only from a running timer, error callbacks only once posted. */
  predicate MayFollow(trace: seq<Note>, n: Note) {
    match n
    case UpPost => !UpIn(trace)
    case RenewPost => UpIn(trace)
    case DownPost => UpIn(trace)
    case Announced => WaitingIn(trace)
    case ErrorPost => TimerIn(trace)
    case ErrorRun => Queued(trace) > 0
    case _ => true
  }

  ghost predicate Orderly(trace: seq<Note>) {
    forall k :: 0 <= k < |trace| ==> MayFollow(trace[..k], trace[k])
  }

  /** The module's flags agree with the history. */
  ghost predicate Consistent(s: Link) {
    && s.up == UpIn(s.trace)
    && s.eventReceived == WaitingIn(s.trace)
    && s.timer == TimerIn(s.trace)
    && Orderly(s.trace)
  }

  lemma AddNote(trace: seq<Note>, n: Note)
    requires Orderly(trace) && MayFollow(trace, n)
    ensures Orderly(trace + [n])
    ensures var t := trace + [n];
            && UpIn(t) == (n == UpPost || n == Joined || (n != DownPost && n != Left && UpIn(trace)))
            && WaitingIn(t) == (n == HandshakeLink || (n != Announced && WaitingIn(trace)))
            && TimerIn(t) == (n == HandshakeLink || (n != Announced && n != ErrorPost && TimerIn(trace)))
  {
    var t := trace + [n];
    assert t[..|trace|] == trace;
    forall k | 0 <= k < |t| ensures MayFollow(t[..k], t[k]) {
      if k < |trace| { assert t[..k] == trace[..k]; }
    }
  }

  lemma LinkUpConsistent(s: Link)
    requires Orderly(s.trace) && s.up == UpIn(s.trace)
    requires s.timer == TimerIn(s.trace)
    ensures var t := LinkUp(s);
            && Orderly(t.trace) && t.up == UpIn(t.trace) && t.timer == TimerIn(t.trace)
            && WaitingIn(t.trace) == WaitingIn(s.trace)
  {
    hide Orderly, UpIn, WaitingIn, TimerIn;
    AddNote(s.trace, if s.up then RenewPost else UpPost);
  }

  lemma LinkDownConsistent(s: Link)
    requires Consistent(s)
    ensures Consistent(LinkDown(s))
  {
    hide Orderly, UpIn, WaitingIn, TimerIn;
    if s.up { AddNote(s.trace, DownPost); }
  }

  /** Every step keeps the flags and the history in agreement. */
  lemma StepConsistent(s: Link, i: Input)
    requires Consistent(s)
    ensures Consistent(Step(s, i))
  {
    hide Orderly, UpIn, WaitingIn, TimerIn;
    match i
    case Driver(station, e) => HandledConsistent(s, station, e);
    case Timeout => if s.timer { AddNote(s.trace, ErrorPost); }
    case ErrorCallback(rejoined) => ErrorConsistent(s, rejoined);
    case Join(accepted) => if accepted.Some? { AddNote(s.trace, Joined); }
    case Leave(station) => if station { AddNote(s.trace, Left); }
  }

  lemma HandledConsistent(s: Link, station: bool, e: Event)
    requires Consistent(s)
    ensures Consistent(Handled(s, station, e))
  {
    hide Orderly, UpIn, WaitingIn, TimerIn;
    LinkUpConsistent(s);
    LinkDownConsistent(s);
    AddNote(s.trace, HandshakeLink);
    if s.eventReceived {
      AddNote(s.trace, Announced);
      LinkUpConsistent(Noted(s, Announced).(timer := false));
    }
  }

  lemma ErrorConsistent(s: Link, rejoined: Option<Security>)
    requires Consistent(s)
    ensures Consistent(ErrorHandled(s, rejoined))
  {
    hide Orderly, UpIn, WaitingIn, TimerIn, Queued;
    if Queued(s.trace) > 0 {
      AddNote(s.trace, ErrorRun);
      AddNote(s.trace + [ErrorRun], Left);
      LinkUpConsistent(LeftAp(Noted(s, ErrorRun), true));
    } else {
      QueuedNonNegative(s.trace);
    }
  }

  lemma {:induction false} QueuedNonNegative(trace: seq<Note>)
    requires Orderly(trace)
    ensures Queued(trace) >= 0
    decreases |trace|
  {
    if trace != [] {
      var n := |trace| - 1;
      assert forall k :: 0 <= k < n ==> trace[..n][..k] == trace[..k] && trace[..n][k] == trace[k];
      QueuedNonNegative(trace[..n]);
      assert MayFollow(trace[..n], trace[n]);
    }
  }

  lemma {:induction false} RunConsistent(inputs: seq<Input>)
    ensures Consistent(Run(inputs))
    decreases |inputs|
  {
    hide Consistent, Step;
    if inputs == [] {
      InitialConsistent();
    } else {
      RunConsistent(inputs[..|inputs| - 1]);
      StepConsistent(Run(inputs[..|inputs| - 1]), inputs[|inputs| - 1]);
    }
  }

  lemma InitialConsistent()
    ensures Consistent(Initial())
  {
  }

  // ---------- What the worker sees ----------

  ghost predicate Between(trace: seq<Note>, i: nat, j: nat, notes: set<Note>)
    requires j <= |trace|
  {
    exists k :: i < k < j && trace[k] in notes
  }

  lemma {:induction false} StaysUp(trace: seq<Note>, i: nat, j: nat)
    requires i < j <= |trace| && trace[i] in {UpPost, Joined} && !Between(trace, i, j, {DownPost, Left})
    ensures UpIn(trace[..j])
    decreases j
  {
    assert trace[..j][..j - 1] == trace[..j - 1];
    if j - 1 > i {
      assert !Between(trace, i, j - 1, {DownPost, Left});
      StaysUp(trace, i, j - 1);
      assert trace[j - 1] !in {DownPost, Left};
    }
  }

  lemma {:induction false} StaysDown(trace: seq<Note>, i: nat, j: nat)
    requires i < j <= |trace| && trace[i] in {DownPost, Left} && !Between(trace, i, j, {UpPost, Joined})
    ensures !UpIn(trace[..j])
    decreases j
  {
    assert trace[..j][..j - 1] == trace[..j - 1];
    if j - 1 > i {
      assert !Between(trace, i, j - 1, {UpPost, Joined});
      StaysDown(trace, i, j - 1);
      assert trace[j - 1] !in {UpPost, Joined};
    }
  }

  /** The trace up to j has a link event that called for a handshake and no announcement after it. */
  ghost predicate Unanswered(trace: seq<Note>, j: nat)
    requires j <= |trace|
  {
    exists k :: 0 <= k < j && trace[k] == HandshakeLink && !Between(trace, k, j, {Announced})
  }

  lemma {:induction false} WaitingIsUnanswered(trace: seq<Note>, j: nat)
    requires j <= |trace|
    ensures WaitingIn(trace[..j]) <==> Unanswered(trace, j)
    decreases j
  {
    if j > 0 {
      assert trace[..j][..j - 1] == trace[..j - 1];
      var last := trace[j - 1];
      WaitingIsUnanswered(trace, j - 1);
      if last == HandshakeLink {
        assert !Between(trace, j - 1, j, {Announced});
      } else if last == Announced {
        forall k | 0 <= k < j && trace[k] == HandshakeLink ensures Between(trace, k, j, {Announced}) {
          assert k < j - 1;
        }
      } else {
        forall k | 0 <= k < j - 1 ensures Between(trace, k, j, {Announced}) == Between(trace, k, j - 1, {Announced}) {}
      }
    }
  }

  /** In every run, two link-up posts have a link-down post or a leave between them. */
  lemma UpPostsSeparated(inputs: seq<Input>, i: nat, j: nat)
    requires i < j < |Run(inputs).trace|
    requires Run(inputs).trace[i] == UpPost && Run(inputs).trace[j] == UpPost
    ensures Between(Run(inputs).trace, i, j, {DownPost, Left})
  {
    var trace := Run(inputs).trace;
    RunConsistent(inputs);
    hide Run;
    assert MayFollow(trace[..j], trace[j]);
    if !Between(trace, i, j, {DownPost, Left}) { StaysUp(trace, i, j); }
  }

  /** In every run, two link-down posts have a link-up post or a successful join between them. */
  lemma DownPostsSeparated(inputs: seq<Input>, i: nat, j: nat)
    requires i < j < |Run(inputs).trace|
    requires Run(inputs).trace[i] == DownPost && Run(inputs).trace[j] == DownPost
    ensures Between(Run(inputs).trace, i, j, {UpPost, Joined})
  {
    var trace := Run(inputs).trace;
    RunConsistent(inputs);
    hide Run;
    assert MayFollow(trace[..j], trace[j]);
    if !Between(trace, i, j, {UpPost, Joined}) { StaysDown(trace, i, j); }
  }

  /** In every run, each completed handshake answers an earlier link event of its own: no other
      announcement comes between the two. */
  lemma AnnouncementsConsumeLinks(inputs: seq<Input>, j: nat)
    requires j < |Run(inputs).trace| && Run(inputs).trace[j] == Announced
    ensures Unanswered(Run(inputs).trace, j)
  {
    var trace := Run(inputs).trace;
    RunConsistent(inputs);
    hide Run;
    assert MayFollow(trace[..j], trace[j]);
    WaitingIsUnanswered(trace, j);
  }

  function Count(trace: seq<Note>, n: Note): nat
    decreases |trace|
  {
    if trace == [] then 0
    else Count(trace[..|trace| - 1], n) + (if trace[|trace| - 1] == n then 1 else 0)
  }

  lemma {:induction false} CountsOrdered(trace: seq<Note>)
    requires Orderly(trace)
    ensures Count(trace, Announced) + (if WaitingIn(trace) then 1 else 0) <= Count(trace, HandshakeLink)
    ensures Count(trace, ErrorPost) + (if TimerIn(trace) then 1 else 0) <= Count(trace, HandshakeLink)
    ensures Count(trace, ErrorRun) + Queued(trace) == Count(trace, ErrorPost)
    decreases |trace|
  {
    if trace != [] {
      var n := |trace| - 1;
      assert forall k :: 0 <= k < n ==> trace[..n][..k] == trace[..k] && trace[..n][k] == trace[k];
      CountsOrdered(trace[..n]);
      assert MayFollow(trace[..n], trace[n]);
    }
  }

  /** In every run there are at most as many announcements, and at most as many error callbacks run, as
      link events that called for a handshake. */
  lemma HandshakesBounded(inputs: seq<Input>)
    ensures var trace := Run(inputs).trace;
            && Count(trace, Announced) <= Count(trace, HandshakeLink)
            && Count(trace, ErrorRun) <= Count(trace, ErrorPost) <= Count(trace, HandshakeLink)
  {
    RunConsistent(inputs);
    hide Run;
    CountsOrdered(Run(inputs).trace);
    QueuedNonNegative(Run(inputs).trace);
  }

  // ---------- The link from the inputs alone ----------

  const NO_HANDSHAKE: set<Security> := {OPEN, IBSS_OPEN, WPS_OPEN, WPS_SECURE, WEP_PSK, WEP_SHARED}

  const WITH_HANDSHAKE: set<Security> :=
    {WPA_TKIP_PSK, WPA_AES_PSK, WPA_MIXED_PSK, WPA2_AES_PSK, WPA2_TKIP_PSK, WPA2_MIXED_PSK,
     WPA_TKIP_ENT, WPA_AES_ENT, WPA_MIXED_ENT, WPA2_TKIP_ENT, WPA2_AES_ENT, WPA2_MIXED_ENT}

  /** Driver events are heard: the latest accepted join or rejoin came after the latest leave. */
  predicate Listening(h: seq<Input>)
    decreases |h|, 0
  {
    h != [] &&
    var before, last := h[..|h| - 1], h[|h| - 1];
    if last.Join? && last.accepted.Some? then true
    else if last == Leave(true) then false
    else if last.ErrorCallback? && Owed(before) > 0 then last.rejoined.Some?
    else Listening(before)
  }

  /** The security of the latest accepted join or rejoin. */
  function JoinedAs(h: seq<Input>): Security
    decreases |h|, 0
  {
    if h == [] then UNKNOWN
    else
      var before, last := h[..|h| - 1], h[|h| - 1];
      if last.Join? && last.accepted.Some? then last.accepted.value
      else if last.ErrorCallback? && Owed(before) > 0 && last.rejoined.Some? then last.rejoined.value
      else JoinedAs(before)
  }

  /** A link event that calls for a key handshake. */
  predicate StartsHandshake(before: seq<Input>, i: Input)
    decreases |before|, 1
  {
    i == Driver(true, LinkEvent(true)) && Listening(before) && JoinedAs(before) in WITH_HANDSHAKE
  }

  /** The keyed event that completes one. */
  predicate EndsHandshake(before: seq<Input>, i: Input)
    decreases |before|, 1
  {
    i == Driver(true, PskSup(true)) && Listening(before) && Awaited(before)
  }

  predicate Awaited(h: seq<Input>)
    decreases |h|, 0
  {
    h != [] &&
    var before, last := h[..|h| - 1], h[|h| - 1];
    StartsHandshake(before, last) || (!EndsHandshake(before, last) && Awaited(before))
  }

  predicate Ticking(h: seq<Input>)
    decreases |h|, 0
  {
    h != [] &&
    var before, last := h[..|h| - 1], h[|h| - 1];
    StartsHandshake(before, last) || (last != Timeout && !EndsHandshake(before, last) && Ticking(before))
  }

  /** Error callbacks called for by timeouts and not yet run. */
  function Owed(h: seq<Input>): nat
    decreases |h|, 0
  {
    if h == [] then 0
    else
      var before, last := h[..|h| - 1], h[|h| - 1];
      if last == Timeout && Ticking(before) then Owed(before) + 1
      else if last.ErrorCallback? && Owed(before) > 0 then Owed(before) - 1
      else Owed(before)
  }

  /** An accepted join or rejoin, a link event where no handshake follows, or a completed handshake. */
  predicate BringsUp(before: seq<Input>, i: Input) {
    || (i.Join? && i.accepted.Some?)
    || (i.ErrorCallback? && i.rejoined.Some? && Owed(before) > 0)
    || (i == Driver(true, LinkEvent(true)) && Listening(before) && JoinedAs(before) in NO_HANDSHAKE)
    || EndsHandshake(before, i)
  }

  /** A leave, an error callback that runs, or a link-down, deauthentication or disassociation event. */
  predicate TakesDown(before: seq<Input>, i: Input) {
    || i == Leave(true)
    || (i.ErrorCallback? && Owed(before) > 0)
    || (i in {Driver(true, LinkEvent(false)), Driver(true, DeauthInd), Driver(true, DisassocInd)} && Listening(before))
  }

  predicate UpAfter(h: seq<Input>)
    decreases |h|
  {
    h != [] &&
    var before, last := h[..|h| - 1], h[|h| - 1];
    BringsUp(before, last) || (!TakesDown(before, last) && UpAfter(before))
  }

  /** What an input posts to the worker. */
  function Posts(before: seq<Input>, i: Input): seq<Note> {
    if i == Timeout then (if Ticking(before) then [ErrorPost] else [])
    else if i.ErrorCallback? && BringsUp(before, i) then [UpPost]
    else if i.Driver? && BringsUp(before, i) then (if UpAfter(before) then [RenewPost] else [UpPost])
    else if i.Driver? && TakesDown(before, i) then (if UpAfter(before) then [DownPost] else [])
    else []
  }

  function AllPosts(h: seq<Input>): seq<Note>
    decreases |h|
  {
    if h == [] then [] else AllPosts(h[..|h| - 1]) + Posts(h[..|h| - 1], h[|h| - 1])
  }

  /** The posts in a trace. */
  function Posted(trace: seq<Note>): seq<Note>
    decreases |trace|
  {
    if trace == [] then []
    else
      var last := trace[|trace| - 1];
      Posted(trace[..|trace| - 1]) + (if last in {UpPost, RenewPost, DownPost, ErrorPost} then [last] else [])
  }

  ghost predicate Agrees(s: Link, h: seq<Input>) {
    && s.handler == Listening(h) && s.security == JoinedAs(h)
    && s.eventReceived == Awaited(h) && s.timer == Ticking(h) && s.up == UpAfter(h)
    && Queued(s.trace) == Owed(h) && Posted(s.trace) == AllPosts(h)
  }

  lemma NoteAdds(trace: seq<Note>, n: Note)
    ensures Queued(trace + [n]) == Queued(trace) + (if n == ErrorPost then 1 else if n == ErrorRun then -1 else 0)
    ensures Posted(trace + [n])
         == Posted(trace) + (if n in {UpPost, RenewPost, DownPost, ErrorPost} then [n] else [])
  {
    assert (trace + [n])[..|trace|] == trace;
  }

  /** What a history means, by its last input. */
  lemma HistoryNext(h: seq<Input>, i: Input)
    ensures var g := h + [i];
            && Listening(g) == (if i.Join? && i.accepted.Some? then true
                                else if i == Leave(true) then false
                                else if i.ErrorCallback? && Owed(h) > 0 then i.rejoined.Some?
                                else Listening(h))
            && JoinedAs(g) == (if i.Join? && i.accepted.Some? then i.accepted.value
                              else if i.ErrorCallback? && Owed(h) > 0 && i.rejoined.Some? then i.rejoined.value
                              else JoinedAs(h))
            && Awaited(g) == (StartsHandshake(h, i) || (!EndsHandshake(h, i) && Awaited(h)))
            && Ticking(g) == (StartsHandshake(h, i) || (i != Timeout && !EndsHandshake(h, i) && Ticking(h)))
    ensures Owed(h + [i]) == (if i == Timeout && Ticking(h) then Owed(h) + 1
                              else if i.ErrorCallback? && Owed(h) > 0 then Owed(h) - 1
                              else Owed(h))
    ensures UpAfter(h + [i]) == (BringsUp(h, i) || (!TakesDown(h, i) && UpAfter(h)))
    ensures AllPosts(h + [i]) == AllPosts(h) + Posts(h, i)
  {
    assert (h + [i])[..|h|] == h;
    hide StartsHandshake, EndsHandshake, BringsUp, TakesDown, Posts;
  }

  lemma SecurityClasses(x: Security)
    ensures x.Immediate() <==> x in NO_HANDSHAKE
    ensures x.Handshake() <==> x in WITH_HANDSHAKE
  {
  }

  lemma LinkUpAgrees(s: Link)
    ensures var u := LinkUp(s);
            && u == s.(up := true, trace := u.trace)
            && Queued(u.trace) == Queued(s.trace)
            && Posted(u.trace) == Posted(s.trace) + [if s.up then RenewPost else UpPost]
  {
    NoteAdds(s.trace, if s.up then RenewPost else UpPost);
    hide Queued, Posted;
  }

  lemma LinkDownAgrees(s: Link)
    ensures var u := LinkDown(s);
            && u == s.(up := false, trace := u.trace)
            && Queued(u.trace) == Queued(s.trace)
            && Posted(u.trace) == Posted(s.trace) + if s.up then [DownPost] else []
  {
    if s.up { NoteAdds(s.trace, DownPost); } else { assert Posted(s.trace) + [] == Posted(s.trace); }
    hide Queued, Posted;
  }

  /** An input that is not heard, or asks for nothing. */
  lemma NothingHappens(s: Link, h: seq<Input>, i: Input)
    requires Agrees(s, h) && Step(s, i) == s
    requires !StartsHandshake(h, i) && !EndsHandshake(h, i) && !BringsUp(h, i) && !TakesDown(h, i)
    requires !(i.Join? && i.accepted.Some?) && i != Leave(true) && !(i.ErrorCallback? && Owed(h) > 0)
    requires i == Timeout ==> !Ticking(h)
    ensures Agrees(Step(s, i), h + [i])
  {
    hide Listening, JoinedAs, Awaited, Ticking, Owed, UpAfter, AllPosts, Queued, Posted, StartsHandshake,
         EndsHandshake, BringsUp, TakesDown;
    HistoryNext(h, i);
    assert Posts(h, i) == [];
    assert AllPosts(h) + [] == AllPosts(h);
  }

  lemma TimeoutAgrees(s: Link, h: seq<Input>)
    requires Agrees(s, h)
    ensures Agrees(Step(s, Timeout), h + [Timeout])
  {
    hide Listening, JoinedAs, Awaited, Ticking, Owed, UpAfter, AllPosts, Queued, Posted;
    if s.timer {
      HistoryNext(h, Timeout);
      NoteAdds(s.trace, ErrorPost);
    } else {
      NothingHappens(s, h, Timeout);
    }
  }

  lemma JoinAgrees(s: Link, h: seq<Input>, accepted: Option<Security>)
    requires Agrees(s, h)
    ensures Agrees(Step(s, Join(accepted)), h + [Join(accepted)])
  {
    hide Listening, JoinedAs, Awaited, Ticking, Owed, UpAfter, AllPosts, Queued, Posted;
    if accepted.Some? {
      HistoryNext(h, Join(accepted));
      NoteAdds(s.trace, Joined);
      assert AllPosts(h) + [] == AllPosts(h);
    } else {
      NothingHappens(s, h, Join(accepted));
    }
  }

  lemma LeaveAgrees(s: Link, h: seq<Input>, station: bool)
    requires Agrees(s, h)
    ensures Agrees(Step(s, Leave(station)), h + [Leave(station)])
  {
    hide Listening, JoinedAs, Awaited, Ticking, Owed, UpAfter, AllPosts, Queued, Posted;
    if station {
      HistoryNext(h, Leave(true));
      NoteAdds(s.trace, Left);
      assert AllPosts(h) + [] == AllPosts(h);
    } else {
      NothingHappens(s, h, Leave(station));
    }
  }

  lemma ErrorAgrees(s: Link, h: seq<Input>, rejoined: Option<Security>)
    requires Agrees(s, h)
    ensures Agrees(Step(s, ErrorCallback(rejoined)), h + [ErrorCallback(rejoined)])
  {
    hide Listening, JoinedAs, Awaited, Ticking, Owed, UpAfter, AllPosts, Queued, Posted, LinkUp;
    if Owed(h) > 0 {
      HistoryNext(h, ErrorCallback(rejoined));
      NoteAdds(s.trace, ErrorRun);
      NoteAdds(s.trace + [ErrorRun], Left);
      LinkUpAgrees(LeftAp(Noted(s, ErrorRun), true));
      assert AllPosts(h) + [] == AllPosts(h) && Posted(s.trace) + [] == Posted(s.trace);
    } else {
      NothingHappens(s, h, ErrorCallback(rejoined));
    }
  }

  lemma LinkEventAgrees(s: Link, h: seq<Input>)
    requires Agrees(s, h)
    ensures Agrees(Handled(s, true, LinkEvent(true)), h + [Driver(true, LinkEvent(true))])
  {
    hide Listening, JoinedAs, Awaited, Ticking, Owed, UpAfter, AllPosts, Queued, Posted, LinkUp,
         Security.Immediate, Security.Handshake;
    var i := Driver(true, LinkEvent(true));
    SecurityClasses(s.security);
    if s.handler && s.security.Immediate() {
      HistoryNext(h, i);
      LinkUpAgrees(s);
    } else if s.handler && s.security.Handshake() {
      HistoryNext(h, i);
      NoteAdds(s.trace, HandshakeLink);
      assert AllPosts(h) + [] == AllPosts(h) && Posted(s.trace) + [] == Posted(s.trace);
    } else {
      NothingHappens(s, h, i);
    }
  }

  lemma DownEventAgrees(s: Link, h: seq<Input>, e: Event)
    requires Agrees(s, h) && e in {LinkEvent(false), DeauthInd, DisassocInd}
    ensures Agrees(Handled(s, true, e), h + [Driver(true, e)])
  {
    hide Listening, JoinedAs, Awaited, Ticking, Owed, UpAfter, AllPosts, Queued, Posted, LinkDown;
    if s.handler {
      HistoryNext(h, Driver(true, e));
      LinkDownAgrees(s);
    } else {
      NothingHappens(s, h, Driver(true, e));
    }
  }

  lemma KeyedAgrees(s: Link, h: seq<Input>)
    requires Agrees(s, h)
    ensures Agrees(Handled(s, true, PskSup(true)), h + [Driver(true, PskSup(true))])
  {
    hide Listening, JoinedAs, Awaited, Ticking, Owed, UpAfter, AllPosts, Queued, Posted, LinkUp;
    var i := Driver(true, PskSup(true));
    if s.handler && s.eventReceived {
      HistoryNext(h, i);
      NoteAdds(s.trace, Announced);
      LinkUpAgrees(Noted(s, Announced).(timer := false));
      assert Posted(s.trace) + [] == Posted(s.trace);
    } else {
      NothingHappens(s, h, i);
    }
  }

  lemma StepAgrees(s: Link, h: seq<Input>, i: Input)
    requires Agrees(s, h)
    ensures Agrees(Step(s, i), h + [i])
  {
    hide Agrees, Owed, Ticking, Listening, JoinedAs, Awaited;
    match i
    case Timeout => TimeoutAgrees(s, h);
    case ErrorCallback(rejoined) => ErrorAgrees(s, h, rejoined);
    case Join(accepted) => JoinAgrees(s, h, accepted);
    case Leave(station) => LeaveAgrees(s, h, station);
    case Driver(station, e) =>
      if !station || e == OtherEvent || e == PskSup(false) {
        NothingHappens(s, h, i);
      } else {
        match e
        case LinkEvent(flagUp) => if flagUp { LinkEventAgrees(s, h); } else { DownEventAgrees(s, h, e); }
        case DeauthInd => DownEventAgrees(s, h, e);
        case DisassocInd => DownEventAgrees(s, h, e);
        case PskSup(_) => KeyedAgrees(s, h);
        case OtherEvent =>
      }
  }

  lemma {:induction false} RunAgrees(inputs: seq<Input>)
    ensures Agrees(Run(inputs), inputs)
    decreases |inputs|
  {
    hide Agrees, Step;
    if inputs == [] {
      NothingAgrees();
    } else {
      var n := |inputs| - 1;
      RunAgrees(inputs[..n]);
      StepAgrees(Run(inputs[..n]), inputs[..n], inputs[n]);
      assert inputs == inputs[..n] + [inputs[n]];
    }
  }

  lemma NothingAgrees()
    ensures Agrees(Initial(), [])
  {
  }

  /** In every run the link is up exactly if some input brought it up and none after it took it down. */
  lemma UpIff(inputs: seq<Input>)
    ensures Run(inputs).up <==>
            exists k :: 0 <= k < |inputs| && BringsUp(inputs[..k], inputs[k])
                     && forall j :: k < j < |inputs| ==> !TakesDown(inputs[..j], inputs[j])
  {
    RunAgrees(inputs);
    UpAfterIff(inputs);
    hide Run, UpAfter, BringsUp, TakesDown;
  }

  lemma {:induction false} UpAfterIff(h: seq<Input>)
    ensures UpAfter(h) <==>
            exists k :: 0 <= k < |h| && BringsUp(h[..k], h[k])
                     && forall j :: k < j < |h| ==> !TakesDown(h[..j], h[j])
    decreases |h|
  {
    hide BringsUp, TakesDown;
    if h != [] {
      var n := |h| - 1;
      var before := h[..n];
      UpAfterIff(before);
      assert forall k :: 0 <= k < n ==> before[..k] == h[..k] && before[k] == h[k];
      if BringsUp(before, h[n]) {
        assert BringsUp(h[..n], h[n]);
      } else if !TakesDown(before, h[n]) && UpAfter(before) {
        var k :| 0 <= k < n && BringsUp(before[..k], before[k])
              && forall j :: k < j < n ==> !TakesDown(before[..j], before[j]);
        assert BringsUp(h[..k], h[k]);
        forall j | k < j < |h| ensures !TakesDown(h[..j], h[j]) {
          if j < n { assert before[..j] == h[..j]; }
        }
      }
    }
  }

  /** In every run what is posted to the worker is, input by input, what the inputs call for: one post for each
      change of the link by an event or a rejoin, a renewal where it was up already, one error callback for each
      timeout of a running handshake timer, and nothing else. */
  lemma PostsFollowInputs(inputs: seq<Input>)
    ensures Posted(Run(inputs).trace) == AllPosts(inputs)
  {
    RunAgrees(inputs);
    hide Run, AllPosts, Posted;
  }

  /** Where a handshake is to follow, a link event alone posts nothing and leaves the link as it was. */
  lemma LinkEventAlone(inputs: seq<Input>, station: bool)
    requires JoinedAs(inputs) in WITH_HANDSHAKE
    ensures var after := Run(inputs + [Driver(station, LinkEvent(true))]);
            Posted(after.trace) == Posted(Run(inputs).trace) && after.up == Run(inputs).up
  {
    var i := Driver(station, LinkEvent(true));
    RunAgrees(inputs);
    RunAgrees(inputs + [i]);
    hide Listening, JoinedAs, Awaited, Ticking, Owed, UpAfter, AllPosts, Queued, Posted, Run;
    HistoryNext(inputs, i);
    assert !BringsUp(inputs, i) && !TakesDown(inputs, i);
    hide BringsUp, TakesDown;
    assert Posts(inputs, i) == [];
    assert AllPosts(inputs) + [] == AllPosts(inputs);
  }

  // ---------- Which access point is rejoined ----------

  /** An entry in use that accepts, directly or by scanning. */
  predicate Accepts(aps: seq<Entry>, r: nat, a: nat, outcomes: Outcomes)
    requires a < |aps|
  {
    aps[a].used && ((aps[a].direct && outcomes.joins(r, a, true)) || outcomes.joins(r, a, false))
  }

  /** The first attempt that is not refused decides: an entry that accepts is rejoined, one that cannot be read
      ends the search. Attempts go through the entries in order, round after round; each round is named by the
      number of rounds left. */
  lemma {:induction false} FirstJoinIs(aps: seq<Entry>, rounds: nat, from: nat, r: nat, a: nat, outcomes: Outcomes)
    requires from <= |aps| && 0 < r <= rounds && a < |aps| && (r == rounds ==> from <= a)
    requires forall x, y :: r <= x <= rounds && 0 <= y < |aps| && (x == rounds ==> from <= y) && (x == r ==> y < a) ==>
               outcomes.readable(x, y) && !Accepts(aps, x, y, outcomes)
    ensures !outcomes.readable(r, a) ==> FirstJoin(aps, rounds, from, outcomes) == None
    ensures outcomes.readable(r, a) && Accepts(aps, r, a, outcomes) ==>
              FirstJoin(aps, rounds, from, outcomes) == Some(aps[a].security)
    decreases rounds, |aps| - from
  {
    if from == |aps| {
      FirstJoinIs(aps, rounds - 1, 0, r, a, outcomes);
    } else if !(r == rounds && a == from) {
      assert outcomes.readable(rounds, from) && !Accepts(aps, rounds, from, outcomes);
      FirstJoinIs(aps, rounds, from + 1, r, a, outcomes);
    }
  }

  /** If every attempt of three rounds is refused, none is rejoined. */
  lemma NoneAccepts(aps: seq<Entry>, outcomes: Outcomes)
    requires forall x, y :: 1 <= x <= 3 && 0 <= y < |aps| ==> outcomes.readable(x, y) && !Accepts(aps, x, y, outcomes)
    ensures FirstJoin(aps, JOIN_RETRIES, 0, outcomes) == None
  {
    AllRefused(aps, 3, 0, outcomes);
  }

  lemma {:induction false} AllRefused(aps: seq<Entry>, rounds: nat, from: nat, outcomes: Outcomes)
    requires from <= |aps|
    requires forall x, y :: 1 <= x <= rounds && 0 <= y < |aps| ==>
               outcomes.readable(x, y) && !Accepts(aps, x, y, outcomes)
    ensures FirstJoin(aps, rounds, from, outcomes) == None
    decreases rounds, |aps| - from
  {
    if rounds > 0 {
      if from == |aps| {
        AllRefused(aps, rounds - 1, 0, outcomes);
      } else {
        assert outcomes.readable(rounds, from) && !Accepts(aps, rounds, from, outcomes);
        AllRefused(aps, rounds, from + 1, outcomes);
      }
    }
  }

  /** An attempt of any of three rounds that is the first not refused is rejoined. */
  lemma ThreeRounds(aps: seq<Entry>, r: nat, a: nat, outcomes: Outcomes)
    requires 1 <= r <= 3 && a < |aps| && outcomes.readable(r, a) && Accepts(aps, r, a, outcomes)
    requires forall x, y :: r <= x <= 3 && 0 <= y < |aps| && (x == r ==> y < a) ==>
               outcomes.readable(x, y) && !Accepts(aps, x, y, outcomes)
    ensures FirstJoin(aps, JOIN_RETRIES, 0, outcomes) == Some(aps[a].security)
  {
    FirstJoinIs(aps, 3, 0, r, a, outcomes);
  }
}

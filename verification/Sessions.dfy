/**
 * Warm decrypt sessions of the daemon (packages/encryption-binary-rust/src/daemon.rs): the manager's
 * fields and methods, and the interleaving of decrypts, invalidations and pruning on it.
 *
 * Time is a number of nanoseconds; an `Instant` is the time it was taken at.
 */
module Sessions {
  import opened Outcomes

  const SESSION_TIMEOUT: nat := 5 * 60 * 1_000_000_000
  const DAEMON_INACTIVITY_TIMEOUT: nat := 30 * 60 * 1_000_000_000

  function Elapsed(since: nat, now: nat): nat {
    if now < since then 0 else now - since
  }

  function SessionKey(ttyId: Option<string>): string {
    match ttyId
    case Some(id) => id
    case None => "__no_tty__"
  }

  /** Two connections share a session when they come from one terminal; `__no_tty__` is taken for none. */
  predicate SameTerminal(a: Option<string>, b: Option<string>) {
    a == b || (a in {None, Some("__no_tty__")} && b in {None, Some("__no_tty__")})
  }

  lemma TerminalsHaveKeys(a: Option<string>, b: Option<string>)
    ensures SessionKey(a) == SessionKey(b) <==> SameTerminal(a, b)
  {
  }

  predicate IsWarm(sessions: map<string, nat>, key: string, now: nat) {
    key in sessions && Elapsed(sessions[key], now) < SESSION_TIMEOUT
  }

  /** Whether a decrypt from the terminal would ask for presence at time `t`. */
  predicate Asks(biometrics: bool, sessions: map<string, nat>, ttyId: Option<string>, t: nat) {
    biometrics && !IsWarm(sessions, SessionKey(ttyId), t)
  }

  function Pruned(sessions: map<string, nat>, now: nat): map<string, nat> {
    map key | key in sessions && Elapsed(sessions[key], now) < SESSION_TIMEOUT :: sessions[key]
  }

  // ----- the manager

  class SessionManager {
    var activeSessions: map<string, nat>
    var lastActivity: nat
    const biometricAvailable: bool

    constructor (biometricAvailable: bool, now: nat)
      ensures activeSessions == map[] && lastActivity == now && this.biometricAvailable == biometricAvailable
      ensures forall ttyId, t :: Asks(biometricAvailable, activeSessions, ttyId, t) == biometricAvailable
    {
      activeSessions := map[];
      lastActivity := now;
      this.biometricAvailable := biometricAvailable;
    }

    method NoteActivity(now: nat)
      modifies this`lastActivity
      ensures lastActivity == now
    {
      lastActivity := now;
    }

    method IsSessionWarm(ttyId: Option<string>, now: nat) returns (warm: bool)
      ensures warm == IsWarm(activeSessions, SessionKey(ttyId), now)
    {
      var key := SessionKey(ttyId);
      if key in activeSessions {
        warm := Elapsed(activeSessions[key], now) < SESSION_TIMEOUT;
      } else {
        warm := false;
      }
    }

    method MarkSessionWarm(ttyId: Option<string>, now: nat)
      modifies this`activeSessions
      ensures activeSessions == old(activeSessions)[SessionKey(ttyId) := now]
      ensures forall other, t ::
        Asks(biometricAvailable, activeSessions, other, t) ==
          if !SameTerminal(other, ttyId) then Asks(biometricAvailable, old(activeSessions), other, t)
          else biometricAvailable && now + 300_000_000_000 <= t
    {
      activeSessions := activeSessions[SessionKey(ttyId) := now];
    }

    method InvalidateAll()
      modifies this`activeSessions
      ensures activeSessions == map[]
      ensures forall ttyId, t :: Asks(biometricAvailable, activeSessions, ttyId, t) == biometricAvailable
    {
      activeSessions := map[];
    }

    method NeedsBiometric(ttyId: Option<string>, now: nat) returns (needed: bool)
      ensures needed == Asks(biometricAvailable, activeSessions, ttyId, now)
    {
      var warm := IsSessionWarm(ttyId, now);
      needed := biometricAvailable && !warm;
    }

    /** One round of the expiry thread: prune, and say whether the daemon has been idle too long. */
    method ExpiryTick(now: nat) returns (stop: bool)
      modifies this`activeSessions
      ensures activeSessions == Pruned(old(activeSessions), now)
      ensures forall ttyId, t | now <= t ::
        Asks(biometricAvailable, activeSessions, ttyId, t) == Asks(biometricAvailable, old(activeSessions), ttyId, t)
      ensures stop == (lastActivity + 1_800_000_000_000 < now)
    {
      activeSessions :=
        map key | key in activeSessions && Elapsed(activeSessions[key], now) < SESSION_TIMEOUT :: activeSessions[key];
      stop := Elapsed(lastActivity, now) > DAEMON_INACTIVITY_TIMEOUT;
    }
  }

  /** Pruning drops only sessions that no later check could find warm. */
  lemma PruningIsInvisible(sessions: map<string, nat>, key: string, now: nat, later: nat)
    requires now <= later
    ensures IsWarm(Pruned(sessions, now), key, later) == IsWarm(sessions, key, later)
  {
  }

  // ----- decrypts in flight

  /** Where a decrypt request stands between its check and its mark. */
  datatype Phase = NeedsPresence | Cleared | HasPlaintext

  datatype Request = Request(key: string, phase: Phase)

  /** A request is named by the position in the run of its check. */
  datatype State = State(now: nat, sessions: map<string, nat>, inFlight: map<nat, Request>)

  datatype Action =
    | Check(ttyId: Option<string>)             // takes the lock: is the session warm?
    | Verify(request: nat, present: bool)      // asks for user presence, without the lock
    | Decrypt(request: nat, succeeds: bool)    // loads the key and decrypts, without the lock
    | Mark(request: nat)                       // takes the lock, marks the session warm, returns the plaintext
    | Invalidate
    | Prune

  datatype Event = Event(time: nat, action: Action)

  const START := State(0, map[], map[])

  predicate InPhase(st: State, request: nat, phase: Phase) {
    request in st.inFlight && st.inFlight[request].phase == phase
  }

  /** Time does not run backwards, and each request does its calls in order. Biometrics are available. */
  predicate Enabled(st: State, e: Event) {
    && st.now <= e.time
    && match e.action
       case Verify(request, _) => InPhase(st, request, NeedsPresence)
       case Decrypt(request, _) => InPhase(st, request, Cleared)
       case Mark(request) => InPhase(st, request, HasPlaintext)
       case _ => true
  }

  function Advance(st: State, request: nat, phase: Phase): State
    requires request in st.inFlight
  {
    st.(inFlight := st.inFlight[request := st.inFlight[request].(phase := phase)])
  }

  function Finish(st: State, request: nat): State {
    st.(inFlight := st.inFlight - {request})
  }

  /** What a check makes of its request: without biometrics nobody is ever asked. */
  function CheckPhase(st: State, ttyId: Option<string>, time: nat, biometrics: bool): Phase {
    if biometrics && !IsWarm(st.sessions, SessionKey(ttyId), time) then NeedsPresence else Cleared
  }

  function Checked(st: State, n: nat, ttyId: Option<string>, time: nat, biometrics: bool): State {
    State(time, st.sessions, st.inFlight[n := Request(SessionKey(ttyId), CheckPhase(st, ttyId, time, biometrics))])
  }

  /** The effect of the event at position `n`. */
  function Apply(st: State, n: nat, e: Event): State
    requires Enabled(st, e)
  {
    var cur := st.(now := e.time);
    match e.action
    case Check(ttyId) => Checked(st, n, ttyId, e.time, true)
    case Verify(request, present) => if present then Advance(cur, request, Cleared) else Finish(cur, request)
    case Decrypt(request, succeeds) => if succeeds then Advance(cur, request, HasPlaintext) else Finish(cur, request)
    case Mark(request) => Finish(cur, request).(sessions := st.sessions[st.inFlight[request].key := e.time])
    case Invalidate => cur.(sessions := map[])
    case Prune => cur.(sessions := Pruned(st.sessions, e.time))
  }

  /** The state before position `n`, or None when an earlier event was not enabled. */
  function StateAt(run: seq<Event>, n: nat): Option<State>
    requires n <= |run|
  {
    if n == 0 then Some(START)
    else
      match StateAt(run, n - 1)
      case None => None
      case Some(st) => if Enabled(st, run[n - 1]) then Some(Apply(st, n - 1, run[n - 1])) else None
  }

  ghost predicate IsRun(run: seq<Event>) {
    StateAt(run, |run|).Some?
  }

  lemma {:induction false} PrefixIsRun(run: seq<Event>, n: nat, k: nat)
    requires n <= k <= |run| && StateAt(run, k).Some?
    ensures StateAt(run, n).Some?
    ensures n < k ==> Enabled(StateAt(run, n).value, run[n])
    ensures n < k ==> StateAt(run, n + 1) == Some(Apply(StateAt(run, n).value, n, run[n]))
    decreases k - n
  {
    if n < k {
      PrefixIsRun(run, n + 1, k);
    }
  }

  function KeyOf(run: seq<Event>, check: nat): string
    requires check < |run| && run[check].action.Check?
  {
    SessionKey(run[check].action.ttyId)
  }

  // ----- provenance

  /**
   * Why a plaintext was handed out. `Present`: its request was checked, then user presence was
   * verified, then it was marked. `Renewed`: its check found the session warm from an earlier plaintext.
   */
  datatype Chain =
    | Present(check: nat, verify: nat, mark: nat)
    | Renewed(earlier: Chain, check: nat, mark: nat)

  /** A decrypt of `key`: its check and its mark. */
  predicate IsDecrypt(run: seq<Event>, key: string, check: nat, mark: nat) {
    && check < mark < |run| && run[check].action.Check? && KeyOf(run, check) == key
    && run[mark].action == Mark(check)
  }

  ghost predicate NoInvalidate(run: seq<Event>, from: nat, to: nat)
    requires to <= |run|
  {
    forall i | from <= i < to :: !run[i].action.Invalidate?
  }

  /**
   * Every link is a successful decrypt of `key` checked within the timeout after the one before; the first
   * verified presence. From the first presence on, all of it lies at or after `floor`.
   */
  ghost predicate Proves(run: seq<Event>, key: string, floor: nat, chain: Chain)
    decreases chain
  {
    && IsDecrypt(run, key, chain.check, chain.mark)
    && match chain
       case Present(check, verify, mark) =>
         floor <= verify && check < verify < mark && run[verify].action == Verify(check, true)
       case Renewed(earlier, check, mark) =>
         && Proves(run, key, floor, earlier) && floor <= earlier.mark < check
         && run[check].time - run[earlier.mark].time < SESSION_TIMEOUT
         && NoInvalidate(run, earlier.mark, check)
  }

  /** What is known of a request that may decrypt: it was warm when checked, or presence was verified since. */
  ghost predicate IsCleared(run: seq<Event>, n: nat, request: nat)
    requires n <= |run|
  {
    && request < n && run[request].action.Check? && StateAt(run, request).Some?
    && (IsWarm(StateAt(run, request).value.sessions, KeyOf(run, request), run[request].time)
        || exists v :: request < v < n && run[v].action == Verify(request, true))
  }

  /** The session of `key` was put there by a mark at or after `floor`, and nothing was invalidated since. */
  ghost predicate MarkedSince(run: seq<Event>, floor: nat, n: nat, key: string, time: nat)
    requires n <= |run|
  {
    exists m :: floor <= m < n && MarksKey(run, m, key) && run[m].time == time && NoInvalidate(run, m, n)
  }

  predicate MarksKey(run: seq<Event>, m: nat, key: string)
    requires m < |run|
  {
    && run[m].action.Mark? && run[m].action.request < m
    && run[run[m].action.request].action.Check? && KeyOf(run, run[m].action.request) == key
  }

  ghost predicate RequestExplained(run: seq<Event>, n: nat, st: State, r: nat)
    requires n <= |run| && r in st.inFlight
  {
    && r < n && run[r].action.Check? && st.inFlight[r].key == KeyOf(run, r)
    && (st.inFlight[r].phase != NeedsPresence ==> IsCleared(run, n, r))
  }

  ghost predicate SessionExplained(run: seq<Event>, n: nat, st: State, key: string)
    requires n <= |run| && key in st.sessions
  {
    st.sessions[key] <= st.now && MarkedSince(run, 0, n, key, st.sessions[key])
  }

  /** Requests and sessions as the run explains them. */
  ghost predicate Explained(run: seq<Event>, n: nat)
    requires n <= |run| && StateAt(run, n).Some?
  {
    var st := StateAt(run, n).value;
    && (forall r | r in st.inFlight :: RequestExplained(run, n, st, r))
    && (forall key | key in st.sessions :: SessionExplained(run, n, st, key))
  }

  lemma ClearedStays(run: seq<Event>, n: nat, request: nat)
    requires n < |run| && IsCleared(run, n, request)
    ensures IsCleared(run, n + 1, request)
  {
  }

  lemma SinceStays(run: seq<Event>, floor: nat, n: nat, key: string, time: nat)
    requires n < |run| && MarkedSince(run, floor, n, key, time) && !run[n].action.Invalidate?
    ensures MarkedSince(run, floor, n + 1, key, time)
  {
    var m :| floor <= m < n && MarksKey(run, m, key) && NoInvalidate(run, m, n) && run[m].time == time;
    assert NoInvalidate(run, m, n + 1);
  }

  lemma RequestsStayExplained(run: seq<Event>, n: nat, r: nat)
    requires n < |run| && StateAt(run, n).Some? && Explained(run, n) && StateAt(run, n + 1).Some?
    requires r in StateAt(run, n + 1).value.inFlight
    ensures RequestExplained(run, n + 1, StateAt(run, n + 1).value, r)
  {
    var st, st' := StateAt(run, n).value, StateAt(run, n + 1).value;
    if r in st.inFlight && r != n {
      assert RequestExplained(run, n, st, r);
      if st.inFlight[r].phase != NeedsPresence {
        ClearedStays(run, n, r);
      } else if st'.inFlight[r].phase != NeedsPresence {
        PrefixIsRun(run, r, n);
        assert run[n].action == Verify(r, true);
      }
    }
  }

  lemma SessionsStayExplained(run: seq<Event>, n: nat, key: string)
    requires n < |run| && StateAt(run, n).Some? && Explained(run, n) && StateAt(run, n + 1).Some?
    requires key in StateAt(run, n + 1).value.sessions
    ensures SessionExplained(run, n + 1, StateAt(run, n + 1).value, key)
  {
    var st := StateAt(run, n).value;
    if run[n].action.Mark? && st.inFlight[run[n].action.request].key == key {
      assert RequestExplained(run, n, st, run[n].action.request);
      assert MarksKey(run, n, key) && NoInvalidate(run, n, n + 1);
    } else {
      assert SessionExplained(run, n, st, key);
      SinceStays(run, 0, n, key, st.sessions[key]);
    }
  }

  lemma {:induction false} RunExplained(run: seq<Event>, n: nat)
    requires n <= |run| && StateAt(run, n).Some?
    ensures Explained(run, n)
  {
    if n > 0 {
      RunExplained(run, n - 1);
      var st := StateAt(run, n).value;
      forall r | r in st.inFlight ensures RequestExplained(run, n, st, r) {
        RequestsStayExplained(run, n - 1, r);
      }
      forall key | key in st.sessions ensures SessionExplained(run, n, st, key) {
        SessionsStayExplained(run, n - 1, key);
      }
    }
  }

  // ----- where a session ends

  /** Every request of `key` in flight still has its presence check before it. */
  ghost predicate OnlyAsking(st: State, key: string) {
    forall r | r in st.inFlight && st.inFlight[r].key == key :: st.inFlight[r].phase == NeedsPresence
  }

  /** Nothing of `key` is left that could go on without presence: no warm session and no cleared request. */
  ghost predicate IsCold(st: State, key: string) {
    !IsWarm(st.sessions, key, st.now) && OnlyAsking(st, key)
  }

  ghost predicate IsFloor(run: seq<Event>, floor: nat, key: string) {
    floor <= |run| && StateAt(run, floor).Some? && IsCold(StateAt(run, floor).value, key)
  }

  /** How a request that may decrypt came to stand in the state after an event. */
  lemma ClearedStep(st: State, n: nat, e: Event, r: nat)
    requires Enabled(st, e) && r in Apply(st, n, e).inFlight && Apply(st, n, e).inFlight[r].phase != NeedsPresence
    requires r in st.inFlight ==> r < n
    ensures r in st.inFlight ==> Apply(st, n, e).inFlight[r].key == st.inFlight[r].key
    ensures r in st.inFlight && st.inFlight[r].phase == NeedsPresence ==> e.action == Verify(r, true)
    ensures r !in st.inFlight ==>
      r == n && e.action.Check? && IsWarm(st.sessions, SessionKey(e.action.ttyId), e.time)
  {
  }

  /** The request was checked after `floor` and found its session warm, or presence was verified for it since. */
  ghost predicate ClearedSince(run: seq<Event>, floor: nat, n: nat, r: nat)
    requires n <= |run|
  {
    || (exists v :: floor <= v < n && r < v && run[v].action == Verify(r, true))
    || (floor <= r < n && run[r].action.Check? && StateAt(run, r).Some?
        && IsWarm(StateAt(run, r).value.sessions, KeyOf(run, r), run[r].time))
  }

  lemma {:induction false} ClearedAfterFloor(run: seq<Event>, floor: nat, n: nat, r: nat)
    requires floor <= n <= |run| && StateAt(run, n).Some? && r in StateAt(run, n).value.inFlight
    requires IsFloor(run, floor, StateAt(run, n).value.inFlight[r].key)
    requires StateAt(run, n).value.inFlight[r].phase != NeedsPresence
    ensures ClearedSince(run, floor, n, r)
  {
    if floor < n {
      PrefixIsRun(run, n - 1, n);
      var st := StateAt(run, n - 1).value;
      RequestBefore(run, n - 1, r);
      ClearedStep(st, n - 1, run[n - 1], r);
      if r in st.inFlight && st.inFlight[r].phase != NeedsPresence {
        ClearedAfterFloor(run, floor, n - 1, r);
      }
    }
  }

  lemma RequestBefore(run: seq<Event>, n: nat, r: nat)
    requires n <= |run| && StateAt(run, n).Some?
    ensures r in StateAt(run, n).value.inFlight ==> r < n
  {
    RunExplained(run, n);
    if r in StateAt(run, n).value.inFlight {
      assert RequestExplained(run, n, StateAt(run, n).value, r);
    }
  }

  /** A session that is warm after an event that does not mark it was so before it, and nothing was invalidated. */
  lemma WarmBefore(st: State, n: nat, e: Event, key: string)
    requires Enabled(st, e) && IsWarm(Apply(st, n, e).sessions, key, Apply(st, n, e).now)
    requires e.action.Mark? ==> st.inFlight[e.action.request].key != key
    ensures IsWarm(st.sessions, key, st.now) && !e.action.Invalidate?
    ensures Apply(st, n, e).sessions[key] == st.sessions[key]
  {
  }

  lemma LastMark(run: seq<Event>, n: nat, key: string)
    requires n < |run| && StateAt(run, n + 1).Some? && StateAt(run, n).Some? && Enabled(StateAt(run, n).value, run[n])
    requires run[n].action.Mark? && StateAt(run, n).value.inFlight[run[n].action.request].key == key
    ensures MarksKey(run, n, key) && NoInvalidate(run, n, n + 1)
    ensures key in StateAt(run, n + 1).value.sessions && run[n].time == StateAt(run, n + 1).value.sessions[key]
  {
    RunExplained(run, n);
    assert RequestExplained(run, n, StateAt(run, n).value, run[n].action.request);
  }

  /** A session that is warm after a floor was marked after it. */
  lemma {:induction false} MarkedAfterFloor(run: seq<Event>, floor: nat, n: nat, key: string)
    requires floor <= n <= |run| && StateAt(run, n).Some? && IsFloor(run, floor, key)
    requires IsWarm(StateAt(run, n).value.sessions, key, StateAt(run, n).value.now)
    ensures MarkedSince(run, floor, n, key, StateAt(run, n).value.sessions[key])
  {
    if floor < n {
      PrefixIsRun(run, n - 1, n);
      var st, e := StateAt(run, n - 1).value, run[n - 1];
      if e.action.Mark? && st.inFlight[e.action.request].key == key {
        LastMark(run, n - 1, key);
      } else {
        WarmBefore(st, n - 1, e, key);
        MarkedAfterFloor(run, floor, n - 1, key);
        SinceStays(run, floor, n - 1, key, st.sessions[key]);
      }
    }
  }

  /** The mark after the floor that made a session warm for a check. */
  lemma WarmSource(run: seq<Event>, floor: nat, check: nat) returns (m: nat)
    requires IsRun(run) && floor <= check < |run| && run[check].action.Check? && StateAt(run, check).Some?
    requires IsFloor(run, floor, KeyOf(run, check))
    requires IsWarm(StateAt(run, check).value.sessions, KeyOf(run, check), run[check].time)
    ensures floor <= m < check && MarksKey(run, m, KeyOf(run, check)) && NoInvalidate(run, m, check)
    ensures run[check].time - run[m].time < SESSION_TIMEOUT
  {
    PrefixIsRun(run, check, |run|);
    var key := KeyOf(run, check);
    var st := StateAt(run, check).value;
    assert st.now <= run[check].time;
    MarkedAfterFloor(run, floor, check, key);
    m :| floor <= m < check && MarksKey(run, m, key) && NoInvalidate(run, m, check)
         && run[m].time == st.sessions[key];
  }

  /** A mark hands out a plaintext of the key its request was checked for, and finds it with its plaintext. */
  lemma MarkedRequest(run: seq<Event>, mark: nat)
    requires IsRun(run) && mark < |run| && run[mark].action.Mark?
    ensures run[mark].action.request < mark && run[run[mark].action.request].action.Check?
    ensures MarksKey(run, mark, KeyOf(run, run[mark].action.request)) && StateAt(run, mark).Some?
    ensures run[mark].action.request in StateAt(run, mark).value.inFlight
    ensures StateAt(run, mark).value.inFlight[run[mark].action.request]
         == Request(KeyOf(run, run[mark].action.request), HasPlaintext)
  {
    PrefixIsRun(run, mark, |run|);
    RunExplained(run, mark);
    assert RequestExplained(run, mark, StateAt(run, mark).value, run[mark].action.request);
  }

  /** The provenance of a plaintext of `key`, for a floor where the key is cold. */
  lemma {:induction false} ProvenanceSince(run: seq<Event>, key: string, floor: nat, mark: nat)
    returns (chain: Chain)
    requires IsRun(run) && floor <= mark < |run| && MarksKey(run, mark, key) && IsFloor(run, floor, key)
    ensures chain.mark == mark && Proves(run, key, floor, chain)
    decreases mark
  {
    var check := run[mark].action.request;
    MarkedRequest(run, mark);
    ClearedAfterFloor(run, floor, mark, check);
    if v :| floor <= v < mark && check < v && run[v].action == Verify(check, true) {
      chain := Present(check, v, mark);
    } else {
      var m := WarmSource(run, floor, check);
      var earlier := ProvenanceSince(run, key, floor, m);
      chain := Renewed(earlier, check, mark);
    }
  }

  /**
   * Every plaintext handed out at position `mark` is explained by a chain of decrypts of its session
   * key, each checked less than SESSION_TIMEOUT after the one before was marked and with no
   * invalidation between, back to one that verified user presence. When the key was cold at `floor`,
   * that presence and all that follows it in the chain lie after `floor`.
   */
  lemma PlaintextHasProvenance(run: seq<Event>, floor: nat, mark: nat) returns (key: string, chain: Chain)
    requires IsRun(run) && floor <= mark < |run| && run[mark].action.Mark?
    ensures MarksKey(run, mark, key) && chain.mark == mark
    ensures Proves(run, key, if IsFloor(run, floor, key) then floor else 0, chain)
  {
    MarkedRequest(run, mark);
    key := KeyOf(run, run[mark].action.request);
    chain := ProvenanceSince(run, key, if IsFloor(run, floor, key) then floor else 0, mark);
  }

  /** A chain of decrypts that were all checked for the same terminal, the first with presence verified for it. */
  ghost predicate OfTerminal(run: seq<Event>, ttyId: Option<string>, chain: Chain)
    decreases chain
  {
    && chain.check < chain.mark < |run| && run[chain.mark].action == Mark(chain.check)
    && run[chain.check].action.Check? && SameTerminal(run[chain.check].action.ttyId, ttyId)
    && match chain
       case Present(check, verify, mark) => check < verify < mark && run[verify].action == Verify(check, true)
       case Renewed(earlier, check, _) =>
         && OfTerminal(run, ttyId, earlier) && earlier.mark < check
         && run[check].time < run[earlier.mark].time + 300_000_000_000
  }

  lemma {:induction false} ChainOfTerminal(run: seq<Event>, ttyId: Option<string>, floor: nat, chain: Chain)
    requires Proves(run, SessionKey(ttyId), floor, chain)
    ensures OfTerminal(run, ttyId, chain)
    decreases chain
  {
    TerminalsHaveKeys(run[chain.check].action.ttyId, ttyId);
    match chain
    case Present(_, _, _) =>
    case Renewed(earlier, _, _) => ChainOfTerminal(run, ttyId, floor, earlier);
  }

  /** Every plaintext goes back to presence verified for its own terminal, through decrypts for that terminal only. */
  lemma PlaintextIsOfTerminal(run: seq<Event>, mark: nat) returns (ttyId: Option<string>, chain: Chain)
    requires IsRun(run) && mark < |run| && run[mark].action.Mark?
    ensures run[mark].action.request < mark && run[run[mark].action.request].action == Check(ttyId)
    ensures chain.mark == mark && OfTerminal(run, ttyId, chain)
  {
    MarkedRequest(run, mark);
    ttyId := run[run[mark].action.request].action.ttyId;
    chain := ProvenanceSince(run, SessionKey(ttyId), 0, mark);
    ChainOfTerminal(run, ttyId, 0, chain);
  }

  /** A mark for the terminal, before position `n`. */
  ghost predicate WasMarked(run: seq<Event>, n: nat, ttyId: Option<string>) {
    exists m :: 0 <= m < n && MarksTerminal(run, m, ttyId)
  }

  predicate MarksTerminal(run: seq<Event>, m: nat, ttyId: Option<string>) {
    && m < |run| && run[m].action.Mark? && run[m].action.request < m
    && run[run[m].action.request].action.Check? && SameTerminal(run[run[m].action.request].action.ttyId, ttyId)
  }

  /** A decrypt from a terminal that got no plaintext before has to ask for presence. */
  lemma NewTerminalIsAsked(run: seq<Event>, n: nat)
    requires IsRun(run) && n < |run| && run[n].action.Check? && !WasMarked(run, n, run[n].action.ttyId)
    ensures StateAt(run, n + 1).Some? && InPhase(StateAt(run, n + 1).value, n, NeedsPresence)
  {
    PrefixIsRun(run, n, |run|);
    var st, ttyId := StateAt(run, n).value, run[n].action.ttyId;
    var key := SessionKey(ttyId);
    if key in st.sessions {
      RunExplained(run, n);
      assert SessionExplained(run, n, st, key);
      var m :| 0 <= m < n && MarksKey(run, m, key) && run[m].time == st.sessions[key] && NoInvalidate(run, m, n);
      TerminalsHaveKeys(run[run[m].action.request].action.ttyId, ttyId);
      assert MarksTerminal(run, m, ttyId);
    }
  }

  /** Presence is verified for a request of `key` at `v`. */
  predicate VerifiesKey(run: seq<Event>, v: nat, key: string)
    requires v < |run|
  {
    && run[v].action.Verify? && run[v].action.present && run[v].action.request < v
    && run[run[v].action.request].action.Check? && KeyOf(run, run[v].action.request) == key
  }

  lemma {:induction false} ChainHasPresence(run: seq<Event>, key: string, floor: nat, chain: Chain)
    requires Proves(run, key, floor, chain)
    ensures exists v :: floor <= v < |run| && VerifiesKey(run, v, key)
    decreases chain
  {
    match chain
    case Present(_, verify, _) => assert VerifiesKey(run, verify, key);
    case Renewed(earlier, _, _) => ChainHasPresence(run, key, floor, earlier);
  }

  ghost predicate NoPresence(run: seq<Event>, from: nat, key: string) {
    forall v | from <= v < |run| :: !VerifiesKey(run, v, key)
  }

  ghost predicate NoPlaintext(run: seq<Event>, from: nat, key: string) {
    forall m | from <= m < |run| :: !MarksKey(run, m, key)
  }

  /** However the run goes on, no plaintext of `key` is handed out until presence is verified again. */
  ghost predicate SessionEnds(run: seq<Event>, key: string) {
    forall later: seq<Event> | IsRun(run + later) && NoPresence(run + later, |run|, key) ::
      NoPlaintext(run + later, |run|, key)
  }

  lemma {:induction false} SameStart(run: seq<Event>, later: seq<Event>, n: nat)
    requires n <= |run|
    ensures StateAt(run + later, n) == StateAt(run, n)
  {
    if n > 0 {
      SameStart(run, later, n - 1);
    }
  }

  lemma ColdStaysClosed(run: seq<Event>, later: seq<Event>, key: string)
    requires IsRun(run) && IsCold(StateAt(run, |run|).value, key)
    requires IsRun(run + later) && NoPresence(run + later, |run|, key)
    ensures NoPlaintext(run + later, |run|, key)
  {
    var all := run + later;
    SameStart(run, later, |run|);
    forall m | |run| <= m < |all| ensures !MarksKey(all, m, key) {
      if MarksKey(all, m, key) {
        var chain := ProvenanceSince(all, key, |run|, m);
        ChainHasPresence(all, key, |run|, chain);
      }
    }
  }

  lemma OneStep(run: seq<Event>, n: nat, st: State, st': State)
    requires n < |run| && StateAt(run, n) == Some(st) && Enabled(st, run[n])
    requires Apply(st, n, run[n]) == st'
    ensures StateAt(run, n + 1) == Some(st')
  {
  }

  /** A run that goes on with the one event `e`. */
  lemma Extended(run: seq<Event>, e: Event)
    requires IsRun(run) && Enabled(StateAt(run, |run|).value, e)
    ensures StateAt(run + [e], |run| + 1) == Some(Apply(StateAt(run, |run|).value, |run|, e))
  {
    SameStart(run, [e], |run|);
    OneStep(run + [e], |run|, StateAt(run, |run|).value, Apply(StateAt(run, |run|).value, |run|, e));
  }

  /** `later` hands out a plaintext of `key` with no presence verified. */
  ghost predicate GoesOn(run: seq<Event>, later: seq<Event>, key: string) {
    IsRun(run + later) && NoPresence(run + later, |run|, key) && !NoPlaintext(run + later, |run|, key)
  }

  lemma MarkGoesOn(run: seq<Event>, r: nat)
    requires IsRun(run) && InPhase(StateAt(run, |run|).value, r, HasPlaintext)
    ensures GoesOn(run, [Event(StateAt(run, |run|).value.now, Mark(r))], StateAt(run, |run|).value.inFlight[r].key)
  {
    var st := StateAt(run, |run|).value;
    var all := run + [Event(st.now, Mark(r))];
    Extended(run, Event(st.now, Mark(r)));
    RunExplained(run, |run|);
    assert RequestExplained(run, |run|, st, r);
    assert all[r] == run[r] && MarksKey(all, |run|, st.inFlight[r].key);
  }

  /** One event that verifies nothing may come before. */
  lemma GoesOnAfter(run: seq<Event>, e: Event, later: seq<Event>, key: string)
    requires GoesOn(run + [e], later, key) && !e.action.Verify?
    ensures GoesOn(run, [e] + later, key)
  {
    assert (run + [e]) + later == run + ([e] + later);
    var all := run + ([e] + later);
    assert all[|run|] == e;
    var m :| |run| + 1 <= m < |all| && MarksKey(all, m, key);
    assert !NoPlaintext(all, |run|, key);
  }

  lemma ClearedGoesOn(run: seq<Event>, r: nat) returns (later: seq<Event>)
    requires IsRun(run) && InPhase(StateAt(run, |run|).value, r, Cleared)
    ensures GoesOn(run, later, StateAt(run, |run|).value.inFlight[r].key)
  {
    var st := StateAt(run, |run|).value;
    var e := Event(st.now, Decrypt(r, true));
    Extended(run, e);
    MarkGoesOn(run + [e], r);
    later := [e] + [Event(st.now, Mark(r))];
    GoesOnAfter(run, e, [Event(st.now, Mark(r))], st.inFlight[r].key);
  }

  lemma WarmGoesOn(run: seq<Event>, key: string) returns (later: seq<Event>)
    requires IsRun(run) && IsWarm(StateAt(run, |run|).value.sessions, key, StateAt(run, |run|).value.now)
    ensures GoesOn(run, later, key)
  {
    var e := Event(StateAt(run, |run|).value.now, Check(Some(key)));
    Extended(run, e);
    var rest := ClearedGoesOn(run + [e], |run|);
    later := [e] + rest;
    GoesOnAfter(run, e, rest, key);
  }

  /**
   * A session has ended exactly when it is cold: it is not warm, and every request of it in flight still
   * has its presence check before it.
   */
  lemma SessionEndsWhenCold(run: seq<Event>, key: string)
    requires IsRun(run)
    ensures SessionEnds(run, key) <==> IsCold(StateAt(run, |run|).value, key)
  {
    var st := StateAt(run, |run|).value;
    if IsCold(st, key) {
      forall later: seq<Event> | IsRun(run + later) && NoPresence(run + later, |run|, key)
        ensures NoPlaintext(run + later, |run|, key)
      {
        ColdStaysClosed(run, later, key);
      }
    } else {
      var later: seq<Event>;
      if IsWarm(st.sessions, key, st.now) {
        later := WarmGoesOn(run, key);
      } else {
        var r :| r in st.inFlight && st.inFlight[r].key == key && st.inFlight[r].phase != NeedsPresence;
        if st.inFlight[r].phase == Cleared {
          later := ClearedGoesOn(run, r);
        } else {
          MarkGoesOn(run, r);
          later := [Event(st.now, Mark(r))];
        }
      }
      assert GoesOn(run, later, key);
    }
  }

  /**
   * An invalidation ends a session exactly when every decrypt of it in flight still has its presence check
   * before it, and all sessions exactly when every decrypt in flight has.
   */
  lemma InvalidationEndsSession(run: seq<Event>, key: string)
    requires IsRun(run) && run != [] && run[|run| - 1].action.Invalidate?
    ensures SessionEnds(run, key) <==> OnlyAsking(StateAt(run, |run|).value, key)
    ensures (forall k :: SessionEnds(run, k))
       <==> (forall r | r in StateAt(run, |run|).value.inFlight ::
               StateAt(run, |run|).value.inFlight[r].phase == NeedsPresence)
  {
    var st := StateAt(run, |run|).value;
    PrefixIsRun(run, |run| - 1, |run|);
    assert st.sessions == map[];
    forall k ensures SessionEnds(run, k) <==> OnlyAsking(st, k) {
      SessionEndsWhenCold(run, k);
    }
    assert (forall k :: SessionEnds(run, k)) ==>
        (forall r | r in st.inFlight :: st.inFlight[r].phase == NeedsPresence) by {
      if forall k :: SessionEnds(run, k) {
        forall r | r in st.inFlight ensures st.inFlight[r].phase == NeedsPresence {
          assert OnlyAsking(st, st.inFlight[r].key);
        }
      }
    }
  }

  // ----- an invalidation with a decrypt in flight

  /** Presence is verified, then sessions are invalidated while the decrypt runs; its mark warms the session again. */
  const RACE: seq<Event> := [
    Event(0, Check(None)), Event(1, Verify(0, true)), Event(2, Invalidate),
    Event(3, Decrypt(0, true)), Event(4, Mark(0)),
    Event(5, Check(None)), Event(6, Decrypt(5, true)), Event(7, Mark(5))
  ]

  const ASKED := Request("__no_tty__", NeedsPresence)
  const CLEARED := Request("__no_tty__", Cleared)
  const DONE := Request("__no_tty__", HasPlaintext)

  lemma RaceToMark()
    ensures StateAt(RACE, 3) == Some(State(2, map[], map[0 := CLEARED]))
    ensures StateAt(RACE, 5) == Some(State(4, map["__no_tty__" := 4], map[]))
  {
    assert map[0 := ASKED][0 := CLEARED] == map[0 := CLEARED] && map[0 := CLEARED][0 := DONE] == map[0 := DONE];
    assert map[0 := DONE] - {0} == map[];
    OneStep(RACE, 0, START, State(0, map[], map[0 := ASKED]));
    OneStep(RACE, 1, State(0, map[], map[0 := ASKED]), State(1, map[], map[0 := CLEARED]));
    OneStep(RACE, 2, State(1, map[], map[0 := CLEARED]), State(2, map[], map[0 := CLEARED]));
    OneStep(RACE, 3, State(2, map[], map[0 := CLEARED]), State(3, map[], map[0 := DONE]));
    OneStep(RACE, 4, State(3, map[], map[0 := DONE]), State(4, map["__no_tty__" := 4], map[]));
  }

  lemma RaceAfterMark()
    ensures StateAt(RACE, 8) == Some(State(7, map["__no_tty__" := 7], map[]))
  {
    RaceToMark();
    var warm := map["__no_tty__" := 4];
    assert map[5 := CLEARED][5 := DONE] == map[5 := DONE] && map[5 := DONE] - {5} == map[];
    assert warm["__no_tty__" := 7] == map["__no_tty__" := 7];
    OneStep(RACE, 5, State(4, warm, map[]), State(5, warm, map[5 := CLEARED]));
    OneStep(RACE, 6, State(5, warm, map[5 := CLEARED]), State(6, warm, map[5 := DONE]));
    OneStep(RACE, 7, State(6, warm, map[5 := DONE]), State(7, map["__no_tty__" := 7], map[]));
  }

  lemma RaceIsCleared()
    ensures StateAt(RACE[..3], 3) == Some(State(2, map[], map[0 := CLEARED]))
  {
    RaceToMark();
    assert RACE == RACE[..3] + RACE[3..];
    SameStart(RACE[..3], RACE[3..], 3);
  }

  lemma ClearedOutlives(run: seq<Event>, st: State, r: nat)
    requires run != [] && run[|run| - 1].action.Invalidate?
    requires StateAt(run, |run|) == Some(st) && InPhase(st, r, Cleared)
    ensures !SessionEnds(run, st.inFlight[r].key)
  {
    InvalidationEndsSession(run, st.inFlight[r].key);
  }

  /** So the session outlives the invalidation: a later decrypt needs no presence after it. */
  lemma InFlightDecryptSurvivesInvalidation()
    ensures IsRun(RACE) && RACE[2].action.Invalidate? && !SessionEnds(RACE[..3], "__no_tty__")
    ensures RACE[7].action == Mark(5) && forall i | 3 <= i < |RACE| :: !RACE[i].action.Verify?
  {
    RaceAfterMark();
    RaceIsCleared();
    ClearedOutlives(RACE[..3], State(2, map[], map[0 := CLEARED]), 0);
  }

  // ----- the handlers on the manager

  /**
   * The daemon's handlers and its expiry thread, call by call, on the one session manager. Each method is
   * what one thread does between two points where another may run; together they are the events above where biometrics
   * are available.
   */
  class Daemon {
    const manager: SessionManager
    var inFlight: map<nat, Request>
    var now: nat

    constructor (biometricAvailable: bool, time: nat)
      ensures fresh(manager) && manager.biometricAvailable == biometricAvailable
      ensures inFlight == map[] && now == time && manager.activeSessions == map[]
    {
      manager := new SessionManager(biometricAvailable, time);
      inFlight := map[];
      now := time;
    }

    function Now(): State
      reads this, manager
    {
      State(now, manager.activeSessions, inFlight)
    }

    method OnActivity(time: nat)
      modifies manager`lastActivity
      ensures manager.lastActivity == time && Now() == old(Now())
    {
      manager.NoteActivity(time);
    }

    method CheckSession(n: nat, ttyId: Option<string>, time: nat) returns (needsBio: bool)
      requires Enabled(Now(), Event(time, Check(ttyId)))
      modifies this
      ensures Now() == Checked(old(Now()), n, ttyId, time, manager.biometricAvailable)
      ensures manager.biometricAvailable ==> Now() == Apply(old(Now()), n, Event(time, Check(ttyId)))
      ensures needsBio ==
        (manager.biometricAvailable && !IsWarm(old(manager.activeSessions), SessionKey(ttyId), time))
    {
      needsBio := manager.NeedsBiometric(ttyId, time);
      inFlight := inFlight[n := Request(SessionKey(ttyId), if needsBio then NeedsPresence else Cleared)];
      now := time;
    }

    method VerifyPresence(request: nat, present: bool, time: nat)
      requires Enabled(Now(), Event(time, Verify(request, present)))
      modifies this
      ensures Now() == Apply(old(Now()), 0, Event(time, Verify(request, present)))
    {
      Proceed(request, present, Cleared);
      now := time;
    }

    method DecryptPayload(request: nat, succeeds: bool, time: nat)
      requires Enabled(Now(), Event(time, Decrypt(request, succeeds)))
      modifies this
      ensures Now() == Apply(old(Now()), 0, Event(time, Decrypt(request, succeeds)))
    {
      Proceed(request, succeeds, HasPlaintext);
      now := time;
    }

    /** The next stage of a request, or its error answer. */
    method Proceed(request: nat, ok: bool, phase: Phase)
      requires request in inFlight
      modifies this`inFlight
      ensures inFlight ==
        if ok then old(inFlight)[request := old(inFlight)[request].(phase := phase)] else old(inFlight) - {request}
    {
      if ok {
        inFlight := inFlight[request := inFlight[request].(phase := phase)];
      } else {
        inFlight := inFlight - {request};
      }
    }

    /** The handler still has the terminal its request came from. */
    method MarkAndReturn(request: nat, ttyId: Option<string>, time: nat)
      requires Enabled(Now(), Event(time, Mark(request))) && inFlight[request].key == SessionKey(ttyId)
      modifies this, manager
      ensures Now() == Apply(old(Now()), 0, Event(time, Mark(request)))
    {
      manager.MarkSessionWarm(ttyId, time);
      inFlight := inFlight - {request};
      now := time;
    }

    method HandleInvalidate(time: nat)
      requires Enabled(Now(), Event(time, Invalidate))
      modifies this, manager
      ensures Now() == Apply(old(Now()), 0, Event(time, Invalidate))
    {
      manager.InvalidateAll();
      now := time;
    }

    method ExpiryRound(time: nat) returns (stop: bool)
      requires Enabled(Now(), Event(time, Prune))
      modifies this, manager
      ensures Now() == Apply(old(Now()), 0, Event(time, Prune))
      ensures stop == (Elapsed(old(manager.lastActivity), time) > DAEMON_INACTIVITY_TIMEOUT)
    {
      stop := manager.ExpiryTick(time);
      now := time;
    }

    /**
     * `handle_decrypt` with nobody in between: where biometrics are available a plaintext needs warmth or
     * presence, and every plaintext warms its session.
     */
    method HandleDecrypt(n: nat, ttyId: Option<string>, present: bool, succeeds: bool, time: nat, end: nat)
      returns (plaintext: bool)
      requires now <= time <= end && n !in inFlight
      modifies this, manager
      ensures plaintext == (succeeds && (present || !manager.biometricAvailable
                                         || IsWarm(old(manager.activeSessions), SessionKey(ttyId), time)))
      ensures manager.activeSessions ==
        if plaintext then old(manager.activeSessions)[SessionKey(ttyId) := end] else old(manager.activeSessions)
      ensures plaintext ==> present || !Asks(manager.biometricAvailable, old(manager.activeSessions), ttyId, time)
      ensures forall other, t | !plaintext || !SameTerminal(other, ttyId) ::
        Asks(manager.biometricAvailable, manager.activeSessions, other, t)
        == Asks(manager.biometricAvailable, old(manager.activeSessions), other, t)
      ensures inFlight == old(inFlight)
    {
      var needsBio := CheckSession(n, ttyId, time);
      plaintext := false;
      if needsBio {
        VerifyPresence(n, present, time);
        if !present { return; }
      }
      DecryptPayload(n, succeeds, time);
      if !succeeds { return; }
      MarkAndReturn(n, ttyId, end);
      plaintext := true;
    }
  }
}

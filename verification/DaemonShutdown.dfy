/**
 * What the calls of a daemon do to the paths, the lock and its verdict, and how it shuts down
 * (packages/encryption-binary-rust/src/ipc.rs and daemon.rs).
 */
module DaemonShutdown {
  import opened Outcomes
  import opened DaemonElection

  // ----- one call

  /**
   * What each call does to the paths: opening makes a missing lock file and binding a missing socket; the unlinks
   * that do not fail leave the path empty; nothing else, a crash included, touches them.
   */
  lemma CallsOnPaths(st: State, st': State, p: nat, a: Action)
    requires Next(st, st', p, a)
    ensures st'.lock ==
      if a == UnlinkLock(true) then None else if a == Open && st.lock.None? then Some(st.next) else st.lock
    ensures st'.socket ==
      if a == UnlinkSocket(true) || a == RemoveStale(true) then None
      else if a == Bind && st.socket.None? then Some(st.next) else st.socket
    ensures |st'.procs| == |st.procs| && forall q | 0 <= q < |st.procs| && q != p :: st'.procs[q] == st.procs[q]
  {
    CallsOnOthers(st, st', p, a);
  }

  lemma CallsOnOthers(st: State, st': State, p: nat, a: Action)
    requires Next(st, st', p, a)
    ensures |st'.procs| == |st.procs| && forall q | 0 <= q < |st.procs| && q != p :: st'.procs[q] == st.procs[q]
  {
  }

  /** The locks a daemon holds. */
  function Held(st: State, p: nat): set<nat> {
    set i | i in st.holder && st.holder[i] == p
  }

  /** Closing the file, in any way, and dying give up its locks; locking a free file takes it; the rest keeps them. */
  lemma CallsOnLocks(st: State, st': State, p: nat, a: Action)
    requires Next(st, st', p, a)
    ensures Held(st', p) ==
      if a == Close || a == CloseAndRetry || a == Crash then {}
      else if a == Flock && st.procs[p].fd.Some? && st.procs[p].fd.value !in st.holder
      then Held(st, p) + {st.procs[p].fd.value} else Held(st, p)
    ensures forall q: nat | q != p :: Held(st', q) == Held(st, q)
  {
  }

  /** A starter is told that another daemon is there exactly when that holds the lock of the file it opened. */
  lemma RefusedWhenHeld(st: State, st': State, p: nat)
    requires Inv(st) && Next(st, st', p, Flock)
    ensures st.procs[p].fd.Some?
    ensures var fd := st.procs[p].fd.value;
      if fd in st.holder
      then st.holder[fd] != p && st'.procs[p].verdict == LockHeld && st'.procs[p].fd.None?
      else st'.procs[p].verdict == st.procs[p].verdict && st'.procs[p].fd == Some(fd) && fd in Held(st', p)
  {
    assert ProcInv(st, p);
    var fd := st.procs[p].fd.value;
    assert fd in st.holder ==> HoldsLock(st.procs[st.holder[fd]]);
  }

  /** What a daemon will report: a crash, a shutdown, or a failure to start, the fifth mismatch being one. */
  lemma CallsOnVerdicts(st: State, st': State, p: nat, a: Action)
    requires Next(st, st', p, a) && a != Flock
    ensures st'.procs[p].verdict ==
      if a == Crash then Crashed
      else if a == Shutdown then Stopped
      else if a == Fail then (if st.procs[p].phase == Opened then LockHeld else Failed)
      else if (a == Bind && st.socket.Some?) || (a == CloseAndRetry && st.procs[p].attempts >= 4) then Failed
      else st.procs[p].verdict
  {
  }

  // ----- what may come next

  /** A daemon can do `a` as its first call. */
  predicate CanBegin(a: Action) {
    a == Open || a == Fail || a == Crash
  }

  /** Whether a daemon that made the call `a` in `st` can make the call `b` next. */
  predicate CanFollow(st: State, p: nat, a: Action, b: Action)
    requires p < |st.procs|
  {
    var pr := st.procs[p];
    match a
    case Open => b in {Flock, Fail, Crash}
    case Flock =>
      if pr.fd.Some? && pr.fd.value !in st.holder then b.Compare? || b in {Fail, Crash} else b in {Swap, Crash}
    case Compare(ok) =>
      if ok && st.lock.Some? && st.lock == pr.fd then b.RemoveStale? || b == Crash else b in {CloseAndRetry, Crash}
    case CloseAndRetry => if pr.attempts < 4 then b in {Open, Fail, Crash} else b in {Swap, Crash}
    case RemoveStale(_) => b in {Bind, Fail, Crash}
    case Bind => if st.socket.None? then b in {Claim, Fail, Crash} else b in {Close, Crash}
    case Claim => b in {Announce, Crash}
    case Announce => b in {Shutdown, Crash}
    case Shutdown => b in {Swap, Crash}
    case Swap => pr.owns && (b.UnlinkSocket? || b == Crash)
    case UnlinkSocket(_) => b.UnlinkLock? || b == Crash
    case UnlinkLock(_) => b in {Close, Crash}
    case Close => b in {Swap, Crash}
    case Fail => if Held(st, p) != {} then b in {Close, Crash} else b in {Swap, Crash}
    case Crash => false
  }

  /** The calls that each phase allows. */
  predicate Allows(phase: Phase, b: Action) {
    match phase
    case Start => b in {Open, Fail, Crash}
    case Opened => b in {Flock, Fail, Crash}
    case Locked => b.Compare? || b in {Fail, Crash}
    case Mismatched => b in {CloseAndRetry, Crash}
    case Won => b.RemoveStale? || b == Crash
    case Binding => b in {Bind, Fail, Crash}
    case Bound => b in {Claim, Fail, Crash}
    case Claimed => b in {Announce, Crash}
    case Serving => b in {Shutdown, Crash}
    case Swapping(_) => b in {Swap, Crash}
    case UnlinkingSocket(_) => b.UnlinkSocket? || b == Crash
    case UnlinkingLock(_) => b.UnlinkLock? || b == Crash
    case Closing => b in {Close, Crash}
    case Exited => false
  }

  lemma PhaseAllows(st: State, p: nat, b: Action)
    requires p < |st.procs|
    ensures Step(st, p, b).Some? <==> Allows(st.procs[p].phase, b)
  {
  }

  lemma AcquiringFollows(st: State, st': State, p: nat, a: Action, b: Action)
    requires p < |st.procs| && ProcInv(st, p) && AcquireStep(st, p, a) == Some(st') && a != Crash && a != Fail
    ensures |st'.procs| == |st.procs| && (Allows(st'.procs[p].phase, b) <==> CanFollow(st, p, a, b))
  {
  }

  lemma ServingFollows(st: State, st': State, p: nat, a: Action, b: Action)
    requires p < |st.procs| && ProcInv(st, p) && ServeStep(st, p, a) == Some(st') && a != Crash && a != Fail
    ensures |st'.procs| == |st.procs| && (Allows(st'.procs[p].phase, b) <==> CanFollow(st, p, a, b))
  {
  }

  /** A daemon holds a lock exactly in the phases from locking to closing. */
  lemma HoldsInPhase(st: State, p: nat)
    requires Inv(st) && p < |st.procs|
    ensures HoldsLock(st.procs[p]) <==> Held(st, p) != {}
  {
    assert ProcInv(st, p);
    if HoldsLock(st.procs[p]) {
      assert st.procs[p].fd.value in Held(st, p);
    } else {
      forall i | i in st.holder ensures st.holder[i] != p {
        assert HoldsLock(st.procs[st.holder[i]]);
      }
    }
  }

  lemma FailFollows(st: State, st': State, p: nat, b: Action)
    requires p < |st.procs| && Step(st, p, Fail) == Some(st')
    requires HoldsLock(st.procs[p]) <==> Held(st, p) != {}
    ensures |st'.procs| == |st.procs| && (Allows(st'.procs[p].phase, b) <==> CanFollow(st, p, Fail, b))
  {
  }

  lemma LastCallAllows(st: State, st': State, p: nat, a: Action, b: Action)
    requires Inv(st) && Next(st, st', p, a)
    ensures |st'.procs| == |st.procs| && (Allows(st'.procs[p].phase, b) <==> CanFollow(st, p, a, b))
  {
    assert ProcInv(st, p);
    if a == Fail {
      HoldsInPhase(st, p);
      FailFollows(st, st', p, b);
    } else if a == Crash {
    } else if Acquiring(st.procs[p]) {
      AcquiringFollows(st, st', p, a, b);
    } else {
      ServingFollows(st, st', p, a, b);
    }
  }

  /**
   * The protocol, call by call: what a daemon may do next is settled by its last call and by what that call met in
   * the paths, the locks and the daemon's own flags. No call of another daemon takes it back.
   */
  lemma CallsFollow(st: State, st': State, p: nat, a: Action, q: nat, b: Action)
    requires Inv(st) && Next(st, st', p, a) && q < |st.procs|
    ensures |st'.procs| == |st.procs|
    ensures Step(st', q, b).Some? <==> if q == p then CanFollow(st, p, a, b) else Step(st, q, b).Some?
  {
    assert ProcInv(st, p);
    CallsOnPaths(st, st', p, a);
    PhaseAllows(st, q, b);
    PhaseAllows(st', q, b);
    if q == p {
      LastCallAllows(st, st', p, a, b);
    }
  }

  /** A starter begins with opening the lock file, and fails or crashes at once. */
  lemma CallsBegin(st: State, p: nat, b: Action)
    requires Init(st) && p < |st.procs|
    ensures Step(st, p, b).Some? <==> CanBegin(b)
  {
  }

  /** The file a daemon has open: what the path names once it opened it, until it gives up or closes it. */
  lemma CallsOnFile(st: State, st': State, p: nat, a: Action)
    requires Next(st, st', p, a)
    ensures |st'.procs| == |st.procs|
    ensures st'.procs[p].fd ==
      if a == Open then st'.lock
      else if a in {CloseAndRetry, Close, Crash} then None
      else if a == Fail && st.procs[p].phase == Opened then None
      else if a == Flock && !(st.procs[p].fd.Some? && st.procs[p].fd.value !in st.holder) then None
      else st.procs[p].fd
  {
  }

  /** Its flags: claiming sets `owns_files`, swapping and dying clear it, announcing is for good. */
  lemma CallsOnFlags(st: State, st': State, p: nat, a: Action)
    requires Next(st, st', p, a)
    ensures |st'.procs| == |st.procs|
    ensures st'.procs[p].owns <==> a == Claim || (a != Swap && a != Crash && st.procs[p].owns)
    ensures st'.procs[p].announced <==> a == Announce || st.procs[p].announced
  {
  }

  lemma CallsOnAttempts(st: State, st': State, p: nat, a: Action)
    requires Next(st, st', p, a)
    ensures |st'.procs| == |st.procs|
    ensures st'.procs[p].attempts == if a == CloseAndRetry then st.procs[p].attempts + 1 else st.procs[p].attempts
  {
  }

  /** Any number of starters can begin on any files left over, no lock being held. */
  lemma RunsBegin(starters: seq<Proc>, lock: Option<nat>, socket: Option<nat>, next: nat)
    requires forall p | 0 <= p < |starters| :: starters[p] == FRESH
    requires (lock.Some? ==> lock.value < next) && (socket.Some? ==> socket.value < next)
    ensures IsRun([State(starters, lock, socket, map[], next)], [])
  {
  }

  /** A run goes on with every step that a daemon can take, and with no other. */
  lemma RunsGoOn(states: seq<State>, moves: seq<Move>, st: State, m: Move)
    requires IsRun(states, moves)
    ensures IsRun(states + [st], moves + [m]) <==> Next(states[|moves|], st, m.p, m.a)
  {
    var longer, more := states + [st], moves + [m];
    assert more[|moves|] == m && longer[|moves|] == states[|moves|] && longer[|moves| + 1] == st;
    forall i | 0 <= i < |moves| ensures MoveAt(longer, more, i) {
      assert MoveAt(states, moves, i);
      assert longer[i] == states[i] && longer[i + 1] == states[i + 1] && more[i] == moves[i];
    }
    if IsRun(longer, more) {
      assert MoveAt(longer, more, |moves|);
    }
  }

  // ----- what one daemon calls over a run

  /** The calls of one daemon, in their order. */
  function CallsOf(moves: seq<Move>, p: nat): seq<Action> {
    if moves == [] then []
    else CallsOf(moves[..|moves| - 1], p) + if moves[|moves| - 1].p == p then [moves[|moves| - 1].a] else []
  }

  /** From its shutdown a daemon swaps the flag, unlinks socket and lock file in that order, closes and swaps again. */
  predicate IsShutdown(calls: seq<Action>) {
    && 0 < |calls| <= 6 && calls[0] == Shutdown
    && (|calls| > 1 ==> calls[1] == Swap)
    && (|calls| > 2 ==> calls[2].UnlinkSocket?)
    && (|calls| > 3 ==> calls[3].UnlinkLock?)
    && (|calls| > 4 ==> calls[4] == Close)
    && (|calls| > 5 ==> calls[5] == Swap)
  }

  /** Where a daemon stands after so many calls of its shutdown. */
  predicate StandsAt(pr: Proc, calls: nat) {
    && pr.verdict == Stopped && (pr.owns <==> calls == 1)
    && pr.phase == match calls
       case 1 => Swapping(false)
       case 2 => UnlinkingSocket(false)
       case 3 => UnlinkingLock(false)
       case 4 => Closing
       case 5 => Swapping(true)
       case _ => Exited
  }

  lemma StepsDown(st: State, st': State, p: nat, a: Action, calls: nat)
    requires p < |st.procs| && Next(st, st', p, a) && a != Crash && 1 <= calls <= 6 && StandsAt(st.procs[p], calls)
    ensures |st'.procs| == |st.procs| && calls < 6 && StandsAt(st'.procs[p], calls + 1)
    ensures match calls
      case 1 => a == Swap
      case 2 => a.UnlinkSocket?
      case 3 => a.UnlinkLock?
      case 4 => a == Close
      case _ => a == Swap
  {
  }

  /** The calls of `p` after a move, given those before it. */
  function With(calls: seq<Action>, m: Move, p: nat): seq<Action> {
    calls + if m.p == p then [m.a] else []
  }

  lemma StandsOn(st: State, st': State, m: Move, p: nat, calls: seq<Action>)
    requires p < |st.procs| && Next(st, st', m.p, m.a) && Crash !in With(calls, m, p)
    requires IsShutdown(calls) && StandsAt(st.procs[p], |calls|)
    ensures |st'.procs| == |st.procs|
    ensures IsShutdown(With(calls, m, p)) && StandsAt(st'.procs[p], |With(calls, m, p)|)
  {
    CallsOnPaths(st, st', m.p, m.a);
    if m.p == p {
      assert m.a in With(calls, m, p);
      StepsDown(st, st', p, m.a, |calls|);
    } else {
      assert With(calls, m, p) == calls;
    }
  }

  lemma StandsFirst(st: State, st': State, p: nat)
    requires Inv(st) && Next(st, st', p, Shutdown)
    ensures |st'.procs| == |st.procs| && StandsAt(st'.procs[p], 1)
  {
    assert ProcInv(st, p);
  }

  /** The calls of `p` in the moves of a run from `a` to `n`. */
  function Window(moves: seq<Move>, a: nat, n: nat, p: nat): seq<Action>
    requires a <= n <= |moves|
  {
    CallsOf(moves[a..n], p)
  }

  lemma WindowGrows(moves: seq<Move>, a: nat, n: nat, p: nat)
    requires a <= n < |moves|
    ensures Window(moves, a, a, p) == [] && Window(moves, a, n + 1, p) == With(Window(moves, a, n, p), moves[n], p)
    ensures Crash !in Window(moves, a, n + 1, p) ==> Crash !in Window(moves, a, n, p)
  {
    var longer := moves[a..n + 1];
    assert longer[..|longer| - 1] == moves[a..n] && longer[|longer| - 1] == moves[n];
  }

  lemma {:induction false} ShutdownStands(states: seq<State>, moves: seq<Move>, a: nat, n: nat, p: nat)
    requires IsRun(states, moves) && a < n <= |moves| && moves[a] == Move(p, Shutdown)
    requires Crash !in Window(moves, a, n, p)
    ensures p < |states[n].procs| && IsShutdown(Window(moves, a, n, p))
    ensures StandsAt(states[n].procs[p], |Window(moves, a, n, p)|)
    decreases n
  {
    assert MoveAt(states, moves, n - 1);
    WindowGrows(moves, a, n - 1, p);
    if n - 1 == a {
      RunKeepsInv(states, moves, a);
      StandsFirst(states[a], states[n], p);
      assert Window(moves, a, n, p) == [Shutdown];
    } else {
      ShutdownStands(states, moves, a, n - 1, p);
      StandsOn(states[n - 1], states[n], moves[n - 1], p, Window(moves, a, n - 1, p));
    }
  }

  /**
   * A daemon that was told to stop, and does not crash, makes these calls and no others: it has unlinked its
   * socket and then its lock file, once each, before it closes the lock file, and it closes that before it exits.
   */
  lemma ShutdownCleansUp(states: seq<State>, moves: seq<Move>, a: nat, n: nat, p: nat)
    requires IsRun(states, moves) && a < n <= |moves| && moves[a] == Move(p, Shutdown)
    requires Crash !in Window(moves, a, n, p)
    ensures p < |states[n].procs| && IsShutdown(Window(moves, a, n, p))
    ensures states[n].procs[p].phase == Exited <==> |Window(moves, a, n, p)| == 6
    ensures |Window(moves, a, n, p)| >= 5 ==> Held(states[n], p) == {}
    ensures |Window(moves, a, n, p)| < 6 ==> exists c :: !IsFault(c) && Step(states[n], p, c).Some?
  {
    ShutdownStands(states, moves, a, n, p);
    RunKeepsInv(states, moves, n);
    assert ProcInv(states[n], p);
    var st := states[n];
    if |Window(moves, a, n, p)| >= 5 {
      forall i | i in st.holder ensures st.holder[i] != p {
        assert HoldsLock(st.procs[st.holder[i]]);
      }
    } else {
      NotStuck(st, p);
    }
    if |Window(moves, a, n, p)| == 5 {
      NotStuck(st, p);
    }
  }

  /** No call of the window is another daemon's or an unlink that failed. */
  ghost predicate Alone(moves: seq<Move>, a: nat, n: nat, p: nat)
    requires a <= n <= |moves|
  {
    forall i | a <= i < n :: moves[i].p == p && moves[i].a != UnlinkSocket(false) && moves[i].a != UnlinkLock(false)
  }

  /** Three calls into its shutdown the socket path is empty, four calls into it the lock path is. */
  predicate LeavesNothing(st: State, calls: nat) {
    (calls >= 3 ==> st.socket.None?) && (calls >= 4 ==> st.lock.None?)
  }

  lemma LeftAfter(st: State, st': State, p: nat, a: Action, calls: seq<Action>)
    requires Next(st, st', p, a) && IsShutdown(calls + [a]) && a != UnlinkSocket(false) && a != UnlinkLock(false)
    requires LeavesNothing(st, |calls|)
    ensures LeavesNothing(st', |calls + [a]|)
  {
    CallsOnPaths(st, st', p, a);
    assert (calls + [a])[|calls|] == a;
  }

  lemma WindowIsShutdown(states: seq<State>, moves: seq<Move>, a: nat, n: nat, p: nat)
    requires IsRun(states, moves) && a < n <= |moves| && moves[a] == Move(p, Shutdown) && moves[n - 1].p == p
    requires Crash !in Window(moves, a, n, p)
    ensures Window(moves, a, n, p) == Window(moves, a, n - 1, p) + [moves[n - 1].a]
    ensures IsShutdown(Window(moves, a, n - 1, p) + [moves[n - 1].a])
    ensures Crash !in Window(moves, a, n - 1, p) && Next(states[n - 1], states[n], p, moves[n - 1].a)
  {
    assert MoveAt(states, moves, n - 1);
    WindowGrows(moves, a, n - 1, p);
    ShutdownStands(states, moves, a, n, p);
  }

  /** When no other daemon moves and no unlink fails, neither path is left. */
  lemma {:induction false} NothingIsLeft(states: seq<State>, moves: seq<Move>, a: nat, n: nat, p: nat)
    requires IsRun(states, moves) && a < n <= |moves| && moves[a] == Move(p, Shutdown)
    requires Crash !in Window(moves, a, n, p) && Alone(moves, a, n, p)
    ensures LeavesNothing(states[n], |Window(moves, a, n, p)|)
    decreases n
  {
    WindowIsShutdown(states, moves, a, n, p);
    if n - 1 == a {
      WindowGrows(moves, a, a, p);
    } else {
      NothingIsLeft(states, moves, a, n - 1, p);
      LeftAfter(states[n - 1], states[n], p, moves[n - 1].a, Window(moves, a, n - 1, p));
    }
  }

  lemma {:induction false} StartersStay(states: seq<State>, moves: seq<Move>, n: nat)
    requires IsRun(states, moves) && n <= |moves|
    ensures |states[n].procs| == |states[0].procs| && forall i | 0 <= i < n :: moves[i].p < |states[0].procs|
  {
    if n > 0 {
      StartersStay(states, moves, n - 1);
      assert MoveAt(states, moves, n - 1);
      CallsOnPaths(states[n - 1], states[n], moves[n - 1].p, moves[n - 1].a);
    }
  }

  /** So the only daemon there is leaves no file behind when it has shut down and its unlinks did not fail. */
  lemma LoneDaemonLeavesNothing(states: seq<State>, moves: seq<Move>, a: nat)
    requires IsRun(states, moves) && |states[0].procs| == 1 && a < |moves| && moves[a] == Move(0, Shutdown)
    requires forall i | a <= i < |moves| :: moves[i].a !in {Crash, UnlinkSocket(false), UnlinkLock(false)}
    requires states[|moves|].procs != [] && states[|moves|].procs[0].phase == Exited
    ensures states[|moves|].socket.None? && states[|moves|].lock.None?
  {
    var n := |moves|;
    StartersStay(states, moves, n);
    NoCrash(moves[a..n], 0);
    ShutdownCleansUp(states, moves, a, n, 0);
    NothingIsLeft(states, moves, a, n, 0);
  }

  lemma {:induction false} NoCrash(moves: seq<Move>, p: nat)
    requires forall i | 0 <= i < |moves| :: moves[i].a != Crash
    ensures Crash !in CallsOf(moves, p)
  {
    if moves != [] {
      NoCrash(moves[..|moves| - 1], p);
    }
  }

  // ----- retries

  /** How often a call was made. */
  function Count(calls: seq<Action>, a: Action): nat {
    if calls == [] then 0 else Count(calls[..|calls| - 1], a) + if calls[|calls| - 1] == a then 1 else 0
  }

  lemma CountOn(calls: seq<Action>, c: Action, a: Action)
    ensures Count(calls + [c], a) == Count(calls, a) + if c == a then 1 else 0
  {
    assert (calls + [c])[..|calls|] == calls;
  }

  /** After so many opens and retries: one open for each retry, and perhaps one more, five at most. */
  predicate RetriesAs(pr: Proc, opens: nat, retries: nat) {
    && pr.attempts == retries <= opens <= retries + 1 && opens <= 5
    && (pr.phase == Start ==> opens == retries < 5)
    && (pr.phase in {Opened, Locked, Mismatched} ==> opens == retries + 1) && (Acquiring(pr) ==> !pr.owns)
    && (retries == 5 ==> pr.phase in {Swapping(true), Exited} && pr.verdict in {Failed, Crashed} && !pr.owns)
  }

  lemma AcquiringRetries(st: State, st': State, p: nat, a: Action, opens: nat, retries: nat)
    requires p < |st.procs| && AcquireStep(st, p, a) == Some(st') && RetriesAs(st.procs[p], opens, retries)
    ensures |st'.procs| == |st.procs|
    ensures RetriesAs(st'.procs[p], opens + if a == Open then 1 else 0, retries + if a == CloseAndRetry then 1 else 0)
  {
  }

  lemma ServingRetries(st: State, st': State, p: nat, a: Action, opens: nat, retries: nat)
    requires p < |st.procs| && ServeStep(st, p, a) == Some(st') && RetriesAs(st.procs[p], opens, retries)
    ensures |st'.procs| == |st.procs| && a != Open && a != CloseAndRetry && RetriesAs(st'.procs[p], opens, retries)
  {
  }

  lemma RetriesOn(st: State, st': State, p: nat, a: Action, opens: nat, retries: nat)
    requires Next(st, st', p, a) && RetriesAs(st.procs[p], opens, retries)
    ensures |st'.procs| == |st.procs|
    ensures RetriesAs(st'.procs[p], opens + if a == Open then 1 else 0, retries + if a == CloseAndRetry then 1 else 0)
  {
    if a == Crash {
    } else if Acquiring(st.procs[p]) {
      AcquiringRetries(st, st', p, a, opens, retries);
    } else {
      ServingRetries(st, st', p, a, opens, retries);
    }
  }

  /** The retries of `p` after these calls of it. */
  predicate RetriedBy(pr: Proc, calls: seq<Action>) {
    RetriesAs(pr, Count(calls, Open), Count(calls, CloseAndRetry))
  }

  lemma RetriesWith(st: State, st': State, m: Move, p: nat, calls: seq<Action>)
    requires p < |st.procs| && Next(st, st', m.p, m.a) && RetriedBy(st.procs[p], calls)
    ensures |st'.procs| == |st.procs| && RetriedBy(st'.procs[p], With(calls, m, p))
  {
    CallsOnOthers(st, st', m.p, m.a);
    if m.p == p {
      RetriesOn(st, st', p, m.a, Count(calls, Open), Count(calls, CloseAndRetry));
      CountOn(calls, m.a, Open);
      CountOn(calls, m.a, CloseAndRetry);
    } else {
      assert With(calls, m, p) == calls;
    }
  }

  /** A starter opens the lock file at most five times; it may try again until its fifth mismatch, and then it fails. */
  lemma {:induction false} FiveAttempts(states: seq<State>, moves: seq<Move>, n: nat, p: nat)
    requires IsRun(states, moves) && n <= |moves| && p < |states[0].procs|
    ensures |states[n].procs| == |states[0].procs| && RetriedBy(states[n].procs[p], Window(moves, 0, n, p))
  {
    if n == 0 {
      assert moves[0..0] == [];
    } else {
      FiveAttempts(states, moves, n - 1, p);
      assert MoveAt(states, moves, n - 1);
      WindowGrows(moves, 0, n - 1, p);
      RetriesWith(states[n - 1], states[n], moves[n - 1], p, Window(moves, 0, n - 1, p));
    }
  }
}

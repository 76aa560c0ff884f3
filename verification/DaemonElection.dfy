/**
 * The election of the one Unix daemon that owns a socket path
 * (packages/encryption-binary-rust/src/ipc.rs and daemon.rs), as the interleaved system calls of any
 * number of daemons.
 *
 * Inodes are fresh numbers: an inode a daemon still has open cannot be reused. A daemon holds an
 * exclusive flock through its open file, so closing the file or dying releases it.
 */
module DaemonElection {
  import opened Outcomes

  /** Where a daemon stands. `drop` marks the second cleanup, run when the server object is dropped. */
  datatype Phase =
    | Start                        // about to open the lock file
    | Opened                       // about to flock it
    | Locked                       // about to compare it with what the path names
    | Mismatched                   // about to close it and try again
    | Won                          // about to remove a stale socket
    | Binding                      // about to bind the socket
    | Bound                        // about to set `owns_files`
    | Claimed                      // about to run the listening callback
    | Serving
    | Swapping(drop: bool)         // about to swap `owns_files`
    | UnlinkingSocket(drop: bool)
    | UnlinkingLock(drop: bool)
    | Closing                      // about to close the lock file
    | Exited

  datatype Verdict = Undecided | LockHeld | Failed | Stopped | Crashed

  datatype Proc = Proc(
    phase: Phase,
    fd: Option<nat>,
    attempts: nat,
    owns: bool,
    sock: Option<nat>,
    announced: bool,
    verdict: Verdict
  )

  const FRESH := Proc(Start, None, 0, false, None, false, Undecided)
  const MAX_ATTEMPTS := 5

  /** The daemons, the two paths, the holder of each flock, and the next unused inode number. */
  datatype State = State(procs: seq<Proc>, lock: Option<nat>, socket: Option<nat>, holder: map<nat, nat>, next: nat)

  /** One step of one daemon. `ok` is false when the call fails and the code ignores that. */
  datatype Action =
    | Open | Flock | Compare(ok: bool) | CloseAndRetry | RemoveStale(ok: bool) | Bind | Claim | Announce | Shutdown
    | Swap | UnlinkSocket(ok: bool) | UnlinkLock(ok: bool) | Close | Fail | Crash

  predicate IsFault(a: Action) {
    || a == Shutdown || a == Fail || a == Crash
    || a == Compare(false) || a == RemoveStale(false) || a == UnlinkSocket(false) || a == UnlinkLock(false)
  }

  function Released(holder: map<nat, nat>, p: nat): map<nat, nat> {
    map i | i in holder && holder[i] != p :: holder[i]
  }

  function Update(st: State, p: nat, pr: Proc): State
    requires p < |st.procs|
  {
    st.(procs := st.procs[p := pr])
  }

  predicate Acquiring(pr: Proc) {
    pr.phase in {Start, Opened, Locked, Mismatched}
  }

  /** The calls of `acquire_lock`. */
  function AcquireStep(st: State, p: nat, a: Action): Option<State>
    requires p < |st.procs|
  {
    var pr := st.procs[p];
    match (pr.phase, a)
    case (Start, Open) =>
      if st.lock.Some? then Some(Update(st, p, pr.(phase := Opened, fd := st.lock)))
      else Some(Update(st, p, pr.(phase := Opened, fd := Some(st.next))).(lock := Some(st.next), next := st.next + 1))
    case (Start, Fail) => Some(Update(st, p, pr.(phase := Swapping(true), verdict := Failed)))
    case (Opened, Flock) =>
      if pr.fd.Some? && pr.fd.value !in st.holder
      then Some(Update(st, p, pr.(phase := Locked)).(holder := st.holder[pr.fd.value := p]))
      else Some(Update(st, p, pr.(phase := Swapping(true), fd := None, verdict := LockHeld)))
    case (Opened, Fail) => Some(Update(st, p, pr.(phase := Swapping(true), fd := None, verdict := LockHeld)))
    case (Locked, Compare(ok)) =>
      Some(Update(st, p, pr.(phase := if ok && st.lock.Some? && st.lock == pr.fd then Won else Mismatched)))
    case (Locked, Fail) => Some(Update(st, p, pr.(phase := Closing, verdict := Failed)))
    case (Mismatched, CloseAndRetry) =>
      var closed := pr.(fd := None, attempts := pr.attempts + 1);
      Some(Update(st, p, if pr.attempts + 1 < MAX_ATTEMPTS then closed.(phase := Start)
                         else closed.(phase := Swapping(true), verdict := Failed))
           .(holder := Released(st.holder, p)))
    case _ => None
  }

  /** The calls of `start` after the lock is won, and of the two cleanups. */
  function ServeStep(st: State, p: nat, a: Action): Option<State>
    requires p < |st.procs|
  {
    var pr := st.procs[p];
    match (pr.phase, a)
    case (Won, RemoveStale(ok)) =>
      Some(Update(st, p, pr.(phase := Binding)).(socket := if ok then None else st.socket))
    case (Binding, Bind) =>
      if st.socket.None?
      then
        Some(Update(st, p, pr.(phase := Bound, sock := Some(st.next)))
             .(socket := Some(st.next), next := st.next + 1))
      else Some(Update(st, p, pr.(phase := Closing, verdict := Failed)))
    case (Binding, Fail) => Some(Update(st, p, pr.(phase := Closing, verdict := Failed)))
    case (Bound, Fail) => Some(Update(st, p, pr.(phase := Closing, verdict := Failed)))
    case (Bound, Claim) => Some(Update(st, p, pr.(phase := Claimed, owns := true)))
    case (Claimed, Announce) => Some(Update(st, p, pr.(phase := Serving, announced := true)))
    case (Serving, Shutdown) => Some(Update(st, p, pr.(phase := Swapping(false), verdict := Stopped)))
    case (Swapping(drop), Swap) =>
      var next := if pr.owns then UnlinkingSocket(drop) else AfterCleanup(drop);
      Some(Update(st, p, pr.(phase := next, owns := false)))
    case (UnlinkingSocket(drop), UnlinkSocket(ok)) =>
      Some(Update(st, p, pr.(phase := UnlinkingLock(drop))).(socket := if ok then None else st.socket))
    case (UnlinkingLock(drop), UnlinkLock(ok)) =>
      Some(Update(st, p, pr.(phase := AfterCleanup(drop))).(lock := if ok then None else st.lock))
    case (Closing, Close) =>
      Some(Update(st, p, pr.(phase := Swapping(true), fd := None)).(holder := Released(st.holder, p)))
    case _ => None
  }

  /** A crash closes the daemon's files and leaves the paths as they are. */
  function CrashStep(st: State, p: nat): Option<State>
    requires p < |st.procs|
  {
    var pr := st.procs[p];
    if pr.phase == Exited then None
    else Some(Update(st, p, pr.(phase := Exited, fd := None, owns := false, verdict := Crashed))
              .(holder := Released(st.holder, p)))
  }

  /** What daemon `p` does to the shared state with one call; None where that call is not next. */
  function Step(st: State, p: nat, a: Action): Option<State>
    requires p < |st.procs|
  {
    if a == Crash then CrashStep(st, p)
    else if Acquiring(st.procs[p]) then AcquireStep(st, p, a)
    else ServeStep(st, p, a)
  }

  /** `start` closes its lock file once its own cleanup is done; the drop of the server ends the process. */
  function AfterCleanup(drop: bool): Phase {
    if drop then Exited else Closing
  }

  /** Any lock file and socket may be left over from earlier daemons, but no lock is held. */
  predicate Init(st: State) {
    && st.holder == map[]
    && (forall p | 0 <= p < |st.procs| :: st.procs[p] == FRESH)
    && (st.lock.Some? ==> st.lock.value < st.next)
    && (st.socket.Some? ==> st.socket.value < st.next)
  }

  predicate Next(st: State, st': State, p: nat, a: Action) {
    p < |st.procs| && Step(st, p, a) == Some(st')
  }

  /** A move is a daemon and its step; a run is the list of states the moves lead through. */
  datatype Move = Move(p: nat, a: Action)

  ghost predicate IsRun(states: seq<State>, moves: seq<Move>) {
    && |states| == |moves| + 1 && Init(states[0])
    && forall i | 0 <= i < |moves| :: MoveAt(states, moves, i)
  }

  ghost predicate MoveAt(states: seq<State>, moves: seq<Move>, i: nat)
    requires |states| == |moves| + 1 && i < |moves|
  {
    Next(states[i], states[i + 1], moves[i].p, moves[i].a)
  }

  // ----- the invariant

  /** From passing the inode comparison to unlinking the lock file. */
  predicate Critical(pr: Proc) {
    pr.phase in {Won, Binding, Bound, Claimed, Serving, Swapping(false), UnlinkingSocket(false), UnlinkingLock(false)}
  }

  predicate HoldsLock(pr: Proc) {
    Critical(pr) || pr.phase in {Locked, Mismatched, Closing}
  }

  /** From binding the socket to its own cleanup. */
  predicate OwnsSocket(pr: Proc) {
    pr.phase in {Bound, Claimed, Serving, Swapping(false), UnlinkingSocket(false)}
  }

  predicate IsCleaning(phase: Phase) {
    phase.Swapping? || phase.UnlinkingSocket? || phase.UnlinkingLock?
  }

  predicate ProcInv(st: State, p: nat)
    requires p < |st.procs|
  {
    var pr := st.procs[p];
    && (pr.fd.Some? ==> pr.fd.value < st.next)
    && (pr.phase == Opened ==> pr.fd.Some?)
    && (HoldsLock(pr) ==> pr.fd.Some? && pr.fd.value in st.holder && st.holder[pr.fd.value] == p)
    && (Critical(pr) ==> st.lock == pr.fd)
    && (OwnsSocket(pr) ==> pr.sock.Some? && st.socket == pr.sock)
    && (pr.owns <==> pr.phase in {Claimed, Serving, Swapping(false)})
    && (pr.phase.UnlinkingSocket? || pr.phase.UnlinkingLock? ==> !pr.phase.drop)
    && (pr.announced ==> pr.verdict != LockHeld)
    && (pr.verdict == LockHeld ==> pr.phase == Swapping(true) || pr.phase == Exited)
    && (pr.announced ==> pr.phase in {Serving, Closing, Exited} || IsCleaning(pr.phase))
    && (pr.phase == Serving ==> pr.announced)
  }

  predicate Inv(st: State) {
    && (st.lock.Some? ==> st.lock.value < st.next)
    && (forall i | i in st.holder ::
          i < st.next && st.holder[i] < |st.procs|
          && HoldsLock(st.procs[st.holder[i]]) && st.procs[st.holder[i]].fd == Some(i))
    && (forall p | 0 <= p < |st.procs| :: ProcInv(st, p))
  }

  lemma CriticalIsUnique(st: State, p: nat, q: nat)
    requires Inv(st) && p < |st.procs| && q < |st.procs|
    requires Critical(st.procs[p]) && Critical(st.procs[q])
    ensures p == q
  {
    assert ProcInv(st, p) && ProcInv(st, q);
  }

  lemma InitInv(st: State)
    requires Init(st)
    ensures Inv(st)
  {
  }

  /** The daemon that moves keeps its own part of the invariant. */
  lemma StepKeepsOwn(st: State, st': State, p: nat, a: Action)
    requires Inv(st) && Next(st, st', p, a)
    ensures |st'.procs| == |st.procs| && ProcInv(st', p)
  {
    assert ProcInv(st, p);
    if a == Crash {
    } else if Acquiring(st.procs[p]) {
      AcquireKeepsOwn(st, st', p, a);
    } else {
      ServeKeepsOwn(st, st', p, a);
    }
  }

  lemma AcquireKeepsOwn(st: State, st': State, p: nat, a: Action)
    requires p < |st.procs| && ProcInv(st, p) && (st.lock.Some? ==> st.lock.value < st.next)
    requires AcquireStep(st, p, a) == Some(st')
    ensures |st'.procs| == |st.procs| && ProcInv(st', p)
  {
  }

  lemma ServeKeepsOwn(st: State, st': State, p: nat, a: Action)
    requires p < |st.procs| && ProcInv(st, p) && (st.lock.Some? ==> st.lock.value < st.next)
    requires ServeStep(st, p, a) == Some(st')
    ensures |st'.procs| == |st.procs| && ProcInv(st', p)
  {
  }

  /** What any step of `p` can do to the shared state. */
  predicate Effect(st: State, st': State, p: nat)
    requires p < |st.procs|
  {
    && |st'.procs| == |st.procs| && (forall q | 0 <= q < |st.procs| && q != p :: st'.procs[q] == st.procs[q])
    && st.next <= st'.next
    && (|| st'.lock == st.lock || Critical(st.procs[p])
        || (st.lock.None? && st'.lock == Some(st.next) && st.next < st'.next))
    && (st'.lock.Some? && st'.lock != st.lock ==> st.lock.None? && st'.lock.value < st'.next)
    && (st'.socket == st.socket || Critical(st.procs[p]))
    && (forall i | i in st.holder && st.holder[i] != p :: i in st'.holder && st'.holder[i] == st.holder[i])
    && (forall i | i in st'.holder && (i !in st.holder || st'.holder[i] != st.holder[i]) ::
          i !in st.holder && st'.holder[i] == p)
  }

  lemma StepEffect(st: State, st': State, p: nat, a: Action)
    requires Inv(st) && Next(st, st', p, a)
    ensures Effect(st, st', p)
  {
    assert ProcInv(st, p);
    if a == Crash {
    } else if Acquiring(st.procs[p]) {
      AcquireEffect(st, st', p, a);
    } else {
      ServeEffect(st, st', p, a);
    }
  }

  lemma AcquireEffect(st: State, st': State, p: nat, a: Action)
    requires Inv(st) && p < |st.procs| && AcquireStep(st, p, a) == Some(st')
    ensures Effect(st, st', p)
  {
    assert ProcInv(st, p);
  }

  lemma ServeEffect(st: State, st': State, p: nat, a: Action)
    requires Inv(st) && p < |st.procs| && ServeStep(st, p, a) == Some(st')
    ensures Effect(st, st', p)
  {
    assert ProcInv(st, p);
  }

  /** The others are untouched: a step takes only free locks, and only a critical daemon changes a path that is set. */
  lemma OtherKeepsInv(st: State, st': State, p: nat, q: nat)
    requires Inv(st) && p < |st.procs| && Effect(st, st', p) && q < |st.procs| && q != p
    ensures ProcInv(st', q)
  {
    assert ProcInv(st, p) && ProcInv(st, q);
    if Critical(st.procs[q]) && Critical(st.procs[p]) {
      CriticalIsUnique(st, p, q);
    }
  }

  /** The locks `p` holds after its step are the one of its open file, if it is in a holding phase. */
  predicate OwnHolds(st: State, p: nat)
    requires p < |st.procs|
  {
    forall i | i in st.holder && st.holder[i] == p :: i < st.next && HoldsLock(st.procs[p]) && st.procs[p].fd == Some(i)
  }

  lemma StepOwnHolds(st: State, st': State, p: nat, a: Action)
    requires Inv(st) && Next(st, st', p, a)
    ensures |st'.procs| == |st.procs| && OwnHolds(st', p)
  {
    assert ProcInv(st, p);
    if a == Crash {
    } else if Acquiring(st.procs[p]) {
      AcquireOwnHolds(st, st', p, a);
    } else {
      ServeOwnHolds(st, st', p, a);
    }
  }

  lemma AcquireOwnHolds(st: State, st': State, p: nat, a: Action)
    requires Inv(st) && p < |st.procs| && AcquireStep(st, p, a) == Some(st')
    ensures |st'.procs| == |st.procs| && OwnHolds(st', p)
  {
    assert ProcInv(st, p);
  }

  lemma ServeOwnHolds(st: State, st': State, p: nat, a: Action)
    requires Inv(st) && p < |st.procs| && ServeStep(st, p, a) == Some(st')
    ensures |st'.procs| == |st.procs| && OwnHolds(st', p)
  {
    assert ProcInv(st, p);
  }

  lemma StepKeepsInv(st: State, st': State, p: nat, a: Action)
    requires Inv(st) && Next(st, st', p, a)
    ensures Inv(st')
  {
    StepEffect(st, st', p, a);
    StepOwnHolds(st, st', p, a);
    forall q | 0 <= q < |st'.procs| ensures ProcInv(st', q) {
      if q == p {
        StepKeepsOwn(st, st', p, a);
      } else {
        OtherKeepsInv(st, st', p, q);
      }
    }
    InvFromEffect(st, st', p);
  }

  lemma InvFromEffect(st: State, st': State, p: nat)
    requires Inv(st) && p < |st.procs| && Effect(st, st', p) && OwnHolds(st', p)
    requires forall q | 0 <= q < |st'.procs| :: ProcInv(st', q)
    ensures Inv(st')
  {
  }

  lemma {:induction false} RunKeepsInv(states: seq<State>, moves: seq<Move>, i: nat)
    requires IsRun(states, moves) && i < |states|
    ensures Inv(states[i]) && |states[i].procs| == |states[0].procs|
  {
    if i == 0 {
      InitInv(states[0]);
    } else {
      RunKeepsInv(states, moves, i - 1);
      var m := moves[i - 1];
      assert MoveAt(states, moves, i - 1);
      StepKeepsInv(states[i - 1], states[i], m.p, m.a);
    }
  }

  // ----- safety over every run

  /**
   * Whatever the interleaving, shutdowns, failures and crashes: at most one daemon is between passing
   * the inode comparison and unlinking its lock file, and until then the path names the inode it holds.
   */
  lemma ElectionIsSafe(states: seq<State>, moves: seq<Move>, i: nat, p: nat)
    requires IsRun(states, moves) && i < |states| && p < |states[i].procs| && Critical(states[i].procs[p])
    ensures states[i].lock.Some? && states[i].lock == states[i].procs[p].fd
    ensures states[i].lock.value in states[i].holder && states[i].holder[states[i].lock.value] == p
    ensures forall q | 0 <= q < |states[i].procs| && Critical(states[i].procs[q]) :: q == p
  {
    RunKeepsInv(states, moves, i);
    assert ProcInv(states[i], p);
    forall q | 0 <= q < |states[i].procs| && Critical(states[i].procs[q]) ensures q == p {
      CriticalIsUnique(states[i], p, q);
    }
  }

  /** From binding its socket to its own cleanup, a daemon's socket path names its own socket. */
  lemma SocketIsOwn(states: seq<State>, moves: seq<Move>, i: nat, p: nat)
    requires IsRun(states, moves) && i < |states| && p < |states[i].procs| && OwnsSocket(states[i].procs[p])
    ensures states[i].procs[p].sock.Some? && states[i].socket == states[i].procs[p].sock
  {
    RunKeepsInv(states, moves, i);
    assert ProcInv(states[i], p);
  }

  /**
   * Whoever changes a path that is set is itself critical; the lock file it unlinks is its own, and so
   * is the socket it unlinks when it cleans up. The second cleanup, on drop, unlinks nothing.
   */
  lemma OnlyOwnersUnlink(states: seq<State>, moves: seq<Move>, i: nat)
    requires IsRun(states, moves) && i < |moves|
    ensures var st, st', p := states[i], states[i + 1], moves[i].p;
      && p < |st.procs| == |st'.procs|
      && (st.lock.Some? && st'.lock != st.lock ==> Critical(st.procs[p]) && st.lock == st.procs[p].fd)
      && (st'.socket != st.socket ==> Critical(st.procs[p]))
      && (moves[i].a.UnlinkSocket? ==> st.procs[p].sock.Some? && st.socket == st.procs[p].sock)
      && (st.procs[p].phase == Swapping(true) && moves[i].a == Swap ==> st' == Update(st, p, st'.procs[p]))
  {
    RunKeepsInv(states, moves, i);
    assert MoveAt(states, moves, i);
    assert ProcInv(states[i], moves[i].p);
  }

  /** No daemon's step takes the lock file or the socket away from another daemon that owns it. */
  lemma FilesStayOwned(states: seq<State>, moves: seq<Move>, i: nat, q: nat)
    requires IsRun(states, moves) && i < |moves| && q < |states[i].procs| && q != moves[i].p
    ensures Critical(states[i].procs[q]) ==> states[i + 1].lock == states[i].lock
    ensures Critical(states[i].procs[q]) ==> states[i + 1].socket == states[i].socket
  {
    RunKeepsInv(states, moves, i);
    OnlyOwnersUnlink(states, moves, i);
    if Critical(states[i].procs[q]) {
      assert ProcInv(states[i], q);
      if Critical(states[i].procs[moves[i].p]) {
        CriticalIsUnique(states[i], q, moves[i].p);
      }
    }
  }

  /** A daemon that lost never ran its listening callback, which is what writes the shared state files. */
  lemma LoserAnnouncesNothing(states: seq<State>, moves: seq<Move>, i: nat, p: nat)
    requires IsRun(states, moves) && i < |states| && p < |states[i].procs|
    ensures states[i].procs[p].verdict == LockHeld ==> !states[i].procs[p].announced
  {
    RunKeepsInv(states, moves, i);
    assert ProcInv(states[i], p);
  }

  // ----- the outcome of an election without faults

  ghost predicate FaultFree(moves: seq<Move>) {
    forall i | 0 <= i < |moves| :: !IsFault(moves[i].a)
  }

  /** What holds as long as nobody shuts down, fails or crashes. */
  predicate CalmProc(st: State, p: nat)
    requires p < |st.procs|
  {
    var pr := st.procs[p];
    && pr.attempts == 0 && pr.phase != Mismatched && pr.phase != Closing
    && !pr.phase.UnlinkingSocket? && !pr.phase.UnlinkingLock?
    && (pr.phase.Swapping? ==> pr.phase.drop)
    && (pr.phase == Swapping(true) || pr.phase == Exited <==> pr.verdict == LockHeld)
    && (pr.verdict == LockHeld || pr.verdict == Undecided)
    && (pr.fd.Some? ==> pr.fd == st.lock)
    && (pr.phase == Opened || HoldsLock(pr) ==> pr.fd.Some?)
    && (pr.phase == Binding ==> st.socket.None?)
    && (pr.verdict == LockHeld ==> st.holder != map[])
  }

  predicate Calm(st: State) {
    forall p | 0 <= p < |st.procs| :: CalmProc(st, p)
  }

  lemma CalmOwnStep(st: State, st': State, p: nat, a: Action)
    requires Inv(st) && Calm(st) && Next(st, st', p, a) && !IsFault(a)
    ensures |st'.procs| == |st.procs| && CalmProc(st', p)
  {
    assert ProcInv(st, p) && CalmProc(st, p);
    if Acquiring(st.procs[p]) {
      CalmAcquire(st, st', p, a);
    } else {
      CalmServe(st, st', p, a);
    }
  }

  lemma CalmAcquire(st: State, st': State, p: nat, a: Action)
    requires Inv(st) && Calm(st) && p < |st.procs| && AcquireStep(st, p, a) == Some(st') && !IsFault(a)
    ensures |st'.procs| == |st.procs| && CalmProc(st', p) && CalmEffect(st, st', p)
  {
    assert ProcInv(st, p) && CalmProc(st, p);
    if st.lock.None? {
      forall q | 0 <= q < |st.procs| ensures st.procs[q].fd.None? && st.procs[q].phase != Binding {
        assert CalmProc(st, q);
      }
    }
  }

  lemma CalmServe(st: State, st': State, p: nat, a: Action)
    requires Inv(st) && Calm(st) && p < |st.procs| && ServeStep(st, p, a) == Some(st') && !IsFault(a)
    ensures |st'.procs| == |st.procs| && CalmProc(st', p) && CalmEffect(st, st', p)
  {
    assert ProcInv(st, p) && CalmProc(st, p);
  }

  /** Without faults a lock path that is set stays, and no lock is ever released. */
  predicate CalmEffect(st: State, st': State, p: nat) {
    && (st'.lock == st.lock || st.lock.None?)
    && (st.holder != map[] ==> st'.holder != map[])
  }

  lemma CalmStep(st: State, st': State, p: nat, a: Action)
    requires Inv(st) && Calm(st) && Next(st, st', p, a) && !IsFault(a)
    ensures Calm(st')
  {
    StepEffect(st, st', p, a);
    CalmOwnStep(st, st', p, a);
    assert CalmEffect(st, st', p) by {
      if Acquiring(st.procs[p]) { CalmAcquire(st, st', p, a); } else { CalmServe(st, st', p, a); }
    }
    forall q | 0 <= q < |st'.procs| ensures CalmProc(st', q) {
      if q != p {
        CalmOther(st, st', p, q);
      }
    }
  }

  lemma CalmOther(st: State, st': State, p: nat, q: nat)
    requires Inv(st) && Calm(st) && p < |st.procs| && q < |st.procs| && q != p
    requires Effect(st, st', p) && CalmEffect(st, st', p)
    ensures CalmProc(st', q)
  {
    assert CalmProc(st, q) && ProcInv(st, q) && CalmProc(st, p) && ProcInv(st, p);
    if st.procs[q].phase == Binding && Critical(st.procs[p]) {
      CriticalIsUnique(st, p, q);
    }
  }

  // ----- how a run without faults ends

  /** The calls a daemon still has before it; every step uses one up. */
  function Remaining(pr: Proc): nat {
    match pr.phase
    case Start => 9
    case Opened => 8
    case Locked => 7
    case Mismatched => 7
    case Won => 6
    case Binding => 5
    case Bound => 4
    case Claimed => 3
    case Serving => 0
    case Swapping(_) => 1
    case UnlinkingSocket(_) => 3
    case UnlinkingLock(_) => 2
    case Closing => 2
    case Exited => 0
  }

  function TotalRemaining(procs: seq<Proc>): nat {
    if procs == [] then 0 else Remaining(procs[0]) + TotalRemaining(procs[1..])
  }

  lemma {:induction false} TotalAfterUpdate(procs: seq<Proc>, p: nat, pr: Proc)
    requires p < |procs|
    ensures TotalRemaining(procs[p := pr]) == TotalRemaining(procs) - Remaining(procs[p]) + Remaining(pr)
  {
    var changed := procs[p := pr];
    if p == 0 {
      assert changed[1..] == procs[1..];
    } else {
      assert changed[1..] == procs[1..][p - 1 := pr];
      TotalAfterUpdate(procs[1..], p - 1, pr);
    }
  }

  lemma AcquireUsesCall(st: State, st': State, p: nat, a: Action)
    requires p < |st.procs| && CalmProc(st, p) && AcquireStep(st, p, a) == Some(st') && !IsFault(a)
    ensures |st'.procs| == |st.procs| && Remaining(st'.procs[p]) < Remaining(st.procs[p])
  {
  }

  lemma ServeUsesCall(st: State, st': State, p: nat, a: Action)
    requires p < |st.procs| && ProcInv(st, p) && CalmProc(st, p) && ServeStep(st, p, a) == Some(st') && !IsFault(a)
    ensures |st'.procs| == |st.procs| && Remaining(st'.procs[p]) < Remaining(st.procs[p])
  {
  }

  lemma StepUsesCall(st: State, st': State, p: nat, a: Action)
    requires Inv(st) && Calm(st) && Next(st, st', p, a) && !IsFault(a)
    ensures TotalRemaining(st'.procs) < TotalRemaining(st.procs)
  {
    StepEffect(st, st', p, a);
    assert ProcInv(st, p) && CalmProc(st, p);
    if Acquiring(st.procs[p]) {
      AcquireUsesCall(st, st', p, a);
    } else {
      ServeUsesCall(st, st', p, a);
    }
    var pr := st'.procs[p];
    assert st'.procs == st.procs[p := pr];
    TotalAfterUpdate(st.procs, p, pr);
  }

  lemma {:induction false} RunStaysCalm(states: seq<State>, moves: seq<Move>, i: nat)
    requires IsRun(states, moves) && FaultFree(moves) && i < |states|
    ensures Inv(states[i]) && Calm(states[i]) && |states[i].procs| == |states[0].procs|
    ensures TotalRemaining(states[i].procs) + i <= TotalRemaining(states[0].procs)
  {
    if i == 0 {
      InitInv(states[0]);
    } else {
      RunStaysCalm(states, moves, i - 1);
      var m := moves[i - 1];
      assert MoveAt(states, moves, i - 1) && !IsFault(m.a);
      StepKeepsInv(states[i - 1], states[i], m.p, m.a);
      StepEffect(states[i - 1], states[i], m.p, m.a);
      CalmStep(states[i - 1], states[i], m.p, m.a);
      StepUsesCall(states[i - 1], states[i], m.p, m.a);
    }
  }

  lemma {:induction false} FreshTotal(procs: seq<Proc>)
    requires forall p | 0 <= p < |procs| :: procs[p] == FRESH
    ensures TotalRemaining(procs) == 9 * |procs|
  {
    if procs != [] {
      FreshTotal(procs[1..]);
    }
  }

  /** `acquire_lock` has returned, and the daemon won. */
  predicate HasWon(pr: Proc) {
    Critical(pr)
  }

  predicate HasLost(pr: Proc) {
    pr.verdict == LockHeld
  }

  /**
   * Without shutdowns, failures and crashes no starter ever retries, and once all have returned from
   * `acquire_lock` exactly one holds the lock and the rest were told that another daemon does.
   */
  lemma OneWinner(states: seq<State>, moves: seq<Move>, i: nat)
    requires IsRun(states, moves) && FaultFree(moves) && i < |states| && |states[0].procs| > 0
    ensures forall p | 0 <= p < |states[i].procs| ::
      states[i].procs[p].attempts == 0 && states[i].procs[p].phase != Mismatched
    ensures (forall p | 0 <= p < |states[i].procs| :: !Acquiring(states[i].procs[p])) ==>
      exists w :: 0 <= w < |states[i].procs| && HasWon(states[i].procs[w])
        && forall p | 0 <= p < |states[i].procs| && p != w :: HasLost(states[i].procs[p])
  {
    RunStaysCalm(states, moves, i);
    var st := states[i];
    forall p | 0 <= p < |st.procs| ensures st.procs[p].attempts == 0 && st.procs[p].phase != Mismatched {
      assert CalmProc(st, p);
    }
    if forall p | 0 <= p < |st.procs| :: !Acquiring(st.procs[p]) {
      var w := SomeHolder(st);
      forall p | 0 <= p < |st.procs| && p != w ensures HasLost(st.procs[p]) {
        assert CalmProc(st, p);
        if Critical(st.procs[p]) {
          CriticalIsUnique(st, p, w);
        }
      }
    }
  }

  lemma SomeHolder(st: State) returns (w: nat)
    requires Inv(st) && Calm(st) && |st.procs| > 0
    requires forall p | 0 <= p < |st.procs| :: !Acquiring(st.procs[p])
    ensures w < |st.procs| && Critical(st.procs[w])
  {
    assert CalmProc(st, 0) && ProcInv(st, 0);
    if Critical(st.procs[0]) {
      w := 0;
    } else {
      var i :| i in st.holder;
      w := st.holder[i];
      assert CalmProc(st, w) && ProcInv(st, w);
    }
  }

  /** Nothing but a fault can happen any more. */
  ghost predicate Settled(st: State) {
    forall p: nat, a | p < |st.procs| && !IsFault(a) :: Step(st, p, a).None?
  }

  /**
   * Every run without faults of `n` starters has at most `9 n` steps, and one that cannot be extended
   * has exactly one daemon serving, which has announced itself, while all others have exited without, told that
   * the lock is held.
   */
  lemma ElectionEnds(states: seq<State>, moves: seq<Move>)
    requires IsRun(states, moves) && FaultFree(moves) && |states[0].procs| > 0
    ensures |moves| <= 9 * |states[0].procs|
    ensures var st := states[|moves|]; Settled(st) ==>
      exists w :: 0 <= w < |st.procs| && st.procs[w].phase == Serving && st.procs[w].announced
        && forall p | 0 <= p < |st.procs| && p != w ::
             st.procs[p].phase == Exited && HasLost(st.procs[p]) && !st.procs[p].announced
  {
    var st := states[|moves|];
    RunStaysCalm(states, moves, |moves|);
    FreshTotal(states[0].procs);
    if Settled(st) {
      forall p | 0 <= p < |st.procs| ensures st.procs[p].phase in {Serving, Exited} {
        if st.procs[p].phase !in {Serving, Exited} {
          NotStuck(st, p);
        }
      }
      OneWinner(states, moves, |moves|);
      var w :| 0 <= w < |st.procs| && HasWon(st.procs[w])
        && forall p | 0 <= p < |st.procs| && p != w :: HasLost(st.procs[p]);
      assert ProcInv(st, w);
      forall p | 0 <= p < |st.procs| && p != w ensures st.procs[p].phase == Exited && !st.procs[p].announced {
        assert CalmProc(st, p) && HasLost(st.procs[p]) && ProcInv(st, p);
      }
    }
  }

  /** The call a daemon makes next when nothing fails. */
  function NextCall(pr: Proc): Action {
    match pr.phase
    case Start => Open
    case Opened => Flock
    case Locked => Compare(true)
    case Mismatched => CloseAndRetry
    case Won => RemoveStale(true)
    case Binding => Bind
    case Bound => Claim
    case Claimed => Announce
    case Swapping(_) => Swap
    case UnlinkingSocket(_) => UnlinkSocket(true)
    case UnlinkingLock(_) => UnlinkLock(true)
    case _ => Close
  }

  /** A daemon that has not come to rest has a next call. */
  lemma NotStuck(st: State, p: nat)
    requires p < |st.procs| && st.procs[p].phase !in {Serving, Exited}
    ensures !IsFault(NextCall(st.procs[p])) && Step(st, p, NextCall(st.procs[p])).Some?
  {
  }
}

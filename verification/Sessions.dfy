/**
  Who is logged in on which descriptor, and which worker serves it: the global maps and per-worker
  maps of User_manager.cc, Worker.cc, MasterServer.cc and messageCenter.cc under src/Server. The
  kernel may hand out any closed descriptor again; closing one takes three separate steps.
*/
module Sessions {
  import opened Prelude

  const WORKERS := 10

  /** Connection objects are numbered; `logins` records, for the proof, which user each served last. */
  datatype Net = Net(
    users: map<string, nat>,        // descriptor of a user
    fds: map<nat, string>,          // user of a descriptor
    workerOf: map<nat, nat>,        // Worker_fd
    conns: seq<map<nat, nat>>,      // per worker: the connection object of a descriptor
    accepted: nat,                  // the master's counter, also the next object's number
    open: set<nat>,                 // descriptors the kernel has given out
    closing: map<nat, bool>,        // descriptors inside remove_fd; true once the user is removed
    logins: map<nat, string>)

  const START := Net(map[], map[], map[], seq(WORKERS, _ => map[]), 0, {}, map[], map[])

  datatype Step =
    | Accept(fd: nat)                  // accept, distribute_worker, make_queue
    | LogIn(fd: nat, user: string)     // addUser
    | EraseConn(fd: nat)               // remove_fd: conn.erase
    | EraseUser(fd: nat)               // remove_fd: removeUser
    | CloseFd(fd: nat)                 // remove_fd: close

  predicate Served(n: Net, fd: nat) {
    fd in n.workerOf && n.workerOf[fd] < |n.conns| && fd in n.conns[n.workerOf[fd]]
  }

  /** No other user is registered under this descriptor. */
  ghost predicate SingleLogin(n: Net, fd: nat, user: string) {
    forall v | v in n.users && n.users[v] == fd :: v == user
  }

  /** The steps that can happen; a connection logs in for one user only. */
  ghost predicate Enabled(n: Net, s: Step) {
    match s
    case Accept(fd) => fd != 0 && fd !in n.open
    case LogIn(fd, user) => Served(n, fd) && SingleLogin(n, fd, user)
    case EraseConn(fd) => Served(n, fd)
    case EraseUser(fd) => fd in n.closing && !n.closing[fd]
    case CloseFd(fd) => fd in n.closing && n.closing[fd]
  }

  function NameOf(n: Net, fd: nat): string {
    if fd in n.fds then n.fds[fd] else ""
  }

  function Do(n: Net, s: Step): Net {
    match s
    case Accept(fd) =>
      var w := n.accepted % WORKERS;
      if w >= |n.conns| then n
      else
        var conn: map<nat, nat> := n.conns[w][fd := n.accepted];
        n.(open := n.open + {fd}, workerOf := n.workerOf[fd := w], accepted := n.accepted + 1, conns := n.conns[w := conn])
    case LogIn(fd, user) =>
      if !Served(n, fd) then n
      else n.(users := n.users[user := fd], fds := n.fds[fd := user],
              logins := n.logins[n.conns[n.workerOf[fd]][fd] := user])
    case EraseConn(fd) =>
      if !Served(n, fd) then n
      else
        var conn: map<nat, nat> := n.conns[n.workerOf[fd]] - {fd};
        n.(conns := n.conns[n.workerOf[fd] := conn], closing := n.closing[fd := false])
    case EraseUser(fd) => n.(users := n.users - {NameOf(n, fd)}, fds := n.fds - {fd}, closing := n.closing[fd := true])
    case CloseFd(fd) => n.(open := n.open - {fd}, closing := n.closing - {fd})
  }

  /** `dispatch` and `Notify`: the connection object that a write to this descriptor reaches. */
  function Target(n: Net, fd: nat): Option<nat> {
    var w := if fd in n.workerOf then n.workerOf[fd] else 0;
    if w < |n.conns| && fd in n.conns[w] then Some(n.conns[w][fd]) else None
  }

  // ---------- the invariant ----------

  /** A registered descriptor points back to its user. */
  ghost predicate Mutual(n: Net) {
    forall u | u in n.users && n.users[u] != 0 :: n.users[u] in n.fds && n.fds[n.users[u]] == u
  }

  /** A served descriptor is open, not being removed, and served by the worker that Worker_fd names. */
  ghost predicate Placed(n: Net) {
    && |n.conns| == WORKERS
    && forall w, fd | 0 <= w < WORKERS && fd in n.conns[w] ::
         fd in n.open && fd !in n.closing && fd in n.workerOf && n.workerOf[fd] == w && n.conns[w][fd] < n.accepted
  }

  /** A descriptor with a user is open and its user is not yet removed. */
  ghost predicate Fresh(n: Net) {
    && (forall fd | fd in n.fds :: fd in n.open && (fd in n.closing ==> !n.closing[fd]))
    && (forall fd | fd in n.closing :: fd in n.open)
    && (forall c | c in n.logins :: c < n.accepted)
  }

  /** The connection of a descriptor with a user is one that logged in as that user. */
  ghost predicate Owned(n: Net) {
    forall w, fd | 0 <= w < |n.conns| && fd in n.conns[w] && fd in n.fds ::
      n.conns[w][fd] in n.logins && n.logins[n.conns[w][fd]] == n.fds[fd]
  }

  /** No two connections share an object. */
  ghost predicate Distinct(n: Net) {
    forall w, x, fd, gd | 0 <= w < |n.conns| && 0 <= x < |n.conns| && fd in n.conns[w] && gd in n.conns[x]
      && n.conns[w][fd] == n.conns[x][gd] :: fd == gd
  }

  ghost predicate Inv(n: Net) {
    Mutual(n) && Placed(n) && Fresh(n) && Owned(n) && Distinct(n)
  }

  lemma InvStart()
    ensures Inv(START)
  {
  }

  lemma PlacedAt(n: Net, w: nat, fd: nat)
    requires Placed(n) && w < WORKERS && fd in n.conns[w]
    ensures n.conns[w][fd] < n.accepted && fd in n.open && fd !in n.closing && fd in n.workerOf && n.workerOf[fd] == w
  {
  }

  /** The new connection object differs from all others. */
  lemma AcceptDistinct(n: Net, fd: nat)
    requires Inv(n) && Enabled(n, Accept(fd))
    ensures Distinct(Do(n, Accept(fd)))
  {
    hide Mutual, Fresh, Owned;
    var after := Do(n, Accept(fd));
    assert |after.conns| == |n.conns| == WORKERS;
    forall w, x, f, g | 0 <= w < |after.conns| && 0 <= x < |after.conns| && f in after.conns[w] && g in after.conns[x]
      && after.conns[w][f] == after.conns[x][g]
      ensures f == g
    {
      assert fd !in n.conns[w] && fd !in n.conns[x];
      assert f != fd ==> f in n.conns[w] && after.conns[w][f] == n.conns[w][f];
      assert g != fd ==> g in n.conns[x] && after.conns[x][g] == n.conns[x][g];
      if f != fd { PlacedAt(n, w, f); }
      if g != fd { PlacedAt(n, x, g); }
    }
  }

  lemma AcceptKeeps(n: Net, fd: nat)
    requires Inv(n) && Enabled(n, Accept(fd))
    ensures Inv(Do(n, Accept(fd)))
  {
    AcceptDistinct(n, fd);
    hide Distinct;
  }

  lemma LogInMutual(n: Net, fd: nat, user: string)
    requires Inv(n) && Enabled(n, LogIn(fd, user))
    ensures Mutual(Do(n, LogIn(fd, user)))
  {
    hide Fresh, Owned, Distinct;
  }

  lemma LogInPlaced(n: Net, fd: nat, user: string)
    requires Inv(n) && Enabled(n, LogIn(fd, user))
    ensures Placed(Do(n, LogIn(fd, user)))
  {
    hide Mutual, Fresh, Owned, Distinct;
    var after := Do(n, LogIn(fd, user));
    assert after.conns == n.conns && after.open == n.open && after.closing == n.closing && after.workerOf == n.workerOf && after.accepted == n.accepted;
    forall w, g | 0 <= w < WORKERS && g in after.conns[w]
      ensures g in after.open && g !in after.closing && g in after.workerOf && after.workerOf[g] == w && after.conns[w][g] < after.accepted
    {
      assert g in n.conns[w];
    }
  }

  lemma LogInFresh(n: Net, fd: nat, user: string)
    requires Inv(n) && Enabled(n, LogIn(fd, user))
    ensures Fresh(Do(n, LogIn(fd, user)))
  {
    hide Mutual, Owned, Distinct;
    assert fd in n.open && fd !in n.closing && n.conns[n.workerOf[fd]][fd] < n.accepted by { PlacedAt(n, n.workerOf[fd], fd); }
  }

  lemma LogInOwned(n: Net, fd: nat, user: string)
    requires Inv(n) && Enabled(n, LogIn(fd, user))
    ensures Owned(Do(n, LogIn(fd, user)))
  {
    hide Mutual, Fresh;
  }

  lemma LogInDistinct(n: Net, fd: nat, user: string)
    requires Inv(n) && Enabled(n, LogIn(fd, user))
    ensures Distinct(Do(n, LogIn(fd, user)))
  {
    hide Mutual, Fresh, Owned;
    assert Do(n, LogIn(fd, user)).conns == n.conns;
  }

  lemma LogInKeeps(n: Net, fd: nat, user: string)
    requires Inv(n) && Enabled(n, LogIn(fd, user))
    ensures Inv(Do(n, LogIn(fd, user)))
  {
    LogInMutual(n, fd, user);
    LogInPlaced(n, fd, user);
    LogInFresh(n, fd, user);
    LogInOwned(n, fd, user);
    LogInDistinct(n, fd, user);
    hide Mutual, Placed, Fresh, Owned, Distinct, Do;
  }

  lemma EraseMutual(n: Net, s: Step)
    requires Inv(n) && Enabled(n, s) && !s.Accept? && !s.LogIn?
    ensures Mutual(Do(n, s))
  {
    hide Owned, Distinct;
  }

  /** Erasing takes no descriptor on a worker's map, and off it none but the one erased. */
  lemma EraseConns(n: Net, s: Step, w: nat, g: nat)
    requires Placed(n) && Enabled(n, s) && !s.Accept? && !s.LogIn? && w < WORKERS
    ensures |Do(n, s).conns| == WORKERS && Do(n, s).workerOf == n.workerOf && Do(n, s).accepted == n.accepted
    ensures g in Do(n, s).conns[w] ==>
              && g in n.conns[w] && Do(n, s).conns[w][g] == n.conns[w][g]
              && g in Do(n, s).open && g !in Do(n, s).closing
  {
    if g in n.conns[w] { PlacedAt(n, w, g); }
  }

  lemma ErasePlaced(n: Net, s: Step)
    requires Inv(n) && Enabled(n, s) && !s.Accept? && !s.LogIn?
    ensures Placed(Do(n, s))
  {
    hide Mutual, Fresh, Owned, Distinct, Do, Enabled;
    var after := Do(n, s);
    EraseConns(n, s, 0, 0);
    forall w: nat, g: nat | w < WORKERS && g in after.conns[w]
      ensures g in after.open && g !in after.closing && g in after.workerOf && after.workerOf[g] == w && after.conns[w][g] < after.accepted
    {
      EraseConns(n, s, w, g);
      PlacedAt(n, w, g);
    }
  }

  lemma EraseFresh(n: Net, s: Step)
    requires Inv(n) && Enabled(n, s) && !s.Accept? && !s.LogIn?
    ensures Fresh(Do(n, s))
  {
    hide Mutual, Owned, Distinct;
  }

  lemma EraseOwned(n: Net, s: Step)
    requires Inv(n) && Enabled(n, s) && !s.Accept? && !s.LogIn?
    ensures Owned(Do(n, s))
  {
    hide Mutual, Fresh, Distinct;
  }

  lemma EraseDistinct(n: Net, s: Step)
    requires Inv(n) && Enabled(n, s) && !s.Accept? && !s.LogIn?
    ensures Distinct(Do(n, s))
  {
    hide Mutual, Fresh, Owned;
  }

  lemma EraseKeeps(n: Net, s: Step)
    requires Inv(n) && Enabled(n, s) && !s.Accept? && !s.LogIn?
    ensures Inv(Do(n, s))
  {
    EraseMutual(n, s);
    ErasePlaced(n, s);
    EraseFresh(n, s);
    EraseOwned(n, s);
    EraseDistinct(n, s);
    hide Mutual, Placed, Fresh, Owned, Distinct, Do;
  }

  lemma InvStep(n: Net, s: Step)
    requires Inv(n) && Enabled(n, s)
    ensures Inv(Do(n, s))
  {
    hide Inv, Do;
    match s
    case Accept(fd) => AcceptKeeps(n, fd);
    case LogIn(fd, user) => LogInKeeps(n, fd, user);
    case _ => EraseKeeps(n, s);
  }

  /** Registering keeps the two maps mutual exactly when no other user is registered here. */
  lemma MutualAfterLogInIff(n: Net, fd: nat, user: string)
    requires Inv(n) && Served(n, fd) && fd != 0
    ensures Mutual(Do(n, LogIn(fd, user))) <==> SingleLogin(n, fd, user)
  {
    var after := Do(n, LogIn(fd, user));
    if v :| v in n.users && n.users[v] == fd && v != user {
      assert after.users[v] == fd && after.fds[fd] == user;
    }
  }

  // ---------- runs ----------

  ghost predicate Run(n: Net, steps: seq<Step>)
    decreases |steps|
  {
    |steps| > 0 ==> Enabled(n, steps[0]) && Run(Do(n, steps[0]), steps[1..])
  }

  ghost function End(n: Net, steps: seq<Step>): Net
    decreases |steps|
  {
    if |steps| == 0 then n else End(Do(n, steps[0]), steps[1..])
  }

  lemma {:induction false} InvRun(n: Net, steps: seq<Step>)
    requires Inv(n) && Run(n, steps)
    ensures Inv(End(n, steps))
    decreases |steps|
  {
    hide Inv, Do, Enabled;
    if |steps| > 0 {
      InvStep(n, steps[0]);
      InvRun(Do(n, steps[0]), steps[1..]);
    }
  }

  // ---------- who is registered ----------

  /** A step registers a user under a descriptor, or leaves who is registered, but for the user it
      logs in elsewhere and the user whose descriptor it removes. */
  lemma UsersStep(n: Net, s: Step, u: string, fd: nat)
    requires Enabled(n, s)
    ensures u in Do(n, s).users && Do(n, s).users[u] == fd <==>
            || s == LogIn(fd, u)
            || (u in n.users && n.users[u] == fd && !LogsIn(s, u) && !(s.EraseUser? && NameOf(n, s.fd) == u))
  {
  }

  /** The same for the users of descriptors. */
  lemma FdsStep(n: Net, s: Step, fd: nat, u: string)
    requires Enabled(n, s)
    ensures fd in Do(n, s).fds && Do(n, s).fds[fd] == u <==>
            || s == LogIn(fd, u)
            || (fd in n.fds && n.fds[fd] == u && !LogsInOn(s, fd) && s != EraseUser(fd))
  {
  }

  lemma {:induction false} RunSnoc(n: Net, steps: seq<Step>, s: Step)
    ensures Run(n, steps + [s]) <==> Run(n, steps) && Enabled(End(n, steps), s)
    ensures End(n, steps + [s]) == Do(End(n, steps), s)
    decreases |steps|
  {
    hide Do, Enabled;
    if |steps| == 0 {
      assert steps + [s] == [s] && [s][1..] == [];
      assert End(Do(n, s), []) == Do(n, s);
    } else {
      assert (steps + [s])[0] == steps[0] && (steps + [s])[1..] == steps[1..] + [s];
      RunSnoc(Do(n, steps[0]), steps[1..], s);
    }
  }

  predicate LogsInOn(s: Step, fd: nat) {
    s.LogIn? && s.fd == fd
  }

  predicate LogsIn(s: Step, u: string) {
    s.LogIn? && s.user == u
  }

  /** The login of a user on a descriptor, and on that descriptor no login or removal since. */
  ghost predicate LastOn(steps: seq<Step>, fd: nat, u: string, i: nat) {
    && i < |steps| && steps[i] == LogIn(fd, u)
    && forall j | i < j < |steps| :: !LogsInOn(steps[j], fd) && steps[j] != EraseUser(fd)
  }

  /** In every run, a descriptor's user is the one who logged in on it last and was not removed since. */
  lemma {:induction false} FdsInRun(steps: seq<Step>, fd: nat, u: string)
    requires Run(START, steps)
    ensures fd in End(START, steps).fds && End(START, steps).fds[fd] == u <==> exists i: nat :: LastOn(steps, fd, u, i)
    decreases |steps|
  {
    hide Do, Enabled;
    if |steps| > 0 {
      var last, before, s := |steps| - 1, steps[..|steps| - 1], steps[|steps| - 1];
      assert steps == before + [s];
      RunSnoc(START, before, s);
      FdsInRun(before, fd, u);
      FdsStep(End(START, before), s, fd, u);
      hide Run, End;
      forall i: nat | i < last ensures LastOn(steps, fd, u, i) <==>
                                         LastOn(before, fd, u, i) && !LogsInOn(s, fd) && s != EraseUser(fd)
      {
        if LastOn(steps, fd, u, i) { assert forall j | i < j < |before| :: before[j] == steps[j]; }
      }
      assert LastOn(steps, fd, u, last) <==> s == LogIn(fd, u);
      assert forall i: nat | i > last :: !LastOn(steps, fd, u, i);
      if i: nat :| LastOn(before, fd, u, i) { assert i < last; }
    }
  }

  /** The login of a user on a descriptor, and since then no login of the user, and no removal of a
      descriptor that had the user's name. */
  ghost predicate LastFor(n: Net, steps: seq<Step>, u: string, fd: nat, i: nat) {
    && i < |steps| && steps[i] == LogIn(fd, u)
    && forall j: nat | i < j < |steps| :: !LogsIn(steps[j], u) && !Unregisters(n, steps, u, j)
  }

  ghost predicate Unregisters(n: Net, steps: seq<Step>, u: string, j: nat) {
    j < |steps| && steps[j].EraseUser? && NameOf(End(n, steps[..j]), steps[j].fd) == u
  }

  /** In every run from a state with nobody registered, a user stays registered under the descriptor
      of the last login until then. */
  lemma {:induction false} UsersInRun(n: Net, steps: seq<Step>, u: string, fd: nat)
    requires n.users == map[] && Run(n, steps)
    ensures u in End(n, steps).users && End(n, steps).users[u] == fd <==> exists i: nat :: LastFor(n, steps, u, fd, i)
    decreases |steps|
  {
    hide Do, Enabled, NameOf;
    if |steps| > 0 {
      var last, before, s := |steps| - 1, steps[..|steps| - 1], steps[|steps| - 1];
      assert steps == before + [s];
      RunSnoc(n, before, s);
      UsersInRun(n, before, u, fd);
      UsersStep(End(n, before), s, u, fd);
      hide Run, End;
      var keeps := !LogsIn(s, u) && !Unregisters(n, steps, u, last);
      forall j: nat | j < last ensures steps[j] == before[j] && (Unregisters(n, steps, u, j) <==> Unregisters(n, before, u, j)) {
        assert steps[..j] == before[..j];
      }
      hide Unregisters;
      forall i: nat | i < last ensures LastFor(n, steps, u, fd, i) <==> LastFor(n, before, u, fd, i) && keeps {
        if LastFor(n, steps, u, fd, i) { assert forall j: nat | i < j < |before| :: before[j] == steps[j]; }
      }
      assert LastFor(n, steps, u, fd, last) <==> s == LogIn(fd, u);
      assert forall i: nat | i > last :: !LastFor(n, steps, u, fd, i);
      if i: nat :| LastFor(n, before, u, fd, i) { assert i < last; }
    }
  }

  // ---------- which worker ----------

  ghost function Accepts(steps: seq<Step>): nat {
    if |steps| == 0 then 0 else Accepts(steps[..|steps| - 1]) + (if steps[|steps| - 1].Accept? then 1 else 0)
  }

  /** Connection number k is at worker k modulo 10. */
  ghost predicate Rotated(n: Net) {
    |n.conns| == 10 && forall w, fd | 0 <= w < 10 && fd in n.conns[w] :: n.conns[w][fd] < n.accepted && n.conns[w][fd] % 10 == w
  }

  lemma RotatedStep(n: Net, s: Step)
    requires Rotated(n)
    ensures Rotated(Do(n, s)) && Do(n, s).accepted == n.accepted + (if s.Accept? then 1 else 0)
  {
  }

  /** In every run the connections are numbered as they are accepted, and the workers take turns. */
  lemma {:induction false} WorkersTakeTurns(steps: seq<Step>)
    ensures Rotated(End(START, steps)) && End(START, steps).accepted == Accepts(steps)
    decreases |steps|
  {
    if |steps| > 0 {
      var before, s := steps[..|steps| - 1], steps[|steps| - 1];
      assert steps == before + [s];
      hide Do, Rotated;
      RunSnoc(START, before, s);
      hide Run, End;
      WorkersTakeTurns(before);
      RotatedStep(End(START, before), s);
    } else {
      assert Rotated(START);
    }
  }

  /** In every reachable state, what is dispatched to a user reaches a connection that logged in as
      that user, or none. */
  lemma DispatchReachesUser(steps: seq<Step>, u: string)
    requires Run(START, steps)
    ensures var n := End(START, steps);
            u in n.users && n.users[u] != 0 && Target(n, n.users[u]).Some? ==>
              Target(n, n.users[u]).value in n.logins && n.logins[Target(n, n.users[u]).value] == u
  {
    InvStart();
    InvRun(START, steps);
  }

  /** In every reachable state a descriptor is served by at most one worker, the one Worker_fd names. */
  lemma OneWorker(steps: seq<Step>, fd: nat, w: nat)
    requires Run(START, steps)
    ensures var n := End(START, steps);
            |n.conns| == WORKERS && (w < WORKERS && fd in n.conns[w] ==> fd in n.workerOf && n.workerOf[fd] == w)
  {
    InvStart();
    InvRun(START, steps);
  }

  /** A handler that looked a descriptor up may dispatch later, after other steps. What counts is
      the last step at which the descriptor's connection was erased or a new one was accepted. */
  ghost function LastTouch(steps: seq<Step>, fd: nat): Option<Step>
    decreases |steps|
  {
    if |steps| == 0 then None
    else if LastTouch(steps[1..], fd).Some? then LastTouch(steps[1..], fd)
    else if steps[0] == EraseConn(fd) || steps[0] == Accept(fd) then Some(steps[0])
    else None
  }

  lemma TargetStep(n: Net, s: Step, fd: nat)
    requires Inv(n) && Enabled(n, s)
    ensures Do(n, s).accepted >= n.accepted
    ensures Target(Do(n, s), fd) ==
            if s == EraseConn(fd) then None else if s == Accept(fd) then Some(n.accepted) else Target(n, fd)
  {
    hide Mutual, Fresh, Owned, Distinct;
  }

  lemma {:induction false} LaterTarget(n: Net, steps: seq<Step>, fd: nat)
    requires Inv(n) && Run(n, steps)
    ensures match LastTouch(steps, fd)
            case None => Target(End(n, steps), fd) == Target(n, fd)
            case Some(EraseConn(_)) => Target(End(n, steps), fd) == None
            case Some(_) => Target(End(n, steps), fd).Some? && Target(End(n, steps), fd).value >= n.accepted
    decreases |steps|
  {
    hide Inv, Do, Enabled, Target;
    if |steps| > 0 {
      InvStep(n, steps[0]);
      TargetStep(n, steps[0], fd);
      LaterTarget(Do(n, steps[0]), steps[1..], fd);
    }
  }

  lemma ServedStep(n: Net, s: Step, fd: nat)
    requires Inv(n) && Enabled(n, s) && Served(n, fd) && s != EraseConn(fd)
    ensures Served(Do(n, s), fd) && s != Accept(fd)
  {
    hide Mutual, Fresh, Owned, Distinct;
  }

  /** A served descriptor is not accepted again before its connection is erased. */
  lemma {:induction false} UntouchedIff(n: Net, steps: seq<Step>, fd: nat)
    requires Inv(n) && Run(n, steps) && Served(n, fd)
    ensures LastTouch(steps, fd).None? <==> EraseConn(fd) !in steps
    decreases |steps|
  {
    hide Inv, Do, Enabled, Served;
    if |steps| > 0 {
      assert steps == [steps[0]] + steps[1..];
      if steps[0] == EraseConn(fd) {
        assert LastTouch(steps, fd).Some?;
      } else {
        InvStep(n, steps[0]);
        ServedStep(n, steps[0], fd);
        UntouchedIff(Do(n, steps[0]), steps[1..], fd);
      }
    }
  }

  lemma TargetIsServed(n: Net, fd: nat)
    requires Inv(n) && Target(n, fd).Some?
    ensures Served(n, fd) && Target(n, fd).value < n.accepted
  {
    hide Mutual, Fresh, Owned, Distinct;
  }

  /** Over any run between the lookup and the write: the write reaches the same connection exactly if
      that connection was not erased, another one exactly if after the last erasure the descriptor was
      accepted again, and none exactly if it was not. */
  lemma LaterDispatchIff(n: Net, steps: seq<Step>, fd: nat)
    requires Inv(n) && Run(n, steps) && Target(n, fd).Some?
    ensures var after := Target(End(n, steps), fd);
            && (after == Target(n, fd) <==> EraseConn(fd) !in steps)
            && (after.Some? && after != Target(n, fd) <==> LastTouch(steps, fd) == Some(Accept(fd)))
            && (after.None? <==> LastTouch(steps, fd) == Some(EraseConn(fd)))
  {
    hide Inv, Do, Enabled, Target, Served, End, Run;
    TargetIsServed(n, fd);
    UntouchedIff(n, steps, fd);
    LaterTarget(n, steps, fd);
    TouchIs(steps, fd);
  }

  lemma {:induction false} TouchIs(steps: seq<Step>, fd: nat)
    ensures LastTouch(steps, fd).Some? ==> LastTouch(steps, fd).value == EraseConn(fd) || LastTouch(steps, fd).value == Accept(fd)
    decreases |steps|
  {
    if |steps| > 0 { TouchIs(steps[1..], fd); }
  }

  lemma RunCons(n: Net, s: Step, rest: seq<Step>)
    ensures Run(n, [s] + rest) <==> Enabled(n, s) && Run(Do(n, s), rest)
    ensures End(n, [s] + rest) == End(Do(n, s), rest)
  {
    assert ([s] + rest)[1..] == rest;
  }

  /** A descriptor is taken down, given out again, and another user logs in on it. */
  function Takeover(fd: nat, v: string): seq<Step> {
    [EraseConn(fd)] + ([EraseUser(fd)] + ([CloseFd(fd)] + ([Accept(fd)] + [LogIn(fd, v)])))
  }

  /** It does happen: from every state in which the descriptor is served such a run is possible, and
      the late write reaches the other user. */
  lemma StaleLookupMisdelivers(n: Net, fd: nat, v: string)
    requires Inv(n) && Served(n, fd) && fd != 0
    ensures Run(n, Takeover(fd, v))
    ensures var after := End(n, Takeover(fd, v));
            Target(after, fd).Some? && Target(after, fd).value in after.logins && after.logins[Target(after, fd).value] == v
  {
    var c := Do(n, EraseConn(fd));
    InvStep(n, EraseConn(fd));
    var d := Do(c, EraseUser(fd));
    InvStep(c, EraseUser(fd));
    var e := Do(d, CloseFd(fd));
    InvStep(d, CloseFd(fd));
    var f := Do(e, Accept(fd));
    InvStep(e, Accept(fd));
    AcceptServes(e, fd);
    LogInTargets(f, fd, v);
    hide Do, Enabled, Inv, Target;
    RunCons(f, LogIn(fd, v), []);
    assert [LogIn(fd, v)] + [] == [LogIn(fd, v)];
    RunCons(e, Accept(fd), [LogIn(fd, v)]);
    RunCons(d, CloseFd(fd), [Accept(fd)] + [LogIn(fd, v)]);
    RunCons(c, EraseUser(fd), [CloseFd(fd)] + ([Accept(fd)] + [LogIn(fd, v)]));
    RunCons(n, EraseConn(fd), [EraseUser(fd)] + ([CloseFd(fd)] + ([Accept(fd)] + [LogIn(fd, v)])));
  }

  lemma AcceptServes(n: Net, fd: nat)
    requires Inv(n) && Enabled(n, Accept(fd))
    ensures forall v :: Enabled(Do(n, Accept(fd)), LogIn(fd, v))
  {
    assert forall u | u in n.users && n.users[u] == fd :: fd in n.fds;
  }

  lemma LogInTargets(n: Net, fd: nat, v: string)
    requires Served(n, fd)
    ensures var after := Do(n, LogIn(fd, v));
            Target(after, fd).Some? && Target(after, fd).value in after.logins && after.logins[Target(after, fd).value] == v
  {
  }

  // ---------- the methods that take the steps ----------

  class Server {
    var users: map<string, nat>
    var fds: map<nat, string>
    var workerOf: map<nat, nat>
    var conns: seq<map<nat, nat>>
    var accepted: nat
    ghost var open: set<nat>
    ghost var closing: map<nat, bool>
    ghost var logins: map<nat, string>

    ghost function Snapshot(): Net
      reads this
    {
      Net(users, fds, workerOf, conns, accepted, open, closing, logins)
    }

    constructor ()
      ensures Snapshot() == START
    {
      users, fds, workerOf, conns, accepted := map[], map[], map[], START.conns, 0;
      open, closing, logins := {}, map[], map[];
    }

    /** `Master::distribute_worker` with `Worker::make_queue`. */
    method DistributeWorker(fd: nat)
      requires |conns| == WORKERS
      modifies this
      ensures Snapshot() == Do(old(Snapshot()), Accept(fd))
    {
      var num := accepted % WORKERS;
      workerOf := workerOf[fd := num];
      var conn: map<nat, nat> := conns[num];
      conn := conn[fd := accepted];
      conns := conns[num := conn];
      accepted := accepted + 1;
      open := open + {fd};
    }

    /** `UserManager::addUser` */
    method AddUser(fd: nat, username: string)
      requires Served(Snapshot(), fd)
      modifies this
      ensures Snapshot() == Do(old(Snapshot()), LogIn(fd, username))
    {
      users := users[username := fd];
      fds := fds[fd := username];
      logins := logins[conns[workerOf[fd]][fd] := username];
    }

    /** `UserManager::removeUser`; reading an absent descriptor yields an empty name. */
    method RemoveUser(fd: nat)
      modifies this
      ensures Snapshot() == Do(old(Snapshot()), EraseUser(fd))
    {
      var username := if fd in fds then fds[fd] else "";
      users := users - {username};
      fds := fds - {fd};
      closing := closing[fd := true];
    }

    /** The first part of `Worker::remove_fd`, on the worker that serves the descriptor. */
    method ForgetConnection(fd: nat)
      requires Served(Snapshot(), fd)
      modifies this
      ensures Snapshot() == Do(old(Snapshot()), EraseConn(fd))
    {
      var conn: map<nat, nat> := conns[workerOf[fd]] - {fd};
      conns := conns[workerOf[fd] := conn];
      closing := closing[fd := false];
    }

    /** `MessageCenter::dispatch` and `Worker::Notify`: the connection written to, if any. */
    method Dispatch(toFd: nat) returns (written: Option<nat>)
      ensures written == Target(Snapshot(), toFd)
    {
      var num := if toFd in workerOf then workerOf[toFd] else 0;
      if num < |conns| && toFd in conns[num] {
        written := Some(conns[num][toFd]);
      } else {
        written := None;
      }
    }
  }
}

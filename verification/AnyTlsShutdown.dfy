// Client.Close of the anytls client beside everything that AnyTlsPool lets happen: the table of
// sessions under sessionsLock, the context that Close cancels, and the calls of CreateStream that
// have already looked at it.
module AnyTlsShutdown {
  import P = AnyTlsPool

  datatype State = State(
    pool: P.State,
    cancelled: bool,
    // a call of Close has emptied the table
    taken: bool,
    // sessions in the table
    table: set<nat>,
    // sessions that createSession has made and not yet put into the table
    unlisted: set<nat>,
    // sessions that calls of Close have taken from the table and not yet closed
    closing: set<nat>,
    // goroutines that found the context open in CreateStream and look for an idle session
    admitted: set<nat>,
    // goroutines that found none and dial
    dialing: set<nat>)

  function Init(threads: nat): (r: State) {
    State(P.Init(threads), false, false, {}, {}, {}, {}, {})
  }

  datatype Action =
    | Pool(a: P.Action)
    | Admit(t: nat)
    | FoundNone(t: nat)
    | DialFails(t: nat)
    | Register(s: nat)
    | Deregister(s: nat)
    | Cancel
    | Take
    | CloseTaken(s: nat)

  // What more a step of the pool asks for. A session is used by nobody else before it is in the table.
  predicate PoolEnabled(st: State, a: P.Action) {
    && P.Enabled(st.pool, a)
    && match a
       case Create(t) => t in st.dialing
       case Pop(t) => t in st.admitted
       case OpenStream(t) => st.pool.threads[t].s !in st.unlisted
       case OpenFails(t) => st.pool.threads[t].s !in st.unlisted
       case CloseStream(_, shutdown) => shutdown == st.cancelled
       case Die(s) => s !in st.unlisted
       case Sweep(t, _, _) => t !in st.admitted && t !in st.dialing
       case _ => true
  }

  predicate Enabled(st: State, a: Action) {
    match a
    case Pool(b) => PoolEnabled(st, b)
    case Admit(t) =>
      && t < |st.pool.threads| && st.pool.threads[t].Free? && !st.cancelled
      && t !in st.admitted && t !in st.dialing
    case FoundNone(t) => t in st.admitted && t < |st.pool.threads| && st.pool.threads[t].Free? && st.pool.idle == []
    case DialFails(t) => t in st.dialing
    case Register(s) => s in st.unlisted
    case Deregister(s) => s < |st.pool.sessions| && st.pool.sessions[s].life.Dead?
    case Cancel => true
    case Take => st.cancelled
    case CloseTaken(s) => s in st.closing && s < |st.pool.sessions|
  }

  function PoolNext(st: State, a: P.Action): (r: State)
    requires PoolEnabled(st, a)
  {
    var next := st.(pool := P.Next(st.pool, a));
    match a
    case Create(t) => next.(unlisted := st.unlisted + {|st.pool.sessions|}, dialing := st.dialing - {t})
    case CheckPopped(t) => if next.pool.threads[t].Creator? then next.(admitted := st.admitted - {t}) else next
    case _ => next
  }

  function Next(st: State, a: Action): (r: State)
    requires Enabled(st, a)
  {
    match a
    case Pool(b) => PoolNext(st, b)
    case Admit(t) => st.(admitted := st.admitted + {t})
    case FoundNone(t) => st.(admitted := st.admitted - {t}, dialing := st.dialing + {t})
    case DialFails(t) => st.(dialing := st.dialing - {t})
    case Register(s) => st.(unlisted := st.unlisted - {s}, table := st.table + {s})
    case Deregister(s) => st.(table := st.table - {s})
    case Cancel => st.(cancelled := true)
    case Take => st.(closing := st.closing + st.table, table := {}, taken := true)
    case CloseTaken(s) =>
      st.(closing := st.closing - {s},
          pool := st.pool.(sessions := st.pool.sessions[s := P.Close(st.pool.sessions[s])]))
  }

  ghost predicate Runs(st: State, steps: seq<Action>, r: State)
    decreases |steps|
  {
    if steps == [] then st == r else Enabled(st, steps[0]) && Runs(Next(st, steps[0]), steps[1..], r)
  }

  // ---- The invariant

  predicate Alive(p: P.State, s: nat) {
    s < |p.sessions| && p.sessions[s].life.Alive?
  }

  predicate Holds(t: P.Thread, s: nat) {
    (t.Creator? || t.Stream? || t.Closer?) && P.Owns(t, s)
  }

  // Some goroutine opens a stream on s, has one, or will close s.
  ghost predicate Held(p: P.State, s: nat) {
    exists t :: 0 <= t < |p.threads| && Holds(p.threads[t], s)
  }

  ghost predicate Creating(p: P.State, s: nat) {
    exists t :: 0 <= t < |p.threads| && p.threads[t] == P.Creator(s)
  }

  ghost predicate UnlistedOk(st: State) {
    forall s :: s in st.unlisted ==>
      Alive(st.pool, s) && Creating(st.pool, s) && s !in st.table && s !in st.closing
  }

  ghost predicate Known(st: State) {
    (forall s :: s in st.table ==> s < |st.pool.sessions|) && (forall s :: s in st.closing ==> s < |st.pool.sessions|)
  }

  ghost predicate CallsOk(st: State) {
    && (forall t :: t in st.admitted ==> t < |st.pool.threads| && t !in st.dialing)
    && (forall t :: t in st.dialing ==> t < |st.pool.threads| && st.pool.threads[t].Free?)
    && (forall t :: t in st.admitted ==> st.pool.threads[t].Free? || st.pool.threads[t].Popped?)
    && (forall t: nat :: t < |st.pool.threads| && st.pool.threads[t].Popped? ==> t in st.admitted)
  }

  // Every live session is in the table, about to be, or taken from it. Once a call of Close has
  // emptied the table, every live session is one to be closed, or a goroutine answers for it.
  ghost predicate Accounted(st: State) {
    && (st.taken ==> st.cancelled)
    && (forall s: nat :: Alive(st.pool, s) ==> s in st.table || s in st.unlisted || s in st.closing)
    && (st.taken ==> forall s: nat :: Alive(st.pool, s) ==> s in st.closing || Held(st.pool, s))
  }

  ghost predicate Inv(st: State) {
    P.Inv(st.pool) && UnlistedOk(st) && Known(st) && CallsOk(st) && Accounted(st)
  }

  // ---- What a step of the pool does to sessions and goroutines

  lemma NoneComesBack(p: P.State, a: P.Action)
    requires P.Enabled(p, a)
    ensures var r := P.Next(p, a);
      && |r.threads| == |p.threads| && |r.sessions| == |p.sessions| + (if a.Create? then 1 else 0)
      && forall s: nat :: Alive(r, s) && s < |p.sessions| ==> Alive(p, s)
  {
  }

  lemma HolderStays(p: P.State, a: P.Action, t: nat, s: nat)
    requires P.Enabled(p, a) && t < |p.threads| && Holds(p.threads[t], s) && !(a.CloseStream? && !a.shutdown)
    requires Alive(P.Next(p, a), s)
    ensures Holds(P.Next(p, a).threads[t], s)
  {
  }

  lemma CreatorStays(p: P.State, a: P.Action, t: nat, s: nat)
    requires P.Exclusive(p) && P.Enabled(p, a) && t < |p.threads| && p.threads[t] == P.Creator(s) && Alive(p, s)
    requires a != P.Die(s) && a != P.OpenStream(t) && a != P.OpenFails(t)
    ensures P.Next(p, a).threads[t] == P.Creator(s) && Alive(P.Next(p, a), s)
  {
    assert P.Owns(p.threads[t], s);
    if a.OpenFails? {
      assert P.Owns(p.threads[a.t], p.threads[a.t].s);
    } else if a.CloseNext? && p.threads[a.t].todo != [] {
      assert P.Owns(p.threads[a.t], p.threads[a.t].todo[0]);
    } else if a.Pop? {
      assert p.idle[|p.idle| - 1] in p.idle;
    }
  }

  lemma PoolKeepsUnlisted(st: State, a: P.Action)
    requires Inv(st) && PoolEnabled(st, a)
    ensures UnlistedOk(PoolNext(st, a))
  {
    hide P.Inv, Accounted, CallsOk, P.Next, P.Enabled;
    var r := PoolNext(st, a);
    PoolExclusive(st);
    forall s | s in r.unlisted
      ensures Alive(r.pool, s)
      ensures Creating(r.pool, s)
      ensures s !in r.table && s !in r.closing
    {
      if s in st.unlisted {
        var t: nat :| t < |st.pool.threads| && st.pool.threads[t] == P.Creator(s);
        CreatorStays(st.pool, a, t, s);
        SameThreads(st.pool, a);
        assert r.pool.threads[t] == P.Creator(s);
      } else {
        NewIsCreated(st.pool, a);
        assert r.pool.threads[a.t] == P.Creator(s);
      }
    }
  }

  lemma PoolExclusive(st: State)
    requires P.Inv(st.pool)
    ensures P.Exclusive(st.pool)
  {
  }

  lemma SameThreads(p: P.State, a: P.Action)
    requires P.Enabled(p, a)
    ensures |P.Next(p, a).threads| == |p.threads|
  {
  }

  lemma NewIsCreated(p: P.State, a: P.Action)
    requires P.Enabled(p, a) && a.Create?
    ensures var r := P.Next(p, a);
      && a.t < |r.threads| && r.threads[a.t] == P.Creator(|p.sessions|)
      && Alive(r, |p.sessions|)
  {
  }

  lemma PoolKeepsAccounts(st: State, a: P.Action)
    requires Inv(st) && PoolEnabled(st, a)
    ensures Accounted(PoolNext(st, a)) && Known(PoolNext(st, a))
  {
    hide P.Inv, UnlistedOk, CallsOk, P.Next, P.Enabled;
    var r := PoolNext(st, a);
    NoneComesBack(st.pool, a);
    if st.taken {
      forall s: nat | Alive(r.pool, s) && s !in r.closing ensures Held(r.pool, s) {
        if s < |st.pool.sessions| {
          var t: nat :| t < |st.pool.threads| && Holds(st.pool.threads[t], s);
          HolderStays(st.pool, a, t, s);
          assert Holds(r.pool.threads[t], s);
        } else {
          NewIsCreated(st.pool, a);
          assert Holds(r.pool.threads[a.t], s);
        }
      }
    }
  }

  // A goroutine that is free or has popped a session leaves this only by what CreateStream and
  // idleCleanup do.
  predicate CallMoves(before: P.Thread, after: P.Thread, a: P.Action, t: nat) {
    && (after.Popped? ==> before.Popped? || a == P.Pop(t))
    && (before.Free? && after != before ==>
         a == P.Create(t) || (a == P.Pop(t) && after.Popped?) || (a.Sweep? && a.t == t))
    && (before.Popped? && after != before ==> a == P.CheckPopped(t) && (after.Free? || after.Creator?))
  }

  lemma StepMovesCall(p: P.State, a: P.Action, t: nat)
    requires P.Enabled(p, a) && t < |p.threads|
    ensures CallMoves(p.threads[t], P.Next(p, a).threads[t], a, t)
  {
  }

  lemma PoolKeepsCalls(st: State, a: P.Action)
    requires CallsOk(st) && PoolEnabled(st, a)
    ensures CallsOk(PoolNext(st, a))
  {
    hide P.Next, P.Enabled;
    SameThreads(st.pool, a);
    forall t: nat | t < |st.pool.threads|
      ensures CallMoves(st.pool.threads[t], P.Next(st.pool, a).threads[t], a, t)
    {
      StepMovesCall(st.pool, a, t);
    }
    if a.Create? {
      NewIsCreated(st.pool, a);
    }
  }

  lemma PoolKeepsInv(st: State, a: P.Action)
    requires Inv(st) && PoolEnabled(st, a)
    ensures Inv(PoolNext(st, a))
  {
    hide P.Inv, P.Exclusive, P.FlagsOk, P.NoLeak, UnlistedOk, CallsOk, Accounted, Known, P.Next, P.Enabled;
    PoolKeepsUnlisted(st, a);
    PoolKeepsAccounts(st, a);
    PoolKeepsCalls(st, a);
    P.StepKeepsInv(st.pool, a);
  }

  // ---- The steps of Close and createSession

  // Closing a session changes its life and nothing else.
  lemma CloseKeepsPool(p: P.State, s: nat)
    requires P.Inv(p) && s < |p.sessions|
    ensures P.Inv(p.(sessions := p.sessions[s := P.Close(p.sessions[s])]))
  {
    var r := p.(sessions := p.sessions[s := P.Close(p.sessions[s])]);
    forall x | 0 <= x < |r.sessions| && r.sessions[x].life.Alive? ensures P.Kept(r, x) {
      assert P.Kept(p, x);
    }
  }

  lemma CloseTakenKeepsInv(st: State, s: nat)
    requires Inv(st) && Enabled(st, CloseTaken(s))
    ensures Inv(Next(st, CloseTaken(s)))
  {
    hide P.Inv;
    var r := Next(st, CloseTaken(s));
    CloseKeepsPool(st.pool, s);
    forall x | x in r.unlisted ensures Creating(r.pool, x) {
      var t: nat :| t < |st.pool.threads| && st.pool.threads[t] == P.Creator(x);
      assert r.pool.threads[t] == P.Creator(x);
    }
    forall x: nat | r.taken && Alive(r.pool, x) && x !in r.closing ensures Held(r.pool, x) {
      assert Alive(st.pool, x);
      var t: nat :| t < |st.pool.threads| && Holds(st.pool.threads[t], x);
      assert Holds(r.pool.threads[t], x);
    }
  }

  lemma TakeKeepsInv(st: State)
    requires Inv(st) && Enabled(st, Take)
    ensures Inv(Next(st, Take))
  {
    hide P.Inv;
    forall s | Alive(st.pool, s) && s in st.unlisted ensures Held(st.pool, s) {
      var t: nat :| t < |st.pool.threads| && st.pool.threads[t] == P.Creator(s);
      assert Holds(st.pool.threads[t], s);
    }
  }

  lemma StepKeepsInv(st: State, a: Action)
    requires Inv(st) && Enabled(st, a)
    ensures Inv(Next(st, a))
  {
    hide P.Inv;
    match a
    case Pool(b) => PoolKeepsInv(st, b);
    case Take => TakeKeepsInv(st);
    case CloseTaken(s) => CloseTakenKeepsInv(st, s);
    case _ =>
  }

  lemma {:induction false} RunKeepsInv(st: State, steps: seq<Action>, r: State)
    requires Inv(st) && Runs(st, steps, r)
    ensures Inv(r)
    decreases |steps|
  {
    hide Inv, Next, Enabled;
    if steps != [] {
      StepKeepsInv(st, steps[0]);
      RunKeepsInv(Next(st, steps[0]), steps[1..], r);
    }
  }

  lemma ReachableInv(threads: nat, steps: seq<Action>, st: State)
    requires Runs(Init(threads), steps, st)
    ensures Inv(st)
  {
    hide Runs;
    RunKeepsInv(Init(threads), steps, st);
  }

  // ---- What Close achieves

  // When a call of Close has returned, a live session has a goroutine that opens a stream on it,
  // uses one, or is about to close it.
  lemma SurvivorsAreHeld(threads: nat, steps: seq<Action>, st: State, s: nat)
    requires Runs(Init(threads), steps, st) && st.taken && st.closing == {} && Alive(st.pool, s)
    ensures Held(st.pool, s)
  {
    hide Runs;
    ReachableInv(threads, steps, st);
  }

  ghost predicate NoneAlive(p: P.State) {
    forall s: nat :: !Alive(p, s)
  }

  // No call of CreateStream can still make a session, and Close is to close all that live.
  ghost predicate Sealed(st: State) {
    && st.cancelled && st.admitted == {} && st.dialing == {} && st.unlisted == {} && st.table == {}
    && forall s: nat :: Alive(st.pool, s) ==> s in st.closing
  }

  lemma StepKeepsSealed(st: State, a: Action)
    requires Sealed(st) && Enabled(st, a)
    ensures Sealed(Next(st, a))
  {
    hide P.Next, P.Enabled;
    if a.Pool? {
      NoneComesBack(st.pool, a.a);
    }
  }

  lemma {:induction false} RunKeepsSealed(st: State, steps: seq<Action>, r: State)
    requires Sealed(st) && Runs(st, steps, r)
    ensures Sealed(r)
    decreases |steps|
  {
    hide Sealed, Next, Enabled;
    if steps != [] {
      StepKeepsSealed(st, steps[0]);
      RunKeepsSealed(Next(st, steps[0]), steps[1..], r);
    }
  }

  lemma {:induction false} RunsJoin(st: State, a: seq<Action>, r: State, b: seq<Action>, t: State)
    requires Runs(st, a, r) && Runs(r, b, t)
    ensures Runs(st, a + b, t)
    decreases |a|
  {
    hide Next, Enabled;
    if a == [] {
      assert a + b == b;
    } else {
      RunsJoin(Next(st, a[0]), a[1..], r, b, t);
      assert (a + b)[1..] == a[1..] + b;
    }
  }

  // Close comes to its end while the goroutines stand still.
  lemma {:induction false} CloseEnds(st: State) returns (steps: seq<Action>, r: State)
    requires Inv(st)
    ensures Runs(st, steps, r) && Inv(r) && r.closing == {} && r.taken == st.taken
    ensures r.unlisted == st.unlisted && r.admitted == st.admitted && r.dialing == st.dialing
    decreases |st.closing|
  {
    hide P.Inv, CallsOk, Accounted, UnlistedOk;
    if st.closing == {} {
      steps, r := [], st;
    } else {
      var s :| s in st.closing;
      CloseTakenKeepsInv(st, s);
      var next := Next(st, CloseTaken(s));
      assert |next.closing| < |st.closing|;
      var more;
      more, r := CloseEnds(next);
      steps := [CloseTaken(s)] + more;
      assert steps[1..] == more;
    }
  }

  lemma NoRun(st: State)
    ensures Runs(st, [], st)
  {
  }

  lemma FirstStep(st: State, a: Action, more: seq<Action>, r: State)
    requires Enabled(st, a) && Runs(Next(st, a), more, r)
    ensures Runs(st, [a] + more, r)
  {
    hide Next, Enabled;
    assert ([a] + more)[1..] == more;
  }

  // The next step of a call that looks for an idle session.
  function Look(st: State, t: nat): (r: Action)
    requires t < |st.pool.threads|
  {
    if st.pool.threads[t].Popped? then Pool(P.CheckPopped(t))
    else if st.pool.idle == [] then FoundNone(t) else Pool(P.Pop(t))
  }

  // When Close has returned it finds no open session.
  lemma LookGoesOn(st: State, t: nat)
    requires Inv(st) && st.taken && st.closing == {} && t in st.admitted
    ensures Enabled(st, Look(st, t))
    ensures
      var r := Next(st, Look(st, t));
      && r.taken && r.closing == {}
      && if Look(st, t).FoundNone? then t in r.dialing
         else
           && t in r.admitted && t < |r.pool.threads|
           && (|r.pool.idle| < |st.pool.idle| ||
               (r.pool.idle == st.pool.idle && st.pool.threads[t].Popped? && !r.pool.threads[t].Popped?))
  {
    var thread := st.pool.threads[t];
    if thread.Popped? {
      assert P.Owns(thread, thread.s);
      assert forall u :: 0 <= u < |st.pool.threads| ==> !Holds(st.pool.threads[u], thread.s);
      assert !Alive(st.pool, thread.s);
    } else if st.pool.idle != [] {
      assert st.pool.idle[|st.pool.idle| - 1] in st.pool.idle;
    }
  }

  // A call that looks for an idle session when Close has returned ends up dialing.
  lemma {:induction false} FindsNone(st: State, t: nat) returns (steps: seq<Action>, r: State)
    requires Inv(st) && st.taken && st.closing == {} && t in st.admitted && t < |st.pool.threads|
    ensures Runs(st, steps, r) && Inv(r) && r.closing == {} && t in r.dialing
    decreases |st.pool.idle|, st.pool.threads[t].Popped?
  {
    hide Inv, Next, Enabled, Runs;
    var a := Look(st, t);
    LookGoesOn(st, t);
    StepKeepsInv(st, a);
    var next := Next(st, a);
    var more;
    if a.FoundNone? {
      NoRun(next);
      more, r := [], next;
    } else {
      more, r := FindsNone(next, t);
    }
    steps := [a] + more;
    FirstStep(st, a, more, r);
  }

  // A call that is dialing makes a session.
  lemma DialSucceeds(st: State, t: nat)
    requires Inv(st) && t in st.dialing
    ensures Enabled(st, Pool(P.Create(t)))
    ensures var r := Next(st, Pool(P.Create(t))); r.closing == st.closing && Alive(r.pool, |st.pool.sessions|)
  {
  }

  lemma Survives(st: State, steps: seq<Action>, r: State, s: nat)
    requires Runs(st, steps, r) && r.closing == {} && Alive(r.pool, s)
    ensures !Completes(st)
  {
    hide Runs;
  }

  // Whatever happens, all sessions are closed once the calls of Close have closed what they took.
  ghost predicate Completes(st: State) {
    forall steps, r :: Runs(st, steps, r) && r.closing == {} ==> NoneAlive(r.pool)
  }

  lemma DialerSurvives(st: State, t: nat)
    requires Inv(st) && st.closing == {} && t in st.dialing
    ensures !Completes(st)
  {
    hide Inv, Next, Enabled, Runs, Completes;
    DialSucceeds(st, t);
    var a := Pool(P.Create(t));
    NoRun(Next(st, a));
    FirstStep(st, a, [], Next(st, a));
    Survives(st, [a] + [], Next(st, a), |st.pool.sessions|);
  }

  lemma EarlierFails(st: State, steps: seq<Action>, r: State)
    requires Runs(st, steps, r) && !Completes(r)
    ensures !Completes(st)
  {
    hide NoneAlive, Next, Enabled;
    var more, end :| Runs(r, more, end) && end.closing == {} && !NoneAlive(end.pool);
    RunsJoin(st, steps, r, more, end);
  }

  lemma UnlistedLives(st: State, s: nat)
    requires Inv(st) && s in st.unlisted
    ensures Alive(st.pool, s)
  {
  }

  lemma CallerSurvives(st: State, t: nat)
    requires Inv(st) && st.taken && st.closing == {} && t in st.admitted && t < |st.pool.threads|
    ensures !Completes(st)
  {
    hide Inv, Next, Enabled, Runs, Completes;
    var steps, r := FindsNone(st, t);
    DialerSurvives(r, t);
    EarlierFails(st, steps, r);
  }

  lemma CallersAreThreads(st: State)
    requires Inv(st)
    ensures forall t :: t in st.admitted ==> t < |st.pool.threads|
  {
  }

  lemma OpenCallsSurvive(st: State)
    requires Inv(st) && st.taken && !(st.admitted == {} && st.dialing == {} && st.unlisted == {})
    ensures !Completes(st)
  {
    hide Inv, Next, Enabled, Runs, Completes;
    var steps, r := CloseEnds(st);
    CallersAreThreads(r);
    if s :| s in r.unlisted {
      UnlistedLives(r, s);
      Survives(st, steps, r, s);
    } else if t :| t in r.dialing {
      DialerSurvives(r, t);
      EarlierFails(st, steps, r);
    } else {
      var t :| t in r.admitted;
      CallerSurvives(r, t);
      EarlierFails(st, steps, r);
    }
  }

  lemma SealedCompletes(st: State)
    requires Sealed(st)
    ensures Completes(st)
  {
    hide Next, Enabled, Runs;
    forall steps, r | Runs(st, steps, r) && r.closing == {} ensures NoneAlive(r.pool) {
      RunKeepsSealed(st, steps, r);
    }
  }

  // Close closes every session, for good, exactly when no call of CreateStream is between its look
  // at the context and the table when Close empties the table.
  lemma CloseIsCompleteIff(threads: nat, steps: seq<Action>, st: State)
    requires Runs(Init(threads), steps, st) && st.cancelled
    ensures Completes(Next(st, Take)) <==> st.admitted == {} && st.dialing == {} && st.unlisted == {}
  {
    hide Runs, Completes, P.Inv;
    ReachableInv(threads, steps, st);
    TakeKeepsInv(st);
    if st.admitted == {} && st.dialing == {} && st.unlisted == {} {
      SealedCompletes(Next(st, Take));
    } else {
      OpenCallsSurvive(Next(st, Take));
    }
  }

  // One goroutine is dialing when Close has done its work.
  function Dialing(): (r: State) {
    State(P.State([], [], [P.Free]), true, true, {}, {}, {}, {}, {0})
  }

  lemma DialingIsReached()
    ensures Runs(Init(1), [Admit(0), FoundNone(0), Cancel, Take], Dialing())
  {
    var none := P.State([], [], [P.Free]);
    var s1 := State(none, false, false, {}, {}, {}, {0}, {});
    var s2 := State(none, false, false, {}, {}, {}, {}, {0});
    var s3 := s2.(cancelled := true);
    assert Next(Init(1), Admit(0)) == s1 && Next(s1, FoundNone(0)) == s2;
    assert Next(s2, Cancel) == s3 && Next(s3, Take) == Dialing();
    assert Runs(s3, [Take], Dialing());
    assert Runs(s2, [Cancel, Take], Dialing());
    assert Runs(s1, [FoundNone(0), Cancel, Take], Dialing());
  }

  lemma DialingOpens()
    ensures Runs(Dialing(), [Pool(P.Create(0)), Register(0), Pool(P.OpenStream(0))],
                 State(P.State([P.Session(P.Alive, false)], [], [P.Stream(0)]), true, true, {0}, {}, {}, {}, {}))
  {
    var made := P.State([P.Session(P.Alive, false)], [], [P.Creator(0)]);
    var end := State(P.State([P.Session(P.Alive, false)], [], [P.Stream(0)]), true, true, {0}, {}, {}, {}, {});
    var s1 := State(made, true, true, {}, {0}, {}, {}, {});
    var s2 := State(made, true, true, {0}, {}, {}, {}, {});
    assert Next(Dialing(), Pool(P.Create(0))) == s1 && Next(s1, Register(0)) == s2;
    assert Next(s2, Pool(P.OpenStream(0))) == end;
    assert Runs(s2, [Pool(P.OpenStream(0))], end);
    assert Runs(s1, [Register(0), Pool(P.OpenStream(0))], end);
  }

  // It goes on to open a stream on a new session, behind the back of Close.
  lemma StreamOutlivesClose()
    ensures
      var steps := [Admit(0), FoundNone(0), Cancel, Take, Pool(P.Create(0)), Register(0), Pool(P.OpenStream(0))];
      var pool := P.State([P.Session(P.Alive, false)], [], [P.Stream(0)]);
      Runs(Init(1), steps, State(pool, true, true, {0}, {}, {}, {}, {}))
  {
    hide Runs;
    DialingIsReached();
    DialingOpens();
    var first, rest := [Admit(0), FoundNone(0), Cancel, Take],
                       [Pool(P.Create(0)), Register(0), Pool(P.OpenStream(0))];
    RunsJoin(Init(1), first, Dialing(), rest,
             State(P.State([P.Session(P.Alive, false)], [], [P.Stream(0)]), true, true, {0}, {}, {}, {}, {}));
    assert first + rest ==
           [Admit(0), FoundNone(0), Cancel, Take, Pool(P.Create(0)), Register(0), Pool(P.OpenStream(0))];
  }
}

// The idle-session pool of the anytls client: goroutines that take or create sessions, streams
// that give them back on closing, sessions that die at any moment, and the cleanup of idle ones.
// Every atomic operation and every critical section under idleLock is one step.
module AnyTlsPool {
  // How far Session.Close has come: not called, die closed, InIdle cleared by the hook, removed
  // from the idle list by the hook.
  datatype Life = Alive | Dying | Cleared | Dead

  datatype Session = Session(life: Life, inIdle: bool)

  // A goroutine and the session it is responsible for.
  datatype Thread =
    | Free
    // CreateStream: a session popped from the idle list, not yet checked
    | Popped(s: nat)
    // CreateStream: a session to open a stream on
    | Creator(s: nat)
    // an open stream
    | Stream(s: nat)
    // the close hook, past its check that the session is alive
    | Returning(s: nat)
    // returnToIdle, past its compare-and-swap
    | Marked(s: nat)
    // idleCleanup, or a goroutine started to close a session: sessions still to be closed
    | Closer(todo: seq<nat>)

  datatype State = State(sessions: seq<Session>, idle: seq<nat>, threads: seq<Thread>)

  predicate Owns(t: Thread, s: nat) {
    match t
    case Free => false
    case Closer(todo) => s in todo
    case Popped(x) => x == s
    case Creator(x) => x == s
    case Stream(x) => x == s
    case Returning(x) => x == s
    case Marked(x) => x == s
  }

  function Init(threads: nat): (r: State) {
    State([], [], seq(threads, _ => Free))
  }

  // What idleCleanup makes of a session that it takes off the list: found closed, or too old.
  datatype Verdict = FoundClosed | Expired

  datatype Action =
    | Create(t: nat)
    | Pop(t: nat)
    | CheckPopped(t: nat)
    | OpenStream(t: nat)
    | OpenFails(t: nat)
    | CloseStream(t: nat, shutdown: bool)
    | Mark(t: nat)
    | Append(t: nat)
    | Die(s: nat)
    | HookClears(s: nat)
    | HookRemoves(s: nat)
    | Sweep(t: nat, i: nat, verdict: Verdict)
    | CloseNext(t: nat)

  predicate Enabled(st: State, a: Action) {
    match a
    case Create(t) => t < |st.threads| && st.threads[t].Free?
    case Pop(t) => t < |st.threads| && st.threads[t].Free? && st.idle != [] && st.idle[|st.idle| - 1] < |st.sessions|
    case CheckPopped(t) => t < |st.threads| && st.threads[t].Popped? && st.threads[t].s < |st.sessions|
    case OpenStream(t) => t < |st.threads| && st.threads[t].Creator?
    case OpenFails(t) => t < |st.threads| && st.threads[t].Creator? && st.threads[t].s < |st.sessions|
    case CloseStream(t, _) => t < |st.threads| && st.threads[t].Stream? && st.threads[t].s < |st.sessions|
    case Mark(t) => t < |st.threads| && st.threads[t].Returning? && st.threads[t].s < |st.sessions|
    case Append(t) => t < |st.threads| && st.threads[t].Marked?
    case Die(s) => s < |st.sessions| && st.sessions[s].life.Alive?
    case HookClears(s) => s < |st.sessions| && st.sessions[s].life.Dying?
    case HookRemoves(s) => s < |st.sessions| && st.sessions[s].life.Cleared?
    case Sweep(t, i, verdict) =>
      && t < |st.threads| && (st.threads[t].Free? || st.threads[t].Closer?)
      && i < |st.idle| && st.idle[i] < |st.sessions|
      && (verdict.FoundClosed? ==> !st.sessions[st.idle[i]].life.Alive?)
    case CloseNext(t) =>
      && t < |st.threads| && st.threads[t].Closer?
      && (st.threads[t].todo != [] ==> st.threads[t].todo[0] < |st.sessions|)
  }

  function Close(s: Session): (r: Session) {
    if s.life.Alive? then s.(life := Dying) else s
  }

  // The list without its first occurrence of s.
  function Without(idle: seq<nat>, s: nat): (r: seq<nat>) {
    if idle == [] then [] else if idle[0] == s then idle[1..] else [idle[0]] + Without(idle[1..], s)
  }

  function Todo(t: Thread): (r: seq<nat>) {
    if t.Closer? then t.todo else []
  }

  function Next(st: State, a: Action): (r: State)
    requires Enabled(st, a)
  {
    match a
    case Create(t) =>
      st.(sessions := st.sessions + [Session(Alive, false)], threads := st.threads[t := Creator(|st.sessions|)])
    case Pop(t) =>
      var s := st.idle[|st.idle| - 1];
      st.(idle := st.idle[..|st.idle| - 1], sessions := st.sessions[s := st.sessions[s].(inIdle := false)],
          threads := st.threads[t := Popped(s)])
    case CheckPopped(t) =>
      var s := st.threads[t].s;
      st.(threads := st.threads[t := if st.sessions[s].life.Alive? then Creator(s) else Free])
    case OpenStream(t) => st.(threads := st.threads[t := Stream(st.threads[t].s)])
    case OpenFails(t) =>
      var s := st.threads[t].s;
      st.(sessions := st.sessions[s := Close(st.sessions[s])], threads := st.threads[t := Free])
    case CloseStream(t, shutdown) =>
      var s := st.threads[t].s;
      st.(threads := st.threads[t := if !st.sessions[s].life.Alive? then Free
                                     else if shutdown then Closer([s]) else Returning(s)])
    case Mark(t) =>
      var s := st.threads[t].s;
      if st.sessions[s].inIdle then st.(threads := st.threads[t := Free])
      else st.(sessions := st.sessions[s := st.sessions[s].(inIdle := true)], threads := st.threads[t := Marked(s)])
    case Append(t) => st.(idle := st.idle + [st.threads[t].s], threads := st.threads[t := Free])
    case Die(s) => st.(sessions := st.sessions[s := Close(st.sessions[s])])
    case HookClears(s) => st.(sessions := st.sessions[s := Session(Cleared, false)])
    case HookRemoves(s) =>
      st.(sessions := st.sessions[s := st.sessions[s].(life := Dead)], idle := Without(st.idle, s))
    case Sweep(t, i, verdict) =>
      var s := st.idle[i];
      st.(idle := st.idle[..i] + st.idle[i + 1..], sessions := st.sessions[s := st.sessions[s].(inIdle := false)],
          threads := if verdict.Expired? then st.threads[t := Closer(Todo(st.threads[t]) + [s])] else st.threads)
    case CloseNext(t) =>
      var todo := st.threads[t].todo;
      if todo == [] then st.(threads := st.threads[t := Free])
      else
        st.(sessions := st.sessions[todo[0] := Close(st.sessions[todo[0]])],
            threads := st.threads[t := Closer(todo[1..])])
  }

  // ---- The invariant

  ghost predicate Distinct(s: seq<nat>) {
    forall i, j :: 0 <= i < j < |s| ==> s[i] != s[j]
  }

  // Every session is in one place: one goroutine, or the idle list once.
  ghost predicate Exclusive(st: State) {
    && Distinct(st.idle)
    && (forall s :: s in st.idle ==> s < |st.sessions|)
    && (forall t, s: nat {:trigger Owns(st.threads[t], s)} :: 0 <= t < |st.threads| && Owns(st.threads[t], s) ==>
         s < |st.sessions| && s !in st.idle)
    && (forall t, u, s: nat :: 0 <= t < |st.threads| && 0 <= u < |st.threads| && t != u ==>
         !(Owns(st.threads[t], s) && Owns(st.threads[u], s)))
    && (forall t :: 0 <= t < |st.threads| && st.threads[t].Closer? ==> Distinct(st.threads[t].todo))
  }

  // A session that is neither idle nor about to be is not marked as idle.
  ghost predicate FlagsOk(st: State) {
    forall t, s: nat :: 0 <= t < |st.threads| && Owns(st.threads[t], s) && !st.threads[t].Marked? ==>
      s < |st.sessions| ==> !st.sessions[s].inIdle
  }

  // Who answers for session s: the list, or a goroutine.
  ghost predicate Kept(st: State, s: nat) {
    s in st.idle || exists t :: 0 <= t < |st.threads| && Owns(st.threads[t], s)
  }

  // No live session is forgotten.
  ghost predicate NoLeak(st: State) {
    forall s :: 0 <= s < |st.sessions| && st.sessions[s].life.Alive? ==>
      Kept(st, s)
  }

  ghost predicate Inv(st: State) {
    Exclusive(st) && FlagsOk(st) && NoLeak(st)
  }

  lemma {:induction false} WithoutMeans(idle: seq<nat>, s: nat)
    requires Distinct(idle)
    ensures forall x :: x in Without(idle, s) <==> x in idle && x != s
    ensures Distinct(Without(idle, s))
  {
    if idle != [] && idle[0] != s {
      WithoutMeans(idle[1..], s);
      assert idle == [idle[0]] + idle[1..];
      assert idle[0] !in idle[1..];
    } else if idle != [] {
      assert idle == [s] + idle[1..];
    }
  }

  // What a step of one goroutine may do to who has which session: give up sessions, put some of its
  // own into the list, and take over sessions from the list or a new one.
  ghost predicate Moves(st: State, r: State, t: nat, after: Thread) {
    && t < |st.threads| && r.threads == st.threads[t := after]
    && |st.sessions| <= |r.sessions|
    && (forall s: nat :: Owns(after, s) ==>
         || Owns(st.threads[t], s)
         || (s in st.idle && s !in r.idle)
         || |st.sessions| <= s < |r.sessions|)
    && (forall s :: s in r.idle ==> s in st.idle || (Owns(st.threads[t], s) && !Owns(after, s)))
    && Distinct(r.idle)
    && (after.Closer? ==> Distinct(after.todo))
  }

  lemma MovesKeepExclusive(st: State, r: State, t: nat, after: Thread)
    requires Exclusive(st) && Moves(st, r, t, after)
    ensures Exclusive(r)
  {
    forall u, s: nat | 0 <= u < |r.threads| && Owns(r.threads[u], s)
      ensures s < |r.sessions|
      ensures s !in r.idle
    {
      if u == t {
        assert Owns(after, s);
      } else {
        assert Owns(st.threads[u], s);
      }
    }
  }

  lemma DistinctWithout(s: seq<nat>, i: nat)
    requires Distinct(s) && i < |s|
    ensures Distinct(s[..i] + s[i + 1..])
    ensures forall x :: x in s[..i] + s[i + 1..] <==> x in s && x != s[i]
  {
    assert s == s[..i] + [s[i]] + s[i + 1..];
  }

  lemma DistinctWith(s: seq<nat>, x: nat)
    requires Distinct(s) && x !in s
    ensures Distinct(s + [x])
  {
  }

  lemma SweepKeepsExclusive(st: State, a: Action)
    requires Exclusive(st) && Enabled(st, a) && a.Sweep?
    ensures Exclusive(Next(st, a))
  {
    var r := Next(st, a);
    DistinctWithout(st.idle, a.i);
    if a.verdict.Expired? {
      var todo := Todo(st.threads[a.t]);
      assert st.idle[a.i] in st.idle;
      assert forall x :: x in todo ==> Owns(st.threads[a.t], x);
      DistinctWith(todo, st.idle[a.i]);
    }
    MovesKeepExclusive(st, r, a.t, r.threads[a.t]);
  }

  lemma ListStepKeepsExclusive(st: State, a: Action)
    requires Exclusive(st) && Enabled(st, a) && (a.Pop? || a.Append? || a.CloseNext?)
    ensures Exclusive(Next(st, a))
  {
    var r := Next(st, a);
    if a.Pop? {
      DistinctWithout(st.idle, |st.idle| - 1);
      assert r.idle == st.idle[..|st.idle| - 1] + st.idle[|st.idle|..];
    } else if a.Append? {
      assert Owns(st.threads[a.t], st.threads[a.t].s);
      DistinctWith(st.idle, st.threads[a.t].s);
    }
    MovesKeepExclusive(st, r, a.t, r.threads[a.t]);
  }

  lemma StepKeepsExclusive(st: State, a: Action)
    requires Exclusive(st) && Enabled(st, a)
    ensures Exclusive(Next(st, a))
  {
    var r := Next(st, a);
    if a.Sweep? {
      SweepKeepsExclusive(st, a);
    } else if a.Pop? || a.Append? || a.CloseNext? {
      ListStepKeepsExclusive(st, a);
    } else if a.HookRemoves? {
      WithoutMeans(st.idle, a.s);
    } else if !a.Die? && !a.HookClears? {
      MovesKeepExclusive(st, r, a.t, r.threads[a.t]);
    }
  }

  lemma StepKeepsFlags(st: State, a: Action)
    requires Exclusive(st) && FlagsOk(st) && Enabled(st, a)
    ensures FlagsOk(Next(st, a))
  {
  }

  // A live session that leaves the list goes to the goroutine that took it off.
  lemma IdleIsKept(st: State, a: Action, s: nat)
    requires Exclusive(st) && Enabled(st, a) && s in st.idle && s < |st.sessions|
    requires Next(st, a).sessions[s].life.Alive?
    ensures Kept(Next(st, a), s)
  {
    var r := Next(st, a);
    if a.HookRemoves? {
      WithoutMeans(st.idle, a.s);
    } else if a.Sweep? {
      DistinctWithout(st.idle, a.i);
      assert a.verdict.Expired? && s == st.idle[a.i] ==> Owns(r.threads[a.t], s);
    } else if a.Pop? {
      assert st.idle == r.idle + [st.idle[|st.idle| - 1]];
      assert s !in r.idle ==> Owns(r.threads[a.t], s);
    }
  }

  // A goroutine lets a live session go only by putting it on the list.
  lemma OwnedIsKept(st: State, a: Action, t: nat, s: nat)
    requires Exclusive(st) && FlagsOk(st) && Enabled(st, a) && t < |st.threads| && Owns(st.threads[t], s)
    requires Next(st, a).sessions[s].life.Alive?
    ensures Kept(Next(st, a), s)
  {
    var r := Next(st, a);
    assert a.Append? && a.t == t ==> s in r.idle;
    assert !(a.Append? && a.t == t) ==> Owns(r.threads[t], s);
  }

  lemma StepLeaksNothing(st: State, a: Action)
    requires Inv(st) && Enabled(st, a)
    ensures NoLeak(Next(st, a))
  {
    var r := Next(st, a);
    forall s | 0 <= s < |r.sessions| && r.sessions[s].life.Alive? ensures Kept(r, s) {
      if s == |st.sessions| {
        assert Owns(r.threads[a.t], s);
      } else if s in st.idle {
        IdleIsKept(st, a, s);
      } else {
        assert Kept(st, s);
        var t :| 0 <= t < |st.threads| && Owns(st.threads[t], s);
        OwnedIsKept(st, a, t, s);
      }
    }
  }

  lemma StepKeepsInv(st: State, a: Action)
    requires Inv(st) && Enabled(st, a)
    ensures Inv(Next(st, a))
  {
    hide Exclusive, FlagsOk, NoLeak, Next, Enabled;
    StepKeepsExclusive(st, a);
    StepKeepsFlags(st, a);
    StepLeaksNothing(st, a);
  }

  // ---- Every run

  ghost predicate Runs(st: State, steps: seq<Action>, r: State)
    decreases |steps|
  {
    if steps == [] then st == r else Enabled(st, steps[0]) && Runs(Next(st, steps[0]), steps[1..], r)
  }

  lemma {:induction false} RunsJoin(st: State, a: seq<Action>, r: State, b: seq<Action>, t: State)
    requires Runs(st, a, r) && Runs(r, b, t)
    ensures Runs(st, a + b, t)
    decreases |a|
  {
    hide Next, Enabled;
    if a == [] {
      assert a + b == b;
    } else {
      RunsJoin(Next(st, a[0]), a[1..], r, b, t);
      assert (a + b)[1..] == a[1..] + b;
    }
  }

  lemma {:induction false} RunKeepsInv(st: State, steps: seq<Action>, r: State)
    requires Inv(st) && Runs(st, steps, r)
    ensures Inv(r)
    decreases |steps|
  {
    if steps != [] {
      StepKeepsInv(st, steps[0]);
      RunKeepsInv(Next(st, steps[0]), steps[1..], r);
    }
  }

  lemma ReachableInv(threads: nat, steps: seq<Action>, st: State)
    requires Runs(Init(threads), steps, st)
    ensures Inv(st)
  {
    RunKeepsInv(Init(threads), steps, st);
  }

  // No session ever has two owners, is twice on the idle list, or is there while it is owned.
  lemma SessionsAreExclusive(threads: nat, steps: seq<Action>, st: State)
    requires Runs(Init(threads), steps, st)
    ensures forall t, u, s: nat :: 0 <= t < |st.threads| && 0 <= u < |st.threads| && t != u ==>
              !(Owns(st.threads[t], s) && Owns(st.threads[u], s))
    ensures forall i, j :: 0 <= i < j < |st.idle| ==> st.idle[i] != st.idle[j]
    ensures forall t, i :: 0 <= t < |st.threads| && 0 <= i < |st.idle| ==> !Owns(st.threads[t], st.idle[i])
  {
    ReachableInv(threads, steps, st);
    forall t, i | 0 <= t < |st.threads| && 0 <= i < |st.idle| ensures !Owns(st.threads[t], st.idle[i]) {
      assert st.idle[i] in st.idle;
    }
  }

  // A session that was never closed is always owned or idle.
  lemma LiveSessionsAreKept(threads: nat, steps: seq<Action>, st: State, s: nat)
    requires Runs(Init(threads), steps, st) && s < |st.sessions| && st.sessions[s].life.Alive?
    ensures s in st.idle || exists t :: 0 <= t < |st.threads| && Owns(st.threads[t], s)
  {
    ReachableInv(threads, steps, st);
    assert Kept(st, s);
  }

  // The compare-and-swap of returnToIdle succeeds in every run: a closing stream's session is
  // always marked, and the next two steps of its goroutine put it on the list.
  lemma ReturnAlwaysSucceeds(threads: nat, steps: seq<Action>, st: State, t: nat)
    requires Runs(Init(threads), steps, st) && t < |st.threads| && st.threads[t].Returning?
    ensures Enabled(st, Mark(t))
    ensures Next(st, Mark(t)).threads[t] == Marked(st.threads[t].s)
    ensures Next(Next(st, Mark(t)), Append(t)).idle == st.idle + [st.threads[t].s]
  {
    ReachableInv(threads, steps, st);
    assert Owns(st.threads[t], st.threads[t].s);
  }

  // A goroutine comes out of getIdleSession only with a session that was open when it looked, and
  // leaves a closed one to nobody.
  lemma ClosedIsDiscarded(threads: nat, steps: seq<Action>, st: State, t: nat)
    requires Runs(Init(threads), steps, st) && t < |st.threads| && st.threads[t].Popped?
    ensures Enabled(st, CheckPopped(t))
    ensures
      var r := Next(st, CheckPopped(t));
      var s := st.threads[t].s;
      if st.sessions[s].life.Alive? then r.threads[t] == Creator(s) else !Kept(r, s)
  {
    ReachableInv(threads, steps, st);
    assert Owns(st.threads[t], st.threads[t].s);
  }

  // The list holds a session whose hook has already looked for it there: only a later pop or
  // cleanup takes it off again.
  ghost predicate Stale(st: State) {
    exists i :: 0 <= i < |st.idle| && st.idle[i] < |st.sessions| && st.sessions[st.idle[i]].life.Dead?
  }

  // The one way a dead session gets on the list: its stream found it open when closing, and
  // appends it after the hook has come and gone.
  lemma StaleIff(threads: nat, steps: seq<Action>, st: State, a: Action)
    requires Runs(Init(threads), steps, st) && Enabled(st, a) && !Stale(st)
    ensures Stale(Next(st, a)) <==>
            a.Append? && st.threads[a.t].s < |st.sessions| && st.sessions[st.threads[a.t].s].life.Dead?
  {
    ReachableInv(threads, steps, st);
    var r := Next(st, a);
    if a.Append? {
      assert Owns(st.threads[a.t], st.threads[a.t].s);
      assert r.idle[|st.idle|] == st.threads[a.t].s;
      assert forall i :: 0 <= i < |st.idle| ==> r.idle[i] == st.idle[i];
    } else {
      if a.HookRemoves? {
        WithoutMeans(st.idle, a.s);
      } else if a.Sweep? {
        DistinctWithout(st.idle, a.i);
      }
      forall i | 0 <= i < |r.idle| && r.idle[i] < |r.sessions| ensures !r.sessions[r.idle[i]].life.Dead? {
        assert r.idle[i] in r.idle;
        assert r.idle[i] in st.idle;
      }
    }
  }

  // A stream on the first session is closing; it has seen the session open.
  function Racing(): (r: State) {
    State([Session(Alive, false)], [], [Returning(0)])
  }

  lemma RacingIsReached()
    ensures Runs(Init(1), [Create(0), OpenStream(0), CloseStream(0, false)], Racing())
  {
    var s1 := State([Session(Alive, false)], [], [Creator(0)]);
    var s2 := State([Session(Alive, false)], [], [Stream(0)]);
    assert Next(Init(1), Create(0)) == s1;
    assert Next(s1, OpenStream(0)) == s2;
    assert Next(s2, CloseStream(0, false)) == Racing();
    assert Runs(s2, [CloseStream(0, false)], Racing());
    assert Runs(s1, [OpenStream(0), CloseStream(0, false)], Racing());
  }

  lemma RacingEndsStale()
    ensures Runs(Racing(), [Die(0), HookClears(0), HookRemoves(0), Mark(0), Append(0)],
                 State([Session(Dead, true)], [0], [Free]))
  {
    var end := State([Session(Dead, true)], [0], [Free]);
    var s1 := State([Session(Dying, false)], [], [Returning(0)]);
    var s2 := State([Session(Cleared, false)], [], [Returning(0)]);
    var s3 := State([Session(Dead, false)], [], [Returning(0)]);
    var s4 := State([Session(Dead, true)], [], [Marked(0)]);
    assert Next(Racing(), Die(0)) == s1;
    assert Next(s1, HookClears(0)) == s2;
    assert Next(s2, HookRemoves(0)) == s3;
    assert Next(s3, Mark(0)) == s4;
    assert Next(s4, Append(0)) == end;
    hide Next;
    assert Runs(s4, [Append(0)], end);
    assert Runs(s3, [Mark(0), Append(0)], end);
    assert Runs(s2, [HookRemoves(0), Mark(0), Append(0)], end);
    assert Runs(s1, [HookClears(0), HookRemoves(0), Mark(0), Append(0)], end);
  }

  // The race does happen: a session dies and its hook ends before the append.
  lemma DeadCanStayIdle()
    ensures
      var steps := [Create(0), OpenStream(0), CloseStream(0, false),
                    Die(0), HookClears(0), HookRemoves(0), Mark(0), Append(0)];
      var end := State([Session(Dead, true)], [0], [Free]);
      Runs(Init(1), steps, end) && Stale(end)
  {
    hide Runs;
    var begun, rest := [Create(0), OpenStream(0), CloseStream(0, false)],
                       [Die(0), HookClears(0), HookRemoves(0), Mark(0), Append(0)];
    var end := State([Session(Dead, true)], [0], [Free]);
    RacingIsReached();
    RacingEndsStale();
    RunsJoin(Init(1), begun, Racing(), rest, end);
    assert begun + rest == [Create(0), OpenStream(0), CloseStream(0, false),
                            Die(0), HookClears(0), HookRemoves(0), Mark(0), Append(0)];
    assert end.idle[0] == 0;
  }
}

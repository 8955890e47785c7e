// The critical sections of the anytls client's session pool, as its methods run them, each of
// them a run of the state machine of AnyTlsPool.
module AnyTlsClient {
  import P = AnyTlsPool

  class Session {
    const id: nat
    var closed: bool
    var inIdle: bool
    var idleSince: int

    constructor (id: nat)
      ensures this.id == id && !closed && !inIdle
    {
      this.id := id;
      closed := false;
      inIdle := false;
      idleSince := 0;
    }
  }

  // What idleCleanup keeps: sessions that are open and not idle since before the deadline.
  predicate Stays(s: Session, deadline: int)
    reads s`closed, s`idleSince
  {
    !s.closed && s.idleSince >= deadline
  }

  predicate Expires(s: Session, deadline: int)
    reads s`closed, s`idleSince
  {
    !s.closed && s.idleSince < deadline
  }

  function Staying(list: seq<Session>, deadline: int): (r: seq<Session>)
    reads list`closed, list`idleSince
    ensures forall i :: 0 <= i < |r| ==> r[i] in list
    ensures forall i :: 0 <= i < |r| ==> Stays(r[i], deadline)
  {
    if list == [] then []
    else
      var last := list[|list| - 1];
      assert list == list[..|list| - 1] + [last];
      Staying(list[..|list| - 1], deadline) + if Stays(last, deadline) then [last] else []
  }

  function Expiring(list: seq<Session>, deadline: int): (r: seq<Session>)
    reads list`closed, list`idleSince
    ensures forall i :: 0 <= i < |r| ==> r[i] in list
    ensures forall i :: 0 <= i < |r| ==> Expires(r[i], deadline)
  {
    if list == [] then []
    else
      var last := list[|list| - 1];
      assert list == list[..|list| - 1] + [last];
      Expiring(list[..|list| - 1], deadline) + if Expires(last, deadline) then [last] else []
  }

  // Neither list leaves anything out.
  lemma {:induction false} StayingMeans(list: seq<Session>, deadline: int)
    ensures forall s :: s in list && Stays(s, deadline) ==> s in Staying(list, deadline)
    ensures forall s :: s in list && Expires(s, deadline) ==> s in Expiring(list, deadline)
  {
    if list != [] {
      StayingMeans(list[..|list| - 1], deadline);
      assert list == list[..|list| - 1] + [list[|list| - 1]];
    }
  }

  lemma ExtendedByOne(list: seq<Session>, i: nat, deadline: int)
    requires i < |list|
    ensures Staying(list[..i + 1], deadline) ==
            Staying(list[..i], deadline) + if Stays(list[i], deadline) then [list[i]] else []
    ensures Expiring(list[..i + 1], deadline) ==
            Expiring(list[..i], deadline) + if Expires(list[i], deadline) then [list[i]] else []
  {
    assert list[..i + 1][..i] == list[..i];
  }

  lemma NoneYet(deadline: int)
    ensures Staying([], deadline) == [] && Expiring([], deadline) == []
  {
  }

  ghost function StayFlags(all: seq<Session>, deadline: int): (r: seq<bool>)
    reads all`closed, all`idleSince
    ensures |r| == |all| && forall i :: 0 <= i < |all| ==> r[i] == Stays(all[i], deadline)
  {
    if all == [] then [] else StayFlags(all[..|all| - 1], deadline) + [Stays(all[|all| - 1], deadline)]
  }

  ghost predicate Tells(stay: seq<bool>, s: Session, deadline: int)
    reads s`closed, s`idleSince
  {
    s.id < |stay| && stay[s.id] == Stays(s, deadline)
  }

  // The marks once the sessions with these ids are judged: those that do not stay lose theirs.
  ghost function Judged(marks: seq<P.Session>, ids: seq<nat>, stay: seq<bool>): (r: seq<P.Session>)
    requires |marks| == |stay|
    ensures |r| == |marks|
    ensures forall k :: 0 <= k < |marks| ==>
              r[k] == if k in ids && !stay[k] then marks[k].(inIdle := false) else marks[k]
  {
    seq(|marks|, k requires 0 <= k < |marks| => if k in ids && !stay[k] then marks[k].(inIdle := false) else marks[k])
  }

  lemma NoneJudged(marks: seq<P.Session>, stay: seq<bool>)
    requires |marks| == |stay|
    ensures Judged(marks, [], stay) == marks
  {
  }

  lemma JudgedMore(marks: seq<P.Session>, ids: seq<nat>, x: nat, stay: seq<bool>)
    requires |marks| == |stay| && x < |stay|
    ensures var j := Judged(marks, ids, stay);
      Judged(marks, ids + [x], stay) == if stay[x] then j else j[x := j[x].(inIdle := false)]
  {
  }

  // ---- The pool as the state machine sees it

  function Ids(list: seq<Session>): (r: seq<nat>)
    ensures |r| == |list| && forall i :: 0 <= i < |list| ==> r[i] == list[i].id
  {
    seq(|list|, i requires 0 <= i < |list| => list[i].id)
  }

  lemma IdsConcat(a: seq<Session>, b: seq<Session>)
    ensures Ids(a + b) == Ids(a) + Ids(b)
  {
  }

  // A session whose Close has been called has run its hook to the end.
  ghost function MarkOf(s: Session): (r: P.Session)
    reads s`closed, s`inIdle
  {
    P.Session(if s.closed then P.Dead else P.Alive, s.inIdle)
  }

  ghost function Marks(all: seq<Session>): (r: seq<P.Session>)
    reads all`closed, all`inIdle
    ensures |r| == |all| && forall i :: 0 <= i < |all| ==> r[i] == MarkOf(all[i])
  {
    if all == [] then [] else Marks(all[..|all| - 1]) + [MarkOf(all[|all| - 1])]
  }

  // ---- Runs of a few steps

  lemma {:induction false} RunsOneMore(st: P.State, steps: seq<P.Action>, r: P.State, a: P.Action)
    requires P.Runs(st, steps, r) && P.Enabled(r, a)
    ensures P.Runs(st, steps + [a], P.Next(r, a))
    decreases |steps|
  {
    hide P.Next, P.Enabled;
    if steps == [] {
      assert ([] + [a])[1..] == [];
      assert P.Runs(P.Next(r, a), [], P.Next(r, a));
    } else {
      RunsOneMore(P.Next(st, steps[0]), steps[1..], r, a);
      assert (steps + [a])[1..] == steps[1..] + [a];
    }
  }

  // The newest session popped and looked at.
  function PopDone(st: P.State, t: nat): (r: P.State)
    requires st.idle != [] && st.idle[|st.idle| - 1] < |st.sessions| && t < |st.threads|
  {
    var s := st.idle[|st.idle| - 1];
    P.State(st.sessions[s := st.sessions[s].(inIdle := false)], st.idle[..|st.idle| - 1],
            st.threads[t := if st.sessions[s].life.Alive? then P.Creator(s) else P.Free])
  }

  lemma PopRun(st: P.State, t: nat)
    requires st.idle != [] && st.idle[|st.idle| - 1] < |st.sessions| && t < |st.threads| && st.threads[t].Free?
    ensures P.Runs(st, [P.Pop(t), P.CheckPopped(t)], PopDone(st, t))
  {
    var s1 := P.Next(st, P.Pop(t));
    var s2 := P.Next(s1, P.CheckPopped(t));
    assert s2 == PopDone(st, t);
    assert P.Runs(s2, [], s2);
    assert P.Runs(s1, [P.CheckPopped(t)], s2);
  }

  // Closed, its hook run to the end.
  function HookDone(st: P.State, s: nat): (r: P.State)
    requires s < |st.sessions|
  {
    st.(sessions := st.sessions[s := P.Session(P.Dead, false)], idle := P.Without(st.idle, s))
  }

  lemma HookRun(st: P.State, s: nat)
    requires s < |st.sessions| && st.sessions[s].life.Dying?
    ensures P.Runs(st, [P.HookClears(s), P.HookRemoves(s)], HookDone(st, s))
  {
    var s1 := P.Next(st, P.HookClears(s));
    var s2 := P.Next(s1, P.HookRemoves(s));
    assert s2 == HookDone(st, s);
    assert P.Runs(s2, [], s2);
    assert P.Runs(s1, [P.HookRemoves(s)], s2);
  }

  lemma DieRun(st: P.State, s: nat)
    requires s < |st.sessions| && st.sessions[s].life.Alive?
    ensures P.Runs(st, [P.Die(s), P.HookClears(s), P.HookRemoves(s)], HookDone(st, s))
  {
    var s1 := P.Next(st, P.Die(s));
    HookRun(s1, s);
    assert HookDone(s1, s) == HookDone(st, s);
    var steps := [P.Die(s), P.HookClears(s), P.HookRemoves(s)];
    assert steps[1..] == [P.HookClears(s), P.HookRemoves(s)];
  }

  // idleCleanup closes the first session on its list.
  lemma CloseNextRun(st: P.State, t: nat)
    requires t < |st.threads| && st.threads[t].Closer? && st.threads[t].todo != []
    requires st.threads[t].todo[0] < |st.sessions| && st.sessions[st.threads[t].todo[0]].life.Alive?
    ensures var todo := st.threads[t].todo;
      P.Runs(st, [P.CloseNext(t), P.HookClears(todo[0]), P.HookRemoves(todo[0])],
             HookDone(st, todo[0]).(threads := st.threads[t := P.Closer(todo[1..])]))
  {
    var todo := st.threads[t].todo;
    var s := todo[0];
    var s1 := P.Next(st, P.CloseNext(t));
    HookRun(s1, s);
    assert HookDone(s1, s) == HookDone(st, s).(threads := st.threads[t := P.Closer(todo[1..])]);
    var steps := [P.CloseNext(t), P.HookClears(s), P.HookRemoves(s)];
    assert steps[1..] == [P.HookClears(s), P.HookRemoves(s)];
  }

  lemma {:induction false} WithoutAt(l: seq<nat>, i: nat)
    requires i < |l| && l[i] !in l[..i]
    ensures P.Without(l, l[i]) == l[..i] + l[i + 1..]
  {
    if i == 0 {
      assert l[..0] + l[1..] == l[1..];
    } else {
      assert l[0] in l[..i];
      assert l[1..][..i - 1] == l[..i][1..];
      WithoutAt(l[1..], i - 1);
      assert l[..i] + l[i + 1..] == [l[0]] + (l[1..][..i - 1] + l[1..][i..]);
    }
  }

  lemma {:induction false} WithoutAbsent(l: seq<nat>, x: nat)
    requires x !in l
    ensures P.Without(l, x) == l
  {
    if l != [] {
      assert l[0] in l;
      WithoutAbsent(l[1..], x);
    }
  }

  lemma NoSteps(st: P.State)
    ensures P.Runs(st, [], st)
  {
  }

  lemma MarkRun(st: P.State, t: nat)
    requires t < |st.threads| && st.threads[t].Returning? && st.threads[t].s < |st.sessions|
    requires !st.sessions[st.threads[t].s].inIdle
    ensures var s := st.threads[t].s;
      P.Runs(st, [P.Mark(t), P.Append(t)],
             P.State(st.sessions[s := st.sessions[s].(inIdle := true)], st.idle + [s], st.threads[t := P.Free]))
  {
    var s1 := P.Next(st, P.Mark(t));
    var s2 := P.Next(s1, P.Append(t));
    assert P.Runs(s2, [], s2);
    assert P.Runs(s1, [P.Append(t)], s2);
    assert s1.threads[t := P.Free] == st.threads[t := P.Free];
  }

  lemma MarkedRun(st: P.State, t: nat)
    requires t < |st.threads| && st.threads[t].Returning? && st.threads[t].s < |st.sessions|
    requires st.sessions[st.threads[t].s].inIdle
    ensures P.Runs(st, [P.Mark(t)], st.(threads := st.threads[t := P.Free]))
  {
    var s1 := P.Next(st, P.Mark(t));
    assert P.Runs(s1, [], s1);
  }

  // idleCleanup takes a session off the list, and keeps it to be closed if it is expired.
  lemma SweepStep(st: P.State, threads: seq<P.Thread>, t: nat, j: nat, toClose: seq<Session>, s: Session, expires: bool)
    requires t < |threads| && st.threads == threads[t := Closing(toClose)]
    requires j < |st.idle| && st.idle[j] == s.id < |st.sessions|
    requires !expires ==> !st.sessions[s.id].life.Alive?
    ensures var a := P.Sweep(t, j, if expires then P.Expired else P.FoundClosed);
      && P.Enabled(st, a)
      && P.Next(st, a) == P.State(st.sessions[s.id := st.sessions[s.id].(inIdle := false)],
                                  st.idle[..j] + st.idle[j + 1..],
                                  threads[t := Closing(toClose + if expires then [s] else [])])
  {
    assert Ids(toClose + [s]) == Ids(toClose) + [s.id];
    assert toClose + [] == toClose;
  }

  lemma SplitIds(front: seq<Session>, list: seq<Session>, i: nat)
    requires i < |list|
    ensures var ids, j := Ids(front + list[i..]), |front|;
      ids[j] == list[i].id && ids[..j] + ids[j + 1..] == Ids(front + list[i + 1..])
  {
  }

  lemma LastStep(st: P.State, threads: seq<P.Thread>, t: nat)
    requires t < |threads| && threads[t].Free? && st.threads == threads[t := P.Closer([])]
    ensures P.Enabled(st, P.CloseNext(t)) && P.Next(st, P.CloseNext(t)) == st.(threads := threads)
  {
    assert st.threads[t := P.Free] == threads;
  }

  // A session that is closed already is passed over.
  lemma CloseAgainRun(st: P.State, t: nat)
    requires t < |st.threads| && st.threads[t].Closer? && st.threads[t].todo != []
    requires st.threads[t].todo[0] < |st.sessions| && !st.sessions[st.threads[t].todo[0]].life.Alive?
    ensures P.Runs(st, [P.CloseNext(t)], st.(threads := st.threads[t := P.Closer(st.threads[t].todo[1..])]))
  {
    var s1 := P.Next(st, P.CloseNext(t));
    assert s1 == st.(threads := st.threads[t := P.Closer(st.threads[t].todo[1..])]);
    assert P.Runs(s1, [], s1);
  }

  lemma HookKeepsThreads(st: P.State, s: nat)
    requires s < |st.sessions|
    ensures HookDone(st, s).threads == st.threads
  {
  }

  // idleCleanup with these sessions still to be closed.
  function Closing(list: seq<Session>): (r: P.Thread) {
    if list == [] then P.Free else P.Closer(Ids(list))
  }

  lemma ClosingIs(list: seq<Session>)
    ensures Closing(list) == if list == [] then P.Free else P.Closer(Ids(list))
  {
  }

  class Client {
    var idle: seq<Session>
    var sessions: map<nat, Session>
    var sessionCounter: nat
    // every session created so far, at the place its id tells
    ghost var all: seq<Session>

    ghost predicate Known()
      reads `idle, `all, `sessionCounter
    {
      && sessionCounter == |all|
      && (forall i :: 0 <= i < |all| ==> all[i].id == i)
      && forall i :: 0 <= i < |idle| ==> InAll(idle[i])
    }

    ghost predicate InAll(s: Session)
      reads `all
    {
      s.id < |all| && all[s.id] == s
    }

    // The state of the pool, with the goroutines where they are.
    ghost function View(threads: seq<P.Thread>): (r: P.State)
      reads `idle, `all, all`closed, all`inIdle
    {
      P.State(Marks(all), Ids(idle), threads)
    }

    constructor ()
      ensures idle == [] && sessions == map[] && all == [] && Known()
    {
      idle, sessions, sessionCounter, all := [], map[], 0, [];
    }

    // createSession, once the connection is there: the session is in the table, and the
    // goroutine has it.
    method CreateSession(ghost threads: seq<P.Thread>, ghost t: nat) returns (s: Session)
      requires Known() && t < |threads| && threads[t].Free?
      modifies `sessions, `all, `sessionCounter
      ensures fresh(s) && Known() && all == old(all) + [s] && sessions == old(sessions)[s.id := s]
      ensures P.Enabled(old(View(threads)), P.Create(t))
      ensures View(threads[t := P.Creator(s.id)]) == P.Next(old(View(threads)), P.Create(t))
    {
      s := new Session(sessionCounter);
      sessionCounter := sessionCounter + 1;
      all := all + [s];
      sessions := sessions[s.id := s];
      assert all[..|all| - 1] == old(all);
    }

    // One mark changed.
    twostate lemma MarksUpdated(s: Session)
      requires old(Known()) && old(InAll(s)) && all == old(all)
      requires forall i :: 0 <= i < |all| && i != s.id ==> MarkOf(all[i]) == old(MarkOf(all[i]))
      ensures Marks(all) == old(Marks(all))[s.id := MarkOf(s)]
    {
      hide MarkOf;
    }

    method Unmark(s: Session)
      requires Known() && InAll(s)
      modifies s`inIdle
      ensures !s.inIdle
      ensures Marks(all) == old(Marks(all))[s.id := old(Marks(all))[s.id].(inIdle := false)]
    {
      hide Marks;
      s.inIdle := false;
      MarksUpdated(s);
    }

    method SetMark(s: Session, now: int)
      requires Known() && InAll(s)
      modifies s`inIdle, s`idleSince
      ensures s.inIdle && s.idleSince == now
      ensures Marks(all) == old(Marks(all))[s.id := old(Marks(all))[s.id].(inIdle := true)]
    {
      hide Marks;
      s.inIdle := true;
      s.idleSince := now;
      MarksUpdated(s);
    }

    method MarkClosed(s: Session)
      requires Known() && InAll(s)
      modifies s`closed, s`inIdle
      ensures s.closed && !s.inIdle
      ensures Marks(all) == old(Marks(all))[s.id := P.Session(P.Dead, false)]
    {
      hide Marks;
      s.closed := true;
      s.inIdle := false;
      MarksUpdated(s);
    }

    // The newest session off the list.
    method PopIdle(ghost threads: seq<P.Thread>, ghost t: nat) returns (s: Session)
      requires Known() && idle != [] && t < |threads|
      modifies `idle, idle`inIdle
      ensures Known() && s == old(idle)[|old(idle)| - 1] && idle == old(idle)[..|old(idle)| - 1] && !s.inIdle
      ensures forall x :: x in old(idle) && x != s ==> x.inIdle == old(x.inIdle)
      ensures old(View(threads)).idle != [] && s.id < |old(View(threads)).sessions|
      ensures View(threads[t := if s.closed then P.Free else P.Creator(s.id)]) == PopDone(old(View(threads)), t)
    {
      hide Marks;
      s := idle[|idle| - 1];
      assert InAll(s);
      idle := idle[..|idle| - 1];
      Unmark(s);
    }

    // Popped and looked at, as two more steps of a run.
    method PopOnce(ghost threads: seq<P.Thread>, ghost t: nat, ghost st0: P.State, ghost steps: seq<P.Action>)
      returns (s: Session, ghost steps': seq<P.Action>)
      requires Known() && idle != [] && t < |threads| && threads[t].Free? && P.Runs(st0, steps, View(threads))
      modifies `idle, idle`inIdle
      ensures Known() && s == old(idle)[|old(idle)| - 1] && idle == old(idle)[..|old(idle)| - 1] && !s.inIdle
      ensures forall x :: x in old(idle) && x != s ==> x.inIdle == old(x.inIdle)
      ensures P.Runs(st0, steps', View(threads[t := if s.closed then P.Free else P.Creator(s.id)]))
    {
      hide P.Runs, PopDone, Marks;
      ghost var here := View(threads);
      PopRunOf(here, t);
      s := PopIdle(threads, t);
      P.RunsJoin(st0, steps, here, [P.Pop(t), P.CheckPopped(t)], PopDone(here, t));
      steps' := steps + [P.Pop(t), P.CheckPopped(t)];
    }

    // The newest open session of the list. All that is newer was closed and is dropped with it.
    method GetIdleSession(ghost threads: seq<P.Thread>, ghost t: nat)
      returns (r: Session?, ghost steps: seq<P.Action>)
      requires Known() && t < |threads| && threads[t].Free?
      modifies `idle, idle`inIdle
      ensures idle <= old(idle)
      ensures r == null ==> idle == []
      ensures r != null ==> |idle| < |old(idle)| && r == old(idle)[|idle|] && !r.closed
      ensures forall i :: (if r == null then 0 else |idle| + 1) <= i < |old(idle)| ==> old(idle)[i].closed
      ensures forall i :: |idle| <= i < |old(idle)| ==> !old(idle)[i].inIdle
      ensures forall s :: s in old(idle) && s !in old(idle)[|idle|..] ==> s.inIdle == old(s.inIdle)
      ensures Known()
      ensures P.Runs(old(View(threads)), steps, View(threads[t := if r == null then P.Free else P.Creator(r.id)]))
    {
      hide P.Runs, View, Known;
      ghost var was, st0 := idle, View(threads);
      steps := [];
      NoSteps(st0);
      assert threads[t := P.Free] == threads;
      while idle != []
        invariant idle <= was && Known()
        invariant forall i :: |idle| <= i < |was| ==> was[i].closed && !was[i].inIdle
        invariant forall s :: s in was && s !in was[|idle|..] ==> s.inIdle == old(s.inIdle)
        invariant P.Runs(st0, steps, View(threads))
        decreases |idle|
      {
        assert was[|idle| - 1..] == [was[|idle| - 1]] + was[|idle|..];
        var s;
        s, steps := PopOnce(threads, t, st0, steps);
        if !s.closed {
          return s, steps;
        }
      }
      r := null;
    }

    lemma PopRunOf(st: P.State, t: nat)
      requires Known() && idle != [] && st.idle == Ids(idle) && |st.sessions| == |all|
      requires t < |st.threads| && st.threads[t].Free?
      ensures st.idle[|st.idle| - 1] < |st.sessions| && P.Runs(st, [P.Pop(t), P.CheckPopped(t)], PopDone(st, t))
    {
      assert InAll(idle[|idle| - 1]);
      PopRun(st, t);
    }

    // Appends the session unless it is marked as being on the list already.
    method ReturnToIdle(s: Session, now: int, ghost threads: seq<P.Thread>, ghost t: nat)
      requires Known() && InAll(s) && t < |threads| && threads[t] == P.Returning(s.id)
      modifies `idle, s`inIdle, s`idleSince
      ensures old(s.inIdle) ==> idle == old(idle) && s.idleSince == old(s.idleSince)
      ensures !old(s.inIdle) ==> idle == old(idle) + [s] && s.idleSince == now
      ensures s.inIdle && Known()
      ensures var steps := if old(s.inIdle) then [P.Mark(t)] else [P.Mark(t), P.Append(t)];
        P.Runs(old(View(threads)), steps, View(threads[t := P.Free]))
    {
      hide Marks, P.Runs;
      ghost var st := View(threads);
      if s.inIdle {
        MarkedRun(st, t);
        return;
      }
      MarkRun(st, t);
      SetMark(s, now);
      idle := idle + [s];
      assert Ids(idle) == st.idle + [s.id];
    }

    // Takes the session's first occurrence off the list.
    method RemoveIdle(s: Session)
      requires Known() && InAll(s)
      modifies `idle
      ensures s !in old(idle) ==> idle == old(idle)
      ensures s in old(idle) ==>
        exists i :: 0 <= i < |old(idle)| && old(idle)[i] == s && s !in old(idle)[..i] &&
          idle == old(idle)[..i] + old(idle)[i + 1..]
      ensures Known() && Ids(idle) == P.Without(old(Ids(idle)), s.id)
    {
      var i := 0;
      while i < |idle|
        invariant 0 <= i <= |idle| && idle == old(idle)
        invariant s !in idle[..i]
      {
        if idle[i] == s {
          RemovedIds(i);
          idle := idle[..i] + idle[i + 1..];
          return;
        }
        i := i + 1;
      }
      AbsentIds(s);
    }

    lemma RemovedIds(i: nat)
      requires Known() && i < |idle| && idle[i] !in idle[..i]
      ensures Ids(idle[..i] + idle[i + 1..]) == P.Without(Ids(idle), idle[i].id)
    {
      var ids := Ids(idle);
      forall k | 0 <= k < i ensures ids[k] != ids[i] {
        assert idle[..i][k] == idle[k];
        assert InAll(idle[k]) && InAll(idle[i]);
      }
      WithoutAt(ids, i);
      assert Ids(idle[..i] + idle[i + 1..]) == ids[..i] + ids[i + 1..];
    }

    lemma AbsentIds(s: Session)
      requires Known() && InAll(s) && s !in idle
      ensures Ids(idle) == P.Without(Ids(idle), s.id)
    {
      forall k | 0 <= k < |idle| ensures Ids(idle)[k] != s.id {
        assert InAll(idle[k]);
      }
      WithoutAbsent(Ids(idle), s.id);
    }

    // Close, with the hook that createSession installed: once closed, nothing refers to the session.
    method CloseSession(s: Session, ghost threads: seq<P.Thread>)
      requires Known() && InAll(s)
      modifies `idle, `sessions, s`closed, s`inIdle
      ensures s.closed && Known()
      ensures old(s.closed) ==> idle == old(idle) && sessions == old(sessions) && s.inIdle == old(s.inIdle)
      ensures !old(s.closed) ==> !s.inIdle && sessions == old(sessions) - {s.id}
      ensures !old(s.closed) && s !in old(idle) ==> idle == old(idle)
      ensures !old(s.closed) && s in old(idle) ==>
        exists i :: 0 <= i < |old(idle)| && old(idle)[i] == s && s !in old(idle)[..i] &&
          idle == old(idle)[..i] + old(idle)[i + 1..]
      ensures old(s.closed) ==> View(threads) == old(View(threads))
      ensures !old(s.closed) ==> View(threads) == HookDone(old(View(threads)), s.id)
      ensures !old(s.closed) ==>
        P.Runs(old(View(threads)), [P.Die(s.id), P.HookClears(s.id), P.HookRemoves(s.id)], View(threads))
    {
      hide Marks, P.Without, Known, Ids, P.Runs;
      if s.closed {
        return;
      }
      DieRun(View(threads), s.id);
      MarkClosed(s);
      RemoveIdle(s);
      sessions := sessions - {s.id};
    }

    // What idleCleanup does with one session of the list.
    method Judge(s: Session, deadline: int) returns (stays: bool, expires: bool)
      requires Known() && InAll(s)
      modifies s`inIdle
      ensures stays == Stays(s, deadline) && expires == Expires(s, deadline)
      ensures s.inIdle == (old(s.inIdle) && stays)
      ensures var was := old(Marks(all)); Marks(all) == if stays then was else was[s.id := was[s.id].(inIdle := false)]
    {
      hide Marks;
      stays, expires := false, false;
      if s.closed {
        Unmark(s);
      } else if s.idleSince < deadline {
        Unmark(s);
        expires := true;
      } else {
        stays := true;
      }
    }

    // The part of idleCleanup under the lock.
    method Sweep(deadline: int, ghost threads: seq<P.Thread>, ghost t: nat)
      returns (toClose: seq<Session>, ghost steps: seq<P.Action>)
      requires Known() && t < |threads| && threads[t].Free?
      modifies `idle, idle`inIdle
      ensures idle == old(Staying(idle, deadline))
      ensures toClose == old(Expiring(idle, deadline))
      ensures forall s :: s in old(idle) ==> s.inIdle == old(s.inIdle && Stays(s, deadline))
      ensures Known()
      ensures P.Runs(old(View(threads)), steps, View(threads[t := Closing(toClose)]))
    {
      hide P.Runs, View, Swept, Known, InAll, Closing, Staying, Expiring, Marks, Judged, Stays, Expires, Tells;
      SweepStarts(threads, t);
      KnownPart(deadline);
      ghost var stay := StayFlags(all, deadline);
      AllTell(deadline);
      var remaining;
      remaining, toClose, steps := SweepLoop(deadline, threads, t, stay);
      MarksTell(deadline);
      TakeOver(remaining, threads, t, toClose);
    }

    method SweepLoop(deadline: int, ghost threads: seq<P.Thread>, ghost t: nat, ghost stay: seq<bool>)
      returns (remaining: seq<Session>, toClose: seq<Session>, ghost steps: seq<P.Action>)
      requires Known() && t < |threads| && View(threads) == Swept(idle, threads, t, [])
      requires |stay| == |all| && forall k :: 0 <= k < |idle| ==> Tells(stay, idle[k], deadline)
      modifies idle`inIdle
      ensures Known() && remaining == Staying(idle, deadline) && toClose == Expiring(idle, deadline)
      ensures Marks(all) == Judged(old(Marks(all)), Ids(idle), stay)
      ensures P.Runs(old(View(threads)), steps, Swept(remaining, threads, t, toClose))
    {
      hide P.Runs, View, Swept, Known, Marks, Judged, Tells, Staying, Expiring;
      ghost var marks, st0 := Marks(all), View(threads);
      NoneJudged(marks, stay);
      remaining, toClose, steps := [], [], [];
      NoSteps(st0);
      NoneYet(deadline);
      assert idle[0..] == idle && [] + idle == idle && idle[..0] == [] && Ids([]) == [];
      var i := 0;
      while i < |idle|
        invariant 0 <= i <= |idle| && Known()
        invariant remaining == Staying(idle[..i], deadline) && toClose == Expiring(idle[..i], deadline)
        invariant Marks(all) == Judged(marks, Ids(idle[..i]), stay)
        invariant P.Runs(st0, steps, Swept(remaining + idle[i..], threads, t, toClose))
      {
        remaining, toClose, steps :=
          SweepPlanned(i, remaining, toClose, deadline, threads, t, st0, steps, marks, stay);
        i := i + 1;
      }
      assert idle[..|idle|] == idle && remaining + idle[|idle|..] == remaining;
    }

    lemma AllTell(deadline: int)
      requires Known()
      ensures forall k :: 0 <= k < |idle| ==> Tells(StayFlags(all, deadline), idle[k], deadline)
    {
      forall k | 0 <= k < |idle| ensures Tells(StayFlags(all, deadline), idle[k], deadline) {
        assert InAll(idle[k]);
      }
    }

    // The marks after a sweep, session by session.
    twostate lemma MarksTell(deadline: int)
      requires old(Known()) && idle == old(idle) && all == old(all)
      requires forall s :: s in idle ==> s.closed == old(s.closed)
      requires Marks(all) == Judged(old(Marks(all)), Ids(idle), old(StayFlags(all, deadline)))
      ensures forall s :: s in idle ==> s.inIdle == old(s.inIdle && Stays(s, deadline))
    {
      forall i | 0 <= i < |idle| ensures idle[i].inIdle == old(idle[i].inIdle && Stays(idle[i], deadline)) {
        assert old(InAll(idle[i]));
        var k := idle[i].id;
        assert Ids(idle)[i] == k && Marks(all)[k] == MarkOf(idle[i]);
      }
    }

    lemma SweepStarts(threads: seq<P.Thread>, t: nat)
      requires t < |threads| && threads[t].Free?
      ensures View(threads) == Swept(idle, threads, t, [])
    {
      assert threads[t := P.Free] == threads;
    }

    method TakeOver(remaining: seq<Session>, ghost threads: seq<P.Thread>, ghost t: nat, ghost toClose: seq<Session>)
      requires Known() && t < |threads| && forall i :: 0 <= i < |remaining| ==> InAll(remaining[i])
      modifies `idle
      ensures Known() && idle == remaining
      ensures View(threads[t := Closing(toClose)]) == old(Swept(remaining, threads, t, toClose))
    {
      hide Marks, Closing;
      idle := remaining;
    }

    // The state in the middle of a sweep, with this list.
    ghost function Swept(list: seq<Session>, threads: seq<P.Thread>, t: nat, toClose: seq<Session>): (r: P.State)
      requires t < |threads|
      reads `idle, `all, all`closed, all`inIdle
    {
      P.State(Marks(all), Ids(list), threads[t := Closing(toClose)])
    }

    lemma KnownPart(deadline: int)
      requires Known()
      ensures forall i :: 0 <= i < |Staying(idle, deadline)| ==> InAll(Staying(idle, deadline)[i])
    {
    }

    // One turn of the loop of a sweep.
    method SweepOne(i: nat, s: Session, remaining: seq<Session>, toClose: seq<Session>, deadline: int,
                    ghost threads: seq<P.Thread>, ghost t: nat, ghost st0: P.State, ghost steps: seq<P.Action>)
      returns (remaining': seq<Session>, toClose': seq<Session>, ghost steps': seq<P.Action>)
      requires Known() && i < |idle| && s == idle[i] && InAll(s) && t < |threads|
      requires P.Runs(st0, steps, Swept(remaining + idle[i..], threads, t, toClose))
      modifies s`inIdle
      ensures remaining' == remaining + if Stays(s, deadline) then [s] else []
      ensures toClose' == toClose + if Expires(s, deadline) then [s] else []
      ensures var was := old(Marks(all));
        Marks(all) == if Stays(s, deadline) then was else was[s.id := was[s.id].(inIdle := false)]
      ensures P.Runs(st0, steps', Swept(remaining' + idle[i + 1..], threads, t, toClose'))
    {
      hide P.Runs, P.Next, Closing, Marks;
      ghost var st: P.State := Swept(remaining + idle[i..], threads, t, toClose);
      ghost var j := |remaining|;
      SplitIds(remaining, idle, i);
      var stays, expires := Judge(s, deadline);
      remaining' := remaining + if stays then [s] else [];
      toClose' := toClose + if expires then [s] else [];
      assert !expires ==> toClose' == toClose;
      if stays {
        assert remaining' + idle[i + 1..] == remaining + idle[i..];
        steps' := steps;
      } else {
        assert remaining' == remaining;
        ghost var a := P.Sweep(t, j, if expires then P.Expired else P.FoundClosed);
        SweepStep(st, threads, t, j, toClose, s, expires);
        RunsOneMore(st0, steps, st, a);
        steps' := steps + [a];
      }
    }

    // The same, with what is kept, to be closed and unmarked so far.
    method SweepPlanned(i: nat, remaining: seq<Session>, toClose: seq<Session>, deadline: int,
                        ghost threads: seq<P.Thread>, ghost t: nat, ghost st0: P.State, ghost steps: seq<P.Action>,
                        ghost marks: seq<P.Session>, ghost stay: seq<bool>)
      returns (remaining': seq<Session>, toClose': seq<Session>, ghost steps': seq<P.Action>)
      requires Known() && i < |idle| && t < |threads|
      requires remaining == Staying(idle[..i], deadline) && toClose == Expiring(idle[..i], deadline)
      requires P.Runs(st0, steps, Swept(remaining + idle[i..], threads, t, toClose))
      requires |marks| == |stay| == |all| && Tells(stay, idle[i], deadline)
      requires Marks(all) == Judged(marks, Ids(idle[..i]), stay)
      modifies idle`inIdle
      ensures remaining' == Staying(idle[..i + 1], deadline) && toClose' == Expiring(idle[..i + 1], deadline)
      ensures Marks(all) == Judged(marks, Ids(idle[..i + 1]), stay)
      ensures P.Runs(st0, steps', Swept(remaining' + idle[i + 1..], threads, t, toClose'))
    {
      hide P.Runs, Swept, Marks, Judged, Staying, Expiring, Known, InAll, Tells, Stays, Expires, Ids;
      var s := idle[i];
      ExtendedByOne(idle, i, deadline);
      JudgedNext(i, deadline, marks, stay);
      remaining', toClose', steps' := SweepOne(i, s, remaining, toClose, deadline, threads, t, st0, steps);
    }

    lemma JudgedNext(i: nat, deadline: int, marks: seq<P.Session>, stay: seq<bool>)
      requires Known() && i < |idle| && |marks| == |stay| == |all| && Tells(stay, idle[i], deadline)
      ensures InAll(idle[i]) && idle[i].id < |marks|
      ensures var j, x := Judged(marks, Ids(idle[..i]), stay), idle[i].id;
        Judged(marks, Ids(idle[..i + 1]), stay) ==
          if Stays(idle[i], deadline) then j else j[x := j[x].(inIdle := false)]
    {
      var s := idle[i];
      assert InAll(s);
      hide Judged;
      JudgedMore(marks, Ids(idle[..i]), s.id, stay);
      IdsConcat(idle[..i], [s]);
      assert idle[..i + 1] == idle[..i] + [s] && Ids([s]) == [s.id];
    }

    // Closing sessions that are open and off the list does not disturb the list.
    method CloseAll(list: seq<Session>, ghost threads: seq<P.Thread>, ghost t: nat) returns (ghost steps: seq<P.Action>)
      requires Known() && t < |threads| && threads[t].Free?
      requires forall i :: 0 <= i < |list| ==> InAll(list[i])
      requires forall s :: s in list ==> s !in idle && !s.closed && !s.inIdle
      modifies `idle, `sessions, list`inIdle, list`closed
      ensures idle == old(idle) && Known()
      ensures forall s :: s in list ==> s.closed && !s.inIdle
      ensures sessions == old(sessions) - set s | s in list :: s.id
      ensures P.Runs(old(View(threads[t := Closing(list)])), steps, View(threads))
    {
      hide P.Runs, P.Next, P.Enabled, View, Known, Closing;
      ClosingIs(list);
      steps := [];
      ghost var st0 := View(threads[t := Closing(list)]);
      NoSteps(st0);
      assert threads[t := P.Free] == threads;
      if list == [] {
        return;
      }
      var i := 0;
      assert list[0..] == list;
      while i < |list|
        invariant 0 <= i <= |list| && idle == old(idle) && Known() && all == old(all)
        invariant forall s :: s in list ==> !s.inIdle && (s.closed <==> s in list[..i])
        invariant sessions == old(sessions) - set s | s in list[..i] :: s.id
        invariant P.Runs(st0, steps, View(threads[t := P.Closer(Ids(list[i..]))]))
      {
        assert list[..i + 1] == list[..i] + [list[i]];
        steps := CloseFirst(list, i, list[i], threads, t, st0, steps);
        i := i + 1;
      }
      assert list[..|list|] == list && list[|list|..] == [];
      LastRun(threads, t);
      P.RunsJoin(st0, steps, View(threads[t := P.Closer([])]), [P.CloseNext(t)], View(threads));
      steps := steps + [P.CloseNext(t)];
    }

    lemma LastRun(threads: seq<P.Thread>, t: nat)
      requires t < |threads| && threads[t].Free?
      ensures P.Runs(View(threads[t := P.Closer([])]), [P.CloseNext(t)], View(threads))
    {
      hide Marks;
      var st := View(threads[t := P.Closer([])]);
      LastStep(st, threads, t);
      NoSteps(View(threads));
      assert [P.CloseNext(t)][1..] == [];
    }

    method CloseFirst(list: seq<Session>, i: nat, s: Session, ghost threads: seq<P.Thread>, ghost t: nat,
                      ghost st0: P.State, ghost steps: seq<P.Action>) returns (ghost steps': seq<P.Action>)
      requires Known() && i < |list| && s == list[i] && InAll(s) && t < |threads| && s !in idle
      requires P.Runs(st0, steps, View(threads[t := P.Closer(Ids(list[i..]))]))
      modifies `idle, `sessions, s`inIdle, s`closed
      ensures Known() && idle == old(idle) && s.closed
      ensures old(s.closed) ==> sessions == old(sessions) && s.inIdle == old(s.inIdle)
      ensures !old(s.closed) ==> sessions == old(sessions) - {s.id} && !s.inIdle
      ensures P.Runs(st0, steps', View(threads[t := P.Closer(Ids(list[i + 1..]))]))
    {
      hide P.Runs, P.Next, P.Enabled, HookDone, Marks;
      ghost var now := threads[t := P.Closer(Ids(list[i..]))];
      ghost var then_ := threads[t := P.Closer(Ids(list[i + 1..]))];
      assert now[t := P.Closer(Ids(list[i + 1..]))] == then_ && Ids(list[i..])[1..] == Ids(list[i + 1..]);
      ghost var st := View(now);
      ghost var more := [P.CloseNext(t)];
      if s.closed {
        CloseAgainRun(st, t);
      } else {
        CloseNextRun(st, t);
        more := more + [P.HookClears(s.id), P.HookRemoves(s.id)];
      }
      assert more == if s.closed then [P.CloseNext(t)] else [P.CloseNext(t), P.HookClears(s.id), P.HookRemoves(s.id)];
      CloseSession(s, now);
      assert View(then_) == View(now).(threads := then_);
      HookKeepsThreads(st, s.id);
      P.RunsJoin(st0, steps, st, more, View(then_));
      steps' := steps + more;
    }

    // One round of cleanup: closed sessions leave the list, expired ones leave it and are closed.
    method IdleCleanup(deadline: int, ghost threads: seq<P.Thread>, ghost t: nat) returns (ghost steps: seq<P.Action>)
      requires Known() && t < |threads| && threads[t].Free?
      modifies `idle, `sessions, idle`inIdle, idle`closed
      ensures idle == old(Staying(idle, deadline))
      ensures forall s :: s in old(idle) ==> s.closed == !old(Stays(s, deadline))
      ensures forall s :: s in old(idle) ==> s.inIdle == old(s.inIdle && Stays(s, deadline))
      ensures sessions == old(sessions) - set s | s in old(Expiring(idle, deadline)) :: s.id
      ensures Known() && P.Runs(old(View(threads)), steps, View(threads))
    {
      hide P.Runs, Closing, View, Known;
      StayingMeans(idle, deadline);
      ExpiringKnown(deadline);
      var toClose: seq<Session>;
      toClose, steps := Sweep(deadline, threads, t);
      ghost var between := View(threads[t := Closing(toClose)]);
      forall s | s in toClose ensures s in old(idle) && s !in idle {
        var i :| 0 <= i < |toClose| && toClose[i] == s;
      }
      ghost var more := CloseAll(toClose, threads, t);
      assert forall s :: s in old(idle) && old(Stays(s, deadline)) ==> s !in toClose;
      P.RunsJoin(old(View(threads)), steps, between, more, View(threads));
      steps := steps + more;
    }

    lemma ExpiringKnown(deadline: int)
      requires Known()
      ensures forall i :: 0 <= i < |Expiring(idle, deadline)| ==> InAll(Expiring(idle, deadline)[i])
    {
    }
  }
}

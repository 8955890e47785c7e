// The rotation of a forwarder group under health changes. A flag flip and the handler that
// follows it are separate steps, so handlers may arrive late and find the flag changed again;
// and since the flags are not covered by the group's lock, each loop of a handler may read
// flags that other goroutines are flipping at that moment.
// Forwarders are named by their position in the priority-ordered slice of the group.
module Rotation {
  // pri: priorities, highest first; up: the enabled flags; avail: the rotation;
  // priority: the active priority.
  datatype Group = Group(pri: seq<nat>, up: seq<bool>, avail: seq<nat>, priority: nat) {
    ghost predicate Wf() {
      && |pri| == |up|
      && (forall i, j :: 0 <= i < j < |pri| ==> pri[i] >= pri[j])
      && (forall k :: 0 <= k < |avail| ==> avail[k] < |pri|)
    }
  }

  // The flags as the two loops of one init() read them.
  datatype Scan = Scan(first: seq<bool>, second: seq<bool>)

  // The first enabled forwarder from position i on, or the length if there is none.
  function FirstUp(up: seq<bool>, i: nat): (r: nat)
    requires i <= |up|
    ensures i <= r <= |up| && (r < |up| ==> up[r]) && forall k :: i <= k < r ==> !up[k]
    decreases |up| - i
  {
    if i == |up| || up[i] then i else FirstUp(up, i + 1)
  }

  // Positions below n that are enabled with at least priority p, in order.
  function UpFrom(pri: seq<nat>, up: seq<bool>, p: nat, n: nat): (r: seq<nat>)
    requires |pri| == |up| && n <= |up|
    ensures forall k :: 0 <= k < |r| ==> r[k] < n
    ensures forall i :: i in r <==> 0 <= i < n && up[i] && pri[i] >= p
    ensures Distinct(r)
  {
    if n == 0 then []
    else if up[n - 1] && pri[n - 1] >= p then UpFrom(pri, up, p, n - 1) + [n - 1]
    else UpFrom(pri, up, p, n - 1)
  }

  ghost predicate Distinct(s: seq<nat>) {
    forall i, j :: 0 <= i < j < |s| ==> s[i] != s[j]
  }

  ghost predicate Fits(g: Group, c: Scan) {
    |c.first| == |c.second| == |g.up|
  }

  // init(): the rotation rebuilt from the flags.
  function Rebuild(g: Group, c: Scan): (r: Group)
    requires g.Wf() && Fits(g, c)
    ensures r.Wf() && r.pri == g.pri && r.up == g.up
  {
    var f := FirstUp(c.first, 0);
    var p := if f < |g.pri| then g.pri[f] else g.priority;
    var av := UpFrom(g.pri, c.second, p, |g.pri|);
    g.(avail := av, priority := if av == [] then 0 else p)
  }

  function IndexOf(s: seq<nat>, x: nat): (r: nat)
    ensures r <= |s| && (r < |s| ==> s[r] == x) && (r == |s| <==> x !in s) && forall k :: 0 <= k < r ==> s[k] != x
  {
    if s == [] || s[0] == x then 0 else 1 + IndexOf(s[1..], x)
  }

  // The last entry takes the place of x.
  function SwapRemove(s: seq<nat>, x: nat): (r: seq<nat>) {
    var k := IndexOf(s, x);
    if k == |s| then s else s[k := s[|s| - 1]][..|s| - 1]
  }

  // What one handler read: the flag of its own forwarder, and the scans of init(), which it may
  // call once for a higher priority and once for an empty rotation.
  datatype Seen = Seen(own: bool, higher: Scan, empty: Scan)

  // onStatusChanged for forwarder i, under the group's lock.
  function Handle(g: Group, i: nat, seen: Seen): (r: Group)
    requires g.Wf() && i < |g.pri| && Fits(g, seen.higher) && Fits(g, seen.empty)
    ensures r.Wf() && r.pri == g.pri && r.up == g.up
  {
    var h :=
      if seen.own then
        if g.pri[i] == g.priority then
          if i in g.avail then g else g.(avail := g.avail + [i])
        else if g.pri[i] > g.priority then Rebuild(g, seen.higher)
        else g
      else g.(avail := SwapRemove(g.avail, i));
    if h.avail == [] then Rebuild(h, seen.empty) else h
  }

  // The compare-and-swap in Enable or Disable that succeeded.
  function Flip(g: Group, i: nat): (r: Group)
    requires g.Wf() && i < |g.pri|
    ensures r.Wf() && r.pri == g.pri
  {
    g.(up := g.up[i := !g.up[i]])
  }

  // ---- The invariant, with the handlers still to come

  // Forwarders without a pending handler are in the rotation exactly when they should be.
  ghost predicate Consistent(g: Group, pending: multiset<nat>) {
    && g.Wf()
    && Distinct(g.avail)
    && (forall k :: 0 <= k < |g.avail| ==> g.pri[g.avail[k]] >= g.priority)
    && (g.avail == [] ==> g.priority == 0)
    && (forall i :: 0 <= i < |g.pri| && i !in pending ==> (i in g.avail <==> g.up[i] && g.pri[i] == g.priority))
    && (forall i :: 0 <= i < |g.pri| && i !in pending && g.pri[i] > g.priority ==> !g.up[i])
  }

  // The rotation holds no other priority than the active one.
  ghost predicate OnePriority(g: Group) {
    g.Wf() && forall k :: 0 <= k < |g.avail| ==> g.pri[g.avail[k]] == g.priority
  }

  // A read can differ from the flag only where a flip, and so a handler, is outstanding.
  ghost predicate Agrees(g: Group, pending: multiset<nat>, c: Scan) {
    && Fits(g, c)
    && forall i :: 0 <= i < |g.up| && i !in pending ==> c.first[i] == c.second[i] == g.up[i]
  }

  ghost predicate AgreesAll(g: Group, pending: multiset<nat>, i: nat, seen: Seen) {
    && Agrees(g, pending, seen.higher) && Agrees(g, pending, seen.empty)
    && i < |g.up| && (i !in pending ==> seen.own == g.up[i])
  }

  // Some forwarder is enabled and has no handler outstanding.
  ghost predicate SettledUp(g: Group, pending: multiset<nat>)
    requires g.Wf()
  {
    exists k :: 0 <= k < |g.up| && k !in pending && g.up[k]
  }

  lemma RebuildEntries(g: Group, c: Scan)
    requires g.Wf() && Fits(g, c)
    ensures var r := Rebuild(g, c);
      && Distinct(r.avail)
      && (forall k :: 0 <= k < |r.avail| ==> g.pri[r.avail[k]] >= r.priority)
      && (r.avail == [] ==> r.priority == 0)
      && (c.first == c.second ==> OnePriority(r))
      && (c.first == c.second && r.avail == [] ==> forall k :: 0 <= k < |g.up| ==> !c.first[k])
  {
    var r := Rebuild(g, c);
    var f := FirstUp(c.first, 0);
    forall k | 0 <= k < |r.avail|
      ensures g.pri[r.avail[k]] >= r.priority && (c.first == c.second ==> g.pri[r.avail[k]] == r.priority)
    {
      assert r.avail[k] in r.avail;
    }
    if f < |g.pri| && c.first == c.second {
      assert f in r.avail;
    }
  }

  // The priority init() settles on in its first scan.
  function Chosen(g: Group, c: Scan): (p: nat)
    requires g.Wf() && Fits(g, c)
  {
    var f := FirstUp(c.first, 0);
    if f < |g.pri| then g.pri[f] else g.priority
  }

  // The rebuilt rotation has one priority exactly when the second scan reads nothing above it
  // as enabled.
  lemma OnePriorityIff(g: Group, c: Scan)
    requires g.Wf() && Fits(g, c)
    ensures OnePriority(Rebuild(g, c)) <==> forall k :: 0 <= k < |g.pri| && c.second[k] ==> g.pri[k] <= Chosen(g, c)
  {
    var r, p := Rebuild(g, c), Chosen(g, c);
    assert r.avail == UpFrom(g.pri, c.second, p, |g.pri|);
    if k :| 0 <= k < |g.pri| && c.second[k] && g.pri[k] > p {
      assert k in r.avail;
      var j :| 0 <= j < |r.avail| && r.avail[j] == k;
      assert g.pri[r.avail[j]] != r.priority;
    } else {
      forall j | 0 <= j < |r.avail| ensures g.pri[r.avail[j]] == p {
        assert r.avail[j] in r.avail;
      }
    }
  }

  // The second scan can indeed see more: the forwarder of the higher priority comes up between.
  lemma TornScanMixes()
    ensures var g, c := Group([10, 5], [true, true], [], 0), Scan([false, true], [true, true]);
      g.Wf() && Fits(g, c) && !OnePriority(Rebuild(g, c))
  {
    var g, c := Group([10, 5], [true, true], [], 0), Scan([false, true], [true, true]);
    assert FirstUp(c.first, 0) == FirstUp(c.first, 1) == 1;
    assert g.Wf() && c.second[0] && g.pri[0] > Chosen(g, c);
    OnePriorityIff(g, c);
  }

  lemma RebuildIsConsistent(g: Group, pending: multiset<nat>, c: Scan)
    requires g.Wf() && Agrees(g, pending, c) && !(Rebuild(g, c).avail == [] && SettledUp(g, pending))
    ensures Consistent(Rebuild(g, c), pending)
  {
    RebuildEntries(g, c);
    var r := Rebuild(g, c);
    var f := FirstUp(c.first, 0);
    forall i | 0 <= i < |g.pri| && i !in pending
      ensures g.pri[i] > r.priority ==> !g.up[i]
      ensures i in r.avail <==> g.up[i] && g.pri[i] == r.priority
    {
      assert c.first[i] == c.second[i] == g.up[i];
      if g.up[i] {
        assert f <= i && g.pri[i] <= g.pri[f];
      }
    }
    hide Rebuild, UpFrom, FirstUp;
  }

  lemma SwapRemoved(s: seq<nat>, x: nat)
    requires Distinct(s)
    ensures Distinct(SwapRemove(s, x))
    ensures forall y :: y in SwapRemove(s, x) <==> y in s && y != x
  {
    var r, k := SwapRemove(s, x), IndexOf(s, x);
    if k < |s| {
      forall y | y in s && y != x
        ensures y in r
      {
        var m :| 0 <= m < |s| && s[m] == y;
        if m == |s| - 1 {
          assert r[k] == y;
        } else {
          assert r[m] == y;
        }
      }
    }
  }

  lemma UpKeepsConsistent(g: Group, pending: multiset<nat>, i: nat)
    requires Consistent(g, pending) && i in pending && i < |g.pri| && g.pri[i] <= g.priority
    requires i in pending - multiset{i} || g.up[i]
    ensures var h := if g.pri[i] < g.priority || i in g.avail then g else g.(avail := g.avail + [i]);
      && (h.avail != [] ==> Consistent(h, pending - multiset{i}))
      && (OnePriority(g) ==> OnePriority(h))
  {
    if g.pri[i] < g.priority || i in g.avail {
      UnchangedIsConsistent(g, pending, i);
    } else {
      AppendedIsConsistent(g, pending, i);
    }
  }

  lemma UnchangedIsConsistent(g: Group, pending: multiset<nat>, i: nat)
    requires Consistent(g, pending) && i < |g.pri| && g.pri[i] <= g.priority && (g.pri[i] < g.priority || i in g.avail)
    requires i in pending - multiset{i} || g.up[i]
    ensures Consistent(g, pending - multiset{i})
  {
    assert forall k :: k != i ==> (k in pending - multiset{i} <==> k in pending);
  }

  lemma AppendedIsConsistent(g: Group, pending: multiset<nat>, i: nat)
    requires Consistent(g, pending) && i < |g.pri| && g.pri[i] == g.priority && i !in g.avail
    requires i in pending - multiset{i} || g.up[i]
    ensures Consistent(g.(avail := g.avail + [i]), pending - multiset{i})
  {
    assert forall k :: k != i ==> (k in pending - multiset{i} <==> k in pending);
    assert forall x :: x in g.avail + [i] <==> x in g.avail || x == i;
  }

  lemma DownKeepsConsistent(g: Group, pending: multiset<nat>, i: nat)
    requires Consistent(g, pending) && i in pending && i < |g.pri|
    requires i in pending - multiset{i} || !g.up[i]
    ensures var h := g.(avail := SwapRemove(g.avail, i));
      && h.Wf() && (h.avail != [] ==> Consistent(h, pending - multiset{i}))
      && (OnePriority(g) ==> OnePriority(h))
  {
    SwapRemoved(g.avail, i);
    var av := SwapRemove(g.avail, i);
    forall k | 0 <= k < |av|
      ensures av[k] < |g.pri| && g.pri[av[k]] >= g.priority && (OnePriority(g) ==> g.pri[av[k]] == g.priority)
    {
      assert av[k] in av;
    }
    hide SwapRemove;
  }

  ghost predicate Untorn(seen: Seen) {
    seen.higher.first == seen.higher.second && seen.empty.first == seen.empty.second
  }

  // None of the flags read is that of a forwarder of priority p or more.
  ghost predicate Silent(g: Group, flags: seq<bool>, p: nat)
    requires g.Wf() && |flags| == |g.pri|
  {
    forall k :: 0 <= k < |g.pri| && flags[k] ==> g.pri[k] < p
  }

  lemma RebuildEmptyIff(g: Group, c: Scan)
    requires g.Wf() && Fits(g, c)
    ensures Rebuild(g, c).avail == [] <==> Silent(g, c.second, Chosen(g, c))
    ensures Rebuild(g, c).avail == [] ==> Rebuild(g, c).priority == 0
  {
    var p := Chosen(g, c);
    NoneFrom(g.pri, c.second, p, |g.pri|);
  }

  lemma NoneFrom(pri: seq<nat>, up: seq<bool>, p: nat, n: nat)
    requires |pri| == |up| && n <= |up|
    ensures UpFrom(pri, up, p, n) == [] <==> forall k :: 0 <= k < n && up[k] ==> pri[k] < p
  {
    var r := UpFrom(pri, up, p, n);
    assert r != [] ==> r[0] in r;
  }

  // From what it reads of its own forwarder and of the first scans, the handler comes to the
  // point where the rotation is empty.
  ghost predicate Empties(g: Group, i: nat, seen: Seen)
    requires g.Wf() && i < |g.pri| && Fits(g, seen.higher)
  {
    if !seen.own then g.avail == [] || g.avail == [i]
    else if g.pri[i] > g.priority then Silent(g, seen.higher.second, Chosen(g, seen.higher))
    else g.pri[i] < g.priority && g.avail == []
  }

  // From there its last scans read no forwarder of the priority they settle on.
  ghost predicate ReadsEmpty(g: Group, i: nat, seen: Seen)
    requires g.Wf() && i < |g.pri| && Fits(g, seen.higher) && Fits(g, seen.empty)
  {
    var active := if seen.own && g.pri[i] > g.priority then 0 else g.priority;
    Empties(g, i, seen) && Silent(g, seen.empty.second, Chosen(g.(priority := active), seen.empty))
  }

  lemma SameChoice(g: Group, h: Group, c: Scan)
    requires g.Wf() && h.Wf() && Fits(g, c) && g.pri == h.pri && g.priority == h.priority
    ensures Chosen(g, c) == Chosen(h, c)
    ensures forall p :: Silent(g, c.second, p) <==> Silent(h, c.second, p)
  {
  }

  lemma RemovedLast(s: seq<nat>, i: nat)
    ensures SwapRemove(s, i) == [] <==> s == [] || s == [i]
  {
  }

  // What a handler must read to leave the rotation empty.
  lemma HandleEmptyIff(g: Group, i: nat, seen: Seen)
    requires g.Wf() && i < |g.pri| && Fits(g, seen.higher) && Fits(g, seen.empty)
    ensures Handle(g, i, seen).avail == [] <==> ReadsEmpty(g, i, seen)
  {
    if !seen.own {
      DownEmptyIff(g, i, seen);
    } else if g.pri[i] > g.priority {
      HigherEmptyIff(g, i, seen);
    } else {
      hide Rebuild, Chosen, Silent;
      RebuildEmptyIff(g, seen.empty);
      SameChoice(g, g.(priority := g.priority), seen.empty);
    }
  }

  lemma DownEmptyIff(g: Group, i: nat, seen: Seen)
    requires g.Wf() && i < |g.pri| && Fits(g, seen.higher) && Fits(g, seen.empty) && !seen.own
    ensures Handle(g, i, seen).avail == [] <==> ReadsEmpty(g, i, seen)
  {
    hide Rebuild, Chosen, Silent, SwapRemove;
    var h := g.(avail := SwapRemove(g.avail, i));
    RemovedLast(g.avail, i);
    if h.avail == [] {
      RebuildEmptyIff(h, seen.empty);
      SameChoice(h, g.(priority := g.priority), seen.empty);
      SameChoice(h, g, seen.empty);
    }
  }

  lemma HigherEmptyIff(g: Group, i: nat, seen: Seen)
    requires g.Wf() && i < |g.pri| && Fits(g, seen.higher) && Fits(g, seen.empty)
    requires seen.own && g.pri[i] > g.priority
    ensures Handle(g, i, seen).avail == [] <==> ReadsEmpty(g, i, seen)
  {
    hide Rebuild, Chosen, Silent;
    RebuildEmptyIff(g, seen.higher);
    var h := Rebuild(g, seen.higher);
    if h.avail == [] {
      RebuildEmptyIff(h, seen.empty);
      SameChoice(h, g.(priority := 0), seen.empty);
      SameSilence(g, h, seen.empty.second);
    }
  }

  lemma SameSilence(g: Group, h: Group, flags: seq<bool>)
    requires g.Wf() && h.Wf() && g.pri == h.pri && |flags| == |g.pri|
    ensures forall p :: Silent(g, flags, p) <==> Silent(h, flags, p)
  {
  }

  // The handler reads what empties the rotation although a forwarder is enabled for which no
  // other handler is due.
  ghost predicate Strands(g: Group, rest: multiset<nat>, i: nat, seen: Seen)
    requires g.Wf() && i < |g.pri| && Fits(g, seen.higher) && Fits(g, seen.empty)
  {
    ReadsEmpty(g, i, seen) && SettledUp(g, rest)
  }

  // A handler keeps the invariant exactly when it does not strand the group.
  lemma HandleConsistentIff(g: Group, pending: multiset<nat>, i: nat, seen: Seen)
    requires Consistent(g, pending) && i in pending && AgreesAll(g, pending - multiset{i}, i, seen)
    ensures Consistent(Handle(g, i, seen), pending - multiset{i}) <==> !Strands(g, pending - multiset{i}, i, seen)
  {
    WfOf(g, pending);
    HandleEmptyIff(g, i, seen);
    if Strands(g, pending - multiset{i}, i, seen) {
      EmptyIsNotConsistent(Handle(g, i, seen), pending - multiset{i});
    } else {
      HandleKeepsConsistent(g, pending, i, seen);
    }
  }

  lemma EmptyIsNotConsistent(g: Group, pending: multiset<nat>)
    requires g.Wf() && g.avail == [] && SettledUp(g, pending)
    ensures !Consistent(g, pending)
  {
    var k :| 0 <= k < |g.up| && k !in pending && g.up[k];
    assert k !in g.avail;
  }

  lemma HandleKeepsConsistent(g: Group, pending: multiset<nat>, i: nat, seen: Seen)
    requires Consistent(g, pending) && i in pending && AgreesAll(g, pending - multiset{i}, i, seen)
    requires !Strands(g, pending - multiset{i}, i, seen)
    ensures Consistent(Handle(g, i, seen), pending - multiset{i})
  {
    WfOf(g, pending);
    HandleEmptyIff(g, i, seen);
    hide Consistent, SwapRemove, Rebuild, FirstUp, ReadsEmpty;
    var rest := pending - multiset{i};
    if !seen.own {
      DownKeepsConsistent(g, pending, i);
      var h := g.(avail := SwapRemove(g.avail, i));
      if h.avail == [] {
        RebuildIsConsistent(h, rest, seen.empty);
      }
    } else if g.pri[i] > g.priority {
      var h := Rebuild(g, seen.higher);
      if h.avail == [] {
        RebuildIsConsistent(h, rest, seen.empty);
      } else {
        RebuildIsConsistent(g, rest, seen.higher);
      }
    } else {
      UpKeepsConsistent(g, pending, i);
      if g.avail == [] && g.pri[i] < g.priority {
        RebuildIsConsistent(g, rest, seen.empty);
      }
    }
  }

  lemma HandleKeepsOnePriority(g: Group, pending: multiset<nat>, i: nat, seen: Seen)
    requires Consistent(g, pending) && i in pending && AgreesAll(g, pending - multiset{i}, i, seen)
    requires Untorn(seen) && OnePriority(g)
    ensures OnePriority(Handle(g, i, seen)) && !Strands(g, pending - multiset{i}, i, seen)
  {
    hide OnePriority, SwapRemove, Rebuild, FirstUp, Consistent, ReadsEmpty;
    WfOf(g, pending);
    HandleEmptyIff(g, i, seen);
    if !seen.own {
      DownKeepsConsistent(g, pending, i);
      RebuildEntries(g.(avail := SwapRemove(g.avail, i)), seen.empty);
    } else if g.pri[i] > g.priority {
      RebuildEntries(g, seen.higher);
      RebuildEntries(Rebuild(g, seen.higher), seen.empty);
    } else {
      UpKeepsConsistent(g, pending, i);
      RebuildEntries(g, seen.empty);
    }
  }

  lemma WfOf(g: Group, pending: multiset<nat>)
    requires Consistent(g, pending)
    ensures g.Wf()
  {
  }

  lemma FlipKeepsConsistent(g: Group, pending: multiset<nat>, i: nat)
    requires Consistent(g, pending) && i < |g.pri|
    ensures Consistent(Flip(g, i), pending + multiset{i})
    ensures OnePriority(g) ==> OnePriority(Flip(g, i))
  {
  }

  // ---- Every interleaving

  datatype Event = Flipped(i: nat) | Handled(i: nat, seen: Seen)

  datatype State = State(g: Group, pending: multiset<nat>)

  ghost predicate Enabled(s: State, e: Event) {
    && s.g.Wf() && e.i < |s.g.pri|
    && (e.Handled? ==> e.i in s.pending && AgreesAll(s.g, s.pending - multiset{e.i}, e.i, e.seen))
  }

  ghost function Next(s: State, e: Event): State
    requires Enabled(s, e)
  {
    match e
    case Flipped(i) => State(Flip(s.g, i), s.pending + multiset{i})
    case Handled(i, seen) => State(Handle(s.g, i, seen), s.pending - multiset{i})
  }

  ghost predicate Leads(s: State, run: seq<Event>, t: State)
    decreases |run|
  {
    if run == [] then s == t else Enabled(s, run[0]) && Leads(Next(s, run[0]), run[1..], t)
  }

  // Every handler of the run works on one snapshot of the flags.
  ghost predicate Atomic(run: seq<Event>) {
    forall k :: 0 <= k < |run| && run[k].Handled? ==> Untorn(run[k].seen)
  }

  // No handler of the run strands the group.
  ghost predicate Calm(s: State, run: seq<Event>)
    decreases |run|
  {
    run != [] && Enabled(s, run[0]) ==>
      && (run[0].Handled? ==> !Strands(s.g, s.pending - multiset{run[0].i}, run[0].i, run[0].seen))
      && Calm(Next(s, run[0]), run[1..])
  }

  // No forwarder is ever twice in the rotation, whatever the handlers read.
  lemma {:induction false} NeverRepeats(s: State, run: seq<Event>, t: State)
    requires Distinct(s.g.avail) && Leads(s, run, t)
    ensures Distinct(t.g.avail)
    decreases |run|
  {
    if run != [] {
      if run[0].Handled? {
        HandleKeepsDistinct(s.g, run[0].i, run[0].seen);
      }
      hide Handle, Distinct;
      NeverRepeats(Next(s, run[0]), run[1..], t);
    }
  }

  lemma HandleKeepsDistinct(g: Group, i: nat, seen: Seen)
    requires g.Wf() && i < |g.pri| && Fits(g, seen.higher) && Fits(g, seen.empty) && Distinct(g.avail)
    ensures Distinct(Handle(g, i, seen).avail)
  {
    hide SwapRemove, UpFrom;
    SwapRemoved(g.avail, i);
  }

  // ---- What a run owes: enabled forwarders that the rotation misses and no handler is due for

  ghost function SettledUps(g: Group, rest: multiset<nat>): (r: set<nat>) {
    set k | 0 <= k < |g.up| && k !in rest && g.up[k]
  }

  // A flip makes a handler due; a rebuild that finds something settles everything; one that
  // reads nothing owes every settled forwarder that is enabled; any other handler adds nothing.
  ghost function OwedAfter(s: State, owed: set<nat>, e: Event): (r: set<nat>)
    requires Enabled(s, e)
  {
    match e
    case Flipped(i) => owed - {i}
    case Handled(i, seen) =>
      if ReadsEmpty(s.g, i, seen) then SettledUps(s.g, s.pending - multiset{i})
      else if Empties(s.g, i, seen) || (seen.own && s.g.pri[i] > s.g.priority) then {}
      else owed
  }

  ghost function Owed(s: State, owed: set<nat>, run: seq<Event>): (r: set<nat>)
    decreases |run|
  {
    if run == [] || !Enabled(s, run[0]) then owed
    else Owed(Next(s, run[0]), OwedAfter(s, owed, run[0]), run[1..])
  }

  // Everything but what is owed is right, and what is owed is enabled and left out.
  ghost predicate OwedOk(s: State, owed: set<nat>) {
    && Consistent(s.g, s.pending + multiset(owed))
    && (owed != {} ==> s.g.priority == 0)
    && forall k :: k in owed ==> k < |s.g.up| && k !in s.pending && s.g.up[k] && k !in s.g.avail
  }

  lemma SameMembers(g: Group, p: multiset<nat>, q: multiset<nat>)
    requires Consistent(g, p) && forall k :: k in p <==> k in q
    ensures Consistent(g, q)
  {
  }

  lemma FlipOwes(s: State, owed: set<nat>, i: nat)
    requires OwedOk(s, owed) && Enabled(s, Flipped(i))
    ensures OwedOk(Next(s, Flipped(i)), owed - {i})
  {
    var all := s.pending + multiset(owed);
    FlipKeepsConsistent(s.g, all, i);
    SameMembers(Flip(s.g, i), all + multiset{i}, s.pending + multiset{i} + multiset(owed - {i}));
  }

  // A rebuild on a scan that agrees with the settled flags.
  lemma RebuildOwes(g: Group, rest: multiset<nat>, c: Scan)
    requires g.Wf() && Agrees(g, rest, c)
    ensures OwedOk(State(Rebuild(g, c), rest), if Rebuild(g, c).avail == [] then SettledUps(g, rest) else {})
  {
    var r := Rebuild(g, c);
    RebuildEntries(g, c);
    assert rest + multiset({}) == rest;
    if r.avail == [] {
      var owed := SettledUps(g, rest);
      assert forall k :: k in rest + multiset(owed) <==> k in rest || k in owed;
    } else {
      RebuildIsConsistent(g, rest, c);
    }
  }

  lemma QuietHandlerOwes(s: State, owed: set<nat>, i: nat, seen: Seen)
    requires OwedOk(s, owed) && Enabled(s, Handled(i, seen))
    requires !Empties(s.g, i, seen) && !(seen.own && s.g.pri[i] > s.g.priority)
    ensures OwedOk(State(Handle(s.g, i, seen), s.pending - multiset{i}), owed)
  {
    if seen.own {
      QuietUpOwes(s, owed, i);
    } else {
      QuietDownOwes(s, owed, i);
      RemovedLast(s.g.avail, i);
    }
    hide OwedOk, SwapRemove, Rebuild;
  }

  lemma QuietUpOwes(s: State, owed: set<nat>, i: nat)
    requires OwedOk(s, owed) && i in s.pending && i < |s.g.pri| && s.g.pri[i] <= s.g.priority
    requires i in s.pending - multiset{i} || s.g.up[i]
    ensures var h := if s.g.pri[i] < s.g.priority || i in s.g.avail then s.g else s.g.(avail := s.g.avail + [i]);
      h.avail != [] ==> OwedOk(State(h, s.pending - multiset{i}), owed)
  {
    var all := s.pending + multiset(owed);
    assert all - multiset{i} == s.pending - multiset{i} + multiset(owed);
    UpKeepsConsistent(s.g, all, i);
    hide Consistent;
  }

  lemma QuietDownOwes(s: State, owed: set<nat>, i: nat)
    requires OwedOk(s, owed) && i in s.pending && i < |s.g.pri|
    requires i in s.pending - multiset{i} || !s.g.up[i]
    ensures var h := s.g.(avail := SwapRemove(s.g.avail, i));
      h.avail != [] ==> OwedOk(State(h, s.pending - multiset{i}), owed)
  {
    var all := s.pending + multiset(owed);
    assert all - multiset{i} == s.pending - multiset{i} + multiset(owed);
    DownKeepsConsistent(s.g, all, i);
    SwapRemoved(s.g.avail, i);
    hide Consistent, SwapRemove;
  }

  lemma HandlerOwes(s: State, owed: set<nat>, i: nat, seen: Seen)
    requires OwedOk(s, owed) && Enabled(s, Handled(i, seen))
    ensures OwedOk(Next(s, Handled(i, seen)), OwedAfter(s, owed, Handled(i, seen)))
  {
    var g, rest := s.g, s.pending - multiset{i};
    HandleEmptyIff(g, i, seen);
    RebuildEmptyIff(g, seen.higher);
    hide OwedOk, Rebuild, ReadsEmpty, SwapRemove;
    if !seen.own && Empties(g, i, seen) {
      RebuildOwes(g.(avail := SwapRemove(g.avail, i)), rest, seen.empty);
    } else if seen.own && g.pri[i] > g.priority {
      RebuildOwes(g, rest, seen.higher);
      RebuildOwes(Rebuild(g, seen.higher), rest, seen.empty);
    } else if Empties(g, i, seen) {
      RebuildOwes(g, rest, seen.empty);
    } else {
      QuietHandlerOwes(s, owed, i, seen);
    }
  }

  lemma {:induction false} RunOwes(s: State, owed: set<nat>, run: seq<Event>, t: State)
    requires OwedOk(s, owed) && Leads(s, run, t)
    ensures OwedOk(t, Owed(s, owed, run))
    decreases |run|
  {
    hide OwedOk, OwedAfter;
    if run != [] {
      var e := run[0];
      if e.Flipped? {
        FlipOwes(s, owed, e.i);
        assert OwedAfter(s, owed, e) == owed - {e.i} by { FlipOwed(s, owed, e.i); }
      } else {
        HandlerOwes(s, owed, e.i, e.seen);
      }
      RunOwes(Next(s, e), OwedAfter(s, owed, e), run[1..], t);
    }
  }

  lemma FlipOwed(s: State, owed: set<nat>, i: nat)
    requires Enabled(s, Flipped(i))
    ensures OwedAfter(s, owed, Flipped(i)) == owed - {i}
  {
  }

  // A run none of whose handlers strands the group owes nothing.
  lemma {:induction false} CalmOwesNothing(s: State, run: seq<Event>)
    requires Calm(s, run)
    ensures Owed(s, {}, run) == {}
    decreases |run|
  {
    if run != [] && Enabled(s, run[0]) {
      assert OwedAfter(s, {}, run[0]) == {};
      hide OwedAfter;
      CalmOwesNothing(Next(s, run[0]), run[1..]);
    }
  }

  lemma {:induction false} AtomicRunIsCalm(s: State, run: seq<Event>, t: State)
    requires Consistent(s.g, s.pending) && OnePriority(s.g) && Leads(s, run, t) && Atomic(run)
    ensures Calm(s, run) && OnePriority(t.g)
    decreases |run|
  {
    hide Consistent, OnePriority, Untorn, Strands;
    if run != [] {
      match run[0] {
        case Flipped(i) => FlipKeepsConsistent(s.g, s.pending, i);
        case Handled(i, seen) =>
          HandleKeepsOnePriority(s.g, s.pending, i, seen);
          HandleKeepsConsistent(s.g, s.pending, i, seen);
      }
      AtomicRunIsCalm(Next(s, run[0]), run[1..], t);
    }
  }

  // p is the highest priority of an enabled forwarder, or 0 if none is enabled.
  ghost predicate IsTopPriority(g: Group, p: nat)
    requires g.Wf()
  {
    if exists i :: 0 <= i < |g.up| && g.up[i] then
      (exists i :: 0 <= i < |g.up| && g.up[i] && g.pri[i] == p) &&
      forall i :: 0 <= i < |g.up| && g.up[i] ==> g.pri[i] <= p
    else p == 0
  }

  function Fresh(g: Group): (r: State)
    requires g.Wf()
  {
    State(Rebuild(g, Scan(g.up, g.up)), multiset{})
  }

  // The rotation is exactly the enabled forwarders of the highest enabled priority.
  ghost predicate Right(g: Group) {
    && g.Wf() && Distinct(g.avail) && IsTopPriority(g, g.priority)
    && forall i :: i in g.avail <==> 0 <= i < |g.pri| && g.up[i] && g.pri[i] == g.priority
  }

  // A group built from any flags, after any interleaving of flips, late handlers and flips
  // under a running handler: the rotation never repeats a forwarder, and once no handler is
  // pending it is right exactly when the run owes nothing, as it does if no handler of it
  // strands the group.
  lemma RotationIsRightAtQuiescence(g: Group, run: seq<Event>, t: State)
    requires g.Wf() && Leads(Fresh(g), run, t)
    ensures Distinct(t.g.avail)
    ensures t.pending == multiset{} ==> (Right(t.g) <==> Owed(Fresh(g), {}, run) == {})
    ensures Calm(Fresh(g), run) ==> Owed(Fresh(g), {}, run) == {}
  {
    RebuildEntries(g, Scan(g.up, g.up));
    NeverRepeats(Fresh(g), run, t);
    RebuildOwes(g, multiset{}, Scan(g.up, g.up));
    SnapshotSettles(g);
    RunOwes(Fresh(g), {}, run, t);
    if t.pending == multiset{} {
      RightIff(t.g, Owed(Fresh(g), {}, run));
    }
    if Calm(Fresh(g), run) {
      CalmOwesNothing(Fresh(g), run);
    }
  }

  lemma SnapshotSettles(g: Group)
    requires g.Wf()
    ensures Rebuild(g, Scan(g.up, g.up)).avail == [] ==> SettledUps(g, multiset{}) == {}
  {
    RebuildEntries(g, Scan(g.up, g.up));
  }

  lemma RightIff(g: Group, owed: set<nat>)
    requires OwedOk(State(g, multiset{}), owed)
    ensures Right(g) <==> owed == {}
  {
    if owed == {} {
      assert multiset{} + multiset(owed) == multiset{};
      QuiescentTop(g);
    } else {
      var k :| k in owed;
      assert g.up[k] && k !in g.avail && g.priority == 0;
    }
  }

  // With handlers that see one snapshot each no run strands the group, and the rotation never
  // holds anything but the active priority.
  lemma AtomicHandlersAreRight(g: Group, run: seq<Event>, t: State)
    requires g.Wf() && Leads(Fresh(g), run, t) && Atomic(run)
    ensures Calm(Fresh(g), run) && OnePriority(t.g) && Distinct(t.g.avail)
    ensures t.pending == multiset{} ==> Right(t.g)
  {
    RebuildEntries(g, Scan(g.up, g.up));
    RebuildIsConsistent(g, multiset{}, Scan(g.up, g.up));
    AtomicRunIsCalm(Fresh(g), run, t);
    RotationIsRightAtQuiescence(g, run, t);
  }

  lemma QuiescentTop(g: Group)
    requires Consistent(g, multiset{})
    ensures IsTopPriority(g, g.priority)
  {
    if g.avail != [] {
      assert g.avail[0] in g.avail;
    }
  }

  // ---- The order of the rotation

  ghost predicate Ascending(s: seq<nat>) {
    forall i, j :: 0 <= i < j < |s| ==> s[i] < s[j]
  }

  lemma {:induction false} UpFromAscends(pri: seq<nat>, up: seq<bool>, p: nat, n: nat)
    requires |pri| == |up| && n <= |up|
    ensures Ascending(UpFrom(pri, up, p, n))
  {
    if n > 0 {
      UpFromAscends(pri, up, p, n - 1);
    }
  }

  // A rebuilt rotation is in the order of the group. On one snapshot it begins with the first
  // enabled forwarder, and is empty only if there is none.
  lemma RebuildIsInOrder(g: Group, c: Scan)
    requires g.Wf() && Fits(g, c)
    ensures Ascending(Rebuild(g, c).avail)
    ensures c.first == c.second && Rebuild(g, c).avail != [] ==>
      var first := Rebuild(g, c).avail[0]; c.first[first] && forall i :: 0 <= i < first ==> !c.first[i]
    ensures c.first == c.second && Rebuild(g, c).avail == [] ==> forall i :: 0 <= i < |g.up| ==> !c.first[i]
  {
    RebuildEntries(g, c);
    var r, f := Rebuild(g, c), FirstUp(c.first, 0);
    UpFromAscends(g.pri, c.second, if f < |g.pri| then g.pri[f] else g.priority, |g.pri|);
    if c.first == c.second && r.avail != [] {
      assert r.avail[0] in r.avail;
      assert f in r.avail;
      assert r.avail[0] == f;
    }
  }

  lemma RebuiltIsRight(g: Group)
    requires g.Wf()
    ensures var r := Rebuild(g, Scan(g.up, g.up));
      Consistent(r, multiset{}) && OnePriority(r) && Ascending(r.avail) && Distinct(r.avail)
  {
    hide Rebuild;
    RebuildEntries(g, Scan(g.up, g.up));
    RebuildIsConsistent(g, multiset{}, Scan(g.up, g.up));
    RebuildIsInOrder(g, Scan(g.up, g.up));
  }

  // A right rotation in order begins with the first enabled forwarder, which has the highest
  // priority of all enabled ones.
  lemma FirstIsHighest(g: Group)
    requires Consistent(g, multiset{}) && Ascending(g.avail)
    ensures g.avail != [] <==> exists i :: 0 <= i < |g.up| && g.up[i]
    ensures g.avail != [] ==>
      var first := g.avail[0];
      && g.up[first] && (forall i :: 0 <= i < first ==> !g.up[i])
      && forall i :: 0 <= i < |g.up| && g.up[i] ==> g.pri[i] <= g.pri[first]
  {
    if g.avail != [] {
      var first := g.avail[0];
      assert first in g.avail;
      forall i | 0 <= i < first ensures !g.up[i] {
        assert i !in g.avail;
      }
    } else {
      forall i | 0 <= i < |g.up| ensures !g.up[i] {
        assert i !in g.avail;
      }
    }
  }

  // Where a handler puts an entry, as long as the rotation does not run empty: an enabled forwarder
  // of the active priority that is not there comes last; the last one takes the place of a
  // disabled one; a rebuild orders them; and otherwise nothing moves.
  lemma HandlerPlaces(g: Group, i: nat, seen: Seen, k: nat)
    requires g.Wf() && Distinct(g.avail) && i < |g.pri| && Fits(g, seen.higher) && Fits(g, seen.empty)
    ensures var r, n := Handle(g, i, seen).avail, |g.avail|;
      && (seen.own && g.pri[i] == g.priority && i !in g.avail ==> r == g.avail + [i])
      && (seen.own && g.pri[i] == g.priority && i in g.avail ==> r == g.avail)
      && (seen.own && g.pri[i] > g.priority ==> Ascending(r))
      && (seen.own && g.pri[i] < g.priority && n > 0 ==> r == g.avail)
      && (!seen.own && i !in g.avail && n > 0 ==> r == g.avail)
      && (!seen.own && k < n && g.avail[k] == i && n > 1 ==>
           |r| == n - 1 && forall m :: 0 <= m < n - 1 ==> r[m] == if m == k then g.avail[n - 1] else g.avail[m])
      && (!seen.own && k < n && g.avail[k] == i && n == 1 ==> Ascending(r))
  {
    hide UpFrom, FirstUp;
    RebuildIsInOrder(g, seen.higher);
    RebuildIsInOrder(Rebuild(g, seen.higher), seen.empty);
    RebuildIsInOrder(g.(avail := []), seen.empty);
    if k < |g.avail| && g.avail[k] == i {
      assert IndexOf(g.avail, i) == k;
    }
  }

  // ---- A run that strands the group

  lemma Prepend(s: State, e: Event, run: seq<Event>, t: State)
    requires Enabled(s, e) && Leads(Next(s, e), run, t)
    ensures Leads(s, [e] + run, t)
  {
    assert ([e] + run)[1..] == run;
  }

  function Four(up: seq<bool>, avail: seq<nat>, priority: nat): (g: Group)
    requires |up| == 4 && forall k :: 0 <= k < |avail| ==> avail[k] < 4
    ensures g.Wf()
  {
    Group([10, 10, 5, 0], up, avail, priority)
  }

  const USED := [false, true, true, false]
  const NONE := [false, false, true, false]
  const BACK := [true, false, true, false]
  const LAST := [false, false, true, true]

  lemma FreshFour()
    ensures Fresh(Four(USED, [], 0)) == State(Four(USED, [1], 10), multiset{})
  {
    var pri := [10, 10, 5, 0];
    assert FirstUp(USED, 0) == FirstUp(USED, 1) == 1;
    assert UpFrom(pri, USED, 10, 0) == [] && UpFrom(pri, USED, 10, 1) == [];
    assert UpFrom(pri, USED, 10, 2) == [1] && UpFrom(pri, USED, 10, 3) == [1];
    assert UpFrom(pri, USED, 10, 4) == [1];
  }

  // The first loop of the scan sees forwarder 0 enabled, the second sees it disabled again.
  lemma TornHandler()
    ensures Handle(Four(NONE, [1], 10), 1, Seen(false, Scan(NONE, NONE), Scan(BACK, NONE))) == Four(NONE, [], 0)
  {
    var g := Four(NONE, [1], 10);
    assert IndexOf([1], 1) == 0 && SwapRemove([1], 1) == [];
    assert FirstUp(BACK, 0) == 0;
    assert UpFrom(g.pri, NONE, 10, 0) == [] && UpFrom(g.pri, NONE, 10, 1) == [];
    assert UpFrom(g.pri, NONE, 10, 2) == [] && UpFrom(g.pri, NONE, 10, 3) == [];
    assert UpFrom(g.pri, NONE, 10, 4) == [];
  }

  lemma LastHandler()
    ensures var c := Scan(LAST, LAST); Handle(Four(LAST, [], 0), 3, Seen(true, c, c)) == Four(LAST, [3], 0)
  {
    hide Rebuild;
    var g := Four(LAST, [], 0);
    assert g.pri[3] == 0 && g.avail + [3] == [3];
  }

  // A handler of forwarder 0 that finds it disabled and not in the rotation changes nothing.
  lemma LateHandler()
    ensures var c := Scan(LAST, LAST); Handle(Four(LAST, [3], 0), 0, Seen(false, c, c)) == Four(LAST, [3], 0)
  {
    hide Rebuild;
  }

  lemma BothComeLate()
    ensures
      var late := Handled(0, Seen(false, Scan(LAST, LAST), Scan(LAST, LAST)));
      Leads(State(Four(LAST, [3], 0), multiset{0, 0}), [late, late], State(Four(LAST, [3], 0), multiset{}))
  {
    hide Handle;
    LateHandler();
    var late := Handled(0, Seen(false, Scan(LAST, LAST), Scan(LAST, LAST)));
    var s1, s2 := State(Four(LAST, [3], 0), multiset{0}), State(Four(LAST, [3], 0), multiset{});
    assert multiset{0, 0} - multiset{0} == multiset{0} && multiset{0} - multiset{0} == multiset{};
    assert Leads(s2, [], s2);
    Prepend(s1, late, [], s2);
    Prepend(State(Four(LAST, [3], 0), multiset{0, 0}), late, [late], s2);
    assert [late] + [] == [late] && [late] + [late] == [late, late];
  }

  lemma FlipFirst(g: Group, pending: multiset<nat>, i: nat, up: seq<bool>, rest: seq<Event>, end: State)
    requires g.Wf() && i < |g.up| && up == g.up[i := !g.up[i]]
    requires Leads(State(g.(up := up), pending + multiset{i}), rest, end)
    ensures Leads(State(g, pending), [Flipped(i)] + rest, end)
  {
    hide Leads, Handle;
    Prepend(State(g, pending), Flipped(i), rest, end);
  }

  lemma LastIsTaken()
    ensures
      var own := Handled(3, Seen(true, Scan(LAST, LAST), Scan(LAST, LAST)));
      var late := Handled(0, Seen(false, Scan(LAST, LAST), Scan(LAST, LAST)));
      Leads(State(Four(NONE, [], 0), multiset{0, 0}), [Flipped(3), own, late, late],
            State(Four(LAST, [3], 0), multiset{}))
  {
    hide Handle, Leads;
    LastHandler();
    BothComeLate();
    var own := Handled(3, Seen(true, Scan(LAST, LAST), Scan(LAST, LAST)));
    var late := Handled(0, Seen(false, Scan(LAST, LAST), Scan(LAST, LAST)));
    var end := State(Four(LAST, [3], 0), multiset{});
    var s1 := State(Four(LAST, [], 0), multiset{0, 0, 3});
    assert multiset{0, 0, 3} - multiset{3} == multiset{0, 0} && multiset{0, 0} + multiset{3} == multiset{0, 0, 3};
    assert NONE[3 := true] == LAST;
    Prepend(s1, own, [late, late], end);
    FlipFirst(Four(NONE, [], 0), multiset{0, 0}, 3, LAST, [own] + [late, late], end);
    assert [Flipped(3)] + ([own] + [late, late]) == [Flipped(3), own, late, late];
  }

  lemma TornComesFirst(rest: seq<Event>, end: State)
    requires Leads(State(Four(NONE, [], 0), multiset{0, 0}), rest, end)
    ensures
      var torn := Handled(1, Seen(false, Scan(NONE, NONE), Scan(BACK, NONE)));
      Leads(State(Four(NONE, [1], 10), multiset{1, 0, 0}), [torn] + rest, end)
  {
    hide Handle, Leads;
    TornHandler();
    var torn := Handled(1, Seen(false, Scan(NONE, NONE), Scan(BACK, NONE)));
    assert multiset{1, 0, 0} - multiset{1} == multiset{0, 0};
    Prepend(State(Four(NONE, [1], 10), multiset{1, 0, 0}), torn, rest, end);
  }

  lemma ThreeFlips(rest: seq<Event>, end: State)
    requires Leads(State(Four(NONE, [1], 10), multiset{1, 0, 0}), rest, end)
    ensures Leads(State(Four(USED, [1], 10), multiset{}), [Flipped(1), Flipped(0), Flipped(0)] + rest, end)
  {
    hide Leads;
    var s1, s2 := Four(NONE, [1], 10), Four(BACK, [1], 10);
    assert USED[1 := false] == NONE && NONE[0 := true] == BACK && BACK[0 := false] == NONE;
    assert multiset{} + multiset{1} == multiset{1} && multiset{1} + multiset{0} == multiset{1, 0};
    assert multiset{1, 0} + multiset{0} == multiset{1, 0, 0};
    FlipFirst(s2, multiset{1, 0}, 0, NONE, rest, end);
    FlipFirst(s1, multiset{1}, 0, BACK, [Flipped(0)] + rest, end);
    FlipFirst(Four(USED, [1], 10), multiset{}, 1, NONE, [Flipped(0)] + ([Flipped(0)] + rest), end);
    assert [Flipped(1)] + ([Flipped(0)] + ([Flipped(0)] + rest)) == [Flipped(1), Flipped(0), Flipped(0)] + rest;
  }

  // Priorities 10, 10, 5 and 0; forwarder 1 is in use and 2 stands by. Forwarder 1 goes down, and
  // while its handler rebuilds the rotation forwarder 0 comes up and goes down again. Forwarder 3
  // comes up, and its handler comes before the two of forwarder 0: the group settles on priority
  // 0 although a forwarder of priority 5 is enabled, and no handler is left to notice.
  lemma TornScansCanStrand()
    ensures
      var torn := Handled(1, Seen(false, Scan(NONE, NONE), Scan(BACK, NONE)));
      var own := Handled(3, Seen(true, Scan(LAST, LAST), Scan(LAST, LAST)));
      var late := Handled(0, Seen(false, Scan(LAST, LAST), Scan(LAST, LAST)));
      var run := [Flipped(1), Flipped(0), Flipped(0), torn, Flipped(3), own, late, late];
      Leads(Fresh(Four(USED, [], 0)), run, State(Four(LAST, [3], 0), multiset{})) && !Right(Four(LAST, [3], 0))
  {
    hide Leads;
    var torn := Handled(1, Seen(false, Scan(NONE, NONE), Scan(BACK, NONE)));
    var own := Handled(3, Seen(true, Scan(LAST, LAST), Scan(LAST, LAST)));
    var late := Handled(0, Seen(false, Scan(LAST, LAST), Scan(LAST, LAST)));
    var end := State(Four(LAST, [3], 0), multiset{});
    FreshFour();
    LastIsTaken();
    TornComesFirst([Flipped(3), own, late, late], end);
    ThreeFlips([torn] + [Flipped(3), own, late, late], end);
    assert [Flipped(1), Flipped(0), Flipped(0)] + ([torn] + [Flipped(3), own, late, late]) ==
           [Flipped(1), Flipped(0), Flipped(0), torn, Flipped(3), own, late, late];
    assert end.g.up[2] && end.g.pri[2] == 5;
  }
}

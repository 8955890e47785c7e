// A forwarder group as the objects of the source: forwarders with health counters, the group
// with its rotation, the four schedulers, and the dial that retries on other forwarders.
// Positions in the priority-ordered slice stand for the forwarders' pointers.
module ForwarderGroup {
  import opened Words
  import opened Seqs
  import R = Rotation

  class Forwarder {
    const priority: nat
    var maxFailures: u32
    var disabled: bool
    var failures: u32
    var latency: int

    constructor (priority: nat, maxFailures: u32, disabled: bool)
      ensures this.priority == priority && this.maxFailures == maxFailures && this.disabled == disabled
      ensures failures == 0 && latency == 0
    {
      this.priority, this.maxFailures, this.disabled := priority, maxFailures, disabled;
      failures, latency := 0, 0;
    }

    // `flipped`: the compare-and-swap succeeded, so the status handlers run.
    method Enable() returns (flipped: bool)
      modifies `disabled, `failures
      ensures !disabled && failures == 0 && flipped == old(disabled)
    {
      flipped := disabled;
      if disabled {
        disabled := false;
      }
      failures := 0;
    }

    method Disable() returns (flipped: bool)
      modifies `disabled
      ensures disabled && flipped == !old(disabled)
    {
      flipped := !disabled;
      if !disabled {
        disabled := true;
      }
    }

    // One failure more; the forwarder is disabled on reaching exactly maxFailures, if that is set.
    method IncFailures() returns (flipped: bool)
      modifies `failures, `disabled
      ensures failures == Inc32(old(failures))
      ensures flipped == (maxFailures != 0 && failures == maxFailures && !old(disabled))
      ensures disabled == (old(disabled) || flipped)
    {
      flipped := false;
      failures := Inc32(failures);
      if maxFailures == 0 {
        return;
      }
      if failures == maxFailures && !disabled {
        flipped := Disable();
      }
    }
  }

  datatype Strategy = RR | HA | LHA | DH

  // ---- Candidates

  function Rotated(pool: seq<nat>, k: nat): (r: seq<nat>)
    requires k < |pool|
    ensures |r| == |pool|
    ensures forall i :: 0 <= i < |r| ==> r[i] == pool[(k + i) % |pool|]
  {
    seq(|pool|, i requires 0 <= i < |pool| => pool[(k + i) % |pool|])
  }

  // Steps around a circle of n positions that stay within one turn do not meet.
  lemma Circle(n: nat, k: int, i: nat, j: nat)
    requires 0 < n && i < j < i + n
    ensures (k + i) % n != (k + j) % n
  {
    ModAdd(k + i, j - i, n);
    assert k + j == k + i + (j - i);
  }

  lemma RotatedIsDistinct(pool: seq<nat>, k: nat)
    requires k < |pool| && R.Distinct(pool)
    ensures R.Distinct(Rotated(pool, k))
  {
    forall i, j | 0 <= i < j < |pool|
      ensures Rotated(pool, k)[i] != Rotated(pool, k)[j]
    {
      Circle(|pool|, k, i, j);
      var a, b := (k + i) % |pool|, (k + j) % |pool|;
      assert pool[a] != pool[b];
    }
  }

  // ---- Round robin

  // What the pick returns that finds the counter, a uint32, at n.
  function PickAt(pool: seq<nat>, n: nat): (r: nat)
    requires pool != []
  {
    pool[Wrap32(n) % |pool|]
  }

  // What n picks in a row return: the counter is increased before each.
  function Picked(pool: seq<nat>, index: u32, n: nat): (r: seq<nat>)
    requires pool != []
    ensures |r| == n && forall k :: 0 <= k < n ==> r[k] == PickAt(pool, index + 1 + k)
  {
    seq<nat>(n, k requires 0 <= k < n => PickAt(pool, index + 1 + k))
  }

  lemma PickedMore(pool: seq<nat>, index: u32, k: nat)
    requires pool != []
    ensures Picked(pool, index, 0) == []
    ensures Picked(pool, index, k + 1) == Picked(pool, index, k) + [PickAt(pool, index + k + 1)]
  {
    hide PickAt;
  }

  // Picks before the counter wraps, and picks that the wrap does not shift, go around the circle.
  lemma StepsAround(n: nat, s: u32, i: nat, j: nat)
    requires 0 < n && i < j < n && (s + n <= U32 || U32 % n == 0)
    ensures Wrap32(s + i) % n != Wrap32(s + j) % n
  {
    Circle(n, s, i, j);
    OnCircle(n, s, i);
    OnCircle(n, s, j);
  }

  lemma OnCircle(n: nat, s: u32, i: nat)
    requires i < n && (s + n <= U32 || U32 % n == 0)
    ensures Wrap32(s + i) % n == (s + i) % n
  {
    if s + n <= U32 {
      Wrapped(s + i);
    } else {
      var q, c := (s + i) / U32, U32 / n;
      assert s + i == U32 * q + Wrap32(s + i) && U32 == n * c;
      assert U32 * q == n * (c * q);
      var w := Wrap32(s + i);
      DivModUnique(s + i, n, c * q + w / n, w % n);
    }
  }

  // The counter wraps in the middle of a turn and the size does not divide 2^32: two picks meet.
  lemma StepsMeet(n: nat, s: u32) returns (i: nat, j: nat)
    requires 0 < n < U32 < s + n && U32 % n != 0
    ensures i < j < n && Wrap32(s + i) % n == Wrap32(s + j) % n
  {
    var m, c, r := U32 - s, U32 / n, U32 % n;
    assert U32 == n * c + r;
    var back: nat;
    if r <= n - m {
      i, j, back := m - 1, m + r - 1, 1;
    } else {
      i, j, back := n - r - 1, n - 1, r - n + m + 1;
    }
    assert s + i == U32 - back && s + j == U32 + (r - back);
    Wrapped(s + i);
    Wrapped(r - back);
    WrapShift(r - back, 1);
    DivModUnique(U32 - back, n, c, r - back);
    DivModUnique(r - back, n, 0, r - back);
  }

  // As many picks in a row as the pool has members visit all of them exactly when the counter
  // does not wrap on the way or the size of the pool divides 2^32.
  lemma RoundRobinVisitsAllIff(pool: seq<nat>, index: u32)
    requires R.Distinct(pool) && 0 < |pool| < U32
    ensures R.Distinct(Picked(pool, index, |pool|)) <==> Inc32(index) + |pool| <= U32 || U32 % |pool| == 0
  {
    var n, s, out := |pool|, Inc32(index), Picked(pool, index, |pool|);
    forall k | 0 <= k < n ensures out[k] == pool[Wrap32(s + k) % n] {
      WrapSum(index + 1, k);
    }
    if s + n <= U32 || U32 % n == 0 {
      forall i, j | 0 <= i < j < n ensures out[i] != out[j] {
        StepsAround(n, s, i, j);
      }
    } else {
      var i, j := StepsMeet(n, s);
      assert out[i] == out[j];
    }
  }

  // Of three forwarders the one picked last before the wrap is picked again after it.
  lemma RoundRobinRepeats(pool: seq<nat>)
    requires |pool| == 3
    ensures Picked(pool, 4294967294, 3) == [pool[0], pool[0], pool[1]]
  {
    assert Wrap32(4294967295) % 3 == 0 && Wrap32(4294967296) % 3 == 0 && Wrap32(4294967297) % 3 == 1;
  }

  // Destination hashing, FNV-1a over the address.
  function Fnv(s: seq<bv8>): (r: bv32) {
    if s == [] then 2166136261 else FnvStep(Fnv(s[..|s| - 1]), s[|s| - 1])
  }

  function FnvStep(h: bv32, b: bv8): (r: bv32) {
    (h ^ (b as bv32)) * 16777619
  }

  lemma FnvMore(s: seq<bv8>, b: bv8, before: bv32, t: seq<bv8>, after: bv32)
    requires Fnv(s) == before && after == FnvStep(before, b) && t == s + [b]
    ensures Fnv(t) == after
  {
    hide FnvStep;
    assert t[..|s|] == s;
  }

  // The published test values for no bytes, "a" and "foobar".
  lemma FnvTestValues()
    ensures Fnv([]) == 0x811C9DC5 && Fnv([0x61]) == 0xE40C292C
    ensures Fnv([0x66, 0x6F, 0x6F, 0x62, 0x61, 0x72]) == 0xBF9CF968
  {
    assert Fnv([]) == 0x811C9DC5;
    hide Fnv;
    FnvMore([], 0x61, 0x811C9DC5, [0x61], 0xE40C292C);
    var s: seq<bv8> := [0x66, 0x6F, 0x6F, 0x62, 0x61, 0x72];
    FnvMore([], 0x66, 0x811C9DC5, s[..1], 0xE30C2799);
    FnvMore(s[..1], 0x6F, 0xE30C2799, s[..2], 0x6222E842);
    FnvMore(s[..2], 0x6F, 0x6222E842, s[..3], 0xA9F37ED7);
    FnvMore(s[..3], 0x62, 0xA9F37ED7, s[..4], 0x3F5076EF);
    FnvMore(s[..4], 0x61, 0x3F5076EF, s[..5], 0x39AAA18A);
    FnvMore(s[..5], 0x72, 0x39AAA18A, s, 0xBF9CF968);
  }

  // ---- The retry gate

  // Times are in nanoseconds.
  const SECOND: nat := 1_000_000_000

  datatype Attempt = Attempt(ok: bool, cost: nat)

  function Costs(tries: seq<Attempt>, n: nat): (r: seq<nat>)
    requires n <= |tries|
    ensures |r| == n && forall i :: 0 <= i < n ==> r[i] == tries[i].cost
  {
    seq(n, i requires 0 <= i < n => tries[i].cost)
  }

  // Attempt j (not the first) may start: there is room for one more as slow as the last.
  ghost predicate MayStart(budget: nat, tries: seq<Attempt>, j: nat)
    requires 0 < j <= |tries|
  {
    budget > 0 ==> Sum(Costs(tries, j)) + tries[j - 1].cost < budget
  }

  // A dial over n candidates made this many attempts: all but the last failed, each retry was
  // allowed to start, and it gave up only with the candidates or the budget used up.
  ghost predicate Retried(budget: nat, tries: seq<Attempt>, n: nat, made: nat, ok: bool)
    requires 1 <= made <= n <= |tries|
  {
    && ok == tries[made - 1].ok
    && (forall j :: 0 <= j < made - 1 ==> !tries[j].ok)
    && (forall j :: 0 < j < made ==> MayStart(budget, tries, j))
    && (!ok && made < n ==> !MayStart(budget, tries, made))
  }

  // The failure counters after the given forwarders were charged once each.
  function Charged(before: seq<u32>, failed: seq<nat>): (r: seq<u32>)
    ensures |r| == |before|
    ensures forall k :: 0 <= k < |r| ==> r[k] == if k in failed then Inc32(before[k]) else before[k]
  {
    seq(|before|, k requires 0 <= k < |before| => if k in failed then Inc32(before[k]) else before[k])
  }

  // Who is still enabled after the given forwarders were charged: one that just reached its
  // maximum, if it has one, is not.
  function StillUp(up: seq<bool>, max: seq<u32>, failures: seq<u32>, failed: seq<nat>): (r: seq<bool>)
    requires |up| == |max| == |failures|
    ensures |r| == |up|
    ensures forall k :: 0 <= k < |r| ==> r[k] == (up[k] && !(k in failed && max[k] != 0 && failures[k] == max[k]))
  {
    seq(|up|, k requires 0 <= k < |up| => up[k] && !(k in failed && max[k] != 0 && failures[k] == max[k]))
  }

  lemma StillUpMore(up: seq<bool>, max: seq<u32>, before: seq<u32>, failed: seq<nat>, i: nat)
    requires |up| == |max| == |before| && i !in failed && i < |before|
    ensures
      var c, d := Charged(before, failed), Charged(before, failed + [i]);
      var u := StillUp(up, max, c, failed);
      StillUp(up, max, d, failed + [i]) == u[i := u[i] && !(max[i] != 0 && d[i] == max[i])]
  {
  }

  lemma StillUpNone(up: seq<bool>, max: seq<u32>, failures: seq<u32>)
    requires |up| == |max| == |failures|
    ensures StillUp(up, max, failures, []) == up
  {
  }

  lemma ChargedNone(before: seq<u32>)
    ensures Charged(before, []) == before
  {
  }

  lemma ChargedMore(before: seq<u32>, failed: seq<nat>, i: nat)
    requires i !in failed && i < |before|
    ensures var c := Charged(before, failed); Charged(before, failed + [i]) == c[i := Inc32(c[i])]
  {
  }

  // What the gate guarantees: a single attempt takes what it takes; with retries the overshoot
  // is at most what the last attempt cost more than the one before it, so with costs that do
  // not increase the whole dial stays below the budget once a retry ran.
  lemma RetriesKeepBudget(budget: nat, tries: seq<Attempt>, n: nat, made: nat)
    requires budget > 0 && 1 <= made <= n <= |tries|
    requires Retried(budget, tries, n, made, tries[made - 1].ok)
    ensures made == 1 ==> Sum(Costs(tries, made)) == tries[0].cost
    ensures made >= 2 ==> Sum(Costs(tries, made)) < budget + tries[made - 1].cost - tries[made - 2].cost
    ensures made >= 2 && tries[made - 1].cost <= tries[made - 2].cost ==> Sum(Costs(tries, made)) < budget
  {
    assert Costs(tries, made) == Costs(tries, made - 1) + [tries[made - 1].cost];
    SumAppend(Costs(tries, made - 1), tries[made - 1].cost);
    if made >= 2 {
      assert MayStart(budget, tries, made - 1);
    }
  }

  class FwdrGroup {
    const fwdrs: seq<Forwarder>
    const strategy: Strategy
    const dialAttempts: nat
    const dialBudget: nat
    const tolerance: int
    var avail: seq<nat>
    var priority: nat
    var index: u32

    ghost predicate Valid()
      reads this, fwdrs
    {
      && 0 < |fwdrs| < U32 && dialAttempts >= 1
      && (forall i, j :: 0 <= i < j < |fwdrs| ==> fwdrs[i] != fwdrs[j])
      && Model().Wf() && R.Distinct(avail)
    }

    function Pri(): (r: seq<nat>) {
      seq(|fwdrs|, i requires 0 <= i < |fwdrs| => fwdrs[i].priority)
    }

    function Up(): (r: seq<bool>)
      reads fwdrs
    {
      seq(|fwdrs|, i requires 0 <= i < |fwdrs| reads fwdrs => !fwdrs[i].disabled)
    }

    function Model(): (r: R.Group)
      reads this, fwdrs
    {
      R.Group(Pri(), Up(), avail, priority)
    }

    // The flags as a handler sees them that nobody interferes with.
    function Snapshot(): (r: R.Scan)
      reads fwdrs
    {
      R.Scan(Up(), Up())
    }

    constructor (fs: seq<Forwarder>, strategy: Strategy, attempts: int, budget: int, tolerance: int)
      requires 0 < |fs| < U32 && forall i, j :: 0 <= i < j < |fs| ==> fs[i] != fs[j]
      ensures Valid() && multiset(fwdrs) == multiset(fs)
      ensures dialAttempts == (if attempts > 1 then attempts else 1)
      ensures dialBudget == SECOND * (if budget < 0 then 0 else if budget > 3600 then 3600 else budget)
      ensures this.strategy == strategy && this.tolerance == tolerance && index == 0
      ensures R.Consistent(Model(), multiset{}) && R.OnePriority(Model()) && R.Ascending(avail)
    {
      var sorted := SortByPriority(fs);
      fwdrs := sorted;
      this.strategy := strategy;
      dialAttempts := if attempts > 1 then attempts else 1;
      dialBudget := SECOND * if budget < 0 then 0 else if budget > 3600 then 3600 else budget;
      this.tolerance := tolerance;
      avail, priority, index := [], 0, 0;
      new;
      hide R.Rebuild, R.Consistent, R.OnePriority, R.Ascending;
      SortKeepsDistinct(fs, fwdrs);
      Start();
    }

    method Start()
      requires 0 < |fwdrs| < U32 && dialAttempts >= 1 && Model().Wf()
      requires forall i, j :: 0 <= i < j < |fwdrs| ==> fwdrs[i] != fwdrs[j]
      modifies `avail, `priority
      ensures Valid() && R.Consistent(Model(), multiset{}) && R.OnePriority(Model()) && R.Ascending(avail)
    {
      hide R.Rebuild, R.Consistent, R.OnePriority, R.Ascending;
      R.RebuiltIsRight(Model());
      Init();
    }

    // init(): find the highest enabled priority, collect what has it.
    method Init()
      requires Model().Wf()
      modifies `avail, `priority
      ensures Model() == R.Rebuild(old(Model()), Snapshot())
    {
      SetTopPriority();
      CollectAvail();
      if |avail| == 0 {
        priority := 0;
      }
    }

    method SetTopPriority()
      modifies `priority
      ensures var f := R.FirstUp(Up(), 0); priority == if f < |fwdrs| then Pri()[f] else old(priority)
    {
      var i := 0;
      while i < |fwdrs|
        invariant 0 <= i <= |fwdrs| && priority == old(priority)
        invariant R.FirstUp(Up(), 0) == R.FirstUp(Up(), i)
      {
        if !fwdrs[i].disabled {
          priority := fwdrs[i].priority;
          return;
        }
        i := i + 1;
      }
    }

    method CollectAvail()
      modifies `avail
      ensures avail == R.UpFrom(Pri(), Up(), priority, |fwdrs|)
    {
      avail := [];
      for k := 0 to |fwdrs|
        invariant avail == R.UpFrom(Pri(), Up(), priority, k)
      {
        if !fwdrs[k].disabled && fwdrs[k].priority >= priority {
          avail := avail + [k];
        }
      }
    }

    method InAvail(i: nat) returns (r: bool)
      ensures r <==> i in avail
    {
      for k := 0 to |avail|
        invariant i !in avail[..k]
      {
        if avail[k] == i {
          return true;
        }
      }
      r := false;
    }

    method RemoveAvail(i: nat)
      modifies `avail
      ensures avail == R.SwapRemove(old(avail), i)
    {
      for k := 0 to |avail|
        invariant avail == old(avail) && i !in avail[..k]
      {
        if avail[k] == i {
          assert R.IndexOf(avail, i) == k;
          avail := avail[k := avail[|avail| - 1]][..|avail| - 1];
          return;
        }
      }
    }

    // onStatusChanged, with nobody flipping flags meanwhile.
    method OnStatusChanged(i: nat)
      requires Model().Wf() && i < |fwdrs|
      modifies `avail, `priority
      ensures Model() == R.Handle(old(Model()), i, R.Seen(!fwdrs[i].disabled, Snapshot(), Snapshot()))
    {
      if !fwdrs[i].disabled {
        if fwdrs[i].priority == priority {
          var there := InAvail(i);
          if !there {
            avail := avail + [i];
          }
        } else if fwdrs[i].priority > priority {
          Init();
        }
      } else {
        RemoveAvail(i);
        assert Model() == old(Model()).(avail := R.SwapRemove(old(avail), i));
      }
      if |avail| == 0 {
        Init();
      }
    }

    // ---- Schedulers

    // The forwarders retries rotate through: the rotation, or everything when it is empty.
    function Pool(): (r: seq<nat>)
      reads `avail
      ensures |fwdrs| > 0 ==> r != []
    {
      if avail == [] then seq(|fwdrs|, i requires 0 <= i < |fwdrs| => i) else avail
    }

    function IndexAfter(): (r: u32)
      reads this
    {
      if avail == [] || strategy.RR? then Inc32(index) else index
    }

    // Entry m of the rotation has the lowest latency, and is the first that has it.
    ghost predicate IsFirstLowest(m: nat)
      requires Valid()
      reads this, fwdrs
    {
      && m < |avail|
      && (forall k :: 0 <= k < |avail| ==> fwdrs[avail[m]].latency <= fwdrs[avail[k]].latency)
      && forall k :: 0 <= k < m ==> fwdrs[avail[m]].latency < fwdrs[avail[k]].latency
    }

    // Forwarder r is the best by latency if that beats the first one by more than the tolerance,
    // and the first one otherwise.
    ghost predicate IsLowest(r: nat)
      requires Valid() && avail != []
      reads this, fwdrs
    {
      exists m: nat :: IsFirstLowest(m) &&
        var beats := fwdrs[avail[m]].latency < fwdrs[avail[0]].latency - tolerance;
        r == if beats then avail[m] else avail[0]
    }

    // Forwarder r is the strategy's choice for the address.
    ghost predicate IsPick(addr: seq<bv8>, r: nat)
      requires Valid()
      reads this, fwdrs
    {
      if avail == [] || strategy.RR? then r == Pool()[IndexAfter() % |Pool()|]
      else match strategy
        case LHA => IsLowest(r)
        case DH => r == avail[(Fnv(addr) as int) % |avail|]
        case _ => r == avail[0]
    }

    method NextDialer(addr: seq<bv8>) returns (r: nat)
      requires Valid()
      modifies `index
      ensures Valid() && r in Pool() && r < |fwdrs|
      ensures old(IsPick(addr, r)) && index == old(IndexAfter())
    {
      hide IsLowest;
      if |avail| == 0 {
        index := Inc32(index);
        r := index % |fwdrs|;
        assert r == Pool()[r];
        return;
      }
      match strategy
      case RR =>
        index := Inc32(index);
        r := avail[index % |avail|];
      case HA => r := avail[0];
      case LHA => r := LowestLatency();
      case DH => r := avail[(Fnv(addr) as int) % |avail|];
    }

    // High availability in a group as it was made, or rebuilt since: the choice is the first enabled
    // forwarder, which has the highest priority of all enabled ones.
    lemma FirstEnabledIsPick(addr: seq<bv8>, r: nat)
      requires Valid() && strategy.HA? && IsPick(addr, r)
      requires R.Consistent(Model(), multiset{}) && R.Ascending(avail)
      ensures avail != [] <==> exists i :: 0 <= i < |fwdrs| && !fwdrs[i].disabled
      ensures avail != [] ==>
        && r < |fwdrs| && !fwdrs[r].disabled && (forall i :: 0 <= i < r ==> fwdrs[i].disabled)
        && forall i :: 0 <= i < |fwdrs| && !fwdrs[i].disabled ==> fwdrs[i].priority <= fwdrs[r].priority
    {
      hide R.Consistent, R.Ascending, R.Distinct;
      R.FirstIsHighest(Model());
      assert forall i :: 0 <= i < |fwdrs| ==> Model().up[i] == !fwdrs[i].disabled;
    }

    // Latency based: the first forwarder, unless the best one is better by more than the tolerance.
    method LowestLatency() returns (r: nat)
      requires Valid() && avail != []
      ensures IsLowest(r) && r in avail && r < |fwdrs|
    {
      var best := avail[0];
      var lowest := fwdrs[best].latency;
      ghost var at := 0;
      for k := 0 to |avail|
        invariant at < |avail| && best == avail[at] && lowest == fwdrs[best].latency
        invariant forall m :: 0 <= m < k ==> lowest <= fwdrs[avail[m]].latency
        invariant forall m :: 0 <= m < at ==> lowest < fwdrs[avail[m]].latency
        invariant k == 0 ==> at == 0
      {
        if fwdrs[avail[k]].latency < lowest {
          lowest := fwdrs[avail[k]].latency;
          best := avail[k];
          at := k;
        }
      }
      assert IsFirstLowest(at);
      if fwdrs[best].latency < fwdrs[avail[0]].latency - tolerance {
        r := best;
      } else {
        r := avail[0];
      }
    }

    // Calls of nextDialer in a row, one for each address.
    method NextDialers(addrs: seq<seq<bv8>>) returns (out: seq<nat>)
      requires Valid() && (avail == [] || strategy.RR?)
      modifies `index
      ensures Valid() && out == Picked(Pool(), old(index), |addrs|)
      ensures index == Wrap32(old(index) + |addrs|)
    {
      hide Valid, Wrap32, Picked, PickAt, Pool;
      ghost var pool := Pool();
      PoolIsDistinct();
      out := [];
      PickedMore(pool, index, 0);
      Wrapped(index);
      for k := 0 to |addrs|
        invariant Valid() && index == Wrap32(old(index) + k) && Pool() == pool
        invariant out == Picked(pool, old(index), k)
      {
        PickedMore(pool, old(index), k);
        var r := NextPick(addrs[k], old(index) + k);
        out := out + [r];
      }
    }

    method NextPick(addr: seq<bv8>, ghost at: nat) returns (r: nat)
      requires Valid() && (avail == [] || strategy.RR?) && index == Wrap32(at)
      modifies `index
      ensures Valid() && Pool() != []
      ensures r == PickAt(Pool(), at + 1) && index == Wrap32(at + 1)
    {
      WrapSum(at, 1);
      hide Valid, Wrap32;
      r := NextDialer(addr);
    }

    // ---- Dialling

    // Up to n forwarders to try, in order: the scheduler's pick, then the pool from there on.
    method DialCandidates(addr: seq<bv8>, n: nat) returns (out: seq<nat>, ghost at: nat)
      requires Valid() && n >= 1
      modifies `index
      ensures Valid() && at < |Pool()| && old(IsPick(addr, Pool()[at])) && index == old(IndexAfter())
      ensures out == Rotated(Pool(), at)[..if n < |Pool()| then n else |Pool()|]
      ensures R.Distinct(out) && forall k :: 0 <= k < |out| ==> out[k] < |fwdrs|
    {
      hide Valid;
      var pool := Pool();
      var m := if n < |pool| then n else |pool|;
      PoolIsDistinct();
      var first := NextDialer(addr);
      out, at := RotateFrom(pool, first, m);
      RotatedIsDistinct(pool, at);
      forall k | 0 <= k < |out|
        ensures out[k] < |fwdrs|
      {
        assert out[k] == Rotated(pool, at)[k] && Rotated(pool, at)[k] in pool;
      }
    }

    function Failures(): (r: seq<u32>)
      reads fwdrs
      ensures |r| == |fwdrs|
    {
      seq(|fwdrs|, i requires 0 <= i < |fwdrs| reads fwdrs => fwdrs[i].failures)
    }

    function Max(): (r: seq<u32>)
      reads fwdrs
      ensures |r| == |fwdrs|
    {
      seq(|fwdrs|, i requires 0 <= i < |fwdrs| reads fwdrs => fwdrs[i].maxFailures)
    }

    // A failed attempt on forwarder i: its counter goes up, and if that disables it the group's
    // handler runs at once. Handlers that other goroutines still owe stay owed.
    method Charge(i: nat, ghost pending: multiset<nat>)
      requires Valid() && i < |fwdrs| && R.Consistent(Model(), pending)
      modifies `avail, `priority, {fwdrs[i]}`failures, {fwdrs[i]}`disabled
      ensures Valid() && R.Consistent(Model(), pending)
      ensures Failures() == old(Failures())[i := Inc32(old(Failures())[i])]
      ensures Up() == old(Up())[i := old(Up())[i] && !(Max()[i] != 0 && Failures()[i] == Max()[i])]
      ensures Max() == old(Max())
    {
      hide R.Consistent, R.Handle;
      ghost var g := Model();
      var flipped := CountFailure(i);
      if flipped {
        R.FlipKeepsConsistent(g, pending, i);
        ghost var h := Model();
        OnStatusChanged(i);
        HandledOnce(h, pending, i, R.Seen(!fwdrs[i].disabled, Snapshot(), Snapshot()));
        ConsistentIsDistinct(Model(), pending);
      }
    }

    method CountFailure(i: nat) returns (flipped: bool)
      requires Valid() && i < |fwdrs|
      modifies {fwdrs[i]}`failures, {fwdrs[i]}`disabled
      ensures Valid() && Model() == if flipped then R.Flip(old(Model()), i) else old(Model())
      ensures Failures() == old(Failures())[i := Inc32(old(Failures())[i])]
      ensures flipped == (old(Up())[i] && Max()[i] != 0 && Failures()[i] == Max()[i])
    {
      flipped := fwdrs[i].IncFailures();
      assert Up() == old(Up())[i := !fwdrs[i].disabled];
    }

    // Since the flags, maxima and counters given, the forwarders `failed` were charged, once each.
    ghost predicate Accounted(up: seq<bool>, max: seq<u32>, failures: seq<u32>, failed: seq<nat>)
      reads fwdrs
    {
      && |up| == |max| == |failures| == |fwdrs| && Max() == max
      && Failures() == Charged(failures, failed) && Up() == StillUp(up, max, Failures(), failed)
    }

    lemma NoneCharged()
      ensures Accounted(Up(), Max(), Failures(), [])
    {
      ChargedNone(Failures());
      StillUpNone(Up(), Max(), Failures());
    }

    method ChargeNext(i: nat, ghost pending: multiset<nat>, ghost up: seq<bool>, ghost max: seq<u32>,
                      ghost failures: seq<u32>, ghost failed: seq<nat>)
      requires Valid() && i < |fwdrs| && i !in failed && R.Consistent(Model(), pending)
      requires Accounted(up, max, failures, failed)
      modifies `avail, `priority, {fwdrs[i]}`failures, {fwdrs[i]}`disabled
      ensures Valid() && R.Consistent(Model(), pending)
      ensures Accounted(up, max, failures, failed + [i])
    {
      hide Valid, R.Consistent, Inc32, Charged, StillUp, Up, Max, Failures;
      ChargedMore(failures, failed, i);
      StillUpMore(up, max, failures, failed, i);
      Charge(i, pending);
    }

    // Dial: the candidates in turn until one succeeds, the gate closes or they run out.
    // `tries[k]` is what the k-th attempt will do and how long it takes.
    method Dial(addr: seq<bv8>, tries: seq<Attempt>, ghost pending: multiset<nat>)
      returns (cands: seq<nat>, made: nat, ok: bool, elapsed: nat)
      requires Valid() && dialAttempts <= |tries| && R.Consistent(Model(), pending)
      modifies `avail, `priority, `index, fwdrs`failures, fwdrs`disabled
      ensures Valid() && R.Consistent(Model(), pending)
      ensures |cands| == if dialAttempts < |old(Pool())| then dialAttempts else |old(Pool())|
      ensures exists at :: 0 <= at < |old(Pool())| && old(IsPick(addr, Pool()[at])) &&
                cands == Rotated(old(Pool()), at)[..|cands|]
      ensures R.Distinct(cands) && 1 <= made <= |cands| && Retried(dialBudget, tries, |cands|, made, ok)
      ensures Up() == StillUp(old(Up()), Max(), Failures(), cands[..if ok then made - 1 else made])
      ensures elapsed == Sum(Costs(tries, made))
      ensures Failures() == Charged(old(Failures()), cands[..if ok then made - 1 else made])
    {
      ghost var at;
      cands, at := DialCandidates(addr, dialAttempts);
      made, ok, elapsed := Attempts(cands, tries, pending);
    }

    method Attempts(cands: seq<nat>, tries: seq<Attempt>, ghost pending: multiset<nat>)
      returns (made: nat, ok: bool, elapsed: nat)
      requires Valid() && 1 <= |cands| <= |tries| && R.Consistent(Model(), pending)
      requires R.Distinct(cands) && forall k :: 0 <= k < |cands| ==> cands[k] < |fwdrs|
      modifies `avail, `priority, fwdrs`failures, fwdrs`disabled
      ensures Valid() && R.Consistent(Model(), pending)
      ensures 1 <= made <= |cands| && Retried(dialBudget, tries, |cands|, made, ok)
      ensures Up() == StillUp(old(Up()), Max(), Failures(), cands[..if ok then made - 1 else made])
      ensures elapsed == Sum(Costs(tries, made))
      ensures Failures() == Charged(old(Failures()), cands[..if ok then made - 1 else made])
    {
      hide Valid, R.Consistent, Sum, Failures, Charged, StillUp, Up, Max;
      NoneCharged();
      made, ok, elapsed := 0, false, 0;
      var lastCost := 0;
      assert Costs(tries, 0) == [] && Sum([]) == 0 by { EmptySum(); }
      assert cands[..0] == [];
      while made < |cands|
        invariant 0 <= made <= |cands| && !ok && (made > 0 ==> lastCost == tries[made - 1].cost)
        invariant Valid() && R.Consistent(Model(), pending)
        invariant forall j :: 0 <= j < made ==> !tries[j].ok
        invariant forall j :: 0 < j < made ==> MayStart(dialBudget, tries, j)
        invariant elapsed == Sum(Costs(tries, made))
        invariant Accounted(old(Up()), old(Max()), old(Failures()), cands[..made])
      {
        if made > 0 && dialBudget > 0 && elapsed + lastCost >= dialBudget {
          return;
        }
        lastCost := tries[made].cost;
        elapsed := elapsed + lastCost;
        assert Costs(tries, made + 1) == Costs(tries, made) + [lastCost];
        SumAppend(Costs(tries, made), lastCost);
        if tries[made].ok {
          made, ok := made + 1, true;
          return;
        }
        assert cands[..made + 1] == cands[..made] + [cands[made]];
        ChargeNext(cands[made], pending, old(Up()), old(Max()), old(Failures()), cands[..made]);
        made := made + 1;
      }
    }

    lemma PoolIsDistinct()
      requires Valid()
      ensures R.Distinct(Pool()) && Pool() != [] && forall x :: x in Pool() ==> 0 <= x < |fwdrs|
    {
      forall x | x in avail
        ensures x < |fwdrs|
      {
        assert exists k :: 0 <= k < |avail| && avail[k] == x;
      }
    }
  }

  lemma HandledOnce(g: R.Group, pending: multiset<nat>, i: nat, seen: R.Seen)
    requires R.Consistent(g, pending + multiset{i}) && i < |g.up|
    requires seen == R.Seen(g.up[i], R.Scan(g.up, g.up), R.Scan(g.up, g.up))
    ensures R.Consistent(R.Handle(g, i, seen), pending)
  {
    assert pending + multiset{i} - multiset{i} == pending;
    StableFlagsNeverStrand(g, pending, i, seen);
    R.HandleKeepsConsistent(g, pending + multiset{i}, i, seen);
  }

  // On one snapshot an empty rotation means that nothing is enabled.
  lemma StableFlagsNeverStrand(g: R.Group, pending: multiset<nat>, i: nat, seen: R.Seen)
    requires g.Wf() && i < |g.up| && seen == R.Seen(g.up[i], R.Scan(g.up, g.up), R.Scan(g.up, g.up))
    ensures !R.Strands(g, pending, i, seen)
  {
    R.RebuildEntries(g.(avail := R.SwapRemove(g.avail, i)), seen.empty);
    R.RebuildEntries(g, seen.empty);
    R.RebuildEntries(R.Rebuild(g, seen.higher), seen.empty);
  }

  lemma ConsistentIsDistinct(g: R.Group, pending: multiset<nat>)
    requires R.Consistent(g, pending)
    ensures g.Wf() && R.Distinct(g.avail)
  {
  }

  // m entries of the pool around the circle from `first` on.
  method RotateFrom(pool: seq<nat>, first: nat, m: nat) returns (out: seq<nat>, at: nat)
    requires R.Distinct(pool) && first in pool && 1 <= m <= |pool|
    ensures at < |pool| && pool[at] == first && out == Rotated(pool, at)[..m]
  {
    out := [first];
    at := 0;
    while pool[at] != first
      invariant 0 <= at < |pool| && first !in pool[..at]
      decreases |pool| - at
    {
      at := at + 1;
    }
    var start := at + 1;
    RotatedStartsAt(pool, at);
    RotatedIsDistinct(pool, at);
    var i := 0;
    while i < |pool| && |out| < m
      invariant 0 <= i && |out| == 1 + i <= m && out == Rotated(pool, at)[..1 + i]
    {
      var f := pool[(start + i) % |pool|];
      assert f == Rotated(pool, at)[1 + i];
      if f != first {
        out := out + [f];
      }
      i := i + 1;
    }
  }

  lemma RotatedStartsAt(pool: seq<nat>, at: nat)
    requires at < |pool|
    ensures Rotated(pool, at)[0] == pool[at]
  {
    DivModUnique(at, |pool|, 0, at);
  }

  // ---- sort.Sort by descending priority, as an insertion sort

  predicate Descending(fs: seq<Forwarder>) {
    forall i, j :: 0 <= i < j < |fs| ==> fs[i].priority >= fs[j].priority
  }

  method SortByPriority(fs: seq<Forwarder>) returns (r: seq<Forwarder>)
    ensures Descending(r) && multiset(r) == multiset(fs)
  {
    r := [];
    for n := 0 to |fs|
      invariant Descending(r) && multiset(r) == multiset(fs[..n])
    {
      assert fs[..n + 1] == fs[..n] + [fs[n]];
      r := InsertByPriority(r, fs[n]);
    }
    assert fs[..|fs|] == fs;
  }

  method InsertByPriority(s: seq<Forwarder>, f: Forwarder) returns (r: seq<Forwarder>)
    requires Descending(s)
    ensures Descending(r) && multiset(r) == multiset(s) + multiset{f}
  {
    var k := 0;
    while k < |s| && s[k].priority >= f.priority
      invariant 0 <= k <= |s|
      invariant forall i :: 0 <= i < k ==> s[i].priority >= f.priority
    {
      k := k + 1;
    }
    r := s[..k] + ([f] + s[k..]);
    assert s == s[..k] + s[k..];
    InsertDescends(s, k, f);
  }

  lemma InsertDescends(s: seq<Forwarder>, k: nat, f: Forwarder)
    requires Descending(s) && k <= |s|
    requires forall i :: 0 <= i < k ==> s[i].priority >= f.priority
    requires k < |s| ==> s[k].priority < f.priority
    ensures Descending(s[..k] + ([f] + s[k..]))
  {
    var r := s[..k] + ([f] + s[k..]);
    forall i, j | 0 <= i < j < |r|
      ensures r[i].priority >= r[j].priority
    {
      if j > k {
        assert s[k].priority >= s[j - 1].priority;
      }
    }
  }

  lemma SortKeepsDistinct(a: seq<Forwarder>, b: seq<Forwarder>)
    requires multiset(a) == multiset(b) && forall i, j :: 0 <= i < j < |a| ==> a[i] != a[j]
    ensures |a| == |b| && forall i, j :: 0 <= i < j < |b| ==> b[i] != b[j]
  {
    assert |multiset(a)| == |multiset(b)|;
    if i, j :| 0 <= i < j < |b| && b[i] == b[j] {
      TwiceIsTwo(b, i, j);
      OnceIsOne(a, b[i]);
    }
  }

  lemma TwiceIsTwo(b: seq<Forwarder>, i: nat, j: nat)
    requires i < j < |b| && b[i] == b[j]
    ensures multiset(b)[b[i]] >= 2
  {
    assert b == b[..j] + [b[j]] + b[j + 1..];
    assert b[i] == b[..j][i];
    assert b[i] in multiset(b[..j]);
  }

  lemma {:induction false} OnceIsOne(a: seq<Forwarder>, x: Forwarder)
    requires forall i, j :: 0 <= i < j < |a| ==> a[i] != a[j]
    ensures multiset(a)[x] <= 1
  {
    if a != [] {
      OnceIsOne(a[1..], x);
      assert a == [a[0]] + a[1..];
      if a[0] == x {
        assert x !in a[1..];
      }
    }
  }
}

// The DHCP lease pool: one entry per address, free, bound for ever or leased until a time.
// Time is a number read from the clock at each call; random choices are arguments.
module DhcpPool {
  import opened Words

  type Mac = seq<byte>

  // mac: empty for nil; expire: None for the zero time.
  datatype Expire = Never | At(time: int)
  datatype Entry = Entry(ip: u32, mac: Mac, expire: Expire)

  // ---- Addresses

  datatype Addr = V4(a: byte, b: byte, c: byte, d: byte) | V6

  function ToNum(a: Addr): (r: u32)
    requires a.V4?
  {
    16777216 * (a.a as int) + 65536 * (a.b as int) + 256 * (a.c as int) + a.d as int
  }

  function FromNum(n: u32): (r: Addr)
    ensures r.V4? && ToNum(r) == n
  {
    FourDigits(n);
    V4(n / 16777216, (n / 65536) % 256, (n / 256) % 256, n % 256)
  }

  lemma AddressRoundTrip(a: Addr)
    requires a.V4?
    ensures FromNum(ToNum(a)) == a
  {
    var n := ToNum(a);
    DivModUnique(n, 256, 65536 * a.a as int + 256 * a.b as int + a.c as int, a.d as int);
    DivModUnique(n, 65536, 256 * a.a as int + a.b as int, 256 * a.c as int + a.d as int);
    DivModUnique(n, 16777216, a.a as int, 65536 * a.b as int + 256 * a.c as int + a.d as int);
  }

  // The numbers are in the order of the addresses, the first byte counting most, and the address
  // that follows another in its last byte has the next number.
  lemma AddressesInOrder(a: Addr, b: Addr)
    requires a.V4? && b.V4?
    ensures ToNum(a) < ToNum(b) <==>
      || a.a < b.a || (a.a == b.a && a.b < b.b)
      || (a.a == b.a && a.b == b.b && a.c < b.c) || (a.a == b.a && a.b == b.b && a.c == b.c && a.d < b.d)
    ensures b == a.(d := b.d) && b.d as int == a.d as int + 1 ==> ToNum(b) == ToNum(a) + 1
  {
  }

  // ---- What holds of a pool

  predicate Free(e: Entry) {
    e.mac == []
  }

  // A static binding: a MAC and no expiry.
  predicate Static(e: Entry) {
    e.mac != [] && e.expire.Never?
  }

  ghost predicate Inv(items: seq<Entry>) {
    && (forall i, j :: 0 <= i < j < |items| ==> items[i].ip < items[j].ip)
    && (forall i :: 0 <= i < |items| && Free(items[i]) ==> items[i].expire.Never?)
    && (forall i, j :: 0 <= i < j < |items| && !Free(items[i]) ==> items[i].mac != items[j].mac)
  }

  ghost predicate Holds(items: seq<Entry>, mac: Mac) {
    exists i :: 0 <= i < |items| && items[i].mac == mac
  }

  // The first entry from position i on with the property, or the length.
  function FirstMac(items: seq<Entry>, mac: Mac, i: nat): (r: nat)
    requires i <= |items|
    ensures i <= r <= |items| && (r < |items| ==> items[r].mac == mac) && forall k :: i <= k < r ==> items[k].mac != mac
    decreases |items| - i
  {
    if i == |items| || items[i].mac == mac then i else FirstMac(items, mac, i + 1)
  }

  // The entry a new lease goes to: the requested address if it is free, else the first free
  // entry from idx on, else the first free entry of all, else none (the length).
  function Choose(items: seq<Entry>, ip: u32, idx: nat): (r: nat)
    requires idx <= |items|
    ensures r <= |items|
  {
    var asked := FirstFreeWithIp(items, ip, 0);
    if asked < |items| then asked
    else
      var later := FirstMac(items, [], idx);
      if later < |items| then later else FirstMac(items, [], 0)
  }

  function FirstFreeWithIp(items: seq<Entry>, ip: u32, i: nat): (r: nat)
    requires i <= |items|
    ensures i <= r <= |items| && (r < |items| ==> items[r].ip == ip && Free(items[r]))
    ensures forall k :: i <= k < r ==> !(items[k].ip == ip && Free(items[k]))
    decreases |items| - i
  {
    if i == |items| || (items[i].ip == ip && Free(items[i])) then i else FirstFreeWithIp(items, ip, i + 1)
  }

  // ---- The operations on the entries

  datatype Leased = Leased(items: seq<Entry>, ip: u32) | NoMore

  function Lease(items: seq<Entry>, mac: Mac, ip: u32, now: int, lease: int, idx: nat): (r: Leased)
    requires idx <= |items|
  {
    var mine := FirstMac(items, mac, 0);
    if mine < |items| then
      var e := items[mine];
      Leased(if e.expire.Never? then items else items[mine := e.(expire := At(now + lease))], e.ip)
    else
      var k := Choose(items, ip, idx);
      if k < |items| then Leased(items[k := Entry(items[k].ip, mac, At(now + lease))], items[k].ip)
      else NoMore
  }

  function Bind(items: seq<Entry>, mac: Mac, ip: u32): (r: seq<Entry>)
    ensures |r| == |items|
  {
    seq(|items|, i requires 0 <= i < |items| => if items[i].ip == ip then Entry(ip, mac, Never) else items[i])
  }

  function Release(items: seq<Entry>, mac: Mac): (r: seq<Entry>)
    ensures |r| == |items|
  {
    seq(|items|, i requires 0 <= i < |items| =>
      if items[i].expire.At? && items[i].mac == mac then Entry(items[i].ip, [], Never) else items[i])
  }

  function Tick(items: seq<Entry>, now: int): (r: seq<Entry>)
    ensures |r| == |items|
  {
    seq(|items|, i requires 0 <= i < |items| =>
      if items[i].expire.At? && now > items[i].expire.time then Entry(items[i].ip, [], Never) else items[i])
  }

  // ---- Single operations

  // A lease goes to the entry the MAC already holds, and otherwise to one that was free. It fails
  // exactly when the MAC holds none and none is free, wherever the random search starts.
  lemma LeaseMeans(items: seq<Entry>, mac: Mac, ip: u32, now: int, lease: int, idx: nat)
    requires Inv(items) && mac != [] && idx <= |items|
    ensures var r := Lease(items, mac, ip, now, lease, idx);
      && (r.NoMore? <==> !Holds(items, mac) && !Holds(items, []))
      && (r.Leased? ==>
           && |r.items| == |items| && Inv(r.items) && Holds(r.items, mac)
           && exists k :: 0 <= k < |items| && items[k].ip == r.ip && r.items == items[k := r.items[k]]
                && (items[k].mac == mac || (!Holds(items, mac) && Free(items[k])))
                && r.items[k] == (if Static(items[k]) then items[k] else Entry(r.ip, mac, At(now + lease))))
  {
    var r := Lease(items, mac, ip, now, lease, idx);
    var mine := FirstMac(items, mac, 0);
    if mine < |items| {
      assert r.Leased? && items[mine].ip == r.ip;
      assert r.items == items[mine := r.items[mine]];
      assert r.items[mine].mac == mac;
    } else {
      var k := Choose(items, ip, idx);
      if k < |items| {
        assert r.items[k].mac == mac;
      }
    }
  }

  // The MAC gets the address it holds; a new one gets the address it asked for if that is free.
  lemma LeaseKeepsAddress(items: seq<Entry>, mac: Mac, ip: u32, now: int, lease: int, idx: nat, k: nat)
    requires Inv(items) && mac != [] && idx <= |items| && k < |items|
    ensures var r := Lease(items, mac, ip, now, lease, idx);
      && (items[k].mac == mac ==> r.Leased? && r.ip == items[k].ip)
      && (!Holds(items, mac) && Free(items[k]) && items[k].ip == ip ==> r.Leased? && r.ip == ip)
  {
    var mine := FirstMac(items, mac, 0);
    if items[k].mac == mac {
      assert mine == k;
    }
  }

  // A new MAC whose wish is not free gets the first free entry from the random place on, and the
  // first of all if there is none.
  lemma SearchFindsFirst(items: seq<Entry>, mac: Mac, ip: u32, now: int, lease: int, idx: nat, k: nat)
    requires mac != [] && idx <= |items| && k < |items| && !Holds(items, mac) && Free(items[k])
    requires forall i :: 0 <= i < |items| && items[i].ip == ip ==> !Free(items[i])
    requires if idx <= k then forall i :: idx <= i < k ==> !Free(items[i])
             else forall i :: 0 <= i < |items| && (i < k || i >= idx) ==> !Free(items[i])
    ensures Lease(items, mac, ip, now, lease, idx)
            == Leased(items[k := Entry(items[k].ip, mac, At(now + lease))], items[k].ip)
  {
    assert FirstMac(items, mac, 0) == |items|;
    assert FirstFreeWithIp(items, ip, 0) == |items|;
    assert FirstMac(items, [], idx) == if idx <= k then k else |items|;
  }

  // Releasing undoes the lease of a MAC that held nothing, and so does its expiry.
  lemma LeaseIsUndone(items: seq<Entry>, mac: Mac, ip: u32, now: int, lease: int, idx: nat, later: int)
    requires Inv(items) && mac != [] && idx <= |items| && !Holds(items, mac)
    requires Lease(items, mac, ip, now, lease, idx).Leased?
    ensures var leased := Lease(items, mac, ip, now, lease, idx).items;
      && Release(leased, mac) == items
      && (later > now + lease ==> Tick(leased, later) == Tick(items, later))
  {
    LeaseMeans(items, mac, ip, now, lease, idx);
    hide Lease;
    var r := Lease(items, mac, ip, now, lease, idx);
    var k :| 0 <= k < |items| && items[k].ip == r.ip && r.items == items[k := r.items[k]] && Free(items[k])
      && r.items[k] == Entry(r.ip, mac, At(now + lease));
    assert items[k] == Entry(r.ip, [], Never);
    var released := Release(r.items, mac);
    forall i | 0 <= i < |items| ensures released[i] == items[i] {
      assert items[i].mac != mac;
    }
    assert later > now + lease ==> forall i :: 0 <= i < |items| ==> Tick(r.items, later)[i] == Tick(items, later)[i];
  }

  // A static binding of a MAC that nothing is bound to.
  lemma BindKeepsInv(items: seq<Entry>, mac: Mac, ip: u32)
    requires Inv(items) && mac != [] && !Holds(items, mac)
    ensures Inv(Bind(items, mac, ip))
  {
  }

  lemma ReleaseKeepsInv(items: seq<Entry>, mac: Mac)
    requires Inv(items)
    ensures Inv(Release(items, mac)) && KeepsStatic(items, Release(items, mac))
  {
  }

  lemma TickKeepsInv(items: seq<Entry>, now: int)
    requires Inv(items)
    ensures Inv(Tick(items, now)) && KeepsStatic(items, Tick(items, now))
  {
  }

  // Same addresses, and every static binding is still there.
  ghost predicate KeepsStatic(a: seq<Entry>, b: seq<Entry>) {
    && |a| == |b|
    && (forall i :: 0 <= i < |a| ==> a[i].ip == b[i].ip)
    && (forall i :: 0 <= i < |a| && Static(a[i]) ==> b[i] == a[i])
  }

  // ---- Runs

  datatype Op =
    | LeaseOp(mac: Mac, ip: u32, now: int, idx: nat)
    | ReleaseOp(mac: Mac)
    | TickOp(now: int)

  // The random start lies in the pool of n entries.
  predicate InPool(op: Op, n: nat) {
    op.LeaseOp? ==> op.idx < n
  }

  predicate NamesMac(op: Op) {
    op.LeaseOp? ==> op.mac != []
  }

  function Apply(items: seq<Entry>, op: Op, lease: int): (r: seq<Entry>)
    requires InPool(op, |items|)
    ensures |r| == |items|
  {
    match op
    case LeaseOp(mac, ip, now, idx) =>
      (match Lease(items, mac, ip, now, lease, idx)
       case NoMore => items
       case Leased(after, _) => after)
    case ReleaseOp(mac) => Release(items, mac)
    case TickOp(now) => Tick(items, now)
  }

  function Serve(items: seq<Entry>, ops: seq<Op>, lease: int): (r: seq<Entry>)
    requires forall i :: 0 <= i < |ops| ==> InPool(ops[i], |items|)
    decreases |ops|
  {
    if ops == [] then items else Serve(Apply(items, ops[0], lease), ops[1..], lease)
  }

  lemma ApplyKeepsInv(items: seq<Entry>, op: Op, lease: int)
    requires Inv(items) && InPool(op, |items|) && NamesMac(op)
    ensures Inv(Apply(items, op, lease)) && KeepsStatic(items, Apply(items, op, lease))
  {
    match op
    case LeaseOp(mac, ip, now, idx) => LeaseMeans(items, mac, ip, now, lease, idx);
    case ReleaseOp(mac) => ReleaseKeepsInv(items, mac);
    case TickOp(now) => TickKeepsInv(items, now);
  }

  // Over every run of leases, releases and expiry: at most one address per MAC, the addresses of
  // the pool stay, static bindings never change.
  lemma {:induction false} ServingIsSafe(items: seq<Entry>, ops: seq<Op>, lease: int)
    requires Inv(items) && forall i :: 0 <= i < |ops| ==> InPool(ops[i], |items|)
    requires forall i :: 0 <= i < |ops| ==> NamesMac(ops[i])
    ensures Inv(Serve(items, ops, lease)) && KeepsStatic(items, Serve(items, ops, lease))
    decreases |ops|
  {
    hide Apply, Inv;
    if ops != [] {
      ApplyKeepsInv(items, ops[0], lease);
      ServingIsSafe(Apply(items, ops[0], lease), ops[1..], lease);
    }
  }

  // A leased address is the MAC's until it is released or its time is up: as long as neither
  // happens, it gets the same address whenever it asks again.
  ghost predicate Undisturbed(mac: Mac, until: int, lease: int, op: Op) {
    match op
    case ReleaseOp(m) => m != mac
    case TickOp(now) => now <= until
    case LeaseOp(m, _, now, _) => m == mac ==> now + lease >= until
  }

  ghost predicate HeldUntil(items: seq<Entry>, k: nat, mac: Mac, until: int) {
    k < |items| && items[k].mac == mac && (items[k].expire.At? ==> items[k].expire.time >= until)
  }

  lemma ApplyKeepsHolder(items: seq<Entry>, op: Op, lease: int, k: nat, mac: Mac, until: int)
    requires Inv(items) && InPool(op, |items|) && NamesMac(op)
    requires mac != [] && HeldUntil(items, k, mac, until) && Undisturbed(mac, until, lease, op)
    ensures HeldUntil(Apply(items, op, lease), k, mac, until)
  {
    if op.LeaseOp? {
      LeaseMeans(items, op.mac, op.ip, op.now, lease, op.idx);
      LeaseKeepsAddress(items, op.mac, op.ip, op.now, lease, op.idx, k);
    }
  }

  lemma {:induction false} HolderKeepsAddress(items: seq<Entry>, ops: seq<Op>, lease: int, k: nat, mac: Mac, until: int)
    requires Inv(items) && mac != [] && HeldUntil(items, k, mac, until)
    requires forall i :: 0 <= i < |ops| ==> InPool(ops[i], |items|)
    requires forall i :: 0 <= i < |ops| ==> NamesMac(ops[i]) && Undisturbed(mac, until, lease, ops[i])
    ensures HeldUntil(Serve(items, ops, lease), k, mac, until)
    ensures Inv(Serve(items, ops, lease)) && Serve(items, ops, lease)[k].ip == items[k].ip
    decreases |ops|
  {
    hide Apply, Inv;
    if ops != [] {
      ApplyKeepsHolder(items, ops[0], lease, k, mac, until);
      ApplyKeepsInv(items, ops[0], lease);
      HolderKeepsAddress(Apply(items, ops[0], lease), ops[1..], lease, k, mac, until);
    }
  }

  // ---- Setting up

  // Addresses s to e, all free.
  function Range(s: u32, e: u32): (r: seq<Entry>)
    requires s <= e
    ensures |r| == e - s + 1 && forall i :: 0 <= i < |r| ==> r[i] == Entry(s + i, [], Never)
  {
    seq(e - s + 1, i requires 0 <= i < e - s + 1 => Entry(s + i, [], Never))
  }

  // Endless: the loop over the range does not end.
  datatype Created = Pool(pool: DhcpPool) | BadAddress | StartAfterEnd | Endless

  // Bindings made before serving, for distinct MACs.
  function BindAll(items: seq<Entry>, bindings: seq<(Mac, u32)>): (r: seq<Entry>)
    decreases |bindings|
  {
    if bindings == [] then items else BindAll(Bind(items, bindings[0].0, bindings[0].1), bindings[1..])
  }

  lemma {:induction false} BindAllKeepsInv(items: seq<Entry>, bindings: seq<(Mac, u32)>)
    requires Inv(items)
    requires forall i :: 0 <= i < |bindings| ==> bindings[i].0 != [] && !Holds(items, bindings[i].0)
    requires forall i, j :: 0 <= i < j < |bindings| ==> bindings[i].0 != bindings[j].0
    ensures Inv(BindAll(items, bindings))
    decreases |bindings|
  {
    if bindings != [] {
      BindKeepsInv(items, bindings[0].0, bindings[0].1);
      BindAllKeepsInv(Bind(items, bindings[0].0, bindings[0].1), bindings[1..]);
    }
  }

  lemma RangeInv(s: u32, e: u32)
    requires s <= e
    ensures Inv(Range(s, e)) && forall mac :: mac != [] ==> !Holds(Range(s, e), mac)
  {
  }

  // The counter of the loop over the range after k steps.
  function CounterAfter(s: u32, k: nat): (r: u32) {
    if k == 0 then s else Inc32(CounterAfter(s, k - 1))
  }

  lemma {:induction false} CounterWraps(s: u32, k: nat)
    ensures CounterAfter(s, k) == Wrap32(s + k)
  {
    if k == 0 {
      Wrapped(s);
    } else {
      CounterWraps(s, k - 1);
      WrapSum(s + k - 1, 1);
    }
  }

  // It passes the end of the range exactly when that is not the last address there is: the loop
  // of NewPool ends exactly then.
  lemma RangeEndsIff(s: u32, e: u32)
    ensures (exists k :: CounterAfter(s, k) > e) <==> e < U32 - 1
  {
    if e < U32 - 1 {
      var k: nat := if s > e then 0 else e + 1 - s;
      CounterWraps(s, k);
      Wrapped(s + k);
      assert CounterAfter(s, k) > e;
    }
  }

  lemma {:induction false} BindAllLeaves(items: seq<Entry>, bindings: seq<(Mac, u32)>, k: nat)
    requires k < |items| && forall b :: 0 <= b < |bindings| ==> bindings[b].1 != items[k].ip
    ensures |BindAll(items, bindings)| == |items| && BindAll(items, bindings)[k] == items[k]
    decreases |bindings|
  {
    if bindings != [] {
      BindAllLeaves(Bind(items, bindings[0].0, bindings[0].1), bindings[1..], k);
    }
  }

  // The last binding of an address is the one that counts.
  lemma {:induction false} LastBindingCounts(items: seq<Entry>, bindings: seq<(Mac, u32)>, b: nat, k: nat)
    requires k < |items| && b < |bindings| && items[k].ip == bindings[b].1
    requires forall c :: b < c < |bindings| ==> bindings[c].1 != bindings[b].1
    ensures |BindAll(items, bindings)| == |items|
    ensures BindAll(items, bindings)[k] == Entry(bindings[b].1, bindings[b].0, Never)
    decreases |bindings|
  {
    var bound := Bind(items, bindings[0].0, bindings[0].1);
    if b == 0 {
      BindAllLeaves(bound, bindings[1..], k);
    } else {
      LastBindingCounts(bound, bindings[1..], b - 1, k);
    }
  }

  lemma {:induction false} BindAllKeepsAddresses(items: seq<Entry>, bindings: seq<(Mac, u32)>)
    ensures |BindAll(items, bindings)| == |items|
    ensures forall i :: 0 <= i < |items| ==> BindAll(items, bindings)[i].ip == items[i].ip
    decreases |bindings|
  {
    if bindings != [] {
      BindAllKeepsAddresses(Bind(items, bindings[0].0, bindings[0].1), bindings[1..]);
    }
  }

  // From a new pool on, with any static bindings of distinct MACs made first: after every run the
  // pool has the addresses of its range, no MAC has two of them, and every address bound last to a
  // MAC is still that MAC's for ever.
  lemma PoolIsSafe(s: u32, e: u32, bindings: seq<(Mac, u32)>, ops: seq<Op>, lease: int)
    requires s <= e
    requires forall i :: 0 <= i < |bindings| ==> bindings[i].0 != []
    requires forall i, j :: 0 <= i < j < |bindings| ==> bindings[i].0 != bindings[j].0
    requires forall i :: 0 <= i < |ops| ==> InPool(ops[i], e - s + 1) && NamesMac(ops[i])
    ensures |BindAll(Range(s, e), bindings)| == e - s + 1
    ensures var after := Serve(BindAll(Range(s, e), bindings), ops, lease);
      && |after| == e - s + 1 && (forall i :: 0 <= i < |after| ==> after[i].ip == s + i)
      && (forall i, j :: 0 <= i < j < |after| && !Free(after[i]) ==> after[i].mac != after[j].mac)
      && forall b :: 0 <= b < |bindings| && Last(bindings, b) && s <= bindings[b].1 <= e ==>
           after[bindings[b].1 - s] == Entry(bindings[b].1, bindings[b].0, Never)
  {
    hide Serve, BindAll;
    var range := Range(s, e);
    RangeInv(s, e);
    BindAllKeepsInv(range, bindings);
    BindAllKeepsAddresses(range, bindings);
    var bound := BindAll(range, bindings);
    ServingIsSafe(bound, ops, lease);
    var after := Serve(bound, ops, lease);
    forall b | 0 <= b < |bindings| && Last(bindings, b) && s <= bindings[b].1 <= e
      ensures after[bindings[b].1 - s] == Entry(bindings[b].1, bindings[b].0, Never)
    {
      LastBindingCounts(range, bindings, b, bindings[b].1 - s);
      assert Static(bound[bindings[b].1 - s]);
    }
  }

  // No later binding is of the same address.
  ghost predicate Last(bindings: seq<(Mac, u32)>, b: nat)
    requires b < |bindings|
  {
    forall c :: b < c < |bindings| ==> bindings[c].1 != bindings[b].1
  }

  class DhcpPool {
    const items: array<Entry>
    const lease: int

    constructor (lease: int, s: u32, e: u32)
      requires s <= e < U32 - 1
      ensures this.lease == lease && fresh(items) && items[..] == Range(s, e)
    {
      this.lease := lease;
      var es: seq<Entry> := [];
      var n: u32 := s;
      // uint32: with e = 2^32 - 1 the counter would wrap and the loop never end
      while n <= e
        invariant s <= n <= e + 1 && |es| == n - s && forall i :: 0 <= i < |es| ==> es[i] == Entry(s + i, [], Never)
        decreases e + 1 - n
      {
        es := es + [Entry(n, [], Never)];
        n := Inc32(n);
      }
      items := new Entry[|es|](i requires 0 <= i < |es| => es[i]);
      new;
      assert items[..] == es;
    }

    method FindMac(mac: Mac, from: nat) returns (k: nat)
      requires from <= items.Length
      ensures k == FirstMac(items[..], mac, from)
    {
      k := from;
      while k < items.Length
        invariant from <= k <= items.Length && FirstMac(items[..], mac, from) == FirstMac(items[..], mac, k)
      {
        if items[k].mac == mac {
          return;
        }
        k := k + 1;
      }
    }

    method FindFreeIp(ip: u32) returns (k: nat)
      ensures k == FirstFreeWithIp(items[..], ip, 0)
    {
      k := 0;
      while k < items.Length
        invariant 0 <= k <= items.Length && FirstFreeWithIp(items[..], ip, 0) == FirstFreeWithIp(items[..], ip, k)
      {
        if items[k].ip == ip && items[k].mac == [] {
          return;
        }
        k := k + 1;
      }
    }

    // idx is the random position the search for a new address starts from.
    method LeaseIP(mac: Mac, ip: u32, now: int, idx: nat) returns (ok: bool, given: u32)
      requires idx < items.Length
      modifies items
      ensures match Lease(old(items[..]), mac, ip, now, lease, idx)
              case NoMore => !ok && items[..] == old(items[..])
              case Leased(after, a) => ok && given == a && items[..] == after
    {
      given := 0;
      var k := FindMac(mac, 0);
      if k < items.Length {
        given := items[k].ip;
        if items[k].expire.At? {
          items[k] := items[k].(expire := At(now + lease));
        }
        return true, given;
      }
      k := FindFreeIp(ip);
      if k == items.Length {
        k := FindMac([], idx);
        if k == items.Length {
          k := FindMac([], 0);
        }
      }
      ok := k < items.Length;
      if ok {
        given := items[k].ip;
        items[k] := Entry(given, mac, At(now + lease));
      }
    }

    method LeaseStaticIP(mac: Mac, ip: u32)
      modifies items
      ensures items[..] == Bind(old(items[..]), mac, ip)
    {
      for i := 0 to items.Length
        invariant items[i..] == old(items[i..]) && items[..i] == Bind(old(items[..]), mac, ip)[..i]
      {
        assert items[i] == items[i..][0];
        if items[i].ip == ip {
          items[i] := Entry(ip, mac, Never);
        }
      }
    }

    method ReleaseIP(mac: Mac)
      modifies items
      ensures items[..] == Release(old(items[..]), mac)
    {
      for i := 0 to items.Length
        invariant items[i..] == old(items[i..]) && items[..i] == Release(old(items[..]), mac)[..i]
      {
        assert items[i] == items[i..][0];
        if items[i].expire.At? && items[i].mac == mac {
          items[i] := Entry(items[i].ip, [], Never);
        }
      }
    }

    // The body of the expiry goroutine for one tick of its clock.
    method ExpireTick(now: int)
      modifies items
      ensures items[..] == Tick(old(items[..]), now)
    {
      for i := 0 to items.Length
        invariant items[i..] == old(items[i..]) && items[..i] == Tick(old(items[..]), now)[..i]
      {
        assert items[i] == items[i..][0];
        if items[i].expire.At? && now > items[i].expire.time {
          items[i] := Entry(items[i].ip, [], Never);
        }
      }
    }
  }

  predicate RangeOk(start: Addr, end: Addr) {
    start.V4? && end.V4? && ToNum(start) != 0 && ToNum(end) != 0
  }

  // NewPool: IPv4 only, a range that is not empty.
  method NewPool(lease: int, start: Addr, end: Addr) returns (r: Created)
    ensures r.BadAddress? <==> !RangeOk(start, end)
    ensures r.StartAfterEnd? <==> RangeOk(start, end) && ToNum(end) < ToNum(start)
    ensures r.Endless? <==> RangeOk(start, end) && ToNum(start) <= ToNum(end)
                            && forall k :: CounterAfter(ToNum(start), k) <= ToNum(end)
    ensures r.Pool? ==> ToNum(start) <= ToNum(end) < U32 - 1
    ensures r.Pool? ==> var p := r.pool; p.lease == lease && fresh(p) && p.items[..] == Range(ToNum(start), ToNum(end))
  {
    if !RangeOk(start, end) {
      return BadAddress;
    }
    var s, e := ToNum(start), ToNum(end);
    if e < s {
      return StartAfterEnd;
    }
    RangeEndsIff(s, e);
    if e == U32 - 1 {
      return Endless;
    }
    var p := new DhcpPool(lease, s, e);
    r := Pool(p);
  }
}

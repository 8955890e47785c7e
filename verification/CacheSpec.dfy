// What the DNS cache is meant to be: a list of the most recently touched keys, beside a store of
// permanent entries. The runs of this form are characterised by the history of touches alone.
module CacheSpec {
  import opened Words
  import Seqs

  datatype Entry = Entry(key: string, val: seq<byte>, exp: int)

  datatype Cache = Cache(size: int, list: seq<Entry>, store: map<string, seq<byte>>)

  // The cache starts with two entries under the keys "head" and "tail".
  function New(size: int): (r: Cache) {
    Cache(size, [Entry("head", [], 0), Entry("tail", [], 0)], map[])
  }

  // The number of entries a full cache holds.
  function Capacity(size: int): (r: nat) {
    if size < 2 then 2 else size
  }

  function Find(list: seq<Entry>, k: string): (r: nat)
    ensures r <= |list| && (r < |list| ==> list[r].key == k) && forall i :: 0 <= i < r ==> list[i].key != k
  {
    if list == [] || list[0].key == k then 0 else 1 + Find(list[1..], k)
  }

  function Without<T>(s: seq<T>, i: nat): (r: seq<T>)
    requires i < |s|
    ensures |r| == |s| - 1
  {
    s[..i] + s[i + 1..]
  }

  // Put e first, in place of the entry with its key or else of the last one if the list is full.
  function Touch(c: Cache, e: Entry): (r: Cache) {
    var i := Find(c.list, e.key);
    if i < |c.list| then c.(list := [e] + Without(c.list, i))
    else if |c.list| + 1 > c.size && c.list != [] then c.(list := ([e] + c.list)[..|c.list|])
    else c.(list := [e] + c.list)
  }

  datatype Op = Get(k: string, now: int) | Set(k: string, v: seq<byte>, ttl: int, now: int)

  function Next(c: Cache, op: Op): (r: Cache) {
    match op
    case Get(k, now) =>
      var i := Find(c.list, k);
      if k in c.store || i == |c.list| then c else Touch(c, c.list[i])
    case Set(k, v, ttl, now) =>
      if ttl == 0 then c.(store := c.store[k := v]) else Touch(c, Entry(k, v, now + ttl))
  }

  function Answer(c: Cache, k: string, now: int): (r: (seq<byte>, bool)) {
    var i := Find(c.list, k);
    if k in c.store then (c.store[k], false)
    else if i < |c.list| then (c.list[i].val, c.list[i].exp < now)
    else ([], false)
  }

  function Play(c: Cache, ops: seq<Op>): (r: Cache)
    decreases |ops|
  {
    if ops == [] then c else Play(Next(c, ops[0]), ops[1..])
  }

  function Keys(list: seq<Entry>): (r: seq<string>)
    ensures |r| == |list| && forall i :: 0 <= i < |list| ==> r[i] == list[i].key
  {
    seq(|list|, i requires 0 <= i < |list| => list[i].key)
  }

  // ---- Recency: all keys ever touched, latest first

  function Remove(keys: seq<string>, k: string): (r: seq<string>)
    ensures forall x :: x in r <==> x in keys && x != k
  {
    if keys == [] then [] else if keys[0] == k then Remove(keys[1..], k) else [keys[0]] + Remove(keys[1..], k)
  }

  function MoveToFront(keys: seq<string>, k: string): (r: seq<string>) {
    [k] + Remove(keys, k)
  }

  // touches: oldest first
  function Recency(touches: seq<string>): (r: seq<string>) {
    if touches == [] then []
    else MoveToFront(Recency(touches[..|touches| - 1]), touches[|touches| - 1])
  }

  // Whether the operation touches its key: a Set that is not permanent does, and a Get that
  // finds it in the list.
  predicate Touches(c: Cache, op: Op) {
    match op
    case Get(k, _) => k !in c.store && Find(c.list, k) < |c.list|
    case Set(_, _, ttl, _) => ttl != 0
  }

  function TouchHistory(c: Cache, ops: seq<Op>): (r: seq<string>)
    decreases |ops|
  {
    if ops == [] then []
    else (if Touches(c, ops[0]) then [ops[0].k] else []) + TouchHistory(Next(c, ops[0]), ops[1..])
  }

  // The keys touched after the last touch of k.
  ghost function TouchedSince(touches: seq<string>, k: string): (r: set<string>) {
    if touches == [] || touches[|touches| - 1] == k then {}
    else TouchedSince(touches[..|touches| - 1], k) + {touches[|touches| - 1]}
  }

  ghost predicate DistinctKeys(keys: seq<string>) {
    forall i, j :: 0 <= i < j < |keys| ==> keys[i] != keys[j]
  }

  lemma {:induction false} RemoveAbsent(keys: seq<string>, k: string)
    requires k !in keys
    ensures Remove(keys, k) == keys
  {
    if keys != [] {
      RemoveAbsent(keys[1..], k);
    }
  }

  lemma {:induction false} RemoveAt(keys: seq<string>, i: nat)
    requires DistinctKeys(keys) && i < |keys|
    ensures Remove(keys, keys[i]) == Without(keys, i)
  {
    if i == 0 {
      RemoveAbsent(keys[1..], keys[0]);
    } else {
      assert Remove(keys, keys[i]) == [keys[0]] + Remove(keys[1..], keys[i]);
      hide Remove;
      RemoveAt(keys[1..], i - 1);
      assert Without(keys, i) == [keys[0]] + Without(keys[1..], i - 1);
    }
  }

  lemma PrependDistinct(x: string, keys: seq<string>)
    requires DistinctKeys(keys) && x !in keys
    ensures DistinctKeys([x] + keys)
  {
  }

  lemma {:induction false} RemoveKeepsDistinct(keys: seq<string>, k: string)
    requires DistinctKeys(keys)
    ensures DistinctKeys(Remove(keys, k))
  {
    if keys != [] {
      RemoveKeepsDistinct(keys[1..], k);
      if keys[0] != k {
        PrependDistinct(keys[0], Remove(keys[1..], k));
      }
    }
  }

  lemma {:induction false} RecencyIsDistinct(touches: seq<string>)
    ensures DistinctKeys(Recency(touches)) && forall k :: k in Recency(touches) <==> k in touches
  {
    if touches != [] {
      var n := |touches| - 1;
      RecencyIsDistinct(touches[..n]);
      RemoveKeepsDistinct(Recency(touches[..n]), touches[n]);
      PrependDistinct(touches[n], Remove(Recency(touches[..n]), touches[n]));
      assert touches == touches[..n] + [touches[n]];
    }
  }

  // ---- How far back a key stands

  // The keys in front of the first k.
  ghost function InFrontOf(keys: seq<string>, k: string): (r: set<string>) {
    if keys == [] || keys[0] == k then {} else {keys[0]} + InFrontOf(keys[1..], k)
  }

  lemma {:induction false} InFrontOfRemoved(keys: seq<string>, x: string, k: string)
    requires x != k
    ensures InFrontOf(Remove(keys, x), k) == InFrontOf(keys, k) - {x}
  {
    if keys != [] && keys[0] != k {
      InFrontOfRemoved(keys[1..], x, k);
      if keys[0] != x {
        assert Remove(keys, x)[1..] == Remove(keys[1..], x);
      }
    }
  }

  // In front of a key stand exactly the keys touched after it.
  lemma {:induction false} InFrontAreLater(touches: seq<string>, k: string)
    requires k in touches
    ensures InFrontOf(Recency(touches), k) == TouchedSince(touches, k)
  {
    var n := |touches| - 1;
    var x, rest := touches[n], touches[..n];
    if x != k {
      assert touches == rest + [x];
      InFrontAreLater(rest, k);
      InFrontOfRemoved(Recency(rest), x, k);
      assert Recency(touches)[1..] == Remove(Recency(rest), x);
    }
  }

  lemma {:induction false} PlaceOf(keys: seq<string>, k: string, n: nat)
    requires DistinctKeys(keys) && k in keys && n <= |keys|
    ensures k in keys[..n] <==> |InFrontOf(keys, k)| < n
  {
    if n == 0 {
      assert keys[..0] == [];
    } else if keys[0] == k {
      assert keys[..n][0] == k;
    } else {
      var x, rest := keys[0], keys[1..];
      assert x !in rest;
      assert InFrontOf(keys, k) == {x} + InFrontOf(rest, k);
      assert keys[..n] == [x] + rest[..n - 1] && keys == [x] + rest;
      hide InFrontOf;
      PlaceOf(rest, k, n - 1);
      FrontIsPart(rest, k);
      OneMore(x, InFrontOf(rest, k));
    }
  }

  lemma OneMore(x: string, s: set<string>)
    requires x !in s
    ensures |{x} + s| == 1 + |s|
  {
  }

  lemma {:induction false} FrontIsPart(keys: seq<string>, k: string)
    ensures forall x :: x in InFrontOf(keys, k) ==> x in keys
  {
    if keys != [] && keys[0] != k {
      FrontIsPart(keys[1..], k);
    }
  }

  // ---- The list is the front of the recency order

  ghost predicate Tracks(c: Cache, touches: seq<string>) {
    var m, cap := Recency(touches), Capacity(c.size);
    |m| >= 2 && Keys(c.list) == m[..if |m| < cap then |m| else cap]
  }

  lemma FindInKeys(list: seq<Entry>, k: string)
    ensures Find(list, k) < |list| <==> k in Keys(list)
    ensures Find(list, k) < |list| ==> Keys(list)[Find(list, k)] == k
  {
    if k in Keys(list) {
      var i :| 0 <= i < |list| && Keys(list)[i] == k;
    }
  }

  lemma FrontWithout(m: seq<string>, n: nat, j: nat)
    requires n <= |m| && j < |m|
    ensures j < n ==> ([m[j]] + Without(m, j))[..n] == [m[j]] + Without(m[..n], j)
    ensures n <= j ==> ([m[j]] + Without(m, j))[..n] == ([m[j]] + m[..n])[..n]
  {
  }

  lemma TouchKeys(c: Cache, e: Entry)
    requires c.list != []
    ensures var i, n, keys := Find(c.list, e.key), |c.list|, Keys(c.list);
      Keys(Touch(c, e).list) == if i < n then [e.key] + Without(keys, i)
                                else if n + 1 > c.size then ([e.key] + keys)[..n] else [e.key] + keys
  {
  }

  lemma TouchTracks(c: Cache, touches: seq<string>, e: Entry)
    requires Tracks(c, touches)
    ensures Tracks(Touch(c, e), touches + [e.key])
  {
    var m, k := Recency(touches), e.key;
    assert (touches + [k])[..|touches|] == touches;
    assert Recency(touches + [k]) == [k] + Remove(m, k);
    RecencyIsDistinct(touches);
    FindInKeys(c.list, k);
    TouchKeys(c, e);
    assert Touch(c, e).size == c.size;
    hide Touch, Find, Recency, Without, Remove;
    TouchFront(m, c.size, k, Find(c.list, k), Keys(Touch(c, e).list));
  }

  // The front of a recency order, as long as the capacity, with k moved to its head or put there.
  lemma TouchFront(m: seq<string>, size: int, k: string, i: nat, keys: seq<string>)
    requires DistinctKeys(m) && |m| >= 2
    requires var n := if |m| < Capacity(size) then |m| else Capacity(size);
      && (i < n ==> m[i] == k) && (i >= n ==> k !in m[..n])
      && keys == if i < n then [k] + Without(m[..n], i)
                 else if n + 1 > size then ([k] + m[..n])[..n] else [k] + m[..n]
    ensures var m' := [k] + Remove(m, k);
      |m'| >= 2 && keys == m'[..if |m'| < Capacity(size) then |m'| else Capacity(size)]
  {
    var n := if |m| < Capacity(size) then |m| else Capacity(size);
    FrontOfTouched(m, n, k);
    hide Remove, Without;
    var m' := [k] + Remove(m, k);
    if i < n {
      assert m[i] in m;
      assert keys == m'[..n] && |m'| == |m|;
    } else if n < |m| {
      assert keys == m'[..n];
    } else {
      assert m[..n] == m;
    }
  }

  // Moving k to the front, seen through the first n places.
  lemma FrontOfTouched(m: seq<string>, n: nat, k: string)
    requires DistinctKeys(m) && n <= |m|
    ensures |Remove(m, k)| == if k in m then |m| - 1 else |m|
    ensures forall j :: 0 <= j < n && m[j] == k ==> ([k] + Remove(m, k))[..n] == [k] + Without(m[..n], j)
    ensures k !in m[..n] ==> ([k] + Remove(m, k))[..n] == ([k] + m[..n])[..n]
    ensures k !in m ==> [k] + Remove(m, k) == [k] + m
  {
    if k in m {
      var j :| 0 <= j < |m| && m[j] == k;
      RemoveAt(m, j);
      FrontWithout(m, n, j);
      if j < n {
        assert m[..n][j] == k;
      }
    } else {
      RemoveAbsent(m, k);
      assert ([k] + m)[..n] == ([k] + m[..n])[..n];
    }
  }

  lemma NextTracks(c: Cache, touches: seq<string>, op: Op)
    requires Tracks(c, touches)
    ensures Tracks(Next(c, op), touches + if Touches(c, op) then [op.k] else [])
  {
    if op.Set? && op.ttl != 0 {
      TouchTracks(c, touches, Entry(op.k, op.v, op.now + op.ttl));
    } else if Touches(c, op) {
      TouchTracks(c, touches, c.list[Find(c.list, op.k)]);
    } else {
      assert touches + [] == touches;
    }
  }

  lemma {:induction false} PlayTracks(c: Cache, touches: seq<string>, ops: seq<Op>)
    requires Tracks(c, touches)
    ensures Tracks(Play(c, ops), touches + TouchHistory(c, ops))
    decreases |ops|
  {
    hide Tracks;
    if ops == [] {
      assert touches + [] == touches;
    } else {
      var more := if Touches(c, ops[0]) then [ops[0].k] else [];
      NextTracks(c, touches, ops[0]);
      PlayTracks(Next(c, ops[0]), touches + more, ops[1..]);
      assert touches + more + TouchHistory(Next(c, ops[0]), ops[1..]) == touches + TouchHistory(c, ops);
    }
  }

  // Everything ever touched, the two initial entries first.
  function History(size: int, ops: seq<Op>): (r: seq<string>) {
    ["tail", "head"] + TouchHistory(New(size), ops)
  }

  lemma NewTracks(size: int)
    ensures Tracks(New(size), ["tail", "head"])
  {
    var t := ["tail", "head"];
    assert t[..1] == ["tail"] && ["tail"][..0] == [];
    assert Recency(["tail"]) == ["tail"];
    assert Recency(t) == ["head", "tail"];
    assert Keys(New(size).list) == ["head", "tail"];
  }

  // After any operations a key is in the cache exactly when it was touched and fewer than
  // `Capacity` other keys were touched since.
  lemma PresentIffRecent(size: int, ops: seq<Op>, k: string)
    ensures var c, t := Play(New(size), ops), History(size, ops);
      && (k in Keys(c.list) <==> k in t && |TouchedSince(t, k)| < Capacity(size))
      && 2 <= |c.list| <= Capacity(size) && DistinctKeys(Keys(c.list))
  {
    NewTracks(size);
    PlayTracks(New(size), ["tail", "head"], ops);
    SizeStays(New(size), ops);
    hide Play, New, TouchHistory, Recency, TouchedSince;
    TrackedIffRecent(Play(New(size), ops), History(size, ops), k);
  }

  lemma TrackedIffRecent(c: Cache, t: seq<string>, k: string)
    requires Tracks(c, t)
    ensures k in Keys(c.list) <==> k in t && |TouchedSince(t, k)| < Capacity(c.size)
    ensures 2 <= |c.list| <= Capacity(c.size) && DistinctKeys(Keys(c.list))
  {
    hide Recency, TouchedSince, InFrontOf;
    RecencyIsDistinct(t);
    var m := Recency(t);
    if k in t {
      InFrontAreLater(t, k);
      PlaceOf(m, k, |c.list|);
      PlaceOf(m, k, |m|);
      assert m[..|m|] == m;
    }
  }

  lemma {:induction false} SizeStays(c: Cache, ops: seq<Op>)
    ensures Play(c, ops).size == c.size
    decreases |ops|
  {
    if ops != [] {
      SizeStays(Next(c, ops[0]), ops[1..]);
    }
  }

  // A key set with a time to live comes first, and so does one that a lookup finds in the list; the
  // others keep their order. Other operations leave the list alone.
  lemma UsedComesFirst(size: int, ops: seq<Op>, op: Op, i: nat)
    ensures
      var c := Play(New(size), ops);
      var d := Next(c, op);
      && (op.Set? && op.ttl != 0 ==> d.list != [] && d.list[0] == Entry(op.k, op.v, op.now + op.ttl))
      && (op.Get? && op.k !in c.store && i < |c.list| && c.list[i].key == op.k ==>
           d.list == [c.list[i]] + c.list[..i] + c.list[i + 1..])
      && (op.Get? && (op.k in c.store || op.k !in Keys(c.list)) ==> d == c)
      && (op.Set? && op.ttl == 0 ==> d.list == c.list)
  {
    hide Play, Next, TouchedSince;
    PresentIffRecent(size, ops, op.k);
    NextOrders(Play(New(size), ops), op, i);
  }

  lemma NextOrders(c: Cache, op: Op, i: nat)
    requires DistinctKeys(Keys(c.list))
    ensures var d := Next(c, op);
      && (op.Set? && op.ttl != 0 ==> d.list != [] && d.list[0] == Entry(op.k, op.v, op.now + op.ttl))
      && (op.Get? && op.k !in c.store && i < |c.list| && c.list[i].key == op.k ==>
           d.list == [c.list[i]] + c.list[..i] + c.list[i + 1..])
      && (op.Get? && (op.k in c.store || op.k !in Keys(c.list)) ==> d == c)
      && (op.Set? && op.ttl == 0 ==> d.list == c.list)
  {
    hide Find, Keys, DistinctKeys;
    FindInKeys(c.list, op.k);
    if i < |c.list| && c.list[i].key == op.k {
      FindAt(c.list, i);
      Seqs.Regroup([c.list[i]], c.list[..i], c.list[i + 1..]);
    }
  }

  lemma FindAt(list: seq<Entry>, i: nat)
    requires DistinctKeys(Keys(list)) && i < |list|
    ensures Find(list, list[i].key) == i
  {
    var j := Find(list, list[i].key);
    assert Keys(list)[i] == list[i].key == Keys(list)[j];
  }

  // ---- What an entry holds

  // The latest value and expiry set for each key with a time to live.
  function Latest(known: map<string, (seq<byte>, int)>, ops: seq<Op>): (r: map<string, (seq<byte>, int)>)
    decreases |ops|
  {
    if ops == [] then known
    else Latest(Learn(known, ops[0]), ops[1..])
  }

  // The latest value set for each key without one.
  function Permanent(known: map<string, seq<byte>>, ops: seq<Op>): (r: map<string, seq<byte>>)
    decreases |ops|
  {
    if ops == [] then known
    else
      var op := ops[0];
      Permanent(if op.Set? && op.ttl == 0 then known[op.k := op.v] else known, ops[1..])
  }

  ghost predicate Holds(list: seq<Entry>, known: map<string, (seq<byte>, int)>) {
    forall i :: 0 <= i < |list| ==> list[i].key in known && known[list[i].key] == (list[i].val, list[i].exp)
  }

  lemma TouchHolds(c: Cache, known: map<string, (seq<byte>, int)>, e: Entry)
    requires Holds(c.list, known) && DistinctKeys(Keys(c.list))
    ensures Holds(Touch(c, e).list, known[e.key := (e.val, e.exp)])
  {
    var i := Find(c.list, e.key);
    forall j | 0 <= j < |c.list| && j != i
      ensures c.list[j].key != e.key
    {
      assert i < |c.list| ==> Keys(c.list)[i] != Keys(c.list)[j];
    }
  }

  function Learn(known: map<string, (seq<byte>, int)>, op: Op): (r: map<string, (seq<byte>, int)>) {
    if op.Set? && op.ttl != 0 then known[op.k := (op.v, op.now + op.ttl)] else known
  }

  lemma NextHolds(c: Cache, known: map<string, (seq<byte>, int)>, op: Op)
    requires Holds(c.list, known) && DistinctKeys(Keys(c.list))
    ensures Holds(Next(c, op).list, Learn(known, op))
  {
    if Touches(c, op) {
      var e := if op.Set? then Entry(op.k, op.v, op.now + op.ttl) else c.list[Find(c.list, op.k)];
      TouchHolds(c, known, e);
      assert op.Get? ==> known[e.key := (e.val, e.exp)] == known;
    }
  }

  lemma {:induction false} PlayHolds(c: Cache, touches: seq<string>, known: map<string, (seq<byte>, int)>, ops: seq<Op>)
    requires Tracks(c, touches) && Holds(c.list, known)
    ensures Holds(Play(c, ops).list, Latest(known, ops))
    decreases |ops|
  {
    if ops != [] {
      RecencyIsDistinct(touches);
      NextHolds(c, known, ops[0]);
      NextTracks(c, touches, ops[0]);
      hide Tracks, Next, Holds;
      var touched := if Touches(c, ops[0]) then [ops[0].k] else [];
      PlayHolds(Next(c, ops[0]), touches + touched, Learn(known, ops[0]), ops[1..]);
    }
  }

  lemma {:induction false} PlayStores(c: Cache, ops: seq<Op>)
    ensures Play(c, ops).store == Permanent(c.store, ops)
    decreases |ops|
  {
    if ops != [] {
      PlayStores(Next(c, ops[0]), ops[1..]);
    }
  }

  const INITIAL: map<string, (seq<byte>, int)> := map["head" := ([], 0), "tail" := ([], 0)]

  // A lookup after any operations: a permanent entry answers with the latest permanent value and
  // never expires, another entry still in the list with the latest value set for it.
  lemma AnswerIsLatest(size: int, ops: seq<Op>, k: string, now: int)
    ensures var c, perm, latest := Play(New(size), ops), Permanent(map[], ops), Latest(INITIAL, ops);
      && (k in perm ==> Answer(c, k, now) == (perm[k], false))
      && (k !in perm && k in Keys(c.list) ==> k in latest && Answer(c, k, now) == (latest[k].0, latest[k].1 < now))
      && (k !in perm && k !in Keys(c.list) ==> Answer(c, k, now) == ([], false))
  {
    NewTracks(size);
    PlayHolds(New(size), ["tail", "head"], INITIAL, ops);
    PlayStores(New(size), ops);
    FindInKeys(Play(New(size), ops).list, k);
  }
}

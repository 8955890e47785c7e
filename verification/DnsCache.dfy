// The DNS cache of the source: a doubly linked list of items, a map into it, and a map of
// permanent entries. Every operation is shown to be the one of CacheSpec.
module DnsCache {
  import opened Words
  import S = CacheSpec

  class Item {
    const key: string
    var val: seq<byte>
    var exp: int
    var prev: Item?
    var next: Item?

    constructor (key: string, val: seq<byte>, exp: int)
      ensures this.key == key && this.val == val && this.exp == exp && prev == null && next == null
    {
      this.key, this.val, this.exp := key, val, exp;
      prev, next := null, null;
    }
  }

  // The items, all of them in repr, form one list from head to tail, linked both ways.
  ghost predicate Linked(nodes: seq<Item>, repr: set<Item>, head: Item, tail: Item)
    reads repr`prev, repr`next
  {
    && (forall i :: 0 <= i < |nodes| ==> nodes[i] in repr)
    && |nodes| >= 1 && head == nodes[0] && tail == nodes[|nodes| - 1]
    && (forall i, j :: 0 <= i < j < |nodes| ==> nodes[i] != nodes[j])
    && nodes[0].prev == null && nodes[|nodes| - 1].next == null
    && (forall i {:trigger nodes[i].next} :: 0 <= i < |nodes| - 1 ==> nodes[i].next == nodes[i + 1])
    && (forall i {:trigger nodes[i].prev} :: 1 <= i < |nodes| ==> nodes[i].prev == nodes[i - 1])
  }

  // The map leads to the items of the list by their keys, and to nothing else.
  ghost predicate Indexed(nodes: seq<Item>, cache: map<string, Item>) {
    && |cache| == |nodes|
    && (forall i :: 0 <= i < |nodes| ==> nodes[i].key in cache && cache[nodes[i].key] == nodes[i])
    && (forall k :: k in cache ==> cache[k].key == k && cache[k] in nodes)
  }

  // What the items hold, in order.
  ghost predicate Holds(nodes: seq<Item>, repr: set<Item>, list: seq<S.Entry>)
    reads repr`val, repr`exp
  {
    && |list| == |nodes|
    && forall i :: 0 <= i < |nodes| ==>
         && nodes[i] in repr && nodes[i].key == list[i].key
         && nodes[i].val == list[i].val && nodes[i].exp == list[i].exp
  }

  lemma FindNode(nodes: seq<Item>, repr: set<Item>, cache: map<string, Item>, list: seq<S.Entry>, k: string)
    requires Indexed(nodes, cache) && Holds(nodes, repr, list)
    ensures k in cache <==> S.Find(list, k) < |nodes|
    ensures k in cache ==> nodes[S.Find(list, k)] == cache[k] && cache[k].key == k
    ensures k in cache ==> cache[k].val == list[S.Find(list, k)].val && cache[k].exp == list[S.Find(list, k)].exp
    ensures |list| == |nodes| == |cache|
  {
    if k in cache {
      var j :| 0 <= j < |nodes| && nodes[j] == cache[k];
      assert list[j].key == k;
    }
  }

  lemma AmongOthers(nodes: seq<Item>, repr: set<Item>, head: Item, tail: Item, i: nat)
    requires Linked(nodes, repr, head, tail) && i < |nodes|
    ensures nodes[i] !in S.Without(nodes, i)
    ensures nodes[i] == head <==> i == 0
    ensures i == 0 ==> nodes == [nodes[i]] + S.Without(nodes, i)
  {
  }

  lemma TwoItems(h: Item, t: Item)
    requires h.key == "head" && t.key == "tail"
    ensures Indexed([h, t], map[h.key := h, t.key := t])
  {
    assert "head"[0] != "tail"[0];
    var nodes := [h, t];
    assert nodes[0] == h && nodes[1] == t;
  }

  lemma Inserted(nodes: seq<Item>, cache: map<string, Item>, it: Item)
    requires Indexed(nodes, cache) && it.key !in cache
    ensures Indexed([it] + nodes, cache[it.key := it])
  {
    forall k | k in cache
      ensures cache[k] in [it] + nodes
    {
      var j :| 0 <= j < |nodes| && nodes[j] == cache[k];
      assert ([it] + nodes)[j + 1] == cache[k];
    }
  }

  lemma Reordered(nodes: seq<Item>, i: nat, cache: map<string, Item>)
    requires Indexed(nodes, cache) && i < |nodes|
    ensures Indexed([nodes[i]] + S.Without(nodes, i), cache)
  {
    var moved := [nodes[i]] + S.Without(nodes, i);
    forall k | k in cache
      ensures cache[k] in moved
    {
      var j :| 0 <= j < |nodes| && nodes[j] == cache[k];
      assert if j == i then moved[0] == cache[k] else if j < i then moved[j + 1] == cache[k] else moved[j] == cache[k];
    }
  }

  lemma Dropped(nodes: seq<Item>, repr: set<Item>, head: Item, tail: Item, cache: map<string, Item>)
    requires Indexed(nodes, cache) && Linked(nodes, repr, head, tail)
    ensures Indexed(nodes[..|nodes| - 1], cache - {tail.key})
  {
    var n := |nodes| - 1;
    var key := tail.key;
    assert (cache - {key}).Keys == cache.Keys - {key};
    forall k | k in cache - {key}
      ensures cache[k] in nodes[..n]
    {
      var j :| 0 <= j < |nodes| && nodes[j] == cache[k];
      assert j < n;
      assert nodes[..n][j] == cache[k];
    }
  }

  lemma NextGet(c: S.Cache, k: string, now: int)
    ensures var i := S.Find(c.list, k);
      if k in c.store then S.Next(c, S.Get(k, now)) == c && S.Answer(c, k, now) == (c.store[k], false)
      else if i < |c.list| then
        && S.Next(c, S.Get(k, now)) == c.(list := [c.list[i]] + S.Without(c.list, i))
        && S.Answer(c, k, now) == (c.list[i].val, c.list[i].exp < now)
      else S.Next(c, S.Get(k, now)) == c && S.Answer(c, k, now) == ([], false)
  {
  }

  lemma NextSet(c: S.Cache, k: string, v: seq<byte>, ttl: int, now: int)
    requires c.list != []
    ensures var i, e, n := S.Find(c.list, k), S.Entry(k, v, now + ttl), |c.list|;
      S.Next(c, S.Set(k, v, ttl, now)) ==
        if ttl == 0 then c.(store := c.store[k := v])
        else if i < n then c.(list := [e] + S.Without(c.list, i))
        else if n + 1 > c.size then c.(list := ([e] + c.list)[..n])
        else c.(list := [e] + c.list)
  {
  }

  class LruCache {
    const size: int
    var head: Item
    var tail: Item
    var cache: map<string, Item>
    var store: map<string, seq<byte>>
    ghost var nodes: seq<Item>
    ghost var repr: set<Item>
    ghost var list: seq<S.Entry>

    ghost predicate Valid()
      reads this, repr
    {
      |nodes| >= 2 && Linked(nodes, repr, head, tail) && Indexed(nodes, cache) && Holds(nodes, repr, list)
    }

    ghost function Model(): (r: S.Cache)
      reads this
    {
      S.Cache(size, list, store)
    }

    constructor (size: int)
      ensures Valid() && fresh(repr)
      ensures Model() == S.New(size)
    {
      var h, t := NewPair();
      this.size := size;
      head, tail := h, t;
      cache := map[h.key := h, t.key := t];
      store := map[];
      nodes, repr := [h, t], {h, t};
      list := S.New(size).list;
      hide Indexed, Linked, Holds;
    }

    static method NewPair() returns (h: Item, t: Item)
      ensures fresh(h) && fresh(t) && Linked([h, t], {h, t}, h, t)
      ensures Indexed([h, t], map[h.key := h, t.key := t])
      ensures forall size :: Holds([h, t], {h, t}, S.New(size).list)
    {
      h := new Item("head", [], 0);
      t := new Item("tail", [], 0);
      h.next, t.prev := t, h;
      TwoItems(h, t);
      hide Indexed;
    }

    // Takes an item other than the head out of the list; i is where it stands.
    method Detach(it: Item, ghost i: nat)
      requires Linked(nodes, repr, head, tail) && 0 < i < |nodes| && nodes[i] == it
      modifies `tail, `nodes, repr`prev, repr`next
      ensures nodes == S.Without(old(nodes), i) && Linked(nodes, repr, head, tail)
    {
      assert it.prev == nodes[i - 1];
      if tail == it {
        assert i == |nodes| - 1;
        tail := it.prev;
        tail.next := null;
      } else {
        assert i < |nodes| - 1 && it.next == nodes[i + 1];
        it.prev.next := it.next;
        it.next.prev := it.prev;
      }
      nodes := S.Without(nodes, i);
    }

    // Puts an item that is not in the list in front of it.
    method Attach(it: Item)
      requires Linked(nodes, repr, head, tail) && it !in nodes && it in repr
      modifies `head, `nodes, repr`prev, repr`next
      ensures nodes == [it] + old(nodes) && Linked(nodes, repr, head, tail)
    {
      it.prev := null;
      it.next := head;
      head.prev := it;
      head := it;
      nodes := [it] + nodes;
    }

    method CutTail()
      requires Linked(nodes, repr, head, tail) && |nodes| >= 2
      modifies `tail, `nodes, repr`next
      ensures nodes == old(nodes)[..|old(nodes)| - 1] && Linked(nodes, repr, head, tail)
    {
      ghost var n := |nodes| - 1;
      assert nodes[n].prev == nodes[n - 1];
      tail.prev.next := null;
      tail := tail.prev;
      nodes := nodes[..n];
    }

    method MoveToHead(it: Item, ghost i: nat)
      requires Linked(nodes, repr, head, tail) && i < |nodes| && nodes[i] == it
      modifies `head, `tail, `nodes, repr`prev, repr`next
      ensures Linked(nodes, repr, head, tail)
      ensures nodes == [it] + S.Without(old(nodes), i)
    {
      AmongOthers(nodes, repr, head, tail, i);
      hide Linked;
      if it != head {
        Detach(it, i);
        Attach(it);
      }
    }

    method PutToHead(k: string, v: seq<byte>, exp: int)
      requires Linked(nodes, repr, head, tail) && Indexed(nodes, cache) && k !in cache
      modifies `head, `cache, `nodes, `repr, repr`prev, repr`next
      ensures Linked(nodes, repr, head, tail)
      ensures Indexed(nodes, cache)
      ensures fresh(head) && repr == old(repr) + {head} && nodes == [head] + old(nodes)
      ensures head.key == k && head.val == v && head.exp == exp
    {
      var it := new Item(k, v, exp);
      Inserted(nodes, cache, it);
      Enlarged(nodes, repr, head, tail, it);
      hide Indexed, Linked;
      repr := repr + {it};
      Attach(it);
      cache := cache[k := it];
    }

    method RemoveTail()
      requires Linked(nodes, repr, head, tail) && Indexed(nodes, cache) && |nodes| > 2
      modifies `tail, `cache, `nodes, repr`next
      ensures nodes == old(nodes)[..|old(nodes)| - 1]
      ensures Linked(nodes, repr, head, tail)
      ensures Indexed(nodes, cache)
    {
      Dropped(nodes, repr, head, tail, cache);
      hide Indexed, Linked;
      cache := cache - {tail.key};
      CutTail();
    }

    // The answer, and the item to move to the head if it came from the list.
    method Lookup(k: string, now: int) returns (v: seq<byte>, expired: bool, hit: Item?)
      requires Valid()
      ensures (v, expired) == S.Answer(Model(), k, now)
      ensures hit == null <==> k in store || S.Find(list, k) >= |nodes|
      ensures hit != null ==> nodes[S.Find(list, k)] == hit
    {
      FindNode(nodes, repr, cache, list, k);
      hide Indexed, Linked, Holds, S.Find;
      v, expired, hit := [], false, null;
      if k in store {
        v := store[k];
      } else if k in cache {
        hit := cache[k];
        v, expired := hit.val, hit.exp < now;
      }
    }

    method Get(k: string, now: int) returns (v: seq<byte>, expired: bool)
      requires Valid()
      modifies `head, `tail, `nodes, `list, repr`prev, repr`next
      ensures Valid()
      ensures Model() == S.Next(old(Model()), S.Get(k, now))
      ensures (v, expired) == old(S.Answer(Model(), k, now))
    {
      ghost var i := S.Find(list, k);
      NextGet(Model(), k, now);
      var hit;
      v, expired, hit := Lookup(k, now);
      hide *;
      if hit != null {
        Refresh(hit, i);
      }
    }

    // Moves an item to the head, map and contents following.
    method Refresh(it: Item, ghost i: nat)
      requires Valid() && i < |nodes| && nodes[i] == it
      modifies `head, `tail, `nodes, `list, repr`prev, repr`next
      ensures Valid()
      ensures |old(list)| > i && list == [old(list)[i]] + S.Without(old(list), i)
    {
      hide Linked, Indexed, Holds;
      Reordered(nodes, i, cache);
      HoldsMoved(nodes, repr, list, i);
      list := [list[i]] + S.Without(list, i);
      MoveToHead(it, i);
    }

    // The clock reads `now` when the entry is made.
    method Set(k: string, v: seq<byte>, ttl: int, now: int)
      requires Valid()
      modifies this, repr
      ensures Valid() && fresh(repr - old(repr))
      ensures Model() == S.Next(old(Model()), S.Set(k, v, ttl, now))
    {
      hide Linked, Indexed, Holds, S.Next, S.Find;
      FindNode(nodes, repr, cache, list, k);
      NextSet(Model(), k, v, ttl, now);
      ghost var i := S.Find(list, k);
      if ttl == 0 {
        store := store[k := v];
      } else if k in cache {
        Overwrite(cache[k], i, S.Entry(k, v, now + ttl));
      } else {
        Add(S.Entry(k, v, now + ttl));
      }
    }

    method Overwrite(it: Item, ghost i: nat, e: S.Entry)
      requires Valid() && i < |nodes| && nodes[i] == it && it.key == e.key
      modifies `head, `tail, `nodes, `list, repr
      ensures Valid()
      ensures |old(list)| > i && list == [e] + S.Without(old(list), i)
    {
      it.val := e.val;
      it.exp := e.exp;
      list := list[i := e];
      assert S.Without(old(list)[i := e], i) == S.Without(old(list), i);
      Refresh(it, i);
    }

    method Add(e: S.Entry)
      requires Valid() && e.key !in cache
      modifies `head, `tail, `cache, `nodes, `repr, `list, repr`prev, repr`next
      ensures Valid() && fresh(repr - old(repr))
      ensures list == if |old(list)| + 1 > size then ([e] + old(list))[..|old(list)|] else [e] + old(list)
    {
      hide *;
      AddFront(e);
      if |cache| > size {
        Trim();
      }
    }

    method AddFront(e: S.Entry)
      requires Valid() && e.key !in cache
      modifies `head, `cache, `nodes, `repr, `list, repr`prev, repr`next
      ensures Valid() && fresh(repr - old(repr)) && |nodes| > 2 && |cache| == |list|
      ensures list == [e] + old(list)
    {
      hide Linked, Indexed;
      PutToHead(e.key, e.val, e.exp);
      list := [e] + list;
      CacheSize(nodes, cache);
    }

    method Trim()
      requires Valid() && |nodes| > 2
      modifies `tail, `cache, `nodes, `list, repr`next
      ensures Valid()
      ensures old(list) != [] && list == old(list)[..|old(list)| - 1]
    {
      hide Linked, Indexed, Holds;
      HoldsTrimmed(nodes, repr, list);
      list := list[..|list| - 1];
      RemoveTail();
    }
  }

  lemma HoldsTrimmed(nodes: seq<Item>, repr: set<Item>, list: seq<S.Entry>)
    requires Holds(nodes, repr, list) && nodes != []
    ensures |list| == |nodes| && Holds(nodes[..|nodes| - 1], repr, list[..|list| - 1])
  {
  }

  lemma CacheSize(nodes: seq<Item>, cache: map<string, Item>)
    requires Indexed(nodes, cache)
    ensures |cache| == |nodes|
  {
  }

  lemma Enlarged(nodes: seq<Item>, repr: set<Item>, head: Item, tail: Item, it: Item)
    requires Linked(nodes, repr, head, tail)
    ensures Linked(nodes, repr + {it}, head, tail)
    ensures it !in repr ==> it !in nodes
  {
  }

  lemma HoldsMoved(nodes: seq<Item>, repr: set<Item>, list: seq<S.Entry>, i: nat)
    requires Holds(nodes, repr, list) && i < |nodes|
    ensures |list| == |nodes| && Holds([nodes[i]] + S.Without(nodes, i), repr, [list[i]] + S.Without(list, i))
  {
  }
}

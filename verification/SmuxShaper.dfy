// The write shaper: requests leave in order of class and then of sequence number, through a
// binary heap whose comparison uses wrapping 32-bit numbers. The loop over the heap is shown
// to send exactly what a sorted list over the unbounded numbers would.
module SmuxShaper {
  import opened Words

  const MAX_SHAPER_SIZE := 1024

  // tick: the unbounded request number; the source keeps only its low 32 bits (seq).
  // class: 0 for control frames, 1 for data frames.
  datatype Req = Req(class_: nat, tick: nat, frame: seq<byte>)

  // The comparison of the source.
  predicate Less(a: Req, b: Req) {
    if a.class_ != b.class_ then a.class_ < b.class_ else Int32(Wrap32(b.tick) - Wrap32(a.tick)) > 0
  }

  // The order that is meant.
  predicate Before(a: Req, b: Req) {
    a.class_ < b.class_ || (a.class_ == b.class_ && a.tick < b.tick)
  }

  // For numbers less than a full turn apart the comparison is right in both directions
  // exactly when they are less than half a turn apart.
  lemma WrappedOrderIff(a: Req, b: Req)
    requires a.class_ == b.class_ && a.tick < b.tick < a.tick + U32
    ensures Less(a, b) && !Less(b, a) <==> b.tick - a.tick < I31
  {
    WrapDiff(b.tick, a.tick);
    WrapDiff(a.tick, b.tick);
    WrapShift(a.tick - b.tick, 1);
  }

  // Requests whose numbers are pairwise less than half a turn apart.
  ghost predicate Near(s: multiset<Req>) {
    forall a, b :: a in s && b in s ==> -I31 < a.tick - b.tick < I31
  }

  lemma LessIsBefore(s: multiset<Req>, a: Req, b: Req)
    requires Near(s) && a in s && b in s
    ensures Less(a, b) <==> Before(a, b)
  {
    SignedDistance(b.tick, a.tick);
  }

  // ---- The heap (container/heap over shaperHeap)

  function Parent(i: nat): (r: nat)
    requires i > 0
    ensures r < i
  {
    (i - 1) / 2
  }

  ghost predicate Heap(h: seq<Req>) {
    forall i :: 0 < i < |h| ==> !Before(h[i], h[Parent(i)])
  }

  lemma {:induction false} RootIsLeast(h: seq<Req>, i: nat)
    requires Heap(h) && i < |h|
    ensures !Before(h[i], h[0])
  {
    if i > 0 {
      RootIsLeast(h, Parent(i));
    }
  }

  function Swap(h: seq<Req>, i: nat, j: nat): (r: seq<Req>)
    requires i < |h| && j < |h|
    ensures multiset(r) == multiset(h)
  {
    h[i := h[j]][j := h[i]]
  }

  // Heap order except that entry j may belong further up.
  ghost predicate RisingAt(h: seq<Req>, j: nat) {
    && j < |h|
    && (forall i :: 0 < i < |h| && i != j ==> !Before(h[i], h[Parent(i)]))
    && (j > 0 ==> forall i :: 0 < i < |h| && Parent(i) == j ==> !Before(h[i], h[Parent(j)]))
  }

  lemma Rise(h: seq<Req>, j: nat)
    requires RisingAt(h, j) && j > 0 && Before(h[j], h[Parent(j)])
    ensures RisingAt(Swap(h, Parent(j), j), Parent(j))
  {
    var p := Parent(j);
    var g := Swap(h, p, j);
    forall i | 0 < i < |g| && i != p
      ensures !Before(g[i], g[Parent(i)])
    {
      assert Parent(i) == j ==> !Before(h[i], h[p]);
      assert i != j && Parent(i) == p ==> !Before(h[i], h[p]);
    }
    hide Swap;
  }

  // Heap order on the first n entries except that entry i may belong further down.
  ghost predicate SinkingAt(h: seq<Req>, n: nat, i: nat) {
    && n <= |h|
    && (forall k :: 0 < k < n && Parent(k) != i ==> !Before(h[k], h[Parent(k)]))
    && (i > 0 ==> forall k :: 0 < k < n && Parent(k) == i ==> !Before(h[k], h[Parent(i)]))
  }

  lemma Sink(h: seq<Req>, n: nat, i: nat, j: nat)
    requires SinkingAt(h, n, i) && i < j < n && Parent(j) == i && Before(h[j], h[i])
    requires forall k :: 0 < k < n && Parent(k) == i ==> !Before(h[k], h[j])
    ensures SinkingAt(Swap(h, i, j), n, j)
  {
  }

  lemma RootSinks(h: seq<Req>)
    requires Heap(h) && h != []
    ensures SinkingAt(Swap(h, 0, |h| - 1), |h| - 1, 0)
  {
  }

  lemma Settled(h: seq<Req>, n: nat, i: nat)
    requires SinkingAt(h, n, i) && forall k :: 0 < k < n && Parent(k) == i ==> !Before(h[k], h[i])
    ensures Heap(h[..n])
  {
  }

  // Nothing below i once its least child does not come before it.
  lemma LeastStays(h: seq<Req>, n: nat, i: nat, j: nat)
    requires n <= |h| && i < j < n && !Before(h[j], h[i])
    requires forall k :: 0 < k < n && Parent(k) == i ==> !Before(h[k], h[j])
    ensures forall k :: 0 < k < n && Parent(k) == i ==> !Before(h[k], h[i])
  {
  }

  lemma ChildBounds(n: nat, i: nat)
    ensures 2 * i + 1 >= n ==> forall k :: 0 < k < n ==> Parent(k) != i
  {
  }

  // shaperHeap under container/heap.
  class ShaperHeap {
    var reqs: seq<Req>

    constructor ()
      ensures reqs == []
    {
      reqs := [];
    }

    // heap.Push: append, then sift the new entry up.
    method Push(r: Req)
      requires Heap(reqs) && Near(multiset(reqs) + multiset{r})
      modifies this
      ensures Heap(reqs) && multiset(reqs) == old(multiset(reqs)) + multiset{r} && |reqs| == |old(reqs)| + 1
    {
      reqs := reqs + [r];
      var j := |reqs| - 1;
      while j > 0
        invariant 0 <= j && RisingAt(reqs, j)
        invariant multiset(reqs) == old(multiset(reqs)) + multiset{r} && |reqs| == |old(reqs)| + 1
      {
        var i := Parent(j);
        assert reqs[i] in multiset(reqs) && reqs[j] in multiset(reqs);
        LessIsBefore(multiset(reqs), reqs[j], reqs[i]);
        if !Less(reqs[j], reqs[i]) {
          break;
        }
        Rise(reqs, j);
        reqs := Swap(reqs, i, j);
        j := i;
      }
    }

    // The child of i that comes first, if i has children below n.
    method LeastChild(n: nat, i: nat) returns (j: nat)
      requires n <= |reqs| && 2 * i + 1 < n && Near(multiset(reqs))
      ensures i < j < n && Parent(j) == i
      ensures forall k :: 0 < k < n && Parent(k) == i ==> !Before(reqs[k], reqs[j])
    {
      j := 2 * i + 1;
      if j + 1 < n {
        assert reqs[j] in multiset(reqs) && reqs[j + 1] in multiset(reqs);
        LessIsBefore(multiset(reqs), reqs[j + 1], reqs[j]);
        if Less(reqs[j + 1], reqs[j]) {
          j := j + 1;
        }
      }
    }

    // heap.Pop: swap the root with the last entry, sift down, cut the last entry off.
    method Pop() returns (x: Req)
      requires Heap(reqs) && Near(multiset(reqs)) && reqs != []
      modifies this
      ensures Heap(reqs) && old(multiset(reqs)) == multiset(reqs) + multiset{x} && |reqs| == |old(reqs)| - 1
      ensures x == old(reqs[0])
    {
      hide Heap, SinkingAt;
      var n := |reqs| - 1;
      RootSinks(reqs);
      reqs := Swap(reqs, 0, n);
      SiftDown(n);
      x := reqs[n];
      assert reqs == reqs[..n] + [x];
      reqs := reqs[..n];
    }

    method SiftDown(n: nat)
      requires n < |reqs| && SinkingAt(reqs, n, 0) && Near(multiset(reqs))
      modifies this
      ensures |reqs| == |old(reqs)| && multiset(reqs) == old(multiset(reqs)) && reqs[n..] == old(reqs[n..])
      ensures Heap(reqs[..n])
    {
      hide Heap, SinkingAt, Parent, Before, Less;
      var i := 0;
      var settled := false;
      while 2 * i + 1 < n && !settled
        invariant |reqs| == |old(reqs)| && 0 <= i
        invariant multiset(reqs) == old(multiset(reqs)) && reqs[n..] == old(reqs[n..])
        invariant SinkingAt(reqs, n, i)
        invariant settled ==> forall k :: 0 < k < n && Parent(k) == i ==> !Before(reqs[k], reqs[i])
        decreases n - i, !settled
      {
        i, settled := SinkOnce(n, i);
      }
      ChildBounds(n, i);
      Settled(reqs, n, i);
    }

    // One step down, unless the entry comes before its children.
    method SinkOnce(n: nat, i: nat) returns (j: nat, settled: bool)
      requires n < |reqs| && SinkingAt(reqs, n, i) && 2 * i + 1 < n && Near(multiset(reqs))
      modifies this
      ensures |reqs| == |old(reqs)| && multiset(reqs) == old(multiset(reqs)) && reqs[n..] == old(reqs[n..])
      ensures SinkingAt(reqs, n, j) && (settled ==> j == i) && (!settled ==> i < j < n)
      ensures settled ==> forall k :: 0 < k < n && Parent(k) == j ==> !Before(reqs[k], reqs[j])
    {
      hide SinkingAt, Parent, Before, Less;
      j := LeastChild(n, i);
      assert reqs[i] in multiset(reqs) && reqs[j] in multiset(reqs);
      LessIsBefore(multiset(reqs), reqs[j], reqs[i]);
      settled := !Less(reqs[j], reqs[i]);
      if settled {
        LeastStays(reqs, n, i, j);
        j := i;
      } else {
        Sink(reqs, n, i, j);
        reqs := Swap(reqs, i, j);
      }
    }
  }

  // ---- The simple form: a list kept in order

  ghost predicate Sorted(q: seq<Req>) {
    forall i, j :: 0 <= i < j < |q| ==> Before(q[i], q[j])
  }

  function Insert(q: seq<Req>, r: Req): (p: seq<Req>)
    ensures multiset(p) == multiset(q) + multiset{r} && |p| == |q| + 1
  {
    if q == [] then [r]
    else if Before(r, q[0]) then [r] + q
    else
      assert q == [q[0]] + q[1..];
      [q[0]] + Insert(q[1..], r)
  }

  lemma {:induction false} InsertSorts(q: seq<Req>, r: Req)
    requires Sorted(q) && forall x :: x in q ==> x.tick != r.tick
    ensures Sorted(Insert(q, r))
  {
    if q != [] && !Before(r, q[0]) {
      InsertSorts(q[1..], r);
      var t := Insert(q[1..], r);
      forall x | x in t
        ensures Before(q[0], x)
      {
        assert x in multiset(q[1..]) + multiset{r};
      }
    }
  }

  // The first entry of an ordered list is the least of them, and only that entry is.
  lemma HeadIsLeast(q: seq<Req>, x: Req)
    requires Sorted(q) && q != [] && x in q && forall y :: y in q ==> !Before(y, x)
    ensures x == q[0]
  {
    var i :| 0 <= i < |q| && q[i] == x;
    assert q[0] in q;
  }

  // What the select of the loop took: a request offered by some goroutine, or sendLoop ready
  // for the request held out to it.
  datatype Event = Offer(r: Req) | Ready

  datatype Run = Run(queue: seq<Req>, sent: seq<Req>)

  // An offer is possible unless more than 1024 requests wait.
  ghost predicate Possible(s: Run, e: Event) {
    match e
    case Offer(r) => |s.queue| <= MAX_SHAPER_SIZE
                     && Near(multiset(s.queue) + multiset{r}) && forall x :: x in s.queue ==> x.tick != r.tick
    case Ready => s.queue != []
  }

  // The shaper over an ordered list: the sender gets the first request.
  function Step(s: Run, e: Event): (r: Run) {
    match e
    case Offer(r) => s.(queue := Insert(s.queue, r))
    case Ready => if s.queue == [] then s else Run(s.queue[1..], s.sent + [s.queue[0]])
  }

  function Play(s: Run, events: seq<Event>): (r: Run)
    decreases |events|
  {
    if events == [] then s else Play(Step(s, events[0]), events[1..])
  }

  ghost predicate AllPossible(s: Run, events: seq<Event>)
    decreases |events|
  {
    events != [] ==> Possible(s, events[0]) && AllPossible(Step(s, events[0]), events[1..])
  }

  function Offers(events: seq<Event>): (r: seq<Req>) {
    if events == [] then []
    else New(events[0]) + Offers(events[1..])
  }

  // Nothing is lost or duplicated, and at most 1025 requests ever wait.
  lemma {:induction false} PlayConserves(s: Run, events: seq<Event>)
    requires AllPossible(s, events) && |s.queue| <= MAX_SHAPER_SIZE + 1
    ensures var r := Play(s, events);
      && multiset(r.sent) + multiset(r.queue) == multiset(s.sent) + multiset(s.queue) + multiset(Offers(events))
      && |r.queue| <= MAX_SHAPER_SIZE + 1
    decreases |events|
  {
    hide Near, Insert, Step;
    if events != [] {
      StepConserves(s, events[0]);
      PlayConserves(Step(s, events[0]), events[1..]);
      MultisetConcat(New(events[0]), Offers(events[1..]));
    }
  }

  function New(e: Event): (r: seq<Req>) {
    if e.Offer? then [e.r] else []
  }

  lemma MultisetConcat(a: seq<Req>, b: seq<Req>)
    ensures multiset(a + b) == multiset(a) + multiset(b)
  {
  }

  lemma StepConserves(s: Run, e: Event)
    requires Possible(s, e) && |s.queue| <= MAX_SHAPER_SIZE + 1
    ensures var r := Step(s, e);
      && multiset(r.sent) + multiset(r.queue) == multiset(s.sent) + multiset(s.queue) + multiset(New(e))
      && |r.queue| <= MAX_SHAPER_SIZE + 1
  {
    if e.Ready? {
      QueueSplits(s.queue);
    }
  }

  lemma QueueSplits(q: seq<Req>)
    requires q != []
    ensures multiset(q) == multiset{q[0]} + multiset(q[1..])
  {
    assert q == [q[0]] + q[1..];
  }

  // Whatever is sent comes before everything that still waits.
  lemma {:induction false} PlaySendsLeast(s: Run, events: seq<Event>)
    requires Sorted(s.queue) && AllPossible(s, events)
    ensures Sorted(Play(s, events).queue)
    ensures AllPossible(s, events + [Ready]) ==>
      var r, r' := Play(s, events), Play(s, events + [Ready]);
      && r.queue != [] && r'.sent == r.sent + [r.queue[0]]
      && forall x :: x in r'.queue ==>
           var first := r.queue[0]; first.class_ < x.class_ || (first.class_ == x.class_ && first.tick < x.tick)
    decreases |events|
  {
    if events == [] {
      assert Play(s, [Ready]) == Play(Step(s, Ready), [Ready][1..]);
    } else {
      StepSorts(s, events[0]);
      PlaySendsLeast(Step(s, events[0]), events[1..]);
      assert (events + [Ready])[1..] == events[1..] + [Ready];
    }
  }

  lemma StepSorts(s: Run, e: Event)
    requires Sorted(s.queue) && Possible(s, e)
    ensures Sorted(Step(s, e).queue)
  {
    if e.Offer? {
      InsertSorts(s.queue, e.r);
    }
  }

  // ---- The loop over the heap

  // One turn of shaperLoop. The request held out is popped before the wait and pushed back when
  // an offer arrives first.
  method Turn(heap: ShaperHeap, e: Event, ghost s: Run) returns (out: seq<Req>)
    requires Heap(heap.reqs) && multiset(heap.reqs) == multiset(s.queue) && Near(multiset(heap.reqs))
    requires Sorted(s.queue) && Possible(s, e) && |heap.reqs| <= MAX_SHAPER_SIZE + 1
    modifies heap
    ensures Heap(heap.reqs) && multiset(heap.reqs) == multiset(Step(s, e).queue) && Near(multiset(heap.reqs))
    ensures |heap.reqs| <= MAX_SHAPER_SIZE + 1 && s.sent + out == Step(s, e).sent
  {
    hide Less, Before, Heap, Near, Sorted;
    SameSize(heap.reqs, s.queue);
    out := [];
    var next := Req(0, 0, []);
    var chWrite := |heap.reqs| > 0;
    if chWrite {
      next := PopHead(heap, s.queue);
    }
    var chShaper := |heap.reqs| < MAX_SHAPER_SIZE;
    // "both channel are nil" cannot happen
    assert chShaper || chWrite;
    match e
    case Offer(r) =>
      assert chShaper;
      PushBack(heap, chWrite, next, r, s.queue);
    case Ready =>
      assert chWrite;
      NearPart(multiset(s.queue), multiset(s.queue[1..]));
      out := [next];
  }

  // An offer arrives: the request held out goes back, and the new one is pushed.
  method PushBack(heap: ShaperHeap, held: bool, next: Req, r: Req, ghost q: seq<Req>)
    requires Heap(heap.reqs) && Near(multiset(q) + multiset{r})
    requires multiset(q) == multiset(heap.reqs) + if held then multiset{next} else multiset{}
    modifies heap
    ensures Heap(heap.reqs) && multiset(heap.reqs) == multiset(q) + multiset{r} && |heap.reqs| == |q| + 1
  {
    hide Heap, Near;
    if held {
      NearPart(multiset(q) + multiset{r}, multiset(q));
      heap.Push(next);
    }
    assert multiset(heap.reqs) == multiset(q);
    SameSize(heap.reqs, q);
    heap.Push(r);
  }

  // What is popped is the head of the ordered queue.
  method PopHead(heap: ShaperHeap, ghost q: seq<Req>) returns (next: Req)
    requires Heap(heap.reqs) && heap.reqs != [] && Sorted(q)
    requires multiset(heap.reqs) == multiset(q) && Near(multiset(heap.reqs))
    modifies heap
    ensures q != [] && next == q[0] && Heap(heap.reqs) && |heap.reqs| == |old(heap.reqs)| - 1
    ensures multiset(heap.reqs) == multiset(q[1..]) && multiset(q) == multiset{next} + multiset(q[1..])
  {
    hide Less, Before, Heap, Near, Sorted;
    HeapHeadIsLeast(heap.reqs, q);
    next := heap.Pop();
    QueueSplits(q);
    Cancel(multiset(heap.reqs), multiset(q[1..]), next);
  }

  lemma SameSize(a: seq<Req>, b: seq<Req>)
    requires multiset(a) == multiset(b)
    ensures |a| == |b|
  {
    assert |multiset(a)| == |multiset(b)|;
  }

  lemma NearPart(all: multiset<Req>, part: multiset<Req>)
    requires Near(all) && part <= all
    ensures Near(part)
  {
  }

  lemma Cancel(a: multiset<Req>, b: multiset<Req>, x: Req)
    requires a + multiset{x} == b + multiset{x}
    ensures a == b
  {
    forall y
      ensures a[y] == b[y]
    {
      assert (a + multiset{x})[y] == (b + multiset{x})[y];
    }
  }

  lemma HeapHeadIsLeast(h: seq<Req>, q: seq<Req>)
    requires Heap(h) && h != [] && Sorted(q) && multiset(h) == multiset(q)
    ensures q != [] && h[0] == q[0]
  {
    assert h[0] in multiset(q);
    forall y | y in q
      ensures !Before(y, h[0])
    {
      assert y in multiset(h);
      var k :| 0 <= k < |h| && h[k] == y;
      RootIsLeast(h, k);
    }
    HeadIsLeast(q, h[0]);
  }

  // For any sequence of offers and takes the heap sends what the ordered list sends.
  method ShaperLoop(events: seq<Event>) returns (sent: seq<Req>, waiting: seq<Req>)
    requires AllPossible(Run([], []), events)
    ensures sent == Play(Run([], []), events).sent
    ensures multiset(waiting) == multiset(Play(Run([], []), events).queue)
    ensures multiset(sent) + multiset(waiting) == multiset(Offers(events))
    ensures |waiting| <= MAX_SHAPER_SIZE + 1
  {
    hide Heap, Sorted, Near;
    var heap := new ShaperHeap();
    sent := [];
    ghost var s := Run([], []);
    EmptyShaper();
    for i := 0 to |events|
      invariant Heap(heap.reqs) && Sorted(s.queue) && Near(multiset(heap.reqs))
      invariant multiset(heap.reqs) == multiset(s.queue) && |heap.reqs| <= MAX_SHAPER_SIZE + 1 && sent == s.sent
      invariant AllPossible(s, events[i..]) && Play(s, events[i..]) == Play(Run([], []), events)
    {
      StepSorts(s, events[i]);
      var out := Turn(heap, events[i], s);
      s := Step(s, events[i]);
      sent := sent + out;
      assert events[i..][1..] == events[i + 1..];
    }
    waiting := heap.reqs;
    PlayConserves(Run([], []), events);
  }

  lemma EmptyShaper()
    ensures Heap([]) && Sorted([]) && Near(multiset([]))
  {
  }
}

// The receive-side token bucket of a smux session: recvLoop, any number of goroutines that read,
// open and close streams, and the peer. Every atomic operation, critical section and channel
// operation is one step; the bucket is the int32 of the source beside its unbounded value.
module SmuxTokens {
  import opened Words
  import opened Seqs
  import W = SmuxWindow

  // own: the parity of the ids this side hands out (1 client, 0 server).
  datatype Config = Config(maxReceiveBuffer: nat, own: nat) {
    ghost predicate Valid() {
      1 <= maxReceiveBuffer < I31 && own <= 1
    }
  }

  // A stream object; registered says that the streams map leads to it.
  datatype Obj = Obj(id: u32, buffers: seq<nat>, registered: bool)

  // recvLoop: at the top, waiting on bucketNotify, past the check, between pushBytes and the
  // charge (holding streamLock), returned.
  datatype Recv = Check | Parked | Reading | Pushed(n: nat) | Stopped

  datatype Thread =
    | Free
    // a reader with n bytes copied out and their tokens not yet returned
    | Took(n: nat)
    // after AddInt32, with notifyBucket due when the sum was positive
    | Added(notify: bool)
    // streamClosed, holding streamLock
    | Recycled(obj: nat, n: nat)
    | RecycledAdded(obj: nat, notify: bool)
    | Deleting(obj: nat)
    // OpenStream with an id in hand and the stream not yet in the map
    | Opening(sid: u32)

  datatype Holder = Nobody | RecvLoop | Closer(t: nat)

  datatype State = State(
    bucket: int, objs: seq<Obj>, threads: seq<Thread>, recv: Recv, bucketNotify: bool, lock: Holder,
    nextStreamID: u32, goAway: bool, closed: bool,
    // the value the bucket would have without 32-bit wrap-around
    tokens: int)

  function Init(c: Config, threads: nat): (s: State) {
    State(Int32(c.maxReceiveBuffer), [], seq(threads, _ => Free), Check, false, Nobody,
          if c.own == 1 then 1 else 0, false, false, c.maxReceiveBuffer)
  }

  datatype Action =
    | RecvCheck | RecvWake | RecvStop | RecvOther
    | RecvSyn(sid: u32)
    | RecvPush(obj: nat, n: nat)
    | RecvCharge
    | ReadSome(t: nat, obj: nat, size: nat)
    | ReturnTokens(t: nat)
    | Notify(t: nat)
    | CloseStream(t: nat, obj: nat)
    | CloseAdd(t: nat)
    | CloseNotify(t: nat)
    | CloseDelete(t: nat)
    | AllocId(t: nat)
    | Register(t: nat)
    | AbortOpen(t: nat)
    | Keepalive
    | CloseSession

  predicate Registered(objs: seq<Obj>, sid: u32) {
    exists i :: 0 <= i < |objs| && objs[i].registered && objs[i].id == sid
  }

  predicate Enabled(c: Config, s: State, a: Action) {
    match a
    case RecvCheck => s.recv.Check?
    case RecvWake => s.recv.Parked? && s.bucketNotify
    case RecvStop => (s.recv.Parked? && s.closed) || s.recv.Reading?
    case RecvOther => s.recv.Reading?
    // the peer opens only ids of its own parity
    case RecvSyn(sid) => s.recv.Reading? && s.lock.Nobody? && sid % 2 != c.own
    // a data frame for a stream of the map; for any other id it is dropped (RecvOther)
    case RecvPush(o, n) => s.recv.Reading? && s.lock.Nobody? && 1 <= n <= 65535 && o < |s.objs| && s.objs[o].registered
    case RecvCharge => s.recv.Pushed?
    // a goroutine may hold a stream that is not in the map any more
    case ReadSome(t, o, size) => t < |s.threads| && s.threads[t].Free? && o < |s.objs| && size > 0
    case ReturnTokens(t) => t < |s.threads| && s.threads[t].Took?
    case Notify(t) => t < |s.threads| && s.threads[t].Added?
    case CloseStream(t, o) =>
      t < |s.threads| && s.threads[t].Free? && s.lock.Nobody? && o < |s.objs| && s.objs[o].registered
    case CloseAdd(t) => t < |s.threads| && s.threads[t].Recycled?
    case CloseNotify(t) => t < |s.threads| && s.threads[t].RecycledAdded?
    case CloseDelete(t) => t < |s.threads| && s.threads[t].Deleting? && s.threads[t].obj < |s.objs|
    case AllocId(t) => t < |s.threads| && s.threads[t].Free? && !s.goAway
    case Register(t) => t < |s.threads| && s.threads[t].Opening? && s.lock.Nobody?
    case AbortOpen(t) => t < |s.threads| && s.threads[t].Opening?
    case Keepalive => true
    case CloseSession => true
  }

  // streams[sid] = stream: an older entry of that id is no longer in the map.
  function PutInMap(objs: seq<Obj>, sid: u32): (r: seq<Obj>) {
    seq(|objs|, i requires 0 <= i < |objs| => if objs[i].id == sid then objs[i].(registered := false) else objs[i])
      + [Obj(sid, [], true)]
  }

  function Next(c: Config, s: State, a: Action): (r: State)
    requires Enabled(c, s, a)
  {
    match a
    case RecvCheck => s.(recv := if s.bucket <= 0 && !s.closed then Parked else Reading)
    case RecvWake => s.(recv := Check, bucketNotify := false)
    case RecvStop => s.(recv := Stopped)
    case RecvOther => s.(recv := Check)
    case RecvSyn(sid) =>
      s.(recv := Check, objs := if Registered(s.objs, sid) then s.objs else s.objs + [Obj(sid, [], true)])
    case RecvPush(o, n) =>
      s.(recv := Pushed(n), lock := RecvLoop, objs := s.objs[o := s.objs[o].(buffers := s.objs[o].buffers + [n])])
    case RecvCharge =>
      var n := s.recv.n;
      s.(recv := Check, lock := Nobody, bucket := Int32(s.bucket - n), tokens := s.tokens - n)
    case ReadSome(t, o, size) =>
      var b := s.objs[o].buffers;
      var n := W.Taken(b, size);
      s.(objs := s.objs[o := s.objs[o].(buffers := W.DropTaken(b, n))],
         threads := if n > 0 then s.threads[t := Took(n)] else s.threads)
    case ReturnTokens(t) =>
      var sum := Int32(s.bucket + s.threads[t].n);
      s.(bucket := sum, tokens := s.tokens + s.threads[t].n, threads := s.threads[t := Added(sum > 0)])
    case Notify(t) =>
      s.(bucketNotify := s.bucketNotify || s.threads[t].notify, threads := s.threads[t := Free])
    case CloseStream(t, o) =>
      s.(lock := Closer(t), objs := s.objs[o := s.objs[o].(buffers := [])],
         threads := s.threads[t := Recycled(o, Sum(s.objs[o].buffers))])
    case CloseAdd(t) =>
      var th := s.threads[t];
      if th.n > 0 then
        var sum := Int32(s.bucket + th.n);
        s.(bucket := sum, tokens := s.tokens + th.n, threads := s.threads[t := RecycledAdded(th.obj, sum > 0)])
      else s.(threads := s.threads[t := Deleting(th.obj)])
    case CloseNotify(t) =>
      var th := s.threads[t];
      s.(bucketNotify := s.bucketNotify || th.notify, threads := s.threads[t := Deleting(th.obj)])
    case CloseDelete(t) =>
      var o := s.threads[t].obj;
      s.(lock := Nobody, objs := s.objs[o := s.objs[o].(registered := false)], threads := s.threads[t := Free])
    case AllocId(t) =>
      var sid := Wrap32(s.nextStreamID + 2);
      if sid == sid % 2 then s.(nextStreamID := sid, goAway := true)
      else s.(nextStreamID := sid, threads := s.threads[t := Opening(sid)])
    case Register(t) => s.(objs := PutInMap(s.objs, s.threads[t].sid), threads := s.threads[t := Free])
    case AbortOpen(t) => s.(threads := s.threads[t := Free])
    case Keepalive => s.(bucketNotify := true)
    case CloseSession => s.(closed := true)
  }

  datatype Outcome = Reached(state: State) | Stuck

  function Exec(c: Config, s: State, run: seq<Action>): (r: Outcome)
    decreases |run|
  {
    if run == [] then Reached(s)
    else if Enabled(c, s, run[0]) then Exec(c, Next(c, s, run[0]), run[1..])
    else Stuck
  }

  ghost predicate Reaches(c: Config, s: State) {
    exists threads, run :: Exec(c, Init(c, threads), run) == Reached(s)
  }

  // ---- What is conserved

  function Load(o: Obj): (r: nat) {
    if o.registered then Sum(o.buffers) else 0
  }

  function Loads(objs: seq<Obj>): (r: seq<nat>) {
    seq(|objs|, i requires 0 <= i < |objs| => Load(objs[i]))
  }

  // Unread bytes in the streams of the map.
  function Unread(s: State): (r: nat) {
    Sum(Loads(s.objs))
  }

  function Hand(t: Thread): (r: nat) {
    match t
    case Took(n) => n
    case Recycled(_, n) => n
    case _ => 0
  }

  function Hands(ts: seq<Thread>): (r: seq<nat>) {
    seq(|ts|, i requires 0 <= i < |ts| => Hand(ts[i]))
  }

  // Bytes taken out of a stream whose tokens are not back in the bucket.
  function InHand(s: State): (r: nat) {
    Sum(Hands(s.threads))
  }

  // Bytes pushed whose tokens are not yet taken from the bucket.
  function Uncharged(s: State): (r: nat) {
    if s.recv.Pushed? then s.recv.n else 0
  }

  ghost predicate Conserved(c: Config, s: State) {
    && s.bucket == Int32(s.tokens)
    && s.tokens + Unread(s) + InHand(s) == c.maxReceiveBuffer + Uncharged(s)
  }

  predicate Closing(t: Thread) {
    t.Recycled? || t.RecycledAdded? || t.Deleting?
  }

  ghost predicate LocksOk(s: State) {
    && (s.recv.Pushed? <==> s.lock == RecvLoop)
    && (forall t :: 0 <= t < |s.threads| ==> (Closing(s.threads[t]) <==> s.lock == Closer(t)))
    && (forall t :: 0 <= t < |s.threads| && Closing(s.threads[t]) ==>
         s.threads[t].obj < |s.objs| && s.objs[s.threads[t].obj].registered && s.objs[s.threads[t].obj].buffers == [])
    && (forall i :: 0 <= i < |s.objs| && !s.objs[i].registered ==> s.objs[i].buffers == [])
  }

  ghost predicate IdsOk(c: Config, s: State) {
    && s.nextStreamID % 2 == c.own
    && (forall i, j :: 0 <= i < j < |s.objs| && s.objs[i].registered && s.objs[j].registered ==>
         s.objs[i].id != s.objs[j].id)
    && (!s.goAway ==> forall i :: 0 <= i < |s.objs| && s.objs[i].id % 2 == c.own ==> s.objs[i].id <= s.nextStreamID)
    && (forall t :: 0 <= t < |s.threads| && s.threads[t].Opening? ==>
         s.threads[t].sid % 2 == c.own && (!s.goAway ==> s.threads[t].sid <= s.nextStreamID))
    && (forall t, i :: 0 <= t < |s.threads| && s.threads[t].Opening? && 0 <= i < |s.objs| ==>
         s.objs[i].id != s.threads[t].sid)
    && (forall t, u :: 0 <= t < u < |s.threads| && s.threads[t].Opening? && s.threads[u].Opening? ==>
         s.threads[t].sid != s.threads[u].sid)
  }

  // While the session is open recvLoop reads a frame only with a token in the bucket.
  ghost predicate RecvOk(s: State) {
    && (s.recv.Pushed? ==> 1 <= s.recv.n <= 65535)
    && (!s.closed && (s.recv.Reading? || s.recv.Pushed?) ==> s.tokens >= 1)
    && (!s.closed ==> s.tokens >= 1 - 65535)
  }

  predicate WillNotify(t: Thread) {
    (t.Added? || t.RecycledAdded?) && t.notify
  }

  // Waiting for tokens that are there implies that the signal is queued or about to be.
  ghost predicate WakeOk(s: State) {
    !s.closed && s.recv.Parked? && s.tokens > 0 ==>
      s.bucketNotify || exists t :: 0 <= t < |s.threads| && WillNotify(s.threads[t])
  }

  ghost predicate Inv(c: Config, s: State) {
    Conserved(c, s) && LocksOk(s) && IdsOk(c, s) && RecvOk(s) && WakeOk(s)
  }

  // ---- Sums under the updates the steps make

  lemma LoadsUpdate(objs: seq<Obj>, i: nat, o: Obj)
    requires i < |objs|
    ensures Sum(Loads(objs[i := o])) == Sum(Loads(objs)) - Load(objs[i]) + Load(o)
  {
    assert Loads(objs[i := o]) == Loads(objs)[i := Load(o)];
    SumUpdate(Loads(objs), i, Load(o));
  }

  lemma LoadsAppend(objs: seq<Obj>, o: Obj)
    ensures Sum(Loads(objs + [o])) == Sum(Loads(objs)) + Load(o)
  {
    assert Loads(objs + [o]) == Loads(objs) + [Load(o)];
    SumAppend(Loads(objs), Load(o));
  }

  lemma HandsUpdate(ts: seq<Thread>, i: nat, t: Thread)
    requires i < |ts|
    ensures Sum(Hands(ts[i := t])) == Sum(Hands(ts)) - Hand(ts[i]) + Hand(t)
  {
    assert Hands(ts[i := t]) == Hands(ts)[i := Hand(t)];
    SumUpdate(Hands(ts), i, Hand(t));
  }

  lemma {:induction false} SumZeros(s: seq<nat>)
    requires forall i :: 0 <= i < |s| ==> s[i] == 0
    ensures Sum(s) == 0
  {
    if s != [] {
      SumZeros(s[1..]);
    }
  }

  lemma IntSum(x: int, n: int)
    ensures Int32(Int32(x) + n) == Int32(x + n)
  {
    WrapSum(x, n);
    WrapSum(Int32(x), n);
  }

  lemma TakenSum(b: seq<nat>, size: nat)
    ensures var n := W.Taken(b, size); Sum(W.DropTaken(b, n)) == Sum(b) - n
  {
    if b != [] {
      SumUpdate(b, 0, b[0] - W.Taken(b, size));
    }
  }

  lemma InitInv(c: Config, threads: nat)
    requires c.Valid()
    ensures Inv(c, Init(c, threads))
  {
    SumZeros(Hands(Init(c, threads).threads));
    Int32Fits(c.maxReceiveBuffer);
  }

  // A new id is the next one of this side's parity, until the 32 bits are used up: then, and only
  // then, no stream is opened, now and for ever.
  lemma AllocGivesNext(c: Config, s: State, t: nat)
    requires Enabled(c, s, AllocId(t)) && s.nextStreamID % 2 == c.own
    ensures var r := Next(c, s, AllocId(t));
      if s.nextStreamID + 2 < U32 then r.threads == s.threads[t := Opening(s.nextStreamID + 2)] && !r.goAway
      else r.threads == s.threads && r.goAway && forall u :: !Enabled(c, r, AllocId(u))
  {
    if s.nextStreamID + 2 < U32 {
      Wrapped(s.nextStreamID + 2);
    } else {
      WrapShift(s.nextStreamID + 2 - U32, 1);
      Wrapped(s.nextStreamID + 2 - U32);
    }
  }

  // ---- Conservation, step by step

  lemma ObjStepConserves(c: Config, s: State, a: Action)
    requires c.Valid() && Inv(c, s) && Enabled(c, s, a)
    requires a.RecvSyn? || a.RecvPush? || a.ReadSome? || a.CloseStream? || a.CloseDelete?
    ensures Conserved(c, Next(c, s, a))
  {
    hide Int32, Sum;
    var r := Next(c, s, a);
    match a
    case RecvSyn(sid) =>
      LoadsAppend(s.objs, Obj(sid, [], true));
      assert Sum([]) == 0 by { SumZeros([]); }
    case RecvPush(o, n) =>
      LoadsUpdate(s.objs, o, r.objs[o]);
      SumAppend(s.objs[o].buffers, n);
    case ReadSome(t, o, size) =>
      LoadsUpdate(s.objs, o, r.objs[o]);
      TakenSum(s.objs[o].buffers, size);
      HandsUpdate(s.threads, t, Took(W.Taken(s.objs[o].buffers, size)));
    case CloseStream(t, o) =>
      LoadsUpdate(s.objs, o, r.objs[o]);
      HandsUpdate(s.threads, t, r.threads[t]);
      assert Sum([]) == 0 by { SumZeros([]); }
    case CloseDelete(t) =>
      var o := s.threads[t].obj;
      LoadsUpdate(s.objs, o, r.objs[o]);
      HandsUpdate(s.threads, t, Free);
      assert Sum([]) == 0 by { SumZeros([]); }
  }

  // A goroutine puts what it has in hand into the bucket, or moves on with nothing in hand.
  lemma ThreadMoves(c: Config, s: State, t: nat, th: Thread, n: nat)
    requires Conserved(c, s) && t < |s.threads| && Hand(s.threads[t]) == Hand(th) + n
    ensures s.bucket == Int32(s.tokens) && Int32(s.bucket + n) == Int32(s.tokens + n)
    ensures s.tokens + n + Unread(s) + Sum(Hands(s.threads[t := th])) == c.maxReceiveBuffer + Uncharged(s)
  {
    hide Int32, Sum;
    HandsUpdate(s.threads, t, th);
    IntSum(s.tokens, n);
  }

  lemma ThreadStepConserves(c: Config, s: State, a: Action)
    requires c.Valid() && Conserved(c, s) && Enabled(c, s, a)
    requires a.ReturnTokens? || a.Notify? || a.CloseAdd? || a.CloseNotify? || a.AllocId? || a.AbortOpen?
    ensures Conserved(c, Next(c, s, a))
  {
    hide Int32, Sum, Hands, Loads, Wrap32;
    var r := Next(c, s, a);
    var n := if a.ReturnTokens? || a.CloseAdd? then s.threads[a.t].n else 0;
    ThreadMoves(c, s, a.t, r.threads[a.t], n);
    assert s.threads[a.t := s.threads[a.t]] == s.threads;
  }

  // Registering an id of one's own sequence never replaces a stream in the map.
  lemma RegisterAdds(c: Config, s: State, t: nat)
    requires IdsOk(c, s) && Enabled(c, s, Register(t))
    ensures !Registered(s.objs, s.threads[t].sid)
    ensures PutInMap(s.objs, s.threads[t].sid) == s.objs + [Obj(s.threads[t].sid, [], true)]
  {
    assert PutInMap(s.objs, s.threads[t].sid)[..|s.objs|] == s.objs;
  }

  lemma RegisterConserves(c: Config, s: State, t: nat)
    requires c.Valid() && Inv(c, s) && Enabled(c, s, Register(t))
    ensures Conserved(c, Next(c, s, Register(t)))
  {
    hide Int32, Sum;
    RegisterAdds(c, s, t);
    LoadsAppend(s.objs, Obj(s.threads[t].sid, [], true));
    HandsUpdate(s.threads, t, Free);
    assert Sum([]) == 0 by { SumZeros([]); }
  }

  lemma StepConserves(c: Config, s: State, a: Action)
    requires c.Valid() && Inv(c, s) && Enabled(c, s, a)
    ensures Conserved(c, Next(c, s, a))
  {
    hide Int32, Sum, LocksOk, IdsOk, WakeOk;
    match a
    case RecvSyn(_) => ObjStepConserves(c, s, a);
    case RecvPush(_, _) => ObjStepConserves(c, s, a);
    case ReadSome(_, _, _) => ObjStepConserves(c, s, a);
    case CloseStream(_, _) => ObjStepConserves(c, s, a);
    case CloseDelete(_) => ObjStepConserves(c, s, a);
    case Register(t) => RegisterConserves(c, s, t);
    case RecvCharge => IntSum(s.tokens, 0 - s.recv.n);
    case ReturnTokens(_) => ThreadStepConserves(c, s, a);
    case Notify(_) => ThreadStepConserves(c, s, a);
    case CloseAdd(_) => ThreadStepConserves(c, s, a);
    case CloseNotify(_) => ThreadStepConserves(c, s, a);
    case AllocId(_) => ThreadStepConserves(c, s, a);
    case AbortOpen(_) => ThreadStepConserves(c, s, a);
    case RecvCheck =>
    case RecvWake =>
    case RecvStop =>
    case RecvOther =>
    case Keepalive =>
    case CloseSession =>
  }

  lemma StepKeepsLocks(c: Config, s: State, a: Action)
    requires LocksOk(s) && IdsOk(c, s) && Enabled(c, s, a)
    ensures LocksOk(Next(c, s, a))
  {
    hide LocksOk, IdsOk, Next;
    if a.Register? {
      RegisterKeepsLocks(c, s, a.t);
    } else if a.RecvSyn? {
      SynKeepsLocks(c, s, a.sid);
    } else if a.ReadSome? || a.CloseStream? || a.CloseDelete? || a.RecvPush? {
      ObjStepKeepsLocks(c, s, a);
    } else if a.CloseAdd? || a.CloseNotify? {
      CloseStepKeepsLocks(c, s, a);
    } else if a.ReturnTokens? || a.Notify? || a.AllocId? || a.AbortOpen? {
      ThreadStepKeepsLocks(c, s, a);
    } else {
      RecvStepKeepsLocks(c, s, a);
    }
  }

  lemma RegisterKeepsLocks(c: Config, s: State, t: nat)
    requires LocksOk(s) && IdsOk(c, s) && Enabled(c, s, Register(t))
    ensures LocksOk(Next(c, s, Register(t)))
  {
    RegisterAdds(c, s, t);
    hide IdsOk, Registered, PutInMap;
  }

  lemma SynKeepsLocks(c: Config, s: State, sid: u32)
    requires LocksOk(s) && Enabled(c, s, RecvSyn(sid))
    ensures LocksOk(Next(c, s, RecvSyn(sid)))
  {
    hide Registered;
  }

  lemma ThreadStepKeepsLocks(c: Config, s: State, a: Action)
    requires LocksOk(s) && Enabled(c, s, a) && (a.ReturnTokens? || a.Notify? || a.AllocId? || a.AbortOpen?)
    ensures LocksOk(Next(c, s, a))
  {
    hide Int32, Sum, Wrap32, Registered, PutInMap;
  }

  lemma RecvStepKeepsLocks(c: Config, s: State, a: Action)
    requires LocksOk(s) && Enabled(c, s, a)
    requires || a.RecvCheck? || a.RecvWake? || a.RecvStop? || a.RecvOther? || a.RecvCharge?
             || a.Keepalive? || a.CloseSession?
    ensures LocksOk(Next(c, s, a))
  {
    hide Int32, Sum, Registered, PutInMap;
  }

  lemma CloseStepKeepsLocks(c: Config, s: State, a: Action)
    requires LocksOk(s) && Enabled(c, s, a) && (a.CloseAdd? || a.CloseNotify?)
    ensures LocksOk(Next(c, s, a))
  {
    hide Int32, Sum, Registered, PutInMap;
  }

  lemma ObjStepKeepsLocks(c: Config, s: State, a: Action)
    requires LocksOk(s) && Enabled(c, s, a) && (a.ReadSome? || a.CloseStream? || a.CloseDelete? || a.RecvPush?)
    ensures LocksOk(Next(c, s, a))
  {
    hide Int32, Sum, Registered, PutInMap;
  }

  lemma StepKeepsIds(c: Config, s: State, a: Action)
    requires c.Valid() && IdsOk(c, s) && Enabled(c, s, a)
    ensures IdsOk(c, Next(c, s, a))
  {
    if a.Register? {
      RegisterKeepsIds(c, s, a.t);
    } else if a.RecvSyn? || a.AllocId? {
      NewIdKeepsIds(c, s, a);
    } else {
      hide IdsOk;
      OtherStepMakesNoIds(c, s, a);
      hide Next;
      NoNewIds(c, s, Next(c, s, a));
    }
  }

  ghost predicate NoIdsMade(s: State, r: State) {
    && r.nextStreamID == s.nextStreamID && r.goAway == s.goAway
    && |r.objs| == |s.objs| && |r.threads| == |s.threads|
    && (forall i :: 0 <= i < |s.objs| ==>
         r.objs[i].id == s.objs[i].id && (r.objs[i].registered ==> s.objs[i].registered))
    && (forall t :: 0 <= t < |s.threads| && r.threads[t].Opening? ==> r.threads[t] == s.threads[t])
  }

  lemma OtherStepMakesNoIds(c: Config, s: State, a: Action)
    requires Enabled(c, s, a) && !a.Register? && !a.RecvSyn? && !a.AllocId?
    ensures NoIdsMade(s, Next(c, s, a))
  {
    hide Int32, Sum, Wrap32, Registered, PutInMap, W.Taken;
  }

  lemma NoNewIds(c: Config, s: State, r: State)
    requires IdsOk(c, s) && NoIdsMade(s, r)
    ensures IdsOk(c, r)
  {
  }

  lemma RegisterKeepsIds(c: Config, s: State, t: nat)
    requires c.Valid() && IdsOk(c, s) && Enabled(c, s, Register(t))
    ensures IdsOk(c, Next(c, s, Register(t)))
  {
    RegisterAdds(c, s, t);
    hide Int32, Sum, Wrap32, PutInMap;
  }

  lemma NewIdKeepsIds(c: Config, s: State, a: Action)
    requires c.Valid() && IdsOk(c, s) && Enabled(c, s, a) && (a.RecvSyn? || a.AllocId?)
    ensures IdsOk(c, Next(c, s, a))
  {
    hide Int32, Sum;
  }

  // While recvLoop is not between a push and its charge the wrapped bucket is the true one.
  lemma BucketIsExact(c: Config, s: State)
    requires c.Valid() && Conserved(c, s) && RecvOk(s) && !s.closed && !s.recv.Pushed?
    ensures s.bucket == s.tokens <= c.maxReceiveBuffer
  {
    hide Int32;
    Int32Fits(s.tokens);
  }

  lemma StepKeepsRecv(c: Config, s: State, a: Action)
    requires c.Valid() && Conserved(c, s) && RecvOk(s) && Enabled(c, s, a)
    ensures RecvOk(Next(c, s, a))
  {
    hide Int32, Sum;
    if !s.closed && !s.recv.Pushed? {
      BucketIsExact(c, s);
    }
  }

  lemma StepKeepsWake(c: Config, s: State, a: Action)
    requires c.Valid() && Inv(c, s) && Enabled(c, s, a) && Conserved(c, Next(c, s, a)) && RecvOk(Next(c, s, a))
    ensures WakeOk(Next(c, s, a))
  {
    hide Int32, Sum, LocksOk, IdsOk;
    var r := Next(c, s, a);
    if !r.closed && r.recv.Parked? && r.tokens > 0 {
      BucketIsExact(c, r);
      BucketIsExact(c, s);
      if r.tokens > s.tokens {
        assert WillNotify(r.threads[a.t]);
      } else if !r.bucketNotify {
        var t :| 0 <= t < |s.threads| && WillNotify(s.threads[t]);
        assert r.threads[t] == s.threads[t];
      }
    }
  }

  lemma StepKeepsInv(c: Config, s: State, a: Action)
    requires c.Valid() && Inv(c, s) && Enabled(c, s, a)
    ensures Inv(c, Next(c, s, a))
  {
    hide Conserved, LocksOk, IdsOk, RecvOk, WakeOk, Next;
    StepConserves(c, s, a);
    StepKeepsLocks(c, s, a);
    StepKeepsIds(c, s, a);
    StepKeepsRecv(c, s, a);
    StepKeepsWake(c, s, a);
  }

  lemma {:induction false} RunKeepsInv(c: Config, s: State, run: seq<Action>)
    requires c.Valid() && Inv(c, s) && Exec(c, s, run).Reached?
    ensures Inv(c, Exec(c, s, run).state)
    decreases |run|
  {
    hide Inv, Next;
    if run != [] {
      StepKeepsInv(c, s, run[0]);
      RunKeepsInv(c, Next(c, s, run[0]), run[1..]);
    }
  }

  lemma ReachableInv(c: Config, s: State)
    requires c.Valid() && Reaches(c, s)
    ensures Inv(c, s)
  {
    hide Inv;
    var threads, run :| Exec(c, Init(c, threads), run) == Reached(s);
    InitInv(c, threads);
    RunKeepsInv(c, Init(c, threads), run);
  }

  // ---- Over every interleaving

  // Tokens in the bucket, unread bytes of the streams in the map and bytes taken but not yet
  // returned add up to MaxReceiveBuffer; while the session is open the bucket has not wrapped
  // wherever recvLoop looks at it, and no more than one frame beyond the limit is buffered.
  lemma TokensAreConserved(c: Config, s: State)
    requires c.Valid() && Reaches(c, s)
    ensures s.tokens + Unread(s) + InHand(s) == c.maxReceiveBuffer + Uncharged(s)
    ensures s.bucket == Int32(s.tokens)
    ensures !s.closed && !s.recv.Pushed? ==> s.bucket + Unread(s) + InHand(s) == c.maxReceiveBuffer
    ensures !s.closed ==> Unread(s) + InHand(s) <= c.maxReceiveBuffer + 65534
  {
    ReachableInv(c, s);
    hide Int32;
    if !s.closed && !s.recv.Pushed? {
      BucketIsExact(c, s);
    }
  }

  // recvLoop never sleeps on a positive bucket without a signal queued or about to be.
  lemma RecvLoopHasNoLostWakeup(c: Config, s: State)
    requires c.Valid() && Reaches(c, s) && !s.closed && s.recv.Parked? && s.bucket > 0
    ensures s.bucketNotify || exists t :: 0 <= t < |s.threads| && WillNotify(s.threads[t])
  {
    ReachableInv(c, s);
    hide Int32;
    BucketIsExact(c, s);
  }

  // The streams map keeps at most one stream per id, and OpenStream never displaces one.
  lemma StreamIdsAreUnique(c: Config, s: State)
    requires c.Valid() && Reaches(c, s)
    ensures forall i, j :: 0 <= i < j < |s.objs| && s.objs[i].registered && s.objs[j].registered ==>
              s.objs[i].id != s.objs[j].id
    ensures forall t :: 0 <= t < |s.threads| && s.threads[t].Opening? ==> !Registered(s.objs, s.threads[t].sid)
  {
    ReachableInv(c, s);
  }
}

// The sliding window of a version 2 smux stream, one direction: a writer that blocks on the
// window, the frames on the wire, a reader, and the window updates (UPD) on their way back.
// Every atomic operation, critical section and channel operation of the source is one step.
module SmuxWindow {
  import opened Words
  import opened Seqs

  const INITIAL_PEER_WINDOW: u32 := 262144

  // buffer: MaxStreamBuffer of the reading side; frame: MaxFrameSize of the writing side.
  // The bounds are those VerifyConfig enforces.
  datatype Config = Config(buffer: nat, frame: nat) {
    ghost predicate Valid() {
      1 <= buffer < I31 && 1 <= frame <= 65535
    }

    // Unannounced bytes stay below this after every read that does not announce.
    function Half(): (r: nat) {
      if buffer / 2 > 0 then buffer / 2 else 1
    }

    // The largest window the writer can ever be granted.
    function Cap(): (r: nat) {
      if buffer > INITIAL_PEER_WINDOW then buffer else INITIAL_PEER_WINDOW
    }
  }

  // Where the writing goroutine stands in writeV2. `rest` is len(b) still to be admitted,
  // `seen` the true value of the acknowledgement it loaded, `granted` the window it loaded.
  datatype Writer =
    | Idle
    | Top(rest: nat)
    | Loaded(inflight: int, seen: nat, rest: nat)
    | Sending(bts: nat, seen: nat, granted: u32, rest: nat)
    | Sent(sz: nat, bts: nat, seen: nat, granted: u32, rest: nat)
    | Parked(seen: nat, granted: u32, rest: nat)
    | ErrConsumed

  // recvLoop inside update(): nothing, peerConsumed stored, both stored and notify still due.
  datatype Updater = NoUpdate | StoredConsumed(window: u32) | StoredBoth

  // A UPD frame; `total` is the unbounded count behind `consumed`.
  datatype Upd = Upd(consumed: u32, window: u32, total: nat)

  datatype State = State(
    // writing side
    writer: Writer, numWritten: u32, peerConsumed: u32, peerWindow: u32, chUpdate: bool, updater: Updater,
    // the wire
    data: seq<nat>, upds: seq<Upd>,
    // reading side; pending is the notifyConsumed value still to be sent, 0 for none
    buffers: seq<nat>, numRead: u32, incr: u32, pending: u32,
    // unbounded counts: bytes counted in numWritten, put on the wire, acknowledged, read
    written: nat, sent: nat, acked: nat, read: nat)

  function Init(): (s: State) {
    State(Idle, 0, 0, INITIAL_PEER_WINDOW, false, NoUpdate, [], [], [], 0, 0, 0, 0, 0, 0, 0)
  }

  datatype Action =
    | StartWrite(len: nat)
    | LoadInflight
    | LoadWindow
    | Transmit
    | Advance
    | FinishRound
    | Wake
    | Deliver
    | Read(size: nat)
    | SendUpdate
    | StoreConsumed
    | StoreWindow
    | NotifyWriter

  // ---- The pieces of arithmetic the source performs

  // inflight := int32(numWritten - peerConsumed)
  function Inflight(numWritten: u32, peerConsumed: u32): (r: int) {
    Int32(numWritten - peerConsumed)
  }

  // win := int32(peerWindow) - inflight
  function Window(peerWindow: u32, inflight: int): (r: int) {
    Int32(Int32(peerWindow) - inflight)
  }

  // How many of len(b) bytes the window admits.
  function Admit(win: int, len: nat): (r: nat)
    ensures r <= len && (r > 0 ==> r <= win)
  {
    if win <= 0 then 0 else if win > len then len else win
  }

  // The wrapped counters give the true difference, negative or not, and the true window, and a round
  // fills that as far as there are bytes.
  lemma AdmitFills(written: nat, acked: nat, window: u32, len: nat)
    requires -I31 <= written - acked < I31 && window < I31
    ensures Inflight(Wrap32(written), Wrap32(acked)) == written - acked
    ensures acked <= written ==>
      var n, room := Admit(Window(window, written - acked), len), window - (written - acked);
      (room <= 0 ==> n == 0) && (0 < room <= len ==> n == room) && (room > len ==> n == len)
  {
    hide Wrap32, Int32;
    SignedDistance(written, acked);
    Int32Fits(window);
    if acked <= written {
      Int32Fits(window - (written - acked));
    }
  }

  // The counters after a reader took n bytes, and the acknowledgement it must send (0: none).
  datatype Consumed = Consumed(numRead: u32, incr: u32, notify: u32)

  function Consume(buffer: nat, numRead: u32, incr: u32, n: nat): (r: Consumed)
  {
    var nr, ic := Wrap32(numRead + n), Wrap32(incr + n);
    if ic >= buffer / 2 || nr == Wrap32(n) then Consumed(nr, 0, nr) else Consumed(nr, ic, 0)
  }

  // The window the writer would compute from the current counters.
  function CurrentWindow(s: State): (r: int) {
    Window(s.peerWindow, Inflight(s.numWritten, s.peerConsumed))
  }

  // How many bytes a read of the given size takes: tryReadv2 serves only the first buffer.
  function Taken(buffers: seq<nat>, size: nat): (r: nat) {
    if buffers == [] then 0 else if size < buffers[0] then size else buffers[0]
  }

  function DropTaken(buffers: seq<nat>, n: nat): (r: seq<nat>)
    requires buffers != [] ==> n <= buffers[0]
  {
    if buffers == [] then []
    else if n == buffers[0] then buffers[1..]
    else buffers[0 := buffers[0] - n]
  }

  // ---- Steps

  predicate Enabled(c: Config, s: State, a: Action) {
    match a
    case StartWrite(len) => s.writer.Idle? && 0 < len < I31
    case LoadInflight => s.writer.Top?
    case LoadWindow => s.writer.Loaded?
    case Transmit => s.writer.Sending? && s.writer.bts > 0 && c.frame > 0
    case Advance => s.writer.Sent?
    case FinishRound => s.writer.Sending? && s.writer.bts == 0
    case Wake => s.writer.Parked? && s.chUpdate
    case Deliver => s.data != []
    case Read(size) => size > 0 && s.pending == 0
    case SendUpdate => s.pending > 0 && c.buffer < U32
    case StoreConsumed => s.updater.NoUpdate? && s.upds != []
    case StoreWindow => s.updater.StoredConsumed?
    case NotifyWriter => s.updater.StoredBoth?
  }

  function Next(c: Config, s: State, a: Action): (r: State)
    requires Enabled(c, s, a)
  {
    match a
    case StartWrite(len) => s.(writer := Top(len))
    case LoadInflight =>
      var inflight := Inflight(s.numWritten, s.peerConsumed);
      s.(writer := if inflight < 0 then ErrConsumed else Loaded(inflight, s.acked, s.writer.rest))
    case LoadWindow =>
      var w := s.writer;
      var n := Admit(Window(s.peerWindow, w.inflight), w.rest);
      s.(writer := Sending(n, w.seen, s.peerWindow, w.rest - n))
    case Transmit =>
      var w := s.writer;
      var sz := if w.bts > c.frame then c.frame else w.bts;
      s.(writer := Sent(sz, w.bts - sz, w.seen, w.granted, w.rest), data := s.data + [sz], sent := s.sent + sz)
    case Advance =>
      var w := s.writer;
      s.(writer := Sending(w.bts, w.seen, w.granted, w.rest),
         numWritten := Wrap32(s.numWritten + w.sz), written := s.written + w.sz)
    case FinishRound =>
      var w := s.writer;
      s.(writer := if w.rest > 0 then Parked(w.seen, w.granted, w.rest) else Idle)
    case Wake => s.(writer := Top(s.writer.rest), chUpdate := false)
    case Deliver => s.(data := s.data[1..], buffers := s.buffers + [s.data[0]])
    case Read(size) =>
      var n := Taken(s.buffers, size);
      var out := Consume(c.buffer, s.numRead, s.incr, n);
      s.(buffers := DropTaken(s.buffers, n), numRead := out.numRead, incr := out.incr,
         pending := if n > 0 then out.notify else 0, read := s.read + n)
    case SendUpdate => s.(pending := 0, upds := s.upds + [Upd(s.pending, c.buffer, s.read)])
    case StoreConsumed =>
      var u := s.upds[0];
      s.(peerConsumed := u.consumed, acked := u.total, updater := StoredConsumed(u.window), upds := s.upds[1..])
    case StoreWindow => s.(peerWindow := s.updater.window, updater := StoredBoth)
    case NotifyWriter => s.(chUpdate := true, updater := NoUpdate)
  }

  // All actions of a run in order; None when one of them was not enabled.
  datatype Outcome = Reached(state: State) | Stuck

  function Exec(c: Config, s: State, run: seq<Action>): (r: Outcome)
    decreases |run|
  {
    if run == [] then Reached(s)
    else if Enabled(c, s, run[0]) then Exec(c, Next(c, s, run[0]), run[1..])
    else Stuck
  }

  // ---- The invariant

  // The unbounded count the reader has announced, whether or not the update has arrived.
  function Announced(s: State): (r: nat) {
    if s.pending > 0 then s.read
    else if s.upds != [] then s.upds[|s.upds| - 1].total
    else s.acked
  }

  // The reader's counter stands on a multiple of 2^32 past the start.
  predicate AtWrap(s: State) {
    s.read > 0 && s.read % U32 == 0
  }

  ghost predicate CountersOk(c: Config, s: State) {
    && s.numWritten == Wrap32(s.written)
    && s.peerConsumed == Wrap32(s.acked)
    && s.numRead == Wrap32(s.read)
    && s.sent == s.written + (if s.writer.Sent? then s.writer.sz else 0)
    && s.sent == s.read + Sum(s.buffers) + Sum(s.data)
    && (forall i :: 0 <= i < |s.data| ==> 1 <= s.data[i] <= c.frame)
    && (forall i :: 0 <= i < |s.buffers| ==> 1 <= s.buffers[i] <= c.frame)
  }

  // Updates on the wire carry growing counts between what is acknowledged and what is read.
  ghost predicate UpdsOk(c: Config, s: State) {
    && (forall i :: 0 <= i < |s.upds| ==>
         s.upds[i].window == c.buffer && s.upds[i].consumed == Wrap32(s.upds[i].total) && s.upds[i].total > 0)
    && (forall i, j :: 0 <= i < j < |s.upds| ==> s.upds[i].total <= s.upds[j].total)
    && (forall i :: 0 <= i < |s.upds| ==> s.acked <= s.upds[i].total <= s.read)
    && s.acked <= s.read
  }

  // What is read and not announced is in incr.
  ghost predicate AnnouncedOk(c: Config, s: State) {
    && (s.pending > 0 ==> s.pending == Wrap32(s.read))
    && (s.read > 0 ==> Announced(s) > 0)
    && s.incr < c.Half()
    && (s.read - Announced(s) == s.incr || AtWrap(s))
    && s.read - Announced(s) <= c.Half() - 1 + c.frame
  }

  ghost predicate AcksOk(c: Config, s: State) {
    UpdsOk(c, s) && AnnouncedOk(c, s)
  }

  ghost predicate WindowOk(c: Config, s: State) {
    && (s.peerWindow == c.buffer || s.peerWindow == INITIAL_PEER_WINDOW)
    && (s.updater.StoredConsumed? ==> s.updater.window == c.buffer)
    && (s.acked > 0 && !s.updater.StoredConsumed? ==> s.peerWindow == c.buffer)
  }

  // Bytes the writer may still put out in this round.
  function Budget(w: Writer): (r: nat) {
    if w.Sending? then w.bts else if w.Sent? then w.sz + w.bts else 0
  }

  // The acknowledgement and the window a writer past its loads decided on.
  ghost predicate Fresh(s: State) {
    match s.writer
    case Loaded(_, seen, _) => seen == s.acked
    case Sending(_, seen, granted, _) => seen == s.acked && granted == s.peerWindow
    case Sent(_, _, seen, granted, _) => seen == s.acked && granted == s.peerWindow
    case Parked(seen, granted, _) => seen == s.acked && granted == s.peerWindow
    case _ => true
  }

  ghost predicate WriterOk(c: Config, s: State) {
    var w := s.writer;
    && !w.ErrConsumed?
    && s.written + Budget(w) <= s.acked + c.Cap()
    && (w.Top? ==> 0 < w.rest < I31)
    && (w.Loaded? ==>
         w.seen <= s.acked && w.inflight == s.written - w.seen && 0 <= w.inflight <= c.Cap() && 0 < w.rest < I31)
    && (w.Sending? || w.Sent? || w.Parked? ==>
         w.seen <= s.acked && w.granted <= c.Cap() && w.rest < I31
         && (w.rest > 0 ==> s.written + Budget(w) >= w.seen + w.granted))
    && (w.Sent? ==> w.sz > 0)
    && (w.Parked? ==> w.rest > 0)
    && (Fresh(s) || s.chUpdate || !s.updater.NoUpdate?)
  }

  ghost predicate Inv(c: Config, s: State) {
    CountersOk(c, s) && AcksOk(c, s) && WindowOk(c, s) && WriterOk(c, s)
  }

  lemma InitInv(c: Config)
    requires c.Valid()
    ensures Inv(c, Init())
  {
    hide Sum, Int32;
    EmptySum();
  }

  lemma StartWriteKeepsInv(c: Config, s: State, a: Action)
    requires c.Valid() && Inv(c, s) && Enabled(c, s, a) && (a.StartWrite? || a.Wake? || a.FinishRound?)
    ensures Inv(c, Next(c, s, a))
  {
    hide Wrap32, Int32, Sum;
  }

  lemma LoadInflightKeepsInv(c: Config, s: State)
    requires c.Valid() && Inv(c, s) && Enabled(c, s, LoadInflight)
    ensures Inv(c, Next(c, s, LoadInflight))
  {
    hide Wrap32, Int32, Sum;
    SignedDistance(s.written, s.acked);
  }

  lemma LoadWindowKeepsInv(c: Config, s: State)
    requires c.Valid() && Inv(c, s) && Enabled(c, s, LoadWindow)
    ensures Inv(c, Next(c, s, LoadWindow))
  {
    hide Wrap32, Int32, Sum;
    Int32Fits(s.peerWindow);
    Int32Fits(s.peerWindow - s.writer.inflight);
  }

  lemma TransmitKeepsInv(c: Config, s: State)
    requires c.Valid() && Inv(c, s) && Enabled(c, s, Transmit)
    ensures Inv(c, Next(c, s, Transmit))
  {
    hide Wrap32, Int32, Sum;
    SumAppend(s.data, Next(c, s, Transmit).writer.sz);
  }

  lemma AdvanceKeepsInv(c: Config, s: State)
    requires c.Valid() && Inv(c, s) && Enabled(c, s, Advance)
    ensures Inv(c, Next(c, s, Advance))
  {
    hide Wrap32, Int32, Sum;
    WrapSum(s.written, s.writer.sz);
  }

  lemma DeliverKeepsInv(c: Config, s: State)
    requires c.Valid() && Inv(c, s) && Enabled(c, s, Deliver)
    ensures Inv(c, Next(c, s, Deliver))
  {
    hide Wrap32, Int32, Sum;
    SumSplit(s.data);
    SumAppend(s.buffers, s.data[0]);
  }

  lemma ReadKeepsInv(c: Config, s: State, size: nat)
    requires c.Valid() && Inv(c, s) && Enabled(c, s, Read(size))
    ensures Inv(c, Next(c, s, Read(size)))
  {
    hide Wrap32, Int32;
    ReadKeepsCounters(c, s, size);
    ReadKeepsAcks(c, s, size);
  }

  lemma ReadKeepsCounters(c: Config, s: State, size: nat)
    requires c.Valid() && Inv(c, s) && Enabled(c, s, Read(size))
    ensures CountersOk(c, Next(c, s, Read(size)))
  {
    hide Wrap32, Int32;
    var n := Taken(s.buffers, size);
    WrapSum(s.read, n);
    if s.buffers != [] {
      SumUpdate(s.buffers, 0, s.buffers[0] - n);
    }
  }

  lemma ReadKeepsAcks(c: Config, s: State, size: nat)
    requires c.Valid() && Inv(c, s) && Enabled(c, s, Read(size))
    ensures AcksOk(c, Next(c, s, Read(size)))
  {
    ReadKeepsAnnounced(c, s, size);
    hide AnnouncedOk, CountersOk, WindowOk, WriterOk, Consume, Wrap32;
  }

  // A read announces everything consumed so far, or leaves it all in incr, except when the
  // counter lands on a multiple of 2^32 and the announcement is lost.
  lemma ReadKeepsAnnounced(c: Config, s: State, size: nat)
    requires c.Valid() && Inv(c, s) && Enabled(c, s, Read(size))
    ensures AnnouncedOk(c, Next(c, s, Read(size)))
  {
    hide UpdsOk, WindowOk, WriterOk, Sum, Int32, Consume, Wrap32;
    var n := Taken(s.buffers, size);
    assert n <= c.frame && s.numRead == Wrap32(s.read) && s.incr < c.Half();
    hide CountersOk;
    ConsumeCases(c, s.read, s.incr, n);
    ReadAnnounces(c, s, n, Consume(c.buffer, s.numRead, s.incr, n));
  }

  lemma ReadAnnounces(c: Config, s: State, n: nat, out: Consumed)
    requires AnnouncedOk(c, s) && s.pending == 0 && n <= c.frame
    requires (out.notify == 0 && (s.read + n) % U32 != 0 ==> out.incr == s.incr + n < c.Half())
    requires (out.notify > 0 ==> out.notify == Wrap32(s.read + n) && out.incr == 0)
    requires (s.read % U32 == 0 && n > 0 ==> out.notify > 0) && (n == 0 && out.notify > 0 ==> s.incr == 0)
    requires (out.incr == 0 || out.incr == s.incr + n) && out.incr < c.Half()
    ensures AnnouncedOk(c, s.(numRead := out.numRead, incr := out.incr,
                              pending := if n > 0 then out.notify else 0, read := s.read + n))
  {
    hide Wrap32;
  }

  lemma ConsumeCases(c: Config, read: nat, incr: u32, n: nat)
    requires c.Valid() && incr < c.Half() && n <= c.frame
    ensures var out := Consume(c.buffer, Wrap32(read), incr, n);
      && out.numRead == Wrap32(read + n)
      && (out.notify == 0 && (read + n) % U32 != 0 ==> out.incr == incr + n < c.Half())
      && (out.notify > 0 ==> out.notify == Wrap32(read + n) && out.incr == 0)
      && (read % U32 == 0 && n > 0 ==> out.notify > 0)
      && (n == 0 && out.notify > 0 ==> incr == 0)
      && (out.incr == 0 || out.incr == incr + n)
      && out.incr < c.Half()
      && (incr + n < c.buffer / 2 && read % U32 != 0 ==> out.notify == 0 && out.incr == incr + n)
      && (incr + n >= c.buffer / 2 || read % U32 == 0 ==> out.notify == Wrap32(read + n) && out.incr == 0)
  {
    WrapSum(read, n);
  }

  lemma UpdateStepKeepsInv(c: Config, s: State, a: Action)
    requires c.Valid() && Inv(c, s) && Enabled(c, s, a) && (a.StoreWindow? || a.NotifyWriter?)
    ensures Inv(c, Next(c, s, a))
  {
    hide Wrap32, Int32, Sum;
  }

  lemma SendUpdateKeepsInv(c: Config, s: State)
    requires c.Valid() && Inv(c, s) && Enabled(c, s, SendUpdate)
    ensures Inv(c, Next(c, s, SendUpdate))
  {
    SendUpdateKeepsUpds(c, s);
    hide Int32, Sum, Wrap32, UpdsOk;
  }

  lemma SendUpdateKeepsUpds(c: Config, s: State)
    requires c.Valid() && Inv(c, s) && Enabled(c, s, SendUpdate)
    ensures UpdsOk(c, Next(c, s, SendUpdate))
  {
    hide Int32, Sum, Wrap32, CountersOk, WindowOk, WriterOk;
    Wrapped(0);
    assert s.read > 0;
    hide AnnouncedOk;
  }

  lemma StoreConsumedKeepsInv(c: Config, s: State)
    requires c.Valid() && Inv(c, s) && Enabled(c, s, StoreConsumed)
    ensures Inv(c, Next(c, s, StoreConsumed))
  {
    hide Wrap32, Int32, Sum;
  }

  lemma StepKeepsInv(c: Config, s: State, a: Action)
    requires c.Valid() && Inv(c, s) && Enabled(c, s, a)
    ensures Inv(c, Next(c, s, a))
  {
    hide Inv, Next;
    match a
    case StartWrite(_) => StartWriteKeepsInv(c, s, a);
    case LoadInflight => LoadInflightKeepsInv(c, s);
    case LoadWindow => LoadWindowKeepsInv(c, s);
    case Transmit => TransmitKeepsInv(c, s);
    case Advance => AdvanceKeepsInv(c, s);
    case FinishRound => StartWriteKeepsInv(c, s, a);
    case Wake => StartWriteKeepsInv(c, s, a);
    case Deliver => DeliverKeepsInv(c, s);
    case Read(size) => ReadKeepsInv(c, s, size);
    case SendUpdate => SendUpdateKeepsInv(c, s);
    case StoreConsumed => StoreConsumedKeepsInv(c, s);
    case StoreWindow => UpdateStepKeepsInv(c, s, a);
    case NotifyWriter => UpdateStepKeepsInv(c, s, a);
  }

  lemma {:induction false} RunKeepsInv(c: Config, s: State, run: seq<Action>)
    requires c.Valid() && Inv(c, s) && Exec(c, s, run).Reached?
    ensures Inv(c, Exec(c, s, run).state)
    decreases |run|
  {
    hide Inv, Next;
    if run != [] {
      StepKeepsInv(c, s, run[0]);
      RunKeepsInv(c, Next(c, s, run[0]), run[1..]);
    }
  }

  // Some run leads from the initial state to s.
  ghost predicate Reaches(c: Config, s: State) {
    exists run :: Exec(c, Init(), run) == Reached(s)
  }

  lemma ReachableInv(c: Config, s: State)
    requires c.Valid() && Reaches(c, s)
    ensures Inv(c, s)
  {
    hide Inv;
    var run :| Exec(c, Init(), run) == Reached(s);
    InitInv(c);
    RunKeepsInv(c, Init(), run);
  }

  // ---- Safety and liveness over every run

  // Bytes put on the wire and not yet read never exceed the window; ErrConsumed never happens;
  // and whenever the writer computes inflight from the wrapped counters it gets the true value.
  lemma WindowSafety(c: Config, s: State)
    requires c.Valid() && Reaches(c, s)
    ensures 0 <= s.sent - s.read <= c.Cap()
    ensures s.sent - s.read == Sum(s.data) + Sum(s.buffers)
    ensures !s.writer.ErrConsumed?
    ensures !s.writer.Sent? ==> Inflight(s.numWritten, s.peerConsumed) == s.written - s.acked >= 0
  {
    ReachableInv(c, s);
    hide Wrap32, Int32, Sum;
    if !s.writer.Sent? {
      SignedDistance(s.written, s.acked);
    }
  }

  // A parked writer whose window is open has a notification queued or on its way.
  lemma WriterHasNoLostWakeup(c: Config, s: State)
    requires c.Valid() && Reaches(c, s) && s.writer.Parked? && CurrentWindow(s) > 0
    ensures s.chUpdate || !s.updater.NoUpdate?
  {
    ReachableInv(c, s);
    hide Wrap32, Int32, Sum;
    SignedDistance(s.written, s.acked);
    Int32Fits(s.peerWindow);
    Int32Fits(s.peerWindow - (s.written - s.acked));
  }

  // Everything sent was read, and no window update is pending, on the wire or being applied.
  predicate Drained(s: State) {
    s.data == [] && s.buffers == [] && s.pending == 0 && s.upds == [] && s.updater.NoUpdate?
  }

  // Once everything is drained the writer's window is open, unless the reader's counter has
  // just wrapped to zero; a frame size of at most half the buffer rules out that case too.
  lemma DrainedWindowIsOpen(c: Config, s: State)
    requires c.Valid() && Reaches(c, s) && Drained(s) && !s.writer.Sent?
    requires !AtWrap(s) || c.frame + c.Half() <= c.buffer
    ensures CurrentWindow(s) > 0
  {
    ReachableInv(c, s);
    DrainedGap(c, s);
    hide *;
    OpenWindow(s);
  }

  // With everything drained, what is unacknowledged is less than the window.
  lemma DrainedGap(c: Config, s: State)
    requires c.Valid() && Inv(c, s) && Drained(s) && !s.writer.Sent?
    requires !AtWrap(s) || c.frame + c.Half() <= c.buffer
    ensures s.numWritten == Wrap32(s.written) && s.peerConsumed == Wrap32(s.acked)
    ensures 0 <= s.written - s.acked < s.peerWindow < I31
  {
    hide Wrap32, WriterOk;
    assert s.sent == s.read == s.written;
  }

  lemma OpenWindow(s: State)
    requires s.numWritten == Wrap32(s.written) && s.peerConsumed == Wrap32(s.acked)
    requires 0 <= s.written - s.acked < s.peerWindow < I31
    ensures CurrentWindow(s) > 0
  {
    hide Wrap32, Int32;
    SignedDistance(s.written, s.acked);
    Int32Fits(s.peerWindow);
    Int32Fits(s.peerWindow - (s.written - s.acked));
  }

  // ---- Exactly which configurations can deadlock

  // The writer waits for an update that nobody will send.
  predicate Dead(s: State) {
    s.writer.Parked? && !s.chUpdate && Drained(s)
  }

  lemma DeadStaysDead(c: Config, s: State, a: Action)
    requires Dead(s) && Enabled(c, s, a)
    ensures Dead(Next(c, s, a))
  {
  }

  lemma {:induction false} ExecThenStep(c: Config, s: State, run: seq<Action>, a: Action)
    requires Exec(c, s, run).Reached? && Enabled(c, Exec(c, s, run).state, a)
    ensures Exec(c, s, run + [a]) == Reached(Next(c, Exec(c, s, run).state, a))
    decreases |run|
  {
    hide Next, Enabled;
    if run == [] {
      assert (run + [a])[1..] == [];
      var t := Next(c, s, a);
      assert Exec(c, t, []) == Reached(t);
    } else {
      assert (run + [a])[1..] == run[1..] + [a];
      ExecThenStep(c, Next(c, s, run[0]), run[1..], a);
    }
  }

  lemma Step(c: Config, s: State, a: Action) returns (t: State)
    requires Reaches(c, s) && Enabled(c, s, a)
    ensures Reaches(c, t) && t == Next(c, s, a)
  {
    var run :| Exec(c, Init(), run) == Reached(s);
    ExecThenStep(c, Init(), run, a);
    t := Next(c, s, a);
  }

  // Idle and drained after r bytes, the last u of them unannounced.
  ghost predicate Rest(c: Config, s: State, r: nat, u: nat) {
    && Reaches(c, s) && Drained(s) && s.writer.Idle?
    && u <= r && s.written == s.sent == s.read == r && s.acked == r - u
    && s.numWritten == s.numRead == Wrap32(r) && s.peerConsumed == Wrap32(r - u)
    && s.peerWindow == (if r == 0 then INITIAL_PEER_WINDOW else c.buffer)
  }

  lemma InitRests(c: Config)
    ensures Rest(c, Init(), 0, 0)
  {
    assert Exec(c, Init(), []) == Reached(Init());
  }

  // Write one frame of n bytes and have it delivered.
  lemma SendFrame(c: Config, s: State, r: nat, u: nat, n: nat) returns (t: State)
    requires c.Valid() && Rest(c, s, r, u) && 1 <= n <= c.frame && u + n <= s.peerWindow
    ensures Reaches(c, t) && t == s.(buffers := [n], numWritten := Wrap32(r + n), written := r + n, sent := r + n)
  {
    hide Wrap32, Int32, Sum, Reaches;
    SignedDistance(r, r - u);
    Int32Fits(s.peerWindow);
    Int32Fits(s.peerWindow - u);
    WrapSum(r, n);
    t := Step(c, s, StartWrite(n));
    t := Step(c, t, LoadInflight);
    t := Step(c, t, LoadWindow);
    t := Step(c, t, Transmit);
    t := Step(c, t, Advance);
    t := Step(c, t, FinishRound);
    t := Step(c, t, Deliver);
    assert t.data == [] && t.buffers == [n];
  }

  lemma ConsumeBelowWrap(c: Config, r: nat, u: nat, n: nat)
    requires c.Valid() && u < c.Half() && 1 <= n <= c.frame && r + n < U32
    ensures Consume(c.buffer, Wrap32(r), u, n)
            == if u + n >= c.buffer / 2 || r == 0 then Consumed(r + n, 0, r + n) else Consumed(r + n, u + n, 0)
    ensures Wrap32(r + n) == r + n
  {
  }

  // Send n bytes and read them in one go; what was unannounced is announced or grows.
  lemma Push(c: Config, s: State, r: nat, u: nat, n: nat) returns (t: State)
    requires c.Valid() && Rest(c, s, r, u) && s.incr == u < c.Half()
    requires 1 <= n <= c.frame && u + n <= s.peerWindow && r + n < U32
    ensures var v := if u + n >= c.buffer / 2 || r == 0 then 0 else u + n;
      Rest(c, t, r + n, v) && t.incr == v
  {
    hide Int32, Sum, Reaches, Wrap32, Consume;
    ConsumeBelowWrap(c, r, u, n);
    t := SendFrame(c, s, r, u, n);
    t := Step(c, t, Read(n));
    assert t.buffers == [];
    if u + n >= c.buffer / 2 || r == 0 {
      t := Step(c, t, SendUpdate);
      t := Step(c, t, StoreConsumed);
      t := Step(c, t, StoreWindow);
      t := Step(c, t, NotifyWriter);
    }
  }

  // With frames larger than half the buffer, every count from one half on can be reached with
  // all of it announced.
  lemma {:induction false} AnnouncedAt(c: Config, r: nat) returns (s: State)
    requires c.Valid() && c.frame + c.Half() > c.buffer
    requires r == 1 || 1 + c.Half() <= r < U32
    ensures Rest(c, s, r, 0) && s.incr == 0
    decreases r
  {
    hide Wrap32, Int32, Reaches;
    var h := c.Half();
    if r == 1 {
      InitRests(c);
      s := Push(c, Init(), 0, 0, 1);
    } else if r - h == 1 || 1 + h <= r - h {
      s := AnnouncedAt(c, r - h);
      s := Push(c, s, r - h, 0, h);
    } else {
      s := AnnouncedAt(c, 1);
      s := Push(c, s, 1, 0, r - h - 1);
      s := Push(c, s, r - h, r - h - 1, h);
    }
  }

  // The last buffer before 2^32 is read with its announcement lost: nothing is left to read,
  // a whole window is unacknowledged.
  lemma LoseAnnouncement(c: Config) returns (s: State)
    requires c.Valid() && c.frame + c.Half() > c.buffer
    ensures Rest(c, s, U32, c.buffer)
  {
    hide Int32, Reaches;
    var h, m := c.Half(), c.buffer;
    s := AnnouncedAt(c, U32 - m);
    if h > 1 {
      s := Push(c, s, U32 - m, 0, h - 1);
    }
    s := LastRead(c, s);
  }

  lemma LastRead(c: Config, s: State) returns (t: State)
    requires c.Valid() && c.frame + c.Half() > c.buffer
    requires Rest(c, s, U32 - c.buffer + c.Half() - 1, c.Half() - 1) && s.incr == c.Half() - 1
    ensures Rest(c, t, U32, c.buffer)
  {
    hide Int32, Reaches;
    var h, m := c.Half(), c.buffer;
    t := SendFrame(c, s, U32 - m + h - 1, h - 1, m - h + 1);
    t := Step(c, t, Read(m - h + 1));
  }

  // A write of one byte against a closed window parks.
  lemma RoundParks(c: Config, s: State) returns (t: State)
    requires c.Valid() && Reaches(c, s) && s.writer.Top? && s.writer.rest > 0 && CurrentWindow(s) <= 0
    requires Inflight(s.numWritten, s.peerConsumed) >= 0
    ensures Reaches(c, t) && t.writer.Parked? && t.writer.rest == s.writer.rest && t == s.(writer := t.writer)
  {
    hide Wrap32, Int32, Reaches;
    t := Step(c, s, LoadInflight);
    t := Step(c, t, LoadWindow);
    t := Step(c, t, FinishRound);
  }

  lemma Stall(c: Config) returns (s: State)
    requires c.Valid() && c.frame + c.Half() > c.buffer
    ensures Reaches(c, s) && Dead(s)
  {
    hide Wrap32, Int32, Reaches;
    s := LoseAnnouncement(c);
    SignedDistance(U32, U32 - c.buffer);
    Int32Fits(c.buffer);
    Int32Fits(0);
    s := Step(c, s, StartWrite(1));
    s := RoundParks(c, s);
    if s.chUpdate {
      s := Step(c, s, Wake);
      s := RoundParks(c, s);
    }
  }

  // Some run of a version 2 stream ends in a writer that can never continue, although its
  // peer has read every byte, exactly when frames may be larger than the buffer minus half
  // of it. The default configuration (32768 and 65536) is just inside the safe side.
  lemma DeadlockIff(c: Config)
    requires c.Valid()
    ensures (exists s :: Reaches(c, s) && Dead(s)) <==> c.frame + c.Half() > c.buffer
  {
    hide Wrap32, Int32;
    if c.frame + c.Half() > c.buffer {
      var s := Stall(c);
    } else if s :| Reaches(c, s) && Dead(s) {
      DrainedWindowIsOpen(c, s);
      WriterHasNoLostWakeup(c, s);
    }
  }
}

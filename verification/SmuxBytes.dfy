// The bytes of a version 2 smux stream: the state machine of the flow control, with the contents
// of frames and buffers in place of their lengths.
module SmuxBytes {
  import opened Words
  import opened Seqs
  import W = SmuxWindow
  import opened SmuxStream

  // rest: bytes of the present write that are not on the wire yet. wrote and got: everything
  // handed to Write and returned by Read so far.
  datatype State = State(
    w: W.State, rest: seq<byte>, data: seq<seq<byte>>, buffers: seq<seq<byte>>, wrote: seq<byte>, got: seq<byte>)

  function Init(): (s: State) {
    State(W.Init(), [], [], [], [], [])
  }

  // A write with its bytes, or another step.
  datatype Action = Write(b: seq<byte>) | Other(a: W.Action)

  function Flow(a: Action): (r: W.Action) {
    match a
    case Write(b) => W.StartWrite(|b|)
    case Other(x) => x
  }

  predicate Enabled(c: W.Config, s: State, a: Action) {
    W.Enabled(c, s.w, Flow(a)) && (a.Other? ==> !a.a.StartWrite?)
  }

  // Bytes the writer has still to put out.
  function Left(w: W.Writer): (r: nat) {
    match w
    case Top(rest) => rest
    case Loaded(_, _, rest) => rest
    case Sending(bts, _, _, rest) => bts + rest
    case Sent(_, bts, _, _, rest) => bts + rest
    case Parked(_, _, rest) => rest
    case _ => 0
  }

  // The contents have the lengths that the flow control counts.
  ghost predicate Matches(s: State) {
    && Lengths(s.data) == s.w.data && Lengths(s.buffers) == s.w.buffers
    && (!s.w.writer.ErrConsumed? ==> |s.rest| == Left(s.w.writer))
  }

  function Next(c: W.Config, s: State, a: Action): (r: State)
    requires Enabled(c, s, a) && Matches(s)
  {
    var w := W.Next(c, s.w, Flow(a));
    match a
    case Write(b) => s.(w := w, rest := b, wrote := s.wrote + b)
    case Other(x) =>
      match x
      case Transmit =>
        var sz := w.writer.sz;
        s.(w := w, rest := s.rest[sz..], data := s.data + [s.rest[..sz]])
      case Deliver => s.(w := w, data := s.data[1..], buffers := s.buffers + [s.data[0]])
      case Read(size) =>
        if s.buffers == [] then s.(w := w)
        else
          var n := if size < |s.buffers[0]| then size else |s.buffers[0]|;
          s.(w := w, got := s.got + s.buffers[0][..n],
             buffers := if n == |s.buffers[0]| then s.buffers[1..] else s.buffers[0 := s.buffers[0][n..]])
      case _ => s.(w := w)
  }

  datatype Outcome = Reached(state: State) | Stuck

  ghost function Exec(c: W.Config, s: State, run: seq<Action>): (r: Outcome)
    decreases |run|
  {
    if run == [] then Reached(s)
    else if Enabled(c, s, run[0]) && Matches(s) then Exec(c, Next(c, s, run[0]), run[1..])
    else Stuck
  }

  // ---- Contents and lengths stay together

  lemma NextMatches(c: W.Config, s: State, a: Action)
    requires Enabled(c, s, a) && Matches(s)
    ensures Matches(Next(c, s, a))
  {
    hide W.Consume, Wrap32, Int32;
    var r := Next(c, s, a);
    if a.Other? && a.a.Transmit? {
      assert Lengths(r.data) == r.w.data;
    } else if a.Other? && a.a.Deliver? {
      assert Lengths(r.data) == r.w.data && Lengths(r.buffers) == r.w.buffers;
    } else if a.Other? && a.a.Read? {
      assert Lengths(r.buffers) == r.w.buffers;
    }
  }

  // Writes come with their bytes.
  predicate WritesHaveBytes(run: seq<Action>) {
    forall i :: 0 <= i < |run| && run[i].Other? ==> !run[i].a.StartWrite?
  }

  // With any bytes a run goes exactly where it goes in the flow control alone.
  lemma {:induction false} RunsProject(c: W.Config, s: State, run: seq<Action>)
    requires Matches(s) && WritesHaveBytes(run)
    ensures Exec(c, s, run).Reached? <==> W.Exec(c, s.w, Flows(run)).Reached?
    ensures Exec(c, s, run).Reached? ==> Matches(Exec(c, s, run).state)
    ensures Exec(c, s, run).Reached? ==> W.Exec(c, s.w, Flows(run)) == W.Reached(Exec(c, s, run).state.w)
    decreases |run|
  {
    if run != [] {
      assert Flows(run)[0] == Flow(run[0]) && Flows(run)[1..] == Flows(run[1..]);
      if Enabled(c, s, run[0]) {
        NextMatches(c, s, run[0]);
        NextProjects(c, s, run[0]);
        hide Next, Matches;
        RunsProject(c, Next(c, s, run[0]), run[1..]);
      }
    }
  }

  lemma NextProjects(c: W.Config, s: State, a: Action)
    requires Enabled(c, s, a) && Matches(s)
    ensures Next(c, s, a).w == W.Next(c, s.w, Flow(a))
  {
    hide W.Next;
  }

  function Flows(run: seq<Action>): (r: seq<W.Action>)
    ensures |r| == |run| && forall i :: 0 <= i < |run| ==> r[i] == Flow(run[i])
  {
    seq(|run|, i requires 0 <= i < |run| => Flow(run[i]))
  }

  // A read with room takes bytes that are there: as many of the first buffer as it has room for.
  lemma ReadTakes(c: W.Config, s: State, size: nat)
    requires Enabled(c, s, Other(W.Read(size))) && Matches(s) && s.buffers != []
    ensures var r, n := Next(c, s, Other(W.Read(size))), Least(size, |s.buffers[0]|);
      && r.got == s.got + s.buffers[0][..n] && r.w.read == s.w.read + n
      && Flatten(s.buffers) == s.buffers[0][..n] + Flatten(r.buffers)
  {
    hide W.Consume, Wrap32, Int32, Flatten;
    var n := Least(size, |s.buffers[0]|);
    ReadKeepsTrail([], s.buffers, n);
    assert [] + s.buffers[0][..n] == s.buffers[0][..n] && [] + Flatten(s.buffers) == Flatten(s.buffers);
    assert Lengths(s.buffers)[0] == |s.buffers[0]|;
  }

  // ---- Nothing is lost, doubled or reordered

  // The bytes read, buffered, on the wire and still to be sent, in this order.
  function Trail(s: State): (r: seq<byte>) {
    s.got + Flatten(s.buffers) + Flatten(s.data) + s.rest
  }

  lemma {:induction false} StepKeepsTrail(c: W.Config, s: State, a: Action)
    requires Enabled(c, s, a) && Matches(s) && Trail(s) == s.wrote
    ensures Trail(Next(c, s, a)) == Next(c, s, a).wrote
  {
    hide W.Consume, Wrap32, Int32, Flatten;
    var r := Next(c, s, a);
    match a
    case Write(b) =>
      assert s.rest == [];
    case Other(x) =>
      if x.Transmit? {
        TransmitKeepsTrail(s, r.w.writer.sz);
      } else if x.Deliver? {
        DeliverKeepsTrail(s);
      } else if x.Read? && s.buffers != [] {
        var n := if x.size < |s.buffers[0]| then x.size else |s.buffers[0]|;
        ReadKeepsTrail(s.got, s.buffers, n);
      }
  }

  lemma TransmitKeepsTrail(s: State, sz: nat)
    requires sz <= |s.rest|
    ensures var x := s.got + Flatten(s.buffers);
      x + Flatten(s.data + [s.rest[..sz]]) + s.rest[sz..] == x + Flatten(s.data) + s.rest
  {
    hide Flatten;
    FlattenAppend(s.data, s.rest[..sz]);
    MovedOver(s.got + Flatten(s.buffers), Flatten(s.data), s.rest, sz);
  }

  lemma MovedOver(x: seq<byte>, y: seq<byte>, z: seq<byte>, n: nat)
    requires n <= |z|
    ensures x + (y + z[..n]) + z[n..] == x + y + z
  {
    assert z == z[..n] + z[n..];
  }

  lemma DeliverKeepsTrail(s: State)
    requires s.data != []
    ensures s.got + Flatten(s.buffers + [s.data[0]]) + Flatten(s.data[1..])
            == s.got + Flatten(s.buffers) + Flatten(s.data)
  {
    FlattenAppend(s.buffers, s.data[0]);
    assert Flatten(s.data) == s.data[0] + Flatten(s.data[1..]);
    hide Flatten;
  }

  lemma ReadKeepsTrail(got: seq<byte>, buffers: seq<seq<byte>>, n: nat)
    requires buffers != [] && n <= |buffers[0]|
    ensures var left := if n == |buffers[0]| then buffers[1..] else buffers[0 := buffers[0][n..]];
      got + buffers[0][..n] + Flatten(left) == got + Flatten(buffers)
  {
    var b := buffers[0];
    assert b == b[..n] + b[n..];
    assert Flatten(buffers) == b + Flatten(buffers[1..]);
    if n < |b| {
      assert buffers[0 := b[n..]][1..] == buffers[1..];
      assert Flatten(buffers[0 := b[n..]]) == b[n..] + Flatten(buffers[1..]);
    }
  }

  lemma {:induction false} RunKeepsTrail(c: W.Config, s: State, run: seq<Action>)
    requires Matches(s) && Trail(s) == s.wrote && Exec(c, s, run).Reached?
    ensures Matches(Exec(c, s, run).state) && Trail(Exec(c, s, run).state) == Exec(c, s, run).state.wrote
    decreases |run|
  {
    if run != [] {
      NextMatches(c, s, run[0]);
      StepKeepsTrail(c, s, run[0]);
      hide Next, Matches, Trail;
      RunKeepsTrail(c, Next(c, s, run[0]), run[1..]);
    }
  }

  // In every interleaving the bytes read, those buffered, those on the wire and those the writer
  // has left make up the bytes written, in order: what is read is a prefix of what was written,
  // and all of it once nothing is left on the way.
  lemma BytesArriveInOrder(c: W.Config, run: seq<Action>)
    requires Exec(c, Init(), run).Reached?
    ensures var s := Exec(c, Init(), run).state;
      && s.got + Flatten(s.buffers) + Flatten(s.data) + s.rest == s.wrote
      && s.got <= s.wrote
      && (s.w.data == [] && s.w.buffers == [] && s.w.writer.Idle? ==> s.got == s.wrote)
  {
    RunKeepsTrail(c, Init(), run);
    hide Exec;
    var s := Exec(c, Init(), run).state;
    assert s.w.data == [] ==> s.data == [];
    assert s.w.buffers == [] ==> s.buffers == [];
    PartsPrefix(s.got, Flatten(s.buffers), Flatten(s.data), s.rest);
  }

  lemma PartsPrefix(a: seq<byte>, b: seq<byte>, c: seq<byte>, d: seq<byte>)
    ensures a <= a + b + c + d
    ensures b == c == d == [] ==> a + b + c + d == a
  {
    assert a + b + c + d == a + (b + c + d);
  }
}

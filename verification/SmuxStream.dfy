// One smux stream as the object it is in the source: the critical sections of reading, writing
// and updating, tied to the functions the state machines of SmuxWindow and SmuxTokens step with.
module SmuxStream {
  import opened Words
  import opened Seqs
  import W = SmuxWindow

  function Lengths(s: seq<seq<byte>>): (r: seq<nat>)
    ensures |r| == |s| && forall i :: 0 <= i < |s| ==> r[i] == |s[i]|
  {
    seq(|s|, i requires 0 <= i < |s| => |s[i]|)
  }

  lemma {:induction false} FlattenLength(s: seq<seq<byte>>)
    ensures |Flatten(s)| == Sum(Lengths(s))
  {
    if s != [] {
      FlattenLength(s[1..]);
      assert Lengths(s)[1..] == Lengths(s[1..]);
    }
  }

  // A byte string cut into frames: in order, complete, all of them full but the last, which has
  // at least a byte.
  ghost predicate IsSplit(bts: seq<byte>, frames: seq<seq<byte>>, frame: nat) {
    && Flatten(frames) == bts
    && (forall i :: 0 <= i < |frames| ==> 1 <= |frames[i]| <= frame)
    && forall i :: 0 <= i < |frames| - 1 ==> |frames[i]| == frame
  }

  datatype ReadStatus = Done | WouldBlock | Eof

  class Stream {
    const version: nat
    const frameSize: nat
    const maxStreamBuffer: nat
    var buffers: seq<seq<byte>>
    var died: bool
    var numRead: u32
    var incr: u32
    var numWritten: u32
    var peerConsumed: u32
    var peerWindow: u32
    var chUpdate: bool

    // recvLoop drops empty data frames, so no buffer is ever empty.
    ghost predicate Valid()
      reads this
    {
      && (version == 1 || version == 2) && 1 <= frameSize <= 65535 && 1 <= maxStreamBuffer < I31
      && forall i :: 0 <= i < |buffers| ==> buffers[i] != []
    }

    constructor (version: nat, frameSize: nat, maxStreamBuffer: nat)
      requires version == 1 || version == 2
      requires 1 <= frameSize <= 65535 && 1 <= maxStreamBuffer < I31
      ensures Valid() && this.version == version
      ensures this.frameSize == frameSize && this.maxStreamBuffer == maxStreamBuffer
      ensures buffers == [] && !died && numRead == incr == numWritten == peerConsumed == 0
      ensures peerWindow == W.INITIAL_PEER_WINDOW && !chUpdate
    {
      this.version, this.frameSize, this.maxStreamBuffer := version, frameSize, maxStreamBuffer;
      buffers, died, numRead, incr, numWritten, peerConsumed := [], false, 0, 0, 0, 0;
      peerWindow, chUpdate := W.INITIAL_PEER_WINDOW, false;
    }

    method PushBytes(buf: seq<byte>)
      requires Valid() && buf != []
      modifies `buffers
      ensures Valid()
      ensures Flatten(buffers) == old(Flatten(buffers)) + buf
      ensures Lengths(buffers) == old(Lengths(buffers)) + [|buf|]
    {
      FlattenAppend(buffers, buf);
      buffers := buffers + [buf];
    }

    // The copy at the top of both versions of tryRead.
    method CopyOut(b: array<byte>) returns (n: nat)
      requires Valid()
      modifies b, `buffers
      ensures Valid() && n == W.Taken(old(Lengths(buffers)), b.Length) <= b.Length
      ensures old(Flatten(buffers)) == b[..n] + Flatten(buffers) && b[n..] == old(b[..])[n..]
      ensures Lengths(buffers) == W.DropTaken(old(Lengths(buffers)), n)
      ensures n == if old(buffers) == [] then 0 else Least(b.Length, |old(buffers)[0]|)
    {
      n := 0;
      if |buffers| > 0 {
        ghost var before := buffers;
        var first := buffers[0];
        n := if b.Length < |first| then b.Length else |first|;
        forall i | 0 <= i < n {
          b[i] := first[i];
        }
        assert b[..n] == first[..n];
        if n == |first| {
          buffers := buffers[1..];
          assert Lengths(buffers) == Lengths(before)[1..];
        } else {
          buffers := buffers[0 := first[n..]];
          assert first == first[..n] + first[n..];
          assert buffers[1..] == before[1..];
          assert Lengths(buffers) == Lengths(before)[0 := |first| - n];
        }
      }
    }

    // The window accounting of tryReadv2 and writeTov2.
    method CountRead(n: nat) returns (notify: u32)
      modifies `numRead, `incr
      ensures var out := W.Consume(maxStreamBuffer, old(numRead), old(incr), n);
        numRead == out.numRead && incr == out.incr && notify == out.notify
    {
      notify := 0;
      numRead, incr := Wrap32(numRead + n), Wrap32(incr + n);
      if incr >= maxStreamBuffer / 2 || numRead == Wrap32(n) {
        notify := numRead;
        incr := 0;
      }
    }

    // One non-blocking read. `tokens` is what returnTokens is called with afterwards (0: not
    // called), `notify` the acknowledgement sendWindowUpdate is called with (0: not called).
    method TryRead(b: array<byte>) returns (n: nat, status: ReadStatus, tokens: nat, notify: u32)
      requires Valid()
      modifies b, `buffers, `numRead, `incr
      ensures Valid()
      ensures n == W.Taken(old(Lengths(buffers)), b.Length) <= b.Length && tokens == n
      ensures n == if old(buffers) == [] then 0 else Least(b.Length, |old(buffers)[0]|)
      ensures status == (if b.Length == 0 || old(buffers) != [] then Done else if died then Eof else WouldBlock)
      ensures old(Flatten(buffers)) == b[..n] + Flatten(buffers) && b[n..] == old(b[..])[n..]
      ensures Lengths(buffers) == W.DropTaken(old(Lengths(buffers)), n)
      ensures version == 2 && b.Length > 0 ==>
        var out := W.Consume(maxStreamBuffer, old(numRead), old(incr), n);
        numRead == out.numRead && incr == out.incr && notify == (if n > 0 then out.notify else 0)
      ensures version == 1 || b.Length == 0 ==> numRead == old(numRead) && incr == old(incr) && notify == 0
    {
      n, status, tokens, notify := 0, Done, 0, 0;
      if b.Length == 0 {
        assert b[..0] + Flatten(buffers) == Flatten(buffers);
        return;
      }
      n := CopyOut(b);
      if version == 2 {
        notify := CountRead(n);
      }
      if n > 0 {
        tokens := n;
      } else {
        notify := 0;
        status := if died then Eof else WouldBlock;
      }
    }

    // What one turn of WriteTo hands to its writer: a whole buffer, or nothing.
    method TakeBuffer() returns (buf: seq<byte>, notify: u32)
      requires Valid()
      modifies `buffers, `numRead, `incr
      ensures Valid()
      ensures old(Flatten(buffers)) == buf + Flatten(buffers)
      ensures |buf| == if old(buffers) == [] then 0 else old(Lengths(buffers))[0]
      ensures Lengths(buffers) == W.DropTaken(old(Lengths(buffers)), |buf|)
      ensures version == 2 ==>
        var out := W.Consume(maxStreamBuffer, old(numRead), old(incr), |buf|);
        numRead == out.numRead && incr == out.incr && notify == (if |buf| > 0 then out.notify else 0)
      ensures version == 1 ==> numRead == old(numRead) && incr == old(incr) && notify == 0
    {
      buf, notify := [], 0;
      if |buffers| > 0 {
        buf := buffers[0];
        assert Lengths(buffers[1..]) == Lengths(buffers)[1..];
        buffers := buffers[1..];
      }
      if version == 2 {
        notify := CountRead(|buf|);
        notify := if buf == [] then 0 else notify;
      }
    }

    // One round of writeV2, from the load of the counters to the point where it returns or
    // waits on chUpdate. `frames` go out in order as PSH frames.
    method WriteRound(b: seq<byte>) returns (frames: seq<seq<byte>>, rest: seq<byte>, errConsumed: bool)
      requires Valid() && |b| < I31
      modifies `numWritten
      ensures var inflight := W.Inflight(old(numWritten), peerConsumed);
        if inflight < 0 then errConsumed && frames == [] && rest == b && numWritten == old(numWritten)
        else
          var n := W.Admit(W.Window(peerWindow, inflight), |b|);
          && !errConsumed && IsSplit(b[..n], frames, frameSize) && rest == b[n..]
          && numWritten == Wrap32(old(numWritten) + n)
    {
      frames, rest, errConsumed := [], b, false;
      var inflight := Int32(numWritten - peerConsumed);
      if inflight < 0 {
        errConsumed := true;
        return;
      }
      var win := Int32(Int32(peerWindow) - inflight);
      if win > 0 {
        var bts: seq<byte>;
        if win > |b| {
          bts, rest := b, [];
        } else {
          bts, rest := b[..win], b[win..];
        }
        frames := SendFrames(bts);
      }
    }

    method SendFrames(all: seq<byte>) returns (frames: seq<seq<byte>>)
      requires Valid()
      modifies `numWritten
      ensures IsSplit(all, frames, frameSize)
      ensures numWritten == Wrap32(old(numWritten) + |all|)
    {
      hide Wrap32;
      frames := [];
      var bts := all;
      ghost var sent: seq<byte> := [];
      assert Wrap32(old(numWritten)) == numWritten by { Wrapped(numWritten); }
      while |bts| > 0
        invariant IsSplit(sent, frames, frameSize) && sent + bts == all
        invariant |bts| > 0 && frames != [] ==> |frames[|frames| - 1]| == frameSize
        invariant numWritten == Wrap32(old(numWritten) + |sent|)
      {
        var sz := |bts|;
        if sz > frameSize {
          sz := frameSize;
        }
        FlattenAppend(frames, bts[..sz]);
        WrapSum(old(numWritten) + |sent|, sz);
        frames := frames + [bts[..sz]];
        sent := sent + bts[..sz];
        bts := bts[sz..];
        numWritten := Wrap32(numWritten + sz);
      }
    }

    // The bytes still buffered become tokens again; the buffers are dropped.
    method RecycleTokens() returns (n: nat)
      requires Valid()
      modifies `buffers
      ensures Valid() && buffers == []
      ensures n == old(|Flatten(buffers)|) == old(Sum(Lengths(buffers)))
    {
      n := 0;
      var k := 0;
      while k < |buffers|
        invariant 0 <= k <= |buffers| && buffers == old(buffers)
        invariant n == |Flatten(buffers[..k])|
      {
        FlattenAppend(buffers[..k], buffers[k]);
        assert buffers[..k] + [buffers[k]] == buffers[..k + 1];
        n := n + |buffers[k]|;
        k := k + 1;
      }
      assert buffers[..k] == old(buffers);
      FlattenLength(old(buffers));
      buffers := [];
    }

    // The writing side of the state machine stands for this stream.
    ghost predicate Writes(st: W.State)
      reads this
    {
      peerConsumed == st.peerConsumed && peerWindow == st.peerWindow && chUpdate == st.chUpdate
    }

    // update: the three steps by which the state machine takes a UPD frame off the wire.
    method Update(consumed: u32, window: u32, ghost c: W.Config, ghost st: W.State) returns (ghost r: W.State)
      requires Valid() && Writes(st) && st.updater.NoUpdate?
      requires st.upds != [] && st.upds[0].consumed == consumed && st.upds[0].window == window
      modifies `peerConsumed, `peerWindow, `chUpdate
      ensures Valid() && peerConsumed == consumed && peerWindow == window && chUpdate
      ensures W.Exec(c, st, [W.StoreConsumed, W.StoreWindow, W.NotifyWriter]) == W.Reached(r) && Writes(r)
    {
      ghost var s1 := W.Next(c, st, W.StoreConsumed);
      peerConsumed := consumed;
      ghost var s2 := W.Next(c, s1, W.StoreWindow);
      peerWindow := window;
      r := W.Next(c, s2, W.NotifyWriter);
      chUpdate := true;
      assert W.Exec(c, r, []) == W.Reached(r);
      assert W.Exec(c, s2, [W.NotifyWriter]) == W.Reached(r);
      assert W.Exec(c, s1, [W.StoreWindow, W.NotifyWriter]) == W.Reached(r);
    }
  }
}

// The shadowsocks AEAD stream: a writer that seals length and payload of every chunk, a reader
// that opens them and serves reads of any size, and the counter both use as nonce.
module ShadowAead {
  import opened Words
  import opened Bytes
  import opened Seqs
  import BufferPool

  const MAX_PAYLOAD := 0x3FFF
  const BUF_SIZE := 17 * 1024
  const BUF_CAP := 32768

  // What slice expressions on a buffer of that size are bounded by.
  lemma BufCapIs()
    ensures BufferPool.Cap(BUF_SIZE) == BUF_CAP
  {
    BufferPool.Sixteen();
    BufferPool.CapIsLeast(BUF_SIZE, 15);
  }

  // ---- The nonce: a little-endian counter

  function Pow256(n: nat): (r: nat)
    ensures r > 0
  {
    if n == 0 then 1 else 256 * Pow256(n - 1)
  }

  function Value(s: seq<byte>): (r: nat) {
    if s == [] then 0 else s[0] as int + 256 * Value(s[1..])
  }

  function Increment(s: seq<byte>): (r: seq<byte>)
    ensures |r| == |s|
  {
    if s == [] then []
    else if s[0] == 255 then [0] + Increment(s[1..])
    else [s[0] + 1] + s[1..]
  }

  lemma {:induction false} ValueBound(s: seq<byte>)
    ensures Value(s) < Pow256(|s|)
  {
    if s != [] {
      ValueBound(s[1..]);
    }
  }

  // Plus one, modulo 256^size.
  lemma {:induction false} IncrementAddsOne(s: seq<byte>)
    ensures Value(Increment(s)) == if Value(s) + 1 == Pow256(|s|) then 0 else Value(s) + 1
  {
    if s != [] {
      IncrementAddsOne(s[1..]);
      ValueBound(s[1..]);
      if s[0] == 255 {
        assert Increment(s)[1..] == Increment(s[1..]);
      } else {
        assert ([s[0] + 1] + s[1..])[1..] == s[1..];
      }
    }
  }

  // The carry stops at the first byte that is not 255.
  lemma {:induction false} Carry(s: seq<byte>, i: nat)
    requires i <= |s| && (forall k :: 0 <= k < i ==> s[k] == 255) && (i < |s| ==> s[i] != 255)
    ensures Increment(s) == Zeros(i) + if i < |s| then [s[i] + 1] + s[i + 1..] else []
  {
    if i > 0 {
      Carry(s[1..], i - 1);
      assert Zeros(i) == [0] + Zeros(i - 1);
    }
  }

  // increment, in place.
  method IncrementInPlace(b: array<byte>)
    modifies b
    ensures b[..] == Increment(old(b[..]))
  {
    ghost var was := b[..];
    hide Increment;
    for i := 0 to b.Length
      invariant forall k :: 0 <= k < i ==> was[k] == 255 && b[k] == 0
      invariant forall k :: i <= k < b.Length ==> b[k] == was[k]
    {
      b[i] := (b[i] as int + 1) % 256;
      if b[i] != 0 {
        Carry(was, i);
        return;
      }
    }
    Carry(was, b.Length);
  }

  // The nonce of the k-th seal.
  function NonceAt(size: nat, k: nat): (r: seq<byte>)
    ensures |r| == size
  {
    if k == 0 then Zeros(size) else Increment(NonceAt(size, k - 1))
  }

  lemma {:induction false} ZeroValue(n: nat)
    ensures Value(Zeros(n)) == 0
  {
    if n > 0 {
      ZeroValue(n - 1);
      assert Zeros(n)[1..] == Zeros(n - 1);
    }
  }

  lemma {:induction false} NonceCounts(size: nat, k: nat)
    ensures Value(NonceAt(size, k)) == k % Pow256(size)
  {
    var m := Pow256(size);
    if k == 0 {
      ZeroValue(size);
      DivModUnique(0, m, 0, 0);
    } else {
      NonceCounts(size, k - 1);
      IncrementAddsOne(NonceAt(size, k - 1));
      if m == 1 {
        assert k == 1 * k + 0;
        DivModUnique(k, 1, k, 0);
      } else {
        ModAdd(k - 1, 1, m);
      }
    }
  }

  // No nonce repeats within 256^size seals.
  lemma NoncesDiffer(size: nat, j: nat, k: nat)
    requires j < k < j + Pow256(size)
    ensures NonceAt(size, j) != NonceAt(size, k)
  {
    NonceCounts(size, j);
    NonceCounts(size, k);
    ModAdd(j, k - j, Pow256(size));
    assert j + (k - j) == k;
  }

  // ---- The stream

  datatype Opened = Plain(p: seq<byte>) | AuthError

  // A cipher: seal and open by nonce, the bytes sealing adds, the size of the nonce.
  datatype Aead = Aead(
    seal: (seq<byte>, seq<byte>) -> seq<byte>, open: (seq<byte>, seq<byte>) -> Opened, overhead: nat, nonceSize: nat)

  ghost predicate Sound(a: Aead) {
    forall n: seq<byte>, p: seq<byte> :: |a.seal(n, p)| == |p| + a.overhead && a.open(n, a.seal(n, p)) == Plain(p)
  }

  // The writer cuts its buffer to a chunk of n bytes with its length, both sealed: the slice
  // expression panics if that is more than the capacity of the buffer.
  predicate ChunkFits(overhead: nat, n: nat) {
    2 + overhead + n + overhead <= BUF_CAP
  }

  predicate WritePanics(overhead: nat, p: seq<byte>) {
    p != [] && !ChunkFits(overhead, if |p| < MAX_PAYLOAD then |p| else MAX_PAYLOAD)
  }

  const MAX_OVERHEAD := 8191

  // No write panics exactly up to this overhead.
  lemma ChunkFitsIff(overhead: nat)
    ensures (forall p: seq<byte> :: !WritePanics(overhead, p)) <==> overhead <= MAX_OVERHEAD
  {
    if overhead > MAX_OVERHEAD {
      assert WritePanics(overhead, Zeros(MAX_PAYLOAD));
    }
  }

  function Split(p: seq<byte>): (r: seq<seq<byte>>)
    decreases |p|
  {
    if p == [] then [] else if |p| <= MAX_PAYLOAD then [p] else [p[..MAX_PAYLOAD]] + Split(p[MAX_PAYLOAD..])
  }

  ghost predicate ChunksOk(cs: seq<seq<byte>>) {
    forall i :: 0 <= i < |cs| ==> 1 <= |cs[i]| <= MAX_PAYLOAD
  }

  lemma {:induction false} SplitIsComplete(p: seq<byte>)
    ensures Flatten(Split(p)) == p && ChunksOk(Split(p))
    decreases |p|
  {
    if 0 < |p| <= MAX_PAYLOAD {
      assert Flatten([p]) == p + Flatten([]);
    } else if p != [] {
      SplitIsComplete(p[MAX_PAYLOAD..]);
      assert Split(p)[1..] == Split(p[MAX_PAYLOAD..]);
    }
  }

  function Chunk(a: Aead, k: nat, c: seq<byte>): (r: seq<byte>) {
    a.seal(NonceAt(a.nonceSize, k), Be16(|c|)) + a.seal(NonceAt(a.nonceSize, k + 1), c)
  }

  // What the writer puts out for the chunks, the first of them sealed with nonces k and k+1.
  function Wire(a: Aead, k: nat, cs: seq<seq<byte>>): (r: seq<byte>)
    decreases |cs|
  {
    if cs == [] then [] else Chunk(a, k, cs[0]) + Wire(a, k + 2, cs[1..])
  }

  lemma {:induction false} WireConcat(a: Aead, k: nat, cs: seq<seq<byte>>, ds: seq<seq<byte>>)
    ensures Wire(a, k, cs + ds) == Wire(a, k, cs) + Wire(a, k + 2 * |cs|, ds)
    decreases |cs|
  {
    hide Chunk;
    if cs == [] {
      assert cs + ds == ds;
    } else {
      WireConcat(a, k + 2, cs[1..], ds);
      assert (cs + ds)[1..] == cs[1..] + ds && (cs + ds)[0] == cs[0];
    }
  }

  // ---- What is sealed, and with which nonce

  // Bytes j * 16383 to (j + 1) * 16383 of a write, as far as it has them.
  function ChunkOf(p: seq<byte>, j: nat): (r: seq<byte>)
    requires MAX_PAYLOAD * j < |p|
    ensures 1 <= |r| <= MAX_PAYLOAD
  {
    p[MAX_PAYLOAD * j..Least(MAX_PAYLOAD * j + MAX_PAYLOAD, |p|)]
  }

  // The seals of a write are of the length and the bytes of each of its chunks in turn, and the
  // i-th of them is made with nonce k + i.
  ghost predicate SealsOf(a: Aead, k: nat, p: seq<byte>, seals: seq<seq<byte>>) {
    && |seals| == 2 * ((|p| + MAX_PAYLOAD - 1) / MAX_PAYLOAD)
    && forall j: nat :: MAX_PAYLOAD * j < |p| ==> SealsChunk(a, k, p, seals, j)
  }

  ghost predicate SealsChunk(a: Aead, k: nat, p: seq<byte>, seals: seq<seq<byte>>, j: nat)
    requires MAX_PAYLOAD * j < |p|
  {
    var c := ChunkOf(p, j);
    && 2 * j + 1 < |seals|
    && seals[2 * j] == a.seal(NonceAt(a.nonceSize, k + 2 * j), [|c| / 256, |c| % 256])
    && seals[2 * j + 1] == a.seal(NonceAt(a.nonceSize, k + 2 * j + 1), c)
  }

  lemma {:induction false} WireIsSeals(a: Aead, k: nat, p: seq<byte>) returns (seals: seq<seq<byte>>)
    ensures Wire(a, k, Split(p)) == Flatten(seals) && SealsOf(a, k, p, seals)
    decreases |p|
  {
    seals := [];
    if p != [] {
      var n := Least(MAX_PAYLOAD, |p|);
      var c, rest := p[..n], p[n..];
      var more := WireIsSeals(a, k + 2, rest);
      var l, body := a.seal(NonceAt(a.nonceSize, k), Be16(|c|)), a.seal(NonceAt(a.nonceSize, k + 1), c);
      seals := [l, body] + more;
      FirstOfSplit(p, n);
      SealsMore(a, k, p, more, l, body);
      hide SealsOf, Split, NonceAt;
      assert Wire(a, k, [c] + Split(rest)) == Chunk(a, k, c) + Wire(a, k + 2, Split(rest)) by {
        assert ([c] + Split(rest))[1..] == Split(rest);
      }
      FlattenTwo(l, body, more);
    }
  }

  lemma FlattenTwo(x: seq<byte>, y: seq<byte>, more: seq<seq<byte>>)
    ensures Flatten([x, y] + more) == x + y + Flatten(more)
  {
    assert ([x, y] + more)[1..] == [y] + more && ([y] + more)[1..] == more;
    assert x + (y + Flatten(more)) == x + y + Flatten(more);
  }

  lemma FirstOfSplit(p: seq<byte>, n: nat)
    requires p != [] && n == Least(MAX_PAYLOAD, |p|)
    ensures Split(p) == [p[..n]] + Split(p[n..])
  {
    hide Split;
    SplitFirst(p, 0, n);
    assert p[0..] == p && p[0..0 + n] == p[..n];
  }

  lemma SealsMore(a: Aead, k: nat, p: seq<byte>, more: seq<seq<byte>>, l: seq<byte>, body: seq<byte>)
    requires p != [] && SealsOf(a, k + 2, p[Least(MAX_PAYLOAD, |p|)..], more)
    requires var c := p[..Least(MAX_PAYLOAD, |p|)];
      l == a.seal(NonceAt(a.nonceSize, k), Be16(|c|)) && body == a.seal(NonceAt(a.nonceSize, k + 1), c)
    ensures SealsOf(a, k, p, [l, body] + more)
  {
    hide NonceAt;
    var rest, seals := p[Least(MAX_PAYLOAD, |p|)..], [l, body] + more;
    forall j: nat | MAX_PAYLOAD * j < |p| ensures SealsChunk(a, k, p, seals, j) {
      if j == 0 {
        assert ChunkOf(p, 0) == p[..Least(MAX_PAYLOAD, |p|)];
        assert seals[0] == l && seals[1] == body;
      } else {
        assert SealsChunk(a, k + 2, rest, more, j - 1);
        assert ChunkOf(p, j) == ChunkOf(rest, j - 1);
        assert seals[2 * j] == more[2 * (j - 1)] && seals[2 * j + 1] == more[2 * (j - 1) + 1];
        assert k + 2 + 2 * (j - 1) == k + 2 * j;
      }
    }
  }

  // So any two seals, of the same write or of different ones, are made with different nonces as long
  // as fewer than 256^size seals lie between them.
  lemma SealsDiffer(a: Aead, k: nat, p: seq<byte>, seals: seq<seq<byte>>, i: nat,
                    k': nat, p': seq<byte>, seals': seq<seq<byte>>, j: nat)
    returns (x: seq<byte>, y: seq<byte>)
    requires SealsOf(a, k, p, seals) && i < |seals| && SealsOf(a, k', p', seals') && j < |seals'|
    requires k + i < k' + j < k + i + Pow256(a.nonceSize)
    ensures seals[i] == a.seal(NonceAt(a.nonceSize, k + i), x) && seals'[j] == a.seal(NonceAt(a.nonceSize, k' + j), y)
    ensures NonceAt(a.nonceSize, k + i) != NonceAt(a.nonceSize, k' + j)
  {
    NoncesDiffer(a.nonceSize, k + i, k' + j);
    x := SealOf(a, k, p, seals, i);
    y := SealOf(a, k', p', seals', j);
  }

  lemma SealOf(a: Aead, k: nat, p: seq<byte>, seals: seq<seq<byte>>, i: nat) returns (x: seq<byte>)
    requires SealsOf(a, k, p, seals) && i < |seals|
    ensures seals[i] == a.seal(NonceAt(a.nonceSize, k + i), x)
  {
    hide NonceAt;
    var j := i / 2;
    assert SealsChunk(a, k, p, seals, j);
    var c := ChunkOf(p, j);
    x := if i == 2 * j then [|c| / 256, |c| % 256] else c;
  }

  // ---- The reader

  // k seals opened so far, bytes of the current chunk not yet served, the connection.
  datatype Reader = Reader(k: nat, buf: seq<byte>, conn: seq<byte>)

  // Panicked: the buffer is cut to more than its capacity.
  datatype Taken = Got(c: seq<byte>, conn: seq<byte>) | Failed | Panicked

  // read(): one chunk into a buffer of the given capacity.
  function TakeChunk(a: Aead, k: nat, conn: seq<byte>, capacity: nat): (r: Taken) {
    var n := 2 + a.overhead;
    if n > capacity then Panicked
    else if |conn| < n then Failed
    else match a.open(NonceAt(a.nonceSize, k), conn[..n])
      case AuthError => Failed
      case Plain(l) =>
        if |l| != 2 then Failed
        else
          var m := FromBe16(l) + a.overhead;
          if m > capacity then Panicked
          else if |conn| < n + m then Failed
          else match a.open(NonceAt(a.nonceSize, k + 1), conn[n..n + m])
            case AuthError => Failed
            case Plain(c) => Got(c, conn[n + m..])
  }

  // The connection starts with c sealed: a length opens with nonce k, so many bytes with the
  // overhead follow and open to c with nonce k + 1, and all of it has room.
  ghost predicate Opens(a: Aead, k: nat, conn: seq<byte>, capacity: nat, c: seq<byte>, rest: seq<byte>) {
    var n := 2 + a.overhead;
    && n <= capacity && n <= |conn|
    && var l := a.open(NonceAt(a.nonceSize, k), conn[..n]);
       && l.Plain? && |l.p| == 2
       && var m := n + Two(l.p[0], l.p[1]) + a.overhead;
          && m - n <= capacity && m <= |conn|
          && a.open(NonceAt(a.nonceSize, k + 1), conn[n..m]) == Plain(c) && rest == conn[m..]
  }

  // Nothing is taken from the connection but what opens.
  lemma OpensIff(a: Aead, k: nat, conn: seq<byte>, capacity: nat)
    ensures forall c, rest :: TakeChunk(a, k, conn, capacity) == Got(c, rest) <==> Opens(a, k, conn, capacity, c, rest)
  {
    hide NonceAt;
  }

  datatype ReadResult = Data(out: seq<byte>, r: Reader) | Error | Panic

  // A destination: its length, and what its capacity has beyond.
  datatype Dest = Dest(size: nat, spare: nat)

  // The destination itself if it has room for the longest chunk, else a buffer of the reader.
  predicate Direct(a: Aead, d: Dest) {
    d.size >= MAX_PAYLOAD + a.overhead
  }

  function Capacity(a: Aead, d: Dest): (r: nat) {
    if Direct(a, d) then d.size + d.spare else BUF_CAP
  }

  function Read(a: Aead, r: Reader, d: Dest): (res: ReadResult) {
    if r.buf == [] then
      match TakeChunk(a, r.k, r.conn, Capacity(a, d))
      case Failed => Error
      case Panicked => Panic
      case Got(c, conn) =>
        if Direct(a, d) then Data(c, Reader(r.k + 2, [], conn)) else Serve(Reader(r.k + 2, c, conn), d.size)
    else Serve(r, d.size)
  }

  function Serve(r: Reader, size: nat): (res: ReadResult) {
    var n := if size < |r.buf| then size else |r.buf|;
    Data(r.buf[..n], r.(buf := r.buf[n..]))
  }

  // The reader stands where the chunks cs are still to come.
  ghost predicate At(a: Aead, r: Reader, cs: seq<seq<byte>>) {
    ChunksOk(cs) && r.conn == Wire(a, r.k, cs)
  }

  lemma TakeSealed(a: Aead, k: nat, c: seq<byte>, rest: seq<byte>, capacity: nat)
    requires Sound(a) && 1 <= |c| <= MAX_PAYLOAD && MAX_PAYLOAD + a.overhead <= capacity
    ensures TakeChunk(a, k, Chunk(a, k, c) + rest, capacity) == Got(c, rest)
  {
    hide NonceAt, Be16, FromBe16;
    var l, p := a.seal(NonceAt(a.nonceSize, k), Be16(|c|)), a.seal(NonceAt(a.nonceSize, k + 1), c);
    var conn, n, m := Chunk(a, k, c) + rest, 2 + a.overhead, |c| + a.overhead;
    assert conn[..n] == l && conn[n..n + m] == p && conn[n + m..] == rest;
    Be16RoundTrip(|c|);
  }

  // A read panics exactly when it takes a chunk and the buffer it reads into has no room for a
  // sealed length, or the length it opens with the nonce due announces more than the capacity of
  // that buffer less the overhead.
  lemma ReadPanicsIff(a: Aead, r: Reader, d: Dest)
    ensures Read(a, r, d) == Panic <==>
      && r.buf == []
      && (|| 2 + a.overhead > Capacity(a, d)
          || (&& |r.conn| >= 2 + a.overhead
              && var l := a.open(NonceAt(a.nonceSize, r.k), r.conn[..2 + a.overhead]);
                 l.Plain? && |l.p| == 2 && FromBe16(l.p) > Capacity(a, d) - a.overhead))
  {
    hide NonceAt, FromBe16;
  }

  // Any cipher, any sealed length beyond the capacity: the read that takes it panics.
  lemma LongChunkPanics(a: Aead, k: nat, n: nat, rest: seq<byte>, d: Dest)
    requires Sound(a) && Capacity(a, d) - a.overhead < n < 65536
    ensures Read(a, Reader(k, [], a.seal(NonceAt(a.nonceSize, k), Be16(n)) + rest), d) == Panic
  {
    hide NonceAt, FromBe16, Be16;
    var l := a.seal(NonceAt(a.nonceSize, k), Be16(n));
    assert (l + rest)[..2 + a.overhead] == l;
    Be16RoundTrip(n);
    ReadPanicsIff(a, Reader(k, [], l + rest), d);
  }

  // One read: what it returns and what is still to come make up what was to come. With room in
  // the destination it returns something unless nothing was left.
  lemma ReadServes(a: Aead, r: Reader, cs: seq<seq<byte>>, d: Dest)
    requires Sound(a) && a.overhead <= MAX_OVERHEAD && At(a, r, cs)
    ensures r.buf == [] && cs == [] ==> Read(a, r, d) == Error
    ensures r.buf != [] || cs != [] ==>
      && Read(a, r, d).Data?
      && var Data(out, r') := Read(a, r, d);
         var cs' := if r.buf == [] then cs[1..] else cs;
         && At(a, r', cs') && out + (r'.buf + Flatten(cs')) == r.buf + Flatten(cs)
         && (d.size > 0 ==> out != [])
         && var chunk := if r.buf != [] then r.buf else cs[0]; out == chunk[..Least(d.size, |chunk|)]
  {
    assert ChunksOk(cs) && r.conn == Wire(a, r.k, cs);
    hide NonceAt, TakeChunk, Wire, Sound, Flatten;
    if r.buf != [] {
      ServeSplits(r, d.size, Flatten(cs));
    } else if cs == [] {
      NothingToTake(a, r.k, Capacity(a, d));
      assert Wire(a, r.k, []) == [] by { NoWire(a, r.k); }
    } else {
      TakeNext(a, r, cs, d);
      FlattenFirst(cs);
      ServeSplits(Reader(r.k + 2, cs[0], Wire(a, r.k + 2, cs[1..])), d.size, Flatten(cs[1..]));
    }
  }

  lemma TakeNext(a: Aead, r: Reader, cs: seq<seq<byte>>, d: Dest)
    requires Sound(a) && a.overhead <= MAX_OVERHEAD && At(a, r, cs) && cs != []
    ensures ChunksOk(cs[1..])
    ensures TakeChunk(a, r.k, r.conn, Capacity(a, d)) == Got(cs[0], Wire(a, r.k + 2, cs[1..]))
  {
    hide NonceAt, Chunk, TakeChunk, Sound;
    TakeSealed(a, r.k, cs[0], Wire(a, r.k + 2, cs[1..]), Capacity(a, d));
  }

  lemma NoWire(a: Aead, k: nat)
    ensures Wire(a, k, []) == []
  {
  }

  lemma ServeSplits(r: Reader, size: nat, more: seq<byte>)
    ensures var res := Serve(r, size);
      && res.Data? && res.out == r.buf[..Least(size, |r.buf|)]
      && res.Data? && res.r.k == r.k && res.r.conn == r.conn && res.out + (res.r.buf + more) == r.buf + more
      && (size > 0 && r.buf != [] ==> res.out != [])
  {
    var n := if size < |r.buf| then size else |r.buf|;
    assert r.buf[..n] + (r.buf[n..] + more) == r.buf + more;
  }

  lemma NothingToTake(a: Aead, k: nat, capacity: nat)
    ensures 2 + a.overhead <= capacity ==> TakeChunk(a, k, [], capacity) == Failed
  {
  }

  // ---- Any writes, any reads

  // Everything a series of reads returns, up to the first error.
  function ReadAll(a: Aead, r: Reader, ds: seq<Dest>): (out: seq<byte>)
    decreases |ds|
  {
    if ds == [] then []
    else match Read(a, r, ds[0])
      case Data(o, r') => o + ReadAll(a, r', ds[1..])
      case _ => []
  }

  predicate HaveRoom(ds: seq<Dest>) {
    forall i :: 0 <= i < |ds| ==> ds[i].size > 0
  }

  lemma {:induction false} ReadsServe(a: Aead, r: Reader, cs: seq<seq<byte>>, ds: seq<Dest>)
    requires Sound(a) && a.overhead <= MAX_OVERHEAD && At(a, r, cs)
    ensures ReadAll(a, r, ds) <= r.buf + Flatten(cs)
    ensures HaveRoom(ds) && |ds| >= |r.buf + Flatten(cs)| ==> ReadAll(a, r, ds) == r.buf + Flatten(cs)
    decreases |ds|
  {
    hide Read, Sound;
    if ds != [] {
      ReadServes(a, r, cs, ds[0]);
      if r.buf != [] || cs != [] {
        var Data(out, r') := Read(a, r, ds[0]);
        ReadsServe(a, r', if r.buf == [] then cs[1..] else cs, ds[1..]);
      }
    }
  }

  // The chunks of several writes.
  function AllChunks(writes: seq<seq<byte>>): (r: seq<seq<byte>>) {
    if writes == [] then [] else Split(writes[0]) + AllChunks(writes[1..])
  }

  lemma {:induction false} AllChunksAreComplete(writes: seq<seq<byte>>)
    ensures Flatten(AllChunks(writes)) == Flatten(writes) && ChunksOk(AllChunks(writes))
  {
    if writes != [] {
      SplitIsComplete(writes[0]);
      AllChunksAreComplete(writes[1..]);
      FlattenConcat(Split(writes[0]), AllChunks(writes[1..]));
      hide Split;
    }
  }

  // What successive writes put out, each going on with the nonces after the last.
  lemma WireOfWrites(a: Aead, k: nat, w: seq<byte>, ws: seq<seq<byte>>)
    ensures Wire(a, k, AllChunks([w] + ws)) == Wire(a, k, Split(w)) + Wire(a, k + 2 * |Split(w)|, AllChunks(ws))
  {
    assert ([w] + ws)[1..] == ws;
    WireConcat(a, k, Split(w), AllChunks(ws));
  }

  // Whatever is written, and whatever the destinations of the reads: the reads return the bytes
  // written, in order, and all of them once there were enough reads with room.
  lemma StreamRoundTrip(a: Aead, writes: seq<seq<byte>>, ds: seq<Dest>)
    requires Sound(a) && a.overhead <= MAX_OVERHEAD
    ensures var out := ReadAll(a, Reader(0, [], Wire(a, 0, AllChunks(writes))), ds);
      && out <= Flatten(writes)
      && (HaveRoom(ds) && |ds| >= |Flatten(writes)| ==> out == Flatten(writes))
  {
    hide Sound, Wire;
    AllChunksAreComplete(writes);
    var cs := AllChunks(writes);
    var r := Reader(0, [], Wire(a, 0, cs));
    assert r.buf + Flatten(cs) == Flatten(writes);
    ReadsServe(a, r, cs, ds);
  }

  // ---- The objects

  class Writer {
    const aead: Aead
    const nonce: array<byte>
    var sink: seq<byte>
    ghost var k: nat

    ghost predicate Valid()
      reads this, nonce
    {
      nonce.Length == aead.nonceSize && nonce[..] == NonceAt(aead.nonceSize, k)
    }

    constructor (aead: Aead)
      ensures Valid() && this.aead == aead && k == 0 && sink == [] && fresh(nonce)
    {
      this.aead := aead;
      nonce := new byte[aead.nonceSize](_ => 0);
      sink, k := [], 0;
      new;
      assert nonce[..] == Zeros(aead.nonceSize);
    }

    method SealNext(p: seq<byte>) returns (c: seq<byte>)
      requires Valid()
      modifies `k, nonce
      ensures Valid() && k == old(k) + 1 && c == aead.seal(NonceAt(aead.nonceSize, old(k)), p)
    {
      c := aead.seal(nonce[..], p);
      IncrementInPlace(nonce);
      k := k + 1;
    }

    method WriteChunk(c: seq<byte>)
      requires Valid()
      modifies `sink, `k, nonce
      ensures Valid() && k == old(k) + 2 && sink == old(sink) + Chunk(aead, old(k), c)
    {
      hide NonceAt;
      var l := SealNext(Be16(|c|));
      var body := SealNext(c);
      sink := sink + (l + body);
    }

    // One turn of the loop: the chunk that starts at n.
    method WriteNext(p: seq<byte>, n: nat) returns (nw: nat, panicked: bool)
      requires Valid() && n < |p|
      modifies `sink, `k, nonce
      ensures nw == if |p| - n < MAX_PAYLOAD then |p| - n else MAX_PAYLOAD
      ensures panicked <==> !ChunkFits(aead.overhead, nw)
      ensures panicked ==> Valid() && sink == old(sink)
      ensures !panicked ==> Valid()
      ensures !panicked ==> sink + Wire(aead, k, Split(p[n + nw..])) == old(sink + Wire(aead, k, Split(p[n..])))
      ensures !panicked ==> k + 2 * |Split(p[n + nw..])| == old(k + 2 * |Split(p[n..])|)
    {
      hide Valid, Wire, Chunk, Split, ChunkFits;
      nw := MAX_PAYLOAD;
      if |p| - n < MAX_PAYLOAD {
        nw := |p| - n;
      }
      panicked := !ChunkFits(aead.overhead, nw);
      if panicked {
        return;
      }
      SplitFirst(p, n, nw);
      WireFirst(aead, k, p[n..n + nw], Split(p[n + nw..]), sink);
      WriteChunk(p[n..n + nw]);
    }

    method Write(p: seq<byte>) returns (n: nat, panicked: bool, ghost seals: seq<seq<byte>>)
      requires Valid()
      modifies `sink, `k, nonce
      ensures Valid() && (panicked <==> WritePanics(aead.overhead, p))
      ensures panicked ==> sink == old(sink)
      ensures !panicked ==> n == |p| && sink == old(sink) + Wire(aead, old(k), Split(p)) && k == old(k) + 2 * |Split(p)|
      ensures !panicked ==> sink == old(sink) + Flatten(seals) && SealsOf(aead, old(k), p, seals)
    {
      seals := WireIsSeals(aead, k, p);
      hide SealsOf, Flatten;
      n, panicked := 0, false;
      assert p[0..] == p;
      hide Valid, Wire, Split, WritePanics, ChunkFits;
      NothingPanics(aead.overhead);
      while n < |p|
        invariant 0 <= n <= |p| && Valid()
        invariant n > 0 ==> !WritePanics(aead.overhead, p)
        invariant n == 0 ==> sink == old(sink)
        invariant k + 2 * |Split(p[n..])| == old(k + 2 * |Split(p)|)
        invariant sink + Wire(aead, k, Split(p[n..])) == old(sink + Wire(aead, k, Split(p)))
      {
        var nw;
        FirstDecides(aead.overhead, p, n);
        nw, panicked := WriteNext(p, n);
        if panicked {
          return;
        }
        n := n + nw;
      }
      assert p[n..] == [];
      NothingSplit(aead, k);
    }
  }

  // If the first chunk of a write fits the others do.
  lemma FirstDecides(overhead: nat, p: seq<byte>, n: nat)
    requires n < |p|
    ensures var nw := if |p| - n < MAX_PAYLOAD then |p| - n else MAX_PAYLOAD;
      && (!WritePanics(overhead, p) ==> ChunkFits(overhead, nw))
      && (n == 0 ==> (WritePanics(overhead, p) <==> !ChunkFits(overhead, nw)))
  {
  }

  lemma NothingPanics(overhead: nat)
    ensures !WritePanics(overhead, [])
  {
  }

  lemma WireFirst(a: Aead, k: nat, c: seq<byte>, cs: seq<seq<byte>>, sink: seq<byte>)
    ensures sink + Wire(a, k, [c] + cs) == sink + Chunk(a, k, c) + Wire(a, k + 2, cs)
  {
    hide Chunk;
    assert ([c] + cs)[1..] == cs;
  }

  lemma NothingSplit(a: Aead, k: nat)
    ensures Split([]) == [] && Wire(a, k, []) == []
  {
  }

  lemma SplitFirst(p: seq<byte>, n: nat, nw: nat)
    requires n < |p| && nw == if |p| - n < MAX_PAYLOAD then |p| - n else MAX_PAYLOAD
    ensures Split(p[n..]) == [p[n..n + nw]] + Split(p[n + nw..])
  {
    if |p| - n <= MAX_PAYLOAD {
      assert p[n..n + nw] == p[n..] && p[n + nw..] == [];
    } else {
      assert p[n..][..nw] == p[n..n + nw] && p[n..][nw..] == p[n + nw..];
    }
  }

  class StreamReader {
    const aead: Aead
    const nonce: array<byte>
    var conn: seq<byte>
    // r.buf; empty stands for nil
    var buf: seq<byte>
    var offset: nat
    ghost var k: nat

    ghost predicate Valid()
      reads this, nonce
    {
      && nonce.Length == aead.nonceSize && nonce[..] == NonceAt(aead.nonceSize, k)
      && offset <= |buf| && (buf != [] ==> offset < |buf|)
    }

    ghost function View(): (r: Reader)
      requires Valid()
      reads this, nonce
    {
      Reader(k, buf[offset..], conn)
    }

    constructor (aead: Aead, conn: seq<byte>)
      ensures Valid() && this.aead == aead && View() == Reader(0, [], conn) && fresh(nonce)
    {
      this.aead := aead;
      nonce := new byte[aead.nonceSize](_ => 0);
      this.conn, buf, offset, k := conn, [], 0, 0;
      new;
      assert nonce[..] == Zeros(aead.nonceSize);
    }

    method OpenNext(c: seq<byte>) returns (o: Opened)
      requires Valid()
      modifies `k, nonce
      ensures Valid() && k == old(k) + 1 && o == aead.open(NonceAt(aead.nonceSize, old(k)), c)
    {
      o := aead.open(nonce[..], c);
      IncrementInPlace(nonce);
      k := k + 1;
    }

    // read(): one chunk into a buffer of the given capacity.
    method ReadChunk(capacity: nat) returns (res: Taken)
      requires Valid()
      modifies `k, `conn, nonce
      ensures Valid() && res == TakeChunk(aead, old(k), old(conn), capacity)
      ensures forall c, rest :: res == Got(c, rest) <==> Opens(aead, old(k), old(conn), capacity, c, rest)
      ensures res.Got? ==> k == old(k) + 2 && conn == res.conn
    {
      hide NonceAt;
      OpensIff(aead, k, conn, capacity);
      hide Opens;
      var n := 2 + aead.overhead;
      if n > capacity {
        return Panicked;
      }
      if |conn| < n {
        return Failed;
      }
      var head := conn[..n];
      var o := OpenNext(head);
      if o.AuthError? || |o.p| != 2 {
        return Failed;
      }
      var m := FromBe16(o.p) + aead.overhead;
      if m > capacity {
        return Panicked;
      }
      if |conn| < n + m {
        return Failed;
      }
      o := OpenNext(conn[n..n + m]);
      if o.AuthError? {
        return Failed;
      }
      conn := conn[n + m..];
      res := Got(o.p, conn);
    }

    method ReadInto(d: Dest) returns (ok: bool, panicked: bool, out: seq<byte>)
      requires Valid()
      modifies this, nonce
      ensures Valid()
      ensures match Read(aead, old(View()), d)
              case Panic => !ok && panicked
              case Error => !ok && !panicked
              case Data(o, r) => ok && !panicked && out == o && View() == r
    {
      hide NonceAt, TakeChunk, Serve;
      out, panicked := [], false;
      if buf == [] {
        var direct := d.size >= MAX_PAYLOAD + aead.overhead;
        var res := ReadChunk(if direct then d.size + d.spare else BUF_CAP);
        if res.Failed? || res.Panicked? {
          return false, res.Panicked?, [];
        }
        if direct {
          return true, false, res.c;
        }
        buf, offset := res.c, 0;
        assert buf[0..] == buf;
      }
      out := ServeBuf(d.size);
      ok := true;
    }

    // The copy at the end of Read, out of a buffer that may have been filled with nothing.
    method ServeBuf(size: nat) returns (out: seq<byte>)
      requires nonce.Length == aead.nonceSize && nonce[..] == NonceAt(aead.nonceSize, k) && offset <= |buf|
      modifies `buf, `offset
      ensures Valid() && Data(out, View()) == Serve(Reader(k, old(buf[offset..]), conn), size)
    {
      hide NonceAt;
      var n := if size < |buf| - offset then size else |buf| - offset;
      out := buf[offset..offset + n];
      assert buf[offset..][..n] == out && buf[offset..][n..] == buf[offset + n..];
      offset := offset + n;
      if offset == |buf| {
        buf, offset := [], 0;
      }
    }
  }
}

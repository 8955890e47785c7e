// WebSocket framing (sections 5.2 and 5.3 of RFC 6455): every write becomes one binary frame,
// masked when it comes from the client; the reader of the other side serves reads of any size.
module WsFrame {
  import opened Words
  import opened Bytes
  import opened Seqs

  // Lengths are those of Go slices, so below 2^63.
  const I63: int := 0x8000_0000_0000_0000

  // ---- Exclusive or of bytes

  // The digits of the result, in base two, are those on which a and b differ.
  function XorDigits(a: nat, b: nat, digits: nat): (r: nat)
    ensures r < Pow2(digits)
  {
    if digits == 0 then 0
    else 2 * XorDigits(a / 2, b / 2, digits - 1) + if a % 2 == b % 2 then 0 else 1
  }

  function Xor(a: byte, b: byte): (r: byte) {
    assert Pow2(8) == 2 * Pow2(7) == 4 * Pow2(6) == 8 * Pow2(5) == 16 * Pow2(4) == 256;
    XorDigits(a, b, 8)
  }

  lemma {:induction false} XorDigitsTwice(a: nat, b: nat, digits: nat)
    requires a < Pow2(digits)
    ensures XorDigits(XorDigits(a, b, digits), b, digits) == a
  {
    if digits > 0 {
      XorDigitsTwice(a / 2, b / 2, digits - 1);
      assert XorDigits(a, b, digits) / 2 == XorDigits(a / 2, b / 2, digits - 1);
    }
  }

  lemma XorTwice(a: byte, b: byte)
    ensures Xor(Xor(a, b), b) == a
  {
    assert Pow2(8) == 2 * Pow2(7) == 4 * Pow2(6) == 8 * Pow2(5) == 16 * Pow2(4) == 256;
    XorDigitsTwice(a, b, 8);
  }

  // Digit i of x in base two.
  function Digit(x: nat, i: nat): (r: nat) {
    x / Pow2(i) % 2
  }

  lemma {:induction false} XorDigitIs(a: nat, b: nat, digits: nat, i: nat)
    requires i < digits
    ensures Digit(XorDigits(a, b, digits), i) == (Digit(a, i) + Digit(b, i)) % 2
  {
    if i == 0 {
      LastDigit(a);
      LastDigit(b);
      LastDigit(XorDigits(a, b, digits));
    } else {
      hide Digit;
      XorDigitIs(a / 2, b / 2, digits - 1, i - 1);
      assert XorDigits(a, b, digits) / 2 == XorDigits(a / 2, b / 2, digits - 1);
      HalfFirst(XorDigits(a, b, digits), i);
      HalfFirst(a, i);
      HalfFirst(b, i);
    }
  }

  lemma LastDigit(x: nat)
    ensures Digit(x, 0) == x % 2
  {
  }

  lemma HalfFirst(x: nat, i: nat)
    requires i > 0
    ensures Digit(x, i) == Digit(x / 2, i - 1)
  {
    var p := Pow2(i - 1);
    var q, r := x / 2 / p, x / 2 % p;
    assert x / 2 == p * q + r && Pow2(i) == 2 * p;
    assert x == 2 * p * q + (2 * r + x % 2);
    DivModUnique(x, 2 * p, q, 2 * r + x % 2);
  }

  // In base two x has a one exactly where a and b differ.
  ghost predicate IsXor(x: byte, a: byte, b: byte) {
    forall i :: 0 <= i < 8 ==> Digit(x, i) == (Digit(a, i) + Digit(b, i)) % 2
  }

  lemma XorIs(a: byte, b: byte)
    ensures IsXor(Xor(a, b), a, b)
  {
    hide Digit;
    forall i | 0 <= i < 8 ensures Digit(Xor(a, b), i) == (Digit(a, i) + Digit(b, i)) % 2 {
      XorDigitIs(a, b, 8, i);
    }
  }

  // The payload masked with the key, its first byte at place `off` of the key's cycle.
  function Mask(s: seq<byte>, key: seq<byte>, off: nat): (r: seq<byte>)
    requires |key| == 4
    ensures |r| == |s| && forall i :: 0 <= i < |s| ==> r[i] == Xor(s[i], key[(i + off) % 4])
  {
    seq(|s|, i requires 0 <= i < |s| => Xor(s[i], key[(i + off) % 4]))
  }

  lemma MaskTwice(s: seq<byte>, key: seq<byte>, off: nat)
    requires |key| == 4
    ensures Mask(Mask(s, key, off), key, off) == s
  {
    hide Xor;
    forall i | 0 <= i < |s|
      ensures Mask(Mask(s, key, off), key, off)[i] == s[i]
    {
      XorTwice(s[i], key[(i + off) % 4]);
    }
  }

  // The mask stays aligned when a payload is cut anywhere.
  lemma MaskCut(s: seq<byte>, key: seq<byte>, off: nat, n: nat)
    requires |key| == 4 && n <= |s|
    ensures Mask(s, key, off)[..n] == Mask(s[..n], key, off)
    ensures Mask(s, key, off)[n..] == Mask(s[n..], key, (n + off) % 4)
  {
    hide Xor;
    forall i | 0 <= i < |s| - n
      ensures Mask(s, key, off)[n..][i] == Mask(s[n..], key, (n + off) % 4)[i]
    {
      SamePlace(i, n + off);
      assert i + (n + off) == (i + n) + off;
    }
  }

  lemma SamePlace(i: nat, j: nat)
    ensures (i + j) % 4 == (i + j % 4) % 4
  {
  }

  // ---- The writer

  // The second header byte onwards: mask bit and length.
  function LengthField(masked: bool, n: nat): (r: seq<byte>)
  {
    var bit := if masked then 128 else 0;
    if n <= 125 then [bit + n] else if n < 65536 then [bit + 126] + Be16(n) else [bit + 127] + Be64(n)
  }

  // One frame: final bit and binary opcode, length, and for a client the key and masked payload.
  function Frame(server: bool, key: seq<byte>, b: seq<byte>): (r: seq<byte>)
    requires |key| == 4
  {
    [0x82] + LengthField(!server, |b|) + if server then b else key + Mask(b, key, 0)
  }

  function Wire(server: bool, key: seq<byte>, ws: seq<seq<byte>>): (r: seq<byte>)
    requires |key| == 4
  {
    if ws == [] then [] else Frame(server, key, ws[0]) + Wire(server, key, ws[1..])
  }

  // The size of the header, and what its bytes must be: final bit and binary opcode; mask bit and
  // length, in one of three forms.
  function HeaderSize(len: nat): (r: nat) {
    if len <= 125 then 2 else if len < 65536 then 4 else 10
  }

  ghost predicate IsHeader(h: seq<byte>, server: bool, len: nat) {
    var n := HeaderSize(len);
    && |h| == n && h[0] == 0x80 + 0x02
    && h[1] as int == (if server then 0 else 0x80) + (if n == 2 then len else if n == 4 then 126 else 127)
    && (n == 4 ==> Two(h[2], h[3]) == len)
    && (n == 10 ==> U32 * Four(h[5], h[4], h[3], h[2]) + Four(h[9], h[8], h[7], h[6]) == len)
  }

  // Behind the header comes the payload, for a client after the key and masked with it.
  ghost predicate IsFrame(f: seq<byte>, server: bool, key: seq<byte>, b: seq<byte>) {
    var n := HeaderSize(|b|);
    && n <= |f| && IsHeader(f[..n], server, |b|)
    && if server then f[n..] == b else IsMasked(f[n..], key, b)
  }

  ghost predicate IsMasked(f: seq<byte>, key: seq<byte>, b: seq<byte>) {
    && |f| == 4 + |b| && |key| == 4 && f[..4] == key
    && forall i :: 0 <= i < |b| ==> IsXor(f[4 + i], b[i], key[i % 4])
  }

  lemma MaskIs(key: seq<byte>, b: seq<byte>)
    requires |key| == 4
    ensures IsMasked(key + Mask(b, key, 0), key, b)
  {
    hide Xor, IsXor;
    forall i | 0 <= i < |b| ensures IsXor((key + Mask(b, key, 0))[4 + i], b[i], key[i % 4]) {
      XorIs(b[i], key[i % 4]);
    }
  }

  lemma Digits64(n: nat)
    requires n < I63
    ensures var s := Be64(n); U32 * Four(s[3], s[2], s[1], s[0]) + Four(s[7], s[6], s[5], s[4]) == n
  {
    Digits32(n / U32);
    Digits32(n % U32);
  }

  lemma Digits32(n: nat)
    requires n < U32
    ensures var s := Be32(n); Four(s[3], s[2], s[1], s[0]) == n
  {
    Be32RoundTrip(n);
    var s := Be32(n);
    assert s[..2] == [s[0], s[1]] && s[2..] == [s[2], s[3]];
  }

  lemma HeaderLayout(server: bool, len: nat)
    requires len < I63
    ensures IsHeader([0x82] + LengthField(!server, len), server, len)
  {
    if len >= 65536 {
      hide Be64, Four;
      Digits64(len);
    }
  }

  lemma FrameLayout(server: bool, key: seq<byte>, b: seq<byte>)
    requires |key| == 4 && |b| < I63
    ensures IsFrame(Frame(server, key, b), server, key, b)
  {
    HeaderLayout(server, |b|);
    MaskIs(key, b);
    var header, body := [0x82] + LengthField(!server, |b|), if server then b else key + Mask(b, key, 0);
    var f := Frame(server, key, b);
    assert f == header + body && |header| == HeaderSize(|b|);
    hide Mask, IsMasked, IsHeader, LengthField, Frame, HeaderSize;
    assert f[..|header|] == header && f[|header|..] == body;
  }

  // ---- The reader

  // Bytes left in the current frame, an int64 that a header can make negative; its key and the
  // place in the key's cycle; the connection.
  datatype Reader = Reader(left: int, key: seq<byte>, off: nat, conn: seq<byte>)

  datatype Header = Header(n: int, conn: seq<byte>) | NoHeader

  // A 64-bit number read as signed.
  function Int64(n: nat): (r: int) {
    if n < I63 then n else n - 2 * I63
  }

  function TakeLength(conn: seq<byte>): (r: Header) {
    if |conn| < 2 then NoHeader
    else
      var l := conn[1] % 128;
      if l == 126 then
        if |conn| < 4 then NoHeader else Header(FromBe16(conn[2..4]), conn[4..])
      else if l == 127 then
        if |conn| < 10 then NoHeader
        else Header(Int64(FromBe64(conn[2..10])), conn[10..])
      else Header(l, conn[2..])
  }

  // Panic: the length left is negative and the destination is cut to it.
  datatype ReadResult = Data(out: seq<byte>, r: Reader) | Error | Panic

  function Enter(server: bool, r: Reader): (res: ReadResult)
    ensures !res.Panic?
  {
    if r.left != 0 then Data([], r)
    else match TakeLength(r.conn)
      case NoHeader => Error
      case Header(n, conn) =>
        if !server then Data([], r.(left := n, conn := conn))
        else if |conn| < 4 then Error
        else Data([], Reader(n, conn[..4], 0, conn[4..]))
  }

  function Serve(server: bool, r: Reader, size: nat): (res: ReadResult) {
    var m := if size > r.left then r.left else size;
    if m < 0 then Panic
    else if |r.conn| < m || |r.key| != 4 then Error
    else if server then
      Data(Mask(r.conn[..m], r.key, r.off), Reader(r.left - m, r.key, (m + r.off) % 4, r.conn[m..]))
    else Data(r.conn[..m], r.(left := r.left - m, conn := r.conn[m..]))
  }

  // Read with a destination of the given size, at the side `server`.
  function Read(server: bool, r: Reader, size: nat): (res: ReadResult) {
    match Enter(server, r)
    case Data(_, r') => Serve(server, r', size)
    case failed => failed
  }

  // The reader at side `server` stands where `cur` is left of the current frame, sent by a writer
  // with the given key, and the writes ws follow.
  ghost predicate At(server: bool, key: seq<byte>, r: Reader, cur: seq<byte>, ws: seq<seq<byte>>) {
    && |key| == 4 && |r.key| == 4 && r.left == |cur| && (forall i :: 0 <= i < |ws| ==> |ws[i]| < I63)
    && (server && cur != [] ==> r.key == key)
    && r.conn == (if server then Mask(cur, r.key, r.off) else cur) + Wire(!server, key, ws)
  }

  // A read panics exactly when it takes a header whose length has 64 bits with the top one set,
  // and the server found the key behind it.
  lemma PanicsIff(server: bool, r: Reader, size: nat)
    requires r.left >= 0
    ensures Read(server, r, size) == Panic <==>
            && r.left == 0 && |r.conn| >= (if server then 14 else 10)
            && r.conn[1] % 128 == 127 && r.conn[2] >= 128
  {
    hide FromBe64, Mask;
    if |r.conn| >= 10 {
      TopBit(r.conn[2..10]);
    }
  }

  lemma TopBit(s: seq<byte>)
    requires |s| == 8
    ensures 0 <= FromBe64(s) < 2 * I63 && (FromBe64(s) >= I63 <==> s[0] >= 128)
  {
    var high := s[..4];
    assert high[..2][0] == s[0];
    TopBit32(high);
  }

  lemma TopBit32(s: seq<byte>)
    requires |s| == 4
    ensures FromBe32(s) >= I31 <==> s[0] >= 128
  {
    assert s[..2][0] == s[0];
  }

  // A header of ten bytes is enough for a client.
  lemma NegativeLength(any: seq<byte>, rest: seq<byte>, size: nat)
    requires |any| == 4
    ensures Read(false, Reader(0, any, 0, [0x82, 127, 128, 0, 0, 0, 0, 0, 0, 0] + rest), size) == Panic
  {
    PanicsIff(false, Reader(0, any, 0, [0x82, 127, 128, 0, 0, 0, 0, 0, 0, 0] + rest), size);
  }

  lemma Middle(x: byte, y: byte, field: seq<byte>, rest: seq<byte>)
    ensures var s := [x] + ([y] + field) + rest;
      |s| >= 2 + |field| && s[1] == y && s[2..2 + |field|] == field && s[2 + |field|..] == rest
  {
    assert [x] + ([y] + field) + rest == [x, y] + (field + rest);
  }

  lemma TakeLengthField(masked: bool, n: nat, rest: seq<byte>)
    requires n < I63
    ensures TakeLength([0x82] + LengthField(masked, n) + rest) == Header(n, rest)
  {
    hide Be16, FromBe16, Be64, FromBe64;
    var bit := if masked then 128 else 0;
    if n <= 125 {
      Middle(0x82, bit + n, [], rest);
      assert [bit + n] + [] == [bit + n];
    } else if n < 65536 {
      Be16RoundTrip(n);
      Middle(0x82, bit + 126, Be16(n), rest);
    } else {
      Be64RoundTrip(n);
      Middle(0x82, bit + 127, Be64(n), rest);
    }
  }

  // A server takes the key of every frame from its header, and begins with the first byte of it.
  lemma EnterTakesKey(r: Reader, n: nat, key: seq<byte>, rest: seq<byte>)
    requires r.left == 0 && n < I63 && |key| == 4 && r.conn == [0x82] + LengthField(true, n) + (key + rest)
    ensures Enter(true, r) == Data([], Reader(n, key, 0, rest))
  {
    hide LengthField, TakeLength;
    TakeLengthField(true, n, key + rest);
    assert (key + rest)[..4] == key && (key + rest)[4..] == rest;
  }

  lemma EnterFrame(server: bool, key: seq<byte>, r: Reader, ws: seq<seq<byte>>)
    requires At(server, key, r, [], ws) && ws != []
    ensures Enter(server, r).Data? && At(server, key, Enter(server, r).r, ws[0], ws[1..])
  {
    hide LengthField, TakeLength;
    var w := ws[0];
    var body := if server then key + Mask(w, key, 0) else w;
    var rest := body + Wire(!server, key, ws[1..]);
    assert r.conn == [0x82] + LengthField(server, |w|) + rest;
    TakeLengthField(server, |w|, rest);
    if server {
      assert rest[..4] == key && rest[4..] == Mask(w, key, 0) + Wire(!server, key, ws[1..]);
    }
  }

  lemma ServeMasked(key: seq<byte>, r: Reader, cur: seq<byte>, ws: seq<seq<byte>>, m: nat)
    requires At(true, key, r, cur, ws) && m <= |cur|
    ensures |r.conn| >= m && Mask(r.conn[..m], r.key, r.off) == cur[..m]
    ensures r.conn[m..] == Mask(cur[m..], r.key, (m + r.off) % 4) + Wire(false, key, ws)
  {
    hide Wire, Mask;
    var tail := Wire(false, key, ws);
    MaskCut(cur, r.key, r.off, m);
    MaskTwice(cur[..m], r.key, r.off);
    var masked := Mask(cur, r.key, r.off);
    MaskLength(cur, r.key, r.off);
    assert (masked + tail)[..m] == masked[..m] && (masked + tail)[m..] == masked[m..] + tail;
  }

  lemma ServePlain(key: seq<byte>, r: Reader, cur: seq<byte>, ws: seq<seq<byte>>, m: nat)
    requires At(false, key, r, cur, ws) && m <= |cur|
    ensures |r.conn| >= m && r.conn[..m] == cur[..m] && r.conn[m..] == cur[m..] + Wire(true, key, ws)
  {
    hide Wire;
    var tail := Wire(true, key, ws);
    assert (cur + tail)[..m] == cur[..m] && (cur + tail)[m..] == cur[m..] + tail;
  }

  lemma AtKnows(server: bool, key: seq<byte>, r: Reader, cur: seq<byte>, ws: seq<seq<byte>>)
    requires At(server, key, r, cur, ws)
    ensures r.left == |cur| && |key| == |r.key| == 4
  {
  }

  lemma AtAfter(server: bool, key: seq<byte>, r: Reader, cur: seq<byte>, ws: seq<seq<byte>>, m: nat)
    requires At(server, key, r, cur, ws) && m <= |cur| && |r.conn| >= m
    requires server ==> r.conn[m..] == Mask(cur[m..], r.key, (m + r.off) % 4) + Wire(false, key, ws)
    requires !server ==> r.conn[m..] == cur[m..] + Wire(true, key, ws)
    ensures var off := if server then (m + r.off) % 4 else r.off;
      At(server, key, Reader(r.left - m, r.key, off, r.conn[m..]), cur[m..], ws)
  {
    hide Wire, Mask;
  }

  // The part of a read behind the header.
  lemma ServeCurrent(server: bool, key: seq<byte>, r: Reader, cur: seq<byte>, ws: seq<seq<byte>>, size: nat)
    requires At(server, key, r, cur, ws)
    ensures var m, res := if size > |cur| then |cur| else size, Serve(server, r, size);
      res.Data? && res.out == cur[..m] && At(server, key, res.r, cur[m..], ws)
  {
    hide Wire, Mask, At;
    var m := if size > |cur| then |cur| else size;
    AtKnows(server, key, r, cur, ws);
    if server {
      ServeMasked(key, r, cur, ws, m);
    } else {
      ServePlain(key, r, cur, ws, m);
    }
    AtAfter(server, key, r, cur, ws, m);
  }

  lemma MaskLength(s: seq<byte>, key: seq<byte>, off: nat)
    requires |key| == 4
    ensures |Mask(s, key, off)| == |s|
  {
  }

  // ---- Any writes, any reads

  // Everything a series of reads returns, up to the first error.
  function ReadAll(server: bool, r: Reader, sizes: seq<nat>): (out: seq<byte>)
    decreases |sizes|
  {
    if sizes == [] then []
    else match Read(server, r, sizes[0])
      case Data(o, r') => o + ReadAll(server, r', sizes[1..])
      case _ => []
  }

  // Reads needed at most when each has room for a byte: one for every byte and every frame.
  ghost function Steps(cur: seq<byte>, ws: seq<seq<byte>>): (r: nat) {
    |cur| + |Flatten(ws)| + |ws|
  }

  // One read: what it returns and what is still to come make up what was to come.
  lemma ReadServes(server: bool, key: seq<byte>, r: Reader, cur: seq<byte>, ws: seq<seq<byte>>, size: nat)
    returns (cur': seq<byte>, ws': seq<seq<byte>>)
    requires At(server, key, r, cur, ws) && (cur != [] || ws != [])
    ensures var res := Read(server, r, size);
      && res.Data? && At(server, key, res.r, cur', ws')
      && res.out + (cur' + Flatten(ws')) == cur + Flatten(ws)
      && (size > 0 ==> Steps(cur', ws') < Steps(cur, ws))
  {
    hide At, Serve;
    var here, later := cur, ws;
    if cur == [] {
      EnterFrame(server, key, r, ws);
      here, later := ws[0], ws[1..];
    } else {
      Inside(server, key, r, cur, ws);
    }
    var m := if size > |here| then |here| else size;
    ServeCurrent(server, key, Enter(server, r).r, here, later, size);
    cur', ws' := here[m..], later;
    assert here[..m] + (here[m..] + Flatten(later)) == here + Flatten(later);
  }

  lemma Inside(server: bool, key: seq<byte>, r: Reader, cur: seq<byte>, ws: seq<seq<byte>>)
    requires At(server, key, r, cur, ws) && cur != []
    ensures Enter(server, r) == Data([], r)
  {
  }

  lemma {:induction false} ReadsServe(
      server: bool, key: seq<byte>, r: Reader, cur: seq<byte>, ws: seq<seq<byte>>, sizes: seq<nat>)
    requires At(server, key, r, cur, ws)
    ensures ReadAll(server, r, sizes) <= cur + Flatten(ws)
    ensures (forall i :: 0 <= i < |sizes| ==> sizes[i] > 0) && |sizes| >= Steps(cur, ws) ==>
      ReadAll(server, r, sizes) == cur + Flatten(ws)
    decreases |sizes|
  {
    if sizes != [] {
      if cur == [] && ws == [] {
        assert r.conn == [];
      } else {
        hide At, Read;
        var cur', ws' := ReadServes(server, key, r, cur, ws, sizes[0]);
        ReadsServe(server, key, Read(server, r, sizes[0]).r, cur', ws', sizes[1..]);
      }
    }
  }

  // A fresh reader at the other side of a writer: whatever is written, with empty writes and any
  // lengths, and whatever the sizes of the reads, they return the bytes written, in order, and
  // all of them once there were enough reads with room.
  lemma FramingRoundTrip(server: bool, key: seq<byte>, any: seq<byte>, writes: seq<seq<byte>>, sizes: seq<nat>)
    requires |key| == 4 && |any| == 4 && forall i :: 0 <= i < |writes| ==> |writes[i]| < I63
    ensures var out := ReadAll(server, Reader(0, any, 0, Wire(!server, key, writes)), sizes);
      && out <= Flatten(writes)
      && ((forall i :: 0 <= i < |sizes| ==> sizes[i] > 0) && |sizes| >= |Flatten(writes)| + |writes| ==>
           out == Flatten(writes))
  {
    var r := Reader(0, any, 0, Wire(!server, key, writes));
    assert Mask([], any, 0) == [];
    assert [] + Wire(!server, key, writes) == Wire(!server, key, writes) && [] + Flatten(writes) == Flatten(writes);
    assert At(server, key, r, [], writes);
    hide At, Wire;
    ReadsServe(server, key, r, [], writes, sizes);
  }

  // ---- The objects

  lemma AppendedIs(a: seq<byte>, b: seq<byte>)
    ensures a <= a + b && (a + b)[|a|..] == b
  {
  }

  class FrameWriter {
    const server: bool
    const maskKey: seq<byte>
    var sink: seq<byte>

    // The key is drawn once, at random.
    constructor (server: bool, maskKey: seq<byte>)
      requires |maskKey| == 4
      ensures this.server == server && this.maskKey == maskKey && sink == []
    {
      this.server, this.maskKey, sink := server, maskKey, [];
    }

    method Write(b: seq<byte>) returns (n: nat)
      requires |maskKey| == 4 && |b| < I63
      modifies this
      ensures sink == old(sink) + Frame(server, maskKey, b) && n == |b|
      ensures old(sink) <= sink && IsFrame(sink[|old(sink)|..], server, maskKey, b)
    {
      hide IsFrame, LengthField, Xor;
      FrameLayout(server, maskKey, b);
      AppendedIs(sink, Frame(server, maskKey, b));
      n := |b|;
      var header := HeaderOf(n);
      if server {
        sink := sink + (header + b);
        return;
      }
      var payload := MaskPayload(b);
      sink := sink + (header + (maskKey + payload));
    }

    method HeaderOf(n: nat) returns (header: seq<byte>)
      requires n < I63
      ensures header == [0x82] + LengthField(!server, n)
    {
      hide Be16, Be64;
      var bit := if server then 0 else 128;
      if n <= 125 {
        header := [0x82, bit + n];
      } else if n < 65536 {
        header := [0x82, bit + 126] + Be16(n);
      } else {
        header := [0x82, bit + 127] + Be64(n);
      }
    }

    method MaskPayload(b: seq<byte>) returns (r: seq<byte>)
      requires |maskKey| == 4
      ensures r == Mask(b, maskKey, 0)
    {
      hide Xor;
      var n := |b|;
      var payload := new byte[n](_ => 0);
      for i := 0 to n
        invariant forall k :: 0 <= k < i ==> payload[k] == Xor(b[k], maskKey[k % 4])
      {
        payload[i] := Xor(b[i], maskKey[i % 4]);
      }
      r := payload[..];
    }
  }

  class FrameReader {
    const server: bool
    var left: int
    var maskKey: seq<byte>
    var maskOffset: nat
    var conn: seq<byte>

    ghost function View(): (r: Reader)
      reads this
    {
      Reader(left, maskKey, maskOffset, conn)
    }

    constructor (server: bool, conn: seq<byte>)
      ensures this.server == server && View() == Reader(0, [0, 0, 0, 0], 0, conn)
    {
      this.server, this.conn := server, conn;
      left, maskKey, maskOffset := 0, [0, 0, 0, 0], 0;
    }

    method EnterNext() returns (ok: bool)
      requires |maskKey| == 4
      modifies this
      ensures |maskKey| == 4
      ensures match Enter(server, old(View()))
              case Data(_, r) => ok && View() == r
              case _ => !ok
    {
      if left == 0 {
        if |conn| < 2 {
          return false;
        }
        var n: int := conn[1] % 128;
        var at := 2;
        if n == 126 {
          if |conn| < 4 {
            return false;
          }
          n, at := FromBe16(conn[2..4]), 4;
        } else if n == 127 {
          if |conn| < 10 {
            return false;
          }
          n, at := Int64(FromBe64(conn[2..10])), 10;
        }
        var rest := conn[at..];
        assert TakeLength(conn) == Header(n, rest);
        if server {
          if |rest| < 4 {
            return false;
          }
          maskKey, maskOffset, rest := rest[..4], 0, rest[4..];
        }
        left, conn := n, rest;
      }
      ok := true;
    }

    // Read into b; the bytes are unmasked where they are.
    method ReadInto(b: array<byte>) returns (ok: bool, panicked: bool, m: nat)
      requires |maskKey| == 4
      modifies this, b
      ensures |maskKey| == 4
      ensures match Read(server, old(View()), b.Length)
              case Panic => !ok && panicked
              case Error => !ok && !panicked
              case Data(out, r) => ok && !panicked && m == |out| <= b.Length && b[..m] == out && View() == r
    {
      hide Enter;
      m, panicked := 0, false;
      ok := EnterNext();
      if !ok {
        return;
      }
      if left < 0 {
        return false, true, 0;
      }
      m := if b.Length > left then left else b.Length;
      if |conn| < m {
        return false, false, 0;
      }
      var data := conn[..m];
      forall i | 0 <= i < m {
        b[i] := data[i];
      }
      if server {
        Unmask(b, m, data);
        maskOffset := (m + maskOffset) % 4;
      }
      assert server || b[..m] == data;
      conn := conn[m..];
      left := left - m;
    }

    method Unmask(b: array<byte>, m: nat, ghost data: seq<byte>)
      requires |maskKey| == 4 && m <= b.Length && b[..m] == data
      modifies b
      ensures b[..m] == Mask(data, maskKey, maskOffset)
    {
      hide Xor;
      for i := 0 to m
        invariant forall k :: i <= k < m ==> b[k] == data[k]
        invariant forall k :: 0 <= k < i ==> b[k] == Xor(data[k], maskKey[(k + maskOffset) % 4])
      {
        b[i] := Xor(b[i], maskKey[(i + maskOffset) % 4]);
      }
    }
  }
}

// The auth_sha1_v4 protocol after its header: blocks packed with padding, a checksum of the
// length and a checksum of the packet, and a parser fed in arbitrary fragments.
module AuthSha1V4 {
  import opened Words
  import opened Bytes
  import opened Seqs
  import Adler32
  import Crc32

  function Low16(c: bv32): (r: seq<byte>)
    ensures |r| == 2
  {
    [((c & 0xFF) as bv8) as int, (((c >> 8) & 0xFF) as bv8) as int]
  }

  function Bits(s: seq<byte>): (r: seq<bv8>)
    requires |s| == 2
  {
    [s[0] as bv8, s[1] as bv8]
  }

  // The low 16 bits of the CRC of the two length bytes, low byte first.
  function LengthCrc(s: seq<byte>): (r: seq<byte>)
    requires |s| == 2
    ensures |r| == 2
  {
    Low16(Crc32.Crc(Bits(s)))
  }

  // A block of data and the length of its padding.
  // There is always a byte of padding: its own length.
  type Pad = x: nat | 1 <= x witness 1

  datatype Block = Block(data: seq<byte>, pad: Pad)

  // The paddings packData may draw for a block of n bytes.
  predicate PadOk(n: nat, pad: nat) {
    1 <= pad && if n > 1300 then pad == 1 else if n > 400 then pad <= 128 else pad <= 1024
  }

  predicate BlockOk(b: Block) {
    1 <= |b.data| <= 4096 && PadOk(|b.data|, b.pad)
  }

  // The padding: its own length, in one byte or after the mark 0xFF, then zeros.
  function Padding(pad: Pad): (r: seq<byte>)
    ensures |r| == pad
  {
    if pad < 128 then [pad % 256] + Zeros(pad - 1) else [0xFF] + Be16(pad % 65536) + Zeros(pad - 3)
  }

  function Head(total: nat): (r: seq<byte>)
    ensures |r| == 4
  {
    var l := Be16(total % 65536);
    l + LengthCrc(l)
  }

  // Everything but the trailing checksum.
  function Body(b: Block): (r: seq<byte>)
    ensures |r| == 4 + b.pad + |b.data|
  {
    Head(b.pad + |b.data| + 8) + Padding(b.pad) + b.data
  }

  function Pack(b: Block): (r: seq<byte>)
    ensures |r| == b.pad + |b.data| + 8
  {
    Body(b) + Le32(Adler32.Adler(Body(b)))
  }

  // ---- The parser

  datatype Error = CrcError | DataLengthError | IncorrectChecksum | SliceOutOfRange

  datatype Parsed = Ok(out: seq<byte>, n: nat) | Err(error: Error)

  // Where the data starts: behind the padding.
  function DataStart(s: seq<byte>): (r: nat)
    requires |s| >= 7
  {
    if s[4] != 0xFF then s[4] + 4 else FromBe16(s[5..7]) + 4
  }

  // The front of a buffer: a complete packet, not yet one, or something wrong.
  datatype Front = Packet(data: seq<byte>, length: nat) | Wait | Wrong(error: Error)

  function Look(s: seq<byte>): (r: Front)
    ensures r.Packet? ==> 0 < r.length <= |s|
  {
    if |s| <= 4 then Wait
    else if s[2..4] != LengthCrc(s[..2]) then Wrong(CrcError)
    else
      var length := FromBe16(s[..2]);
      if length >= 8192 || length < 8 then Wrong(DataLengthError)
      else if length > |s| then Wait
      else if Adler32.Adler(s[..length - 4]) != FromLe32(s[length - 4..length]) then Wrong(IncorrectChecksum)
      else
        var pos := DataStart(s);
        if pos > length - 4 then Wrong(SliceOutOfRange) else Packet(s[pos..length - 4], length)
  }

  // What PostDecrypt makes of a buffer: the data of the complete packets at its front and how
  // many bytes they take.
  function Parse(s: seq<byte>): (r: Parsed)
    ensures r.Ok? ==> r.n <= |s|
  {
    match Look(s)
    case Wait => Ok([], 0)
    case Wrong(e) => Err(e)
    case Packet(data, length) => Prepend(data, length, Parse(s[length..]))
  }

  function Prepend(out: seq<byte>, n: nat, p: Parsed): (r: Parsed) {
    match p
    case Err(e) => Err(e)
    case Ok(o, m) => Ok(out + o, n + m)
  }

  // ---- One packet

  lemma AdlerFits(s: seq<byte>)
    ensures Adler32.Adler(s) < U32
  {
    Adler32.Reduced(s, 1, 0);
  }

  // The pieces of a packet where the parser looks for them.
  lemma HeaderLayout(b: Block)
    requires BlockOk(b)
    ensures var p, n := Pack(b), b.pad + |b.data| + 8;
      8 <= n < 8192 && FromBe16(p[..2]) == n && p[2..4] == LengthCrc(p[..2])
  {
    hide Adler32.Adler, LengthCrc, Be16, Le32, FromBe16;
    var p, n := Pack(b), b.pad + |b.data| + 8;
    assert p[..2] == Be16(n) && p[2..4] == LengthCrc(Be16(n));
    Be16RoundTrip(n);
  }

  lemma PacketLayout(b: Block)
    requires BlockOk(b)
    ensures var p, n := Pack(b), b.pad + |b.data| + 8;
      && p[..n - 4] == Body(b) && FromLe32(p[n - 4..n]) == Adler32.Adler(Body(b))
      && DataStart(p) == b.pad + 4 && p[b.pad + 4..n - 4] == b.data
  {
    hide Adler32.Adler, LengthCrc, Be16, Le32, FromLe32, FromBe16;
    var p, n := Pack(b), b.pad + |b.data| + 8;
    assert p[..n - 4] == Body(b) && p[n - 4..n] == Le32(Adler32.Adler(Body(b)));
    AdlerFits(Body(b));
    Le32RoundTrip(Adler32.Adler(Body(b)));
    assert p[4..4 + b.pad] == Padding(b.pad);
    assert p[4 + b.pad..n - 4] == b.data;
    PaddingStart(p, b.pad);
  }

  lemma PaddingStart(p: seq<byte>, pad: Pad)
    requires pad <= 1024 && |p| >= 4 + pad && |p| >= 7 && p[4..4 + pad] == Padding(pad)
    ensures DataStart(p) == pad + 4
  {
    assert p[4] == p[4..4 + pad][0];
    if pad >= 128 {
      Be16RoundTrip(pad);
      var q := p[4..4 + pad];
      assert q[1] == p[5] && q[2] == p[6];
      assert q[1..3] == Be16(pad) && p[5..7] == [p[5], p[6]] && q[1..3] == [q[1], q[2]];
    }
  }

  lemma LookAhead(p: seq<byte>, rest: seq<byte>, n: nat, at: nat)
    requires 8 <= n <= |p| && at <= n - 4
    ensures var s := p + rest;
      && s[..2] == p[..2] && s[2..4] == p[2..4] && s[..n - 4] == p[..n - 4] && s[n - 4..n] == p[n - 4..n]
      && DataStart(s) == DataStart(p) && s[at..n - 4] == p[at..n - 4]
  {
    assert (p + rest)[5..7] == p[5..7];
  }

  lemma LookFinds(s: seq<byte>, n: nat, pos: nat)
    requires 8 <= n < 8192 && n <= |s| && s[2..4] == LengthCrc(s[..2]) && FromBe16(s[..2]) == n
    requires Adler32.Adler(s[..n - 4]) == FromLe32(s[n - 4..n]) && DataStart(s) == pos <= n - 4
    ensures Look(s) == Packet(s[pos..n - 4], n)
  {
    hide LengthCrc, FromBe16, Adler32.Adler, FromLe32, DataStart;
  }

  lemma LookPacket(b: Block, rest: seq<byte>)
    requires BlockOk(b)
    ensures Look(Pack(b) + rest) == Packet(b.data, |Pack(b)|)
  {
    HeaderLayout(b);
    PacketLayout(b);
    hide Pack, Body, LengthCrc, Adler32.Adler, FromLe32, FromBe16, DataStart, Look;
    LookAhead(Pack(b), rest, |Pack(b)|, b.pad + 4);
    LookFinds(Pack(b) + rest, |Pack(b)|, b.pad + 4);
  }

  lemma LookWaits(s: seq<byte>, n: nat)
    requires 4 < |s| < n < 8192 && 8 <= n && s[2..4] == LengthCrc(s[..2]) && FromBe16(s[..2]) == n
    ensures Look(s) == Wait
  {
    hide LengthCrc, FromBe16;
  }

  // A complete packet at the front gives its data, and parsing goes on behind it.
  lemma ParsePacket(b: Block, rest: seq<byte>)
    requires BlockOk(b)
    ensures Parse(Pack(b) + rest) == Prepend(b.data, |Pack(b)|, Parse(rest))
  {
    LookPacket(b, rest);
    assert (Pack(b) + rest)[|Pack(b)|..] == rest;
    hide Pack, Look;
  }

  lemma PartialWaits(p: seq<byte>, s: seq<byte>)
    requires 8 <= |p| < 8192 && FromBe16(p[..2]) == |p| && p[2..4] == LengthCrc(p[..2])
    requires s <= p && |s| < |p|
    ensures Look(s) == Wait
  {
    hide LengthCrc, FromBe16, Look;
    if |s| > 4 {
      assert s[..2] == p[..2] && s[2..4] == p[2..4];
      LookWaits(s, |p|);
    } else {
      TooShort(s);
    }
  }

  // An incomplete packet gives nothing and is left where it is.
  lemma ParsePartial(b: Block, s: seq<byte>)
    requires BlockOk(b) && s <= Pack(b) && |s| < |Pack(b)|
    ensures Parse(s) == Ok([], 0)
  {
    hide Pack, LengthCrc, FromBe16, Look, Parse;
    HeaderLayout(b);
    PartialWaits(Pack(b), s);
    WaitTakesNothing(s);
  }

  lemma WaitTakesNothing(s: seq<byte>)
    requires Look(s) == Wait
    ensures Parse(s) == Ok([], 0)
  {
    hide Look;
  }

  lemma TooShort(s: seq<byte>)
    requires |s| <= 4
    ensures Look(s) == Wait
  {
  }

  // ---- The bytes of a packet, without the functions that write and read them

  lemma LowBytes(c: bv32)
    ensures Two(Low16(c)[1], Low16(c)[0]) == (c & 0xFFFF) as int
  {
  }

  // The low 16 bits of the CRC of the first two bytes follow them, low byte first.
  predicate CrcFollows(s: seq<byte>)
    requires |s| >= 4
  {
    Two(s[3], s[2]) == (Crc32.Crc(Bits([s[0], s[1]])) & 0xFFFF) as int
  }

  lemma LowIff(c: bv32, x: byte, y: byte)
    ensures Two(y, x) == (c & 0xFFFF) as int <==> [x, y] == Low16(c)
  {
    LowBytes(c);
    var l := Low16(c);
    hide Low16;
    SameDigits(y, x, l[1], l[0]);
    assert l == [l[0], l[1]];
  }

  lemma CrcFollowsIff(s: seq<byte>)
    requires |s| >= 4
    ensures CrcFollows(s) <==> s[2..4] == LengthCrc(s[..2])
  {
    hide Crc32.Crc, Bits, Low16, Two;
    assert s[..2] == [s[0], s[1]] && s[2..4] == [s[2], s[3]];
    LowIff(Crc32.Crc(Bits([s[0], s[1]])), s[2], s[3]);
  }

  // The four bytes from i on, low byte first, are the Adler-32 of what comes before.
  predicate AdlerFollows(s: seq<byte>, i: nat)
    requires i + 4 <= |s|
  {
    Four(s[i], s[i + 1], s[i + 2], s[i + 3]) == Adler32.Adler(s[..i])
  }

  // What p must be, byte by byte, for a packet of the data with this much padding.
  ghost predicate IsPacket(p: seq<byte>, data: seq<byte>, pad: Pad) {
    && |p| == pad + |data| + 8
    && Two(p[0], p[1]) == |p| % 65536 && CrcFollows(p)
    && (if pad < 128 then p[4] as int == pad else p[4] == 255 && Two(p[5], p[6]) == pad % 65536)
    && (forall i :: (if pad < 128 then 5 else 7) <= i < 4 + pad ==> p[i] == 0)
    && p[4 + pad..|p| - 4] == data && AdlerFollows(p, |p| - 4)
  }

  lemma PackIsPacket(b: Block)
    ensures IsPacket(Pack(b), b.data, b.pad)
  {
    var p, n := Pack(b), b.pad + |b.data| + 8;
    PackFront(b);
    PackPadding(b);
    PackEnd(b);
  }

  lemma PackFront(b: Block)
    ensures var p := Pack(b); Two(p[0], p[1]) == |p| % 65536 && CrcFollows(p)
  {
    hide Adler32.Adler, LengthCrc, Le32, Padding, CrcFollows;
    var p := Pack(b);
    var l := Be16(|p| % 65536);
    assert p[..2] == l && p[2..4] == LengthCrc(l);
    CrcFollowsIff(p);
    assert p[0] == l[0] && p[1] == l[1];
  }

  lemma PackPadding(b: Block)
    ensures var p, pad := Pack(b), b.pad;
      && (if pad < 128 then p[4] as int == pad else p[4] == 255 && Two(p[5], p[6]) == pad % 65536)
      && (forall i :: (if pad < 128 then 5 else 7) <= i < 4 + pad ==> p[i] == 0)
      && p[4 + pad..|p| - 4] == b.data
  {
    hide Adler32.Adler, Head, Le32;
    var p, pad: nat := Pack(b), b.pad;
    assert p[4..4 + pad] == Padding(pad);
    assert p[4] == Padding(pad)[0];
    if pad >= 128 {
      assert p[5] == Padding(pad)[1] && p[6] == Padding(pad)[2];
      Be16RoundTrip(pad % 65536);
    }
    forall i | (if pad < 128 then 5 else 7) <= i < 4 + pad ensures p[i] == 0 {
      assert p[4 + (i - 4)] == Padding(pad)[i - 4];
    }
  }

  lemma PackEnd(b: Block)
    ensures AdlerFollows(Pack(b), |Pack(b)| - 4)
  {
    hide Adler32.Adler, Body;
    var p, body := Pack(b), Body(b);
    var a := Le32(Adler32.Adler(body));
    assert p[..|p| - 4] == body;
    assert p[|p| - 4] == a[0] && p[|p| - 3] == a[1] && p[|p| - 2] == a[2] && p[|p| - 1] == a[3];
    AdlerFits(body);
    Le32RoundTrip(Adler32.Adler(body));
  }

  // ---- When the parser fails

  // Where the data begins according to the padding at the front.
  function DataAt(s: seq<byte>): (r: nat)
    requires |s| >= 7
  {
    4 + if s[4] == 255 then Two(s[5], s[6]) else s[4] as int
  }

  // The faults of the front of a buffer, in the order in which they are looked for.
  predicate Faulty(s: seq<byte>, e: Error) {
    && |s| > 4
    && var length := Two(s[0], s[1]);
       match e
       case CrcError => !CrcFollows(s)
       case DataLengthError => CrcFollows(s) && (length < 8 || length >= 8192)
       case IncorrectChecksum => CrcFollows(s) && Complete(s) && !AdlerFollows(s, length - 4)
       case SliceOutOfRange => CrcFollows(s) && Complete(s) && AdlerFollows(s, length - 4) && DataAt(s) > length - 4
  }

  // A packet of a proper length is there to its end.
  predicate Complete(s: seq<byte>) {
    |s| > 4 && 8 <= Two(s[0], s[1]) < 8192 && Two(s[0], s[1]) <= |s|
  }

  // The front of a buffer is a packet exactly when it is complete and has no fault; then its data
  // is what its bytes say.
  lemma LookMeans(s: seq<byte>)
    ensures forall e :: Look(s) == Wrong(e) <==> Faulty(s, e)
    ensures Look(s).Packet? <==>
            Complete(s) && CrcFollows(s) && AdlerFollows(s, Two(s[0], s[1]) - 4) && !Faulty(s, SliceOutOfRange)
    ensures Look(s).Packet? ==>
      var length := Two(s[0], s[1]); DataAt(s) <= length - 4 && Look(s) == Packet(s[DataAt(s)..length - 4], length)
  {
    hide Adler32.Adler, LengthCrc, CrcFollows;
    if |s| > 4 {
      CrcFollowsIff(s);
      var length := Two(s[0], s[1]);
      assert FromBe16(s[..2]) == length;
      if Complete(s) {
        var t := s[length - 4..length];
        assert t == [s[length - 4], s[length - 3], s[length - 2], s[length - 1]];
        assert AdlerFollows(s, length - 4) <==> Adler32.Adler(s[..length - 4]) == FromLe32(t);
        assert s[5..7] == [s[5], s[6]];
      }
    }
  }

  // Place p of s is where a packet begins that comes after packets without fault.
  ghost predicate PacketAt(s: seq<byte>, p: nat)
    decreases |s|
  {
    p == 0 || (Look(s).Packet? && p >= Look(s).length && PacketAt(s[Look(s).length..], p - Look(s).length))
  }

  ghost predicate FaultAt(s: seq<byte>, p: nat, e: Error) {
    p <= |s| && PacketAt(s, p) && Faulty(s[p..], e)
  }

  // PostDecrypt fails exactly when, after packets without fault, it comes to one with a fault.
  lemma {:induction false} FailsIff(s: seq<byte>, e: Error)
    ensures Parse(s) == Err(e) <==> exists p: nat :: FaultAt(s, p, e)
    decreases |s|
  {
    hide Faulty, Look;
    LookMeans(s);
    assert s[0..] == s;
    assert FaultAt(s, 0, e) <==> Faulty(s, e);
    var front := Look(s);
    if front.Packet? {
      var n := front.length;
      FailsIff(s[n..], e);
      if p: nat :| FaultAt(s[n..], p, e) {
        assert s[n..][p..] == s[n + p..];
        assert FaultAt(s, n + p, e);
      }
      if p: nat :| FaultAt(s, p, e) && p != 0 {
        assert s[n..][p - n..] == s[p..];
        assert FaultAt(s[n..], p - n, e);
      }
    }
  }

  // It panics exactly when it comes to a packet with the right checksums whose padding is said to
  // be longer than it has room for.
  lemma PanicsIff(s: seq<byte>)
    ensures Parse(s) == Err(SliceOutOfRange) <==> exists p: nat ::
      && p <= |s| && PacketAt(s, p) && |s[p..]| > 4 && CrcFollows(s[p..]) && Complete(s[p..])
      && var t := s[p..]; var end := Two(t[0], t[1]) - 4; AdlerFollows(t, end) && DataAt(t) > end
  {
    hide Parse, PacketAt, CrcFollows, AdlerFollows;
    FailsIff(s, SliceOutOfRange);
    if p: nat :| FaultAt(s, p, SliceOutOfRange) {
      assert p <= |s| && PacketAt(s, p) && Faulty(s[p..], SliceOutOfRange);
    }
    if p: nat :| p <= |s| && PacketAt(s, p) && Faulty(s[p..], SliceOutOfRange) {
      assert FaultAt(s, p, SliceOutOfRange);
    }
  }

  lemma FirstFaultFails(s: seq<byte>, e: Error)
    requires Faulty(s, e)
    ensures Parse(s) == Err(e)
  {
    hide Look, Faulty;
    LookMeans(s);
  }

  lemma SixOfNine(s: seq<byte>)
    requires |s| == 9 && s[4] == 6 && FromBe16(s[..2]) == 9 && s[2..4] == LengthCrc(s[..2])
    requires Adler32.Adler(s[..5]) == FromLe32(s[5..9])
    ensures Faulty(s, SliceOutOfRange)
  {
    hide Adler32.Adler, LengthCrc, CrcFollows;
    CrcFollowsIff(s);
    assert s[5..9] == [s[5], s[6], s[7], s[8]];
  }

  // A packet of nine bytes that claims six of padding.
  lemma LongPadding()
    ensures var body := Head(9) + [6]; Parse(body + Le32(Adler32.Adler(body))) == Err(SliceOutOfRange)
  {
    hide Adler32.Adler, LengthCrc, Be16, Le32, FromLe32, FromBe16, Parse;
    var body := Head(9) + [6];
    var s := body + Le32(Adler32.Adler(body));
    AdlerFits(body);
    assert s[..2] == Be16(9) && s[2..4] == LengthCrc(Be16(9));
    assert s[..5] == body && s[5..9] == Le32(Adler32.Adler(body));
    Be16RoundTrip(9);
    Le32RoundTrip(Adler32.Adler(body));
    SixOfNine(s);
    FirstFaultFails(s, SliceOutOfRange);
  }

  // ---- Packets in a row

  ghost predicate AllOk(bs: seq<Block>) {
    forall i :: 0 <= i < |bs| ==> BlockOk(bs[i])
  }

  function Stream(bs: seq<Block>): (r: seq<byte>)
  {
    if bs == [] then [] else Pack(bs[0]) + Stream(bs[1..])
  }

  function Datas(bs: seq<Block>): (r: seq<byte>) {
    if bs == [] then [] else bs[0].data + Datas(bs[1..])
  }

  lemma StreamConcat(a: seq<Block>, b: seq<Block>)
    ensures Stream(a + b) == Stream(a) + Stream(b)
    ensures Datas(a + b) == Datas(a) + Datas(b)
  {
    PacketsConcat(a, b);
    DatasConcat(a, b);
  }

  lemma {:induction false} PacketsConcat(a: seq<Block>, b: seq<Block>)
    ensures Stream(a + b) == Stream(a) + Stream(b)
  {
    hide Pack;
    if a == [] {
      assert a + b == b;
    } else {
      PacketsConcat(a[1..], b);
      assert (a + b)[1..] == a[1..] + b && (a + b)[0] == a[0];
      Regroup(Pack(a[0]), Stream(a[1..]), Stream(b));
    }
  }

  lemma {:induction false} DatasConcat(a: seq<Block>, b: seq<Block>)
    ensures Datas(a + b) == Datas(a) + Datas(b)
  {
    if a == [] {
      assert a + b == b;
    } else {
      DatasConcat(a[1..], b);
      assert (a + b)[1..] == a[1..] + b && (a + b)[0] == a[0];
      Regroup(a[0].data, Datas(a[1..]), Datas(b));
    }
  }

  lemma NothingParsed()
    ensures Parse([]) == Ok([], 0)
  {
  }

  lemma StreamOfOne(bs: seq<Block>)
    requires AllOk(bs) && bs != []
    ensures Stream(bs[..1]) == Pack(bs[0])
  {
    hide Pack;
    assert bs[..1][1..] == [] && Stream([]) == [];
  }

  // Any prefix of a stream of packets parses without error into the data of the k packets that
  // are complete in it, and exactly those are consumed; the rest is less than a packet.
  lemma {:induction false} ParsePrefix(bs: seq<Block>, s: seq<byte>) returns (k: nat)
    requires AllOk(bs) && s <= Stream(bs)
    ensures k <= |bs| && Parse(s) == Ok(Datas(bs[..k]), |Stream(bs[..k])|)
    ensures Stream(bs[..k]) <= s && (k < |bs| ==> |s| < |Stream(bs[..k + 1])|)
  {
    hide Pack, Look, Parse;
    if bs == [] {
      k := 0;
      NothingParsed();
    } else if |s| < |Pack(bs[0])| {
      k := 0;
      ParsePartial(bs[0], s);
      StreamOfOne(bs);
    } else {
      var p, rest := Pack(bs[0]), s[|Pack(bs[0])|..];
      assert s == p + rest && rest <= Stream(bs[1..]);
      var j := ParsePrefix(bs[1..], rest);
      k := j + 1;
      ParsePacket(bs[0], rest);
      assert bs[..k][1..] == bs[1..][..j] && bs[..k][0] == bs[0];
      if k < |bs| {
        assert bs[..k + 1][1..] == bs[1..][..j + 1] && bs[..k + 1][0] == bs[0];
      }
    }
  }

  // ---- Fragments

  datatype Received = Received(out: seq<byte>, carry: seq<byte>) | Failed(error: Error)

  // The connection keeps what was not consumed and puts the next fragment behind it.
  function Receive(carry: seq<byte>, fragments: seq<seq<byte>>): (r: Received)
    decreases |fragments|
  {
    if fragments == [] then Received([], carry)
    else
      var buf := carry + fragments[0];
      match Parse(buf)
      case Err(e) => Failed(e)
      case Ok(out, n) =>
        match Receive(buf[n..], fragments[1..])
        case Failed(e) => Failed(e)
        case Received(more, c) => Received(out + more, c)
  }

  // Less than the first packet is waiting.
  ghost predicate Short(bs: seq<Block>, carry: seq<byte>)
    requires AllOk(bs)
  {
    if bs == [] then carry == [] else |carry| < |Pack(bs[0])|
  }

  // What ParsePrefix leaves is less than the next packet.
  lemma LeavesShort(bs: seq<Block>, j: nat, buf: seq<byte>)
    requires AllOk(bs) && j <= |bs| && buf <= Stream(bs) && Stream(bs[..j]) <= buf
    requires j < |bs| ==> |buf| < |Stream(bs[..j + 1])|
    ensures Stream(bs) == Stream(bs[..j]) + Stream(bs[j..]) && Short(bs[j..], buf[|Stream(bs[..j])|..])
  {
    hide Pack;
    assert bs == bs[..j] + bs[j..];
    StreamConcat(bs[..j], bs[j..]);
    if j < |bs| {
      assert bs[..j + 1] == bs[..j] + bs[j..][..1];
      StreamConcat(bs[..j], bs[j..][..1]);
      StreamOfOne(bs[j..]);
    }
  }

  lemma TailPrefix(a: seq<byte>, b: seq<byte>, c: seq<byte>)
    requires a + b <= a + c
    ensures b <= c
  {
    assert forall i :: 0 <= i < |b| ==> b[i] == (a + b)[|a| + i];
  }

  lemma ReceiveMore(carry: seq<byte>, fragments: seq<seq<byte>>, out: seq<byte>, n: nat)
    requires fragments != [] && Parse(carry + fragments[0]) == Ok(out, n)
    ensures carry + Flatten(fragments) == carry + fragments[0] + Flatten(fragments[1..])
    ensures var later := Receive((carry + fragments[0])[n..], fragments[1..]);
      later.Received? ==> Receive(carry, fragments) == Received(out + later.out, later.carry)
  {
    hide Parse;
  }

  // From the bytes s of the stream the data of k packets came out, and what is carried over is
  // the rest of s and less than a packet.
  ghost predicate Delivered(bs: seq<Block>, s: seq<byte>, k: nat, r: Received)
    requires AllOk(bs)
  {
    && k <= |bs| && r.Received? && r.out == Datas(bs[..k])
    && Stream(bs[..k]) + r.carry == s && Short(bs[k..], r.carry)
  }

  lemma NothingReceived(bs: seq<Block>, carry: seq<byte>)
    requires AllOk(bs) && Short(bs, carry)
    ensures Delivered(bs, carry + Flatten([]), 0, Receive(carry, []))
  {
    assert carry + [] == carry && bs[0..] == bs;
  }

  lemma DeliveredLater(bs: seq<Block>, j: nat, i: nat, s: seq<byte>, r: Received)
    requires AllOk(bs) && j <= |bs| && Delivered(bs[j..], s, i, r)
    ensures Delivered(bs, Stream(bs[..j]) + s, j + i, Received(Datas(bs[..j]) + r.out, r.carry))
  {
    hide Pack, Short;
    assert bs[..j + i] == bs[..j] + bs[j..][..i] && bs[j + i..] == bs[j..][i..];
    StreamConcat(bs[..j], bs[j..][..i]);
    assert Stream(bs[..j]) + Stream(bs[j..][..i]) + r.carry == Stream(bs[..j]) + (Stream(bs[j..][..i]) + r.carry);
  }

  lemma {:induction false} ReceivePrefix(bs: seq<Block>, carry: seq<byte>, fragments: seq<seq<byte>>) returns (k: nat)
    requires AllOk(bs) && carry + Flatten(fragments) <= Stream(bs) && Short(bs, carry)
    ensures Delivered(bs, carry + Flatten(fragments), k, Receive(carry, fragments))
    decreases |fragments|, 1
  {
    hide Parse, Pack, Receive, Flatten, Stream, Datas, Short, Delivered;
    if fragments == [] {
      k := 0;
      NothingReceived(bs, carry);
    } else {
      var buf, later := carry + fragments[0], Flatten(fragments[1..]);
      FlattenFirst(fragments);
      assert carry + Flatten(fragments) == buf + later;
      var j := ParsePrefix(bs, buf);
      LeavesShort(bs, j, buf);
      var done, rest := Stream(bs[..j]), buf[|Stream(bs[..j])|..];
      assert buf + later == done + (rest + later);
      TailPrefix(done, rest + later, Stream(bs[j..]));
      k := Continue(bs, j, carry, fragments, rest);
    }
  }

  lemma {:induction false} Continue(
      bs: seq<Block>, j: nat, carry: seq<byte>, fragments: seq<seq<byte>>, rest: seq<byte>) returns (k: nat)
    requires AllOk(bs) && j <= |bs| && fragments != [] && carry + fragments[0] == Stream(bs[..j]) + rest
    requires Parse(carry + fragments[0]) == Ok(Datas(bs[..j]), |Stream(bs[..j])|)
    requires rest + Flatten(fragments[1..]) <= Stream(bs[j..]) && Short(bs[j..], rest)
    ensures Delivered(bs, carry + Flatten(fragments), k, Receive(carry, fragments))
    decreases |fragments|, 0
  {
    hide Parse, Pack, Receive, Flatten, Stream, Datas, Short;
    var later := Flatten(fragments[1..]);
    var i := ReceivePrefix(bs[j..], rest, fragments[1..]);
    var r := Receive(rest, fragments[1..]);
    DeliveredLater(bs, j, i, rest + later, r);
    ReceiveMore(carry, fragments, Datas(bs[..j]), |Stream(bs[..j])|);
    assert (carry + fragments[0])[|Stream(bs[..j])|..] == rest;
    hide Delivered;
    FlattenFirst(fragments);
    assert carry + Flatten(fragments) == Stream(bs[..j]) + (rest + later);
    k := j + i;
  }

  lemma ShortIsEmpty(bs: seq<Block>)
    requires AllOk(bs) && Short(bs, Stream(bs))
    ensures bs == []
  {
  }

  // Any packets, with any paddings, cut into any fragments: no error, exactly the data, nothing
  // left over.
  lemma StreamingRoundTrip(bs: seq<Block>, fragments: seq<seq<byte>>)
    requires AllOk(bs) && Flatten(fragments) == Stream(bs)
    ensures Receive([], fragments) == Received(Datas(bs), [])
  {
    hide Pack, Parse, Receive;
    assert [] + Flatten(fragments) == Flatten(fragments);
    var k := ReceivePrefix(bs, [], fragments);
    var c := Receive([], fragments).carry;
    assert bs == bs[..k] + bs[k..];
    StreamConcat(bs[..k], bs[k..]);
    assert c == Stream(bs[k..]);
    ShortIsEmpty(bs[k..]);
    assert bs[..k] == bs;
  }

  // ---- The object

  // GetHeadSize with the default of 30: what the address at the front takes.
  function HeadSize(data: seq<byte>): (r: nat)
    ensures r > 0
  {
    if |data| < 2 then 30
    else match data[0] % 8
      case 1 => 7
      case 4 => 19
      case 3 => 4 + data[1] as int
      case _ => 30
  }

  // The address that starts a connection, in front of anything, is what goes into the header
  // packet: a type, in the low three bits, a host and a port. Without one it is 30 bytes.
  lemma HeadIsAddress(kind: byte, host: seq<byte>, port: seq<byte>, rest: seq<byte>)
    requires |port| == 2
    ensures var address := [kind] + host + port;
      (kind % 8 == 1 && |host| == 4) || (kind % 8 == 4 && |host| == 16) ==> HeadSize(address + rest) == |address|
    ensures kind % 8 == 3 && |host| < 256 ==>
      var address := [kind, |host|] + host + port; HeadSize(address + rest) == |address|
    ensures |rest| > 0 && kind % 8 != 1 && kind % 8 != 3 && kind % 8 != 4 ==> HeadSize([kind] + rest) == 30
    ensures |rest| < 2 ==> HeadSize(rest) == 30
  {
    assert ([kind] + host + port + rest)[0] == kind;
    if |host| < 256 {
      var data := [kind, |host|] + host + port + rest;
      assert data[0] == kind && data[1] == |host|;
    }
  }

  // All blocks but the last have 4096 bytes.
  ghost predicate Full(bs: seq<Block>) {
    forall i :: 0 <= i < |bs| - 1 ==> |bs[i].data| == 4096
  }

  // How many of the bytes of successive inputs go into the header packet.
  function HeadOf(inputs: seq<seq<byte>>): (r: nat) {
    if inputs == [] then 0
    else if inputs[0] == [] then HeadOf(inputs[1..])
    else Least(HeadSize(inputs[0]), |inputs[0]|)
  }

  lemma {:induction false} HeadOfMore(inputs: seq<seq<byte>>, x: seq<byte>)
    ensures HeadOf(inputs) <= |Flatten(inputs)| && (HeadOf(inputs) == 0 <==> Flatten(inputs) == [])
    ensures HeadOf(inputs + [x]) ==
            if Flatten(inputs) != [] then HeadOf(inputs) else if x == [] then 0 else Least(HeadSize(x), |x|)
  {
    if inputs == [] {
      assert ([] + [x])[1..] == [];
    } else {
      assert (inputs + [x])[1..] == inputs[1..] + [x];
      HeadOfMore(inputs[1..], x);
    }
  }

  lemma NoData(bs: seq<Block>)
    requires AllOk(bs) && Datas(bs) == []
    ensures bs == []
  {
  }

  // The outputs for these inputs are the header packet and packets with the rest of the bytes.
  ghost predicate Sent(inputs: seq<seq<byte>>, outputs: seq<seq<byte>>, packAuth: seq<byte> -> seq<byte>,
                       header: seq<byte>, bs: seq<Block>) {
    && AllOk(bs) && HeadOf(inputs) <= |Flatten(inputs)|
    && header == (if Flatten(inputs) == [] then [] else packAuth(Flatten(inputs)[..HeadOf(inputs)]))
    && Datas(bs) == Flatten(inputs)[HeadOf(inputs)..] && Flatten(outputs) == header + Stream(bs)
  }

  lemma SentNothing(packAuth: seq<byte> -> seq<byte>)
    ensures Sent([], [], packAuth, [], [])
  {
  }

  lemma SentMore(inputs: seq<seq<byte>>, outputs: seq<seq<byte>>, packAuth: seq<byte> -> seq<byte>,
                 header: seq<byte>, bs: seq<Block>, x: seq<byte>, out: seq<byte>, h: nat, more: seq<Block>)
    requires Sent(inputs, outputs, packAuth, header, bs) && AllOk(more)
    requires h == if Flatten(inputs) != [] || x == [] then 0 else Least(HeadSize(x), |x|)
    requires h <= |x| && Datas(more) == x[h..]
    requires out == (if h == 0 then [] else packAuth(x[..h])) + Stream(more)
    ensures Sent(inputs + [x], outputs + [out], packAuth, if h == 0 then header else packAuth(x[..h]), bs + more)
  {
    hide HeadOf, HeadSize, Flatten, Stream, Datas;
    HeadOfMore(inputs, x);
    FlattenAppend(inputs, x);
    FlattenAppend(outputs, out);
    StreamConcat(bs, more);
    var all, k := Flatten(inputs), HeadOf(inputs);
    if all == [] {
      NoData(bs);
      NoStream();
      assert all + x == x && bs + more == more;
    } else {
      FrontStays(all, x, k);
      Regroup(header, Stream(bs), Stream(more));
    }
  }

  lemma FrontStays(all: seq<byte>, x: seq<byte>, k: nat)
    requires k <= |all|
    ensures (all + x)[..k] == all[..k] && (all + x)[k..] == all[k..] + x && x[0..] == x
  {
  }

  lemma NoStream()
    ensures Stream([]) == []
  {
  }

  lemma SentIsReceived(inputs: seq<seq<byte>>, outputs: seq<seq<byte>>, packAuth: seq<byte> -> seq<byte>,
                       header: seq<byte>, bs: seq<Block>)
    requires Sent(inputs, outputs, packAuth, header, bs)
    ensures HeadOf(inputs) <= |Flatten(inputs)| && header <= Flatten(outputs)
    ensures header == if Flatten(inputs) == [] then [] else packAuth(Flatten(inputs)[..HeadOf(inputs)])
    ensures forall fragments: seq<seq<byte>> :: Flatten(fragments) == Flatten(outputs)[|header|..] ==>
              Receive([], fragments) == Received(Flatten(inputs)[HeadOf(inputs)..], [])
  {
    assert Flatten(outputs)[|header|..] == Stream(bs);
    forall fragments: seq<seq<byte>> | Flatten(fragments) == Flatten(outputs)[|header|..]
      ensures Receive([], fragments) == Received(Flatten(inputs)[HeadOf(inputs)..], [])
    {
      StreamingRoundTrip(bs, fragments);
    }
  }

  class AuthSha1V4 {
    const table: seq<bv32>
    var buffer: seq<byte>
    var hasSentHeader: bool

    constructor (table: seq<bv32>)
      requires Crc32.IsTable(table)
      ensures this.table == table && buffer == [] && !hasSentHeader
    {
      this.table := table;
      buffer, hasSentHeader := [], false;
    }

    method CrcOfLength(s: seq<byte>) returns (r: seq<byte>)
      requires Crc32.IsTable(table) && |s| == 2
      ensures r == LengthCrc(s)
    {
      hide Crc32.IsTable, Crc32.Crc, Low16;
      var c := Crc32.Calc(table, Bits(s), 2);
      assert Bits(s)[..2] == Bits(s);
      r := Low16(c);
    }

    // packData: the packet built in a byte array, field by field. The padding is drawn at random.
    method PackData(data: seq<byte>) returns (outData: array<byte>, ghost pad: Pad)
      requires Crc32.IsTable(table)
      ensures PadOk(|data|, pad) && fresh(outData) && outData[..] == Pack(Block(data, pad))
      ensures IsPacket(outData[..], data, pad)
    {
      var randLength := 1;
      if |data| <= 1300 {
        if |data| > 400 {
          var r :| 0 <= r < 128;
          randLength := randLength + r;
        } else {
          var r :| 0 <= r < 1024;
          randLength := randLength + r;
        }
      }
      pad := randLength;
      outData := BuildPacket(data, randLength);
    }

    method BuildPacket(data: seq<byte>, pad: Pad) returns (outData: array<byte>)
      requires Crc32.IsTable(table)
      ensures fresh(outData) && outData[..] == Pack(Block(data, pad)) && IsPacket(outData[..], data, pad)
    {
      hide IsPacket;
      PackIsPacket(Block(data, pad));
      hide Crc32.IsTable, Body, Adler32.Adler, Le32;
      var n := pad + |data| + 8;
      outData := new byte[n](_ => 0);
      assert outData[..] == Zeros(n);
      WriteBody(outData, data, pad);
      var adler := Adler32.Calc(outData[..n - 4]);
      ghost var body := Body(Block(data, pad));
      assert outData[..n - 4] == body;
      SpliceZeros(body, 4, Le32(adler));
      Put(outData, n - 4, Le32(adler));
      assert Zeros(0) == [];
    }

    method WriteBody(outData: array<byte>, data: seq<byte>, pad: Pad)
      requires Crc32.IsTable(table) && outData.Length == pad + |data| + 8 && outData[..] == Zeros(outData.Length)
      modifies outData
      ensures outData[..] == Body(Block(data, pad)) + Zeros(4)
    {
      hide Crc32.IsTable, Zeros, Head, Padding;
      var n := outData.Length;
      WriteHead(outData);
      WritePadding(outData, pad, Head(n));
      ghost var front := Head(n) + Padding(pad);
      SpliceZeros(front, |data| + 4, data);
      if |data| > 0 {
        Put(outData, pad + 4, data);
      } else {
        assert front + data == front;
      }
    }

    method WriteHead(outData: array<byte>)
      requires Crc32.IsTable(table) && outData.Length >= 4 && outData[..] == Zeros(outData.Length)
      modifies outData
      ensures outData[..] == Head(outData.Length) + Zeros(outData.Length - 4)
    {
      hide LengthCrc, Be16, Crc32.IsTable, Zeros;
      var n := outData.Length;
      var l := Be16(n % 65536);
      WriteLength(outData, l);
      var crc := CrcOfLength(l);
      SpliceZeros(l, n - 2, crc);
      Put(outData, 2, crc);
    }

    method WriteLength(outData: array<byte>, l: seq<byte>)
      requires outData.Length >= |l| && outData[..] == Zeros(outData.Length)
      modifies outData
      ensures outData[..] == l + Zeros(outData.Length - |l|)
    {
      hide Zeros;
      var n := outData.Length;
      SpliceZeros([], n, l);
      assert [] + Zeros(n) == Zeros(n) && [] + l == l;
      Put(outData, 0, l);
    }

    method WritePadding(outData: array<byte>, pad: Pad, ghost head: seq<byte>)
      requires pad <= outData.Length - 4 && |head| == 4 && outData[..] == head + Zeros(outData.Length - 4)
      modifies outData
      ensures outData[..] == head + Padding(pad) + Zeros(outData.Length - 4 - pad)
    {
      if pad < 128 {
        PadShort(outData, pad, head);
      } else {
        PadLong(outData, pad, head);
      }
    }

    method PadShort(outData: array<byte>, pad: Pad, ghost head: seq<byte>)
      requires pad <= outData.Length - 4 && |head| == 4 && outData[..] == head + Zeros(outData.Length - 4)
      modifies outData
      ensures outData[..] == head + ([pad % 256] + Zeros(pad - 1)) + Zeros(outData.Length - 4 - pad)
    {
      hide Zeros;
      ghost var n := outData.Length - 4;
      SpliceZeros(head, n, [pad % 256]);
      Put(outData, 4, [pad % 256]);
      MoreZeros(head + [pad % 256], pad - 1, n - pad);
      Regroup(head, [pad % 256], Zeros(pad - 1));
    }

    method PadLong(outData: array<byte>, pad: nat, ghost head: seq<byte>)
      requires 3 <= pad <= outData.Length - 4 && |head| == 4 && outData[..] == head + Zeros(outData.Length - 4)
      modifies outData
      ensures outData[..] == head + ([0xFF] + Be16(pad % 65536) + Zeros(pad - 3)) + Zeros(outData.Length - 4 - pad)
    {
      hide Be16, Zeros;
      ghost var n := outData.Length - 4;
      var l := Be16(pad % 65536);
      SpliceZeros(head, n, [0xFF]);
      Put(outData, 4, [0xFF]);
      SpliceZeros(head + [0xFF], n - 1, l);
      Put(outData, 5, l);
      MoreZeros(head + [0xFF] + l, pad - 3, n - pad);
      Regroup(head, [0xFF], l);
      Regroup(head, [0xFF] + l, Zeros(pad - 3));
    }

    // The checks of PostDecrypt on the front of its input.
    method Inspect(rest: seq<byte>) returns (f: Front)
      requires Crc32.IsTable(table) && |rest| > 4
      ensures f == Look(rest)
    {
      hide Adler32.Adler, LengthCrc, Crc32.IsTable, DataStart;
      var crc := CrcOfLength(rest[..2]);
      if rest[2..4] != crc {
        return Wrong(CrcError);
      }
      var length := FromBe16(rest[..2]);
      if length >= 8192 || length < 8 {
        return Wrong(DataLengthError);
      }
      if length > |rest| {
        return Wait;
      }
      var ok := Adler32.Check(rest, length);
      if !ok {
        return Wrong(IncorrectChecksum);
      }
      var pos := DataStart(rest);
      if pos > length - 4 {
        return Wrong(SliceOutOfRange);
      }
      f := Packet(rest[pos..length - 4], length);
    }

    // PostDecrypt: leaves the data in buffer and returns how much of the input it took.
    method PostDecrypt(plainData: seq<byte>) returns (result: Parsed)
      requires Crc32.IsTable(table)
      modifies this
      ensures result == Parse(plainData)
      ensures result.Ok? ==> buffer == result.out
      ensures forall e :: result == Err(e) <==> exists p: nat :: FaultAt(plainData, p, e)
    {
      hide Look, Crc32.IsTable, FaultAt;
      forall e ensures Parse(plainData) == Err(e) <==> exists p: nat :: FaultAt(plainData, p, e) {
        FailsIff(plainData, e);
      }
      buffer := [];
      var rest := plainData;
      var taken: nat := 0;
      PrependNothing(Parse(plainData));
      while |rest| > 4
        invariant Parse(plainData) == Prepend(buffer, taken, Parse(rest))
        decreases |rest|
      {
        var front := Inspect(rest);
        if front.Wrong? {
          return Err(front.error);
        }
        if front.Wait? {
          break;
        }
        PrependTwice(buffer, taken, front.data, front.length, Parse(rest[front.length..]));
        buffer := buffer + front.data;
        taken := taken + front.length;
        rest := rest[front.length..];
      }
      if |rest| <= 4 {
        TooShort(rest);
      }
      assert buffer + [] == buffer;
      result := Ok(buffer, taken);
    }

    // PreEncrypt: the first bytes of a connection go into a header packet, which packAuth makes;
    // the rest into blocks of 4096 bytes and a last one.
    method PreEncrypt(plainData: seq<byte>, packAuth: seq<byte> -> seq<byte>)
      returns (outData: seq<byte>, ghost head: nat, ghost bs: seq<Block>)
      requires Crc32.IsTable(table)
      modifies this
      ensures head == if old(hasSentHeader) || plainData == [] then 0 else Least(HeadSize(plainData), |plainData|)
      ensures hasSentHeader == (old(hasSentHeader) || plainData != [])
      ensures AllOk(bs) && Full(bs) && head <= |plainData| && Datas(bs) == plainData[head..] && buffer == outData
      ensures outData == (if head == 0 then [] else packAuth(plainData[..head])) + Stream(bs)
    {
      var offset := 0;
      buffer := [];
      if !hasSentHeader && |plainData| > 0 {
        offset := Least(HeadSize(plainData), |plainData|);
        buffer := packAuth(plainData[..offset]);
        hasSentHeader := true;
      }
      head := offset;
      bs := WriteBlocks(plainData[offset..]);
      outData := buffer;
    }

    // Successive calls on a new connection. Behind the header packet, which has the first bytes,
    // any fragments of the outputs are received as the rest of the inputs.
    method PreEncryptAll(inputs: seq<seq<byte>>, packAuth: seq<byte> -> seq<byte>)
      returns (outputs: seq<seq<byte>>, ghost header: seq<byte>)
      requires Crc32.IsTable(table) && !hasSentHeader
      modifies this
      ensures |outputs| == |inputs| && HeadOf(inputs) <= |Flatten(inputs)| && header <= Flatten(outputs)
      ensures header == if Flatten(inputs) == [] then [] else packAuth(Flatten(inputs)[..HeadOf(inputs)])
      ensures forall fragments: seq<seq<byte>> :: Flatten(fragments) == Flatten(outputs)[|header|..] ==>
                Receive([], fragments) == Received(Flatten(inputs)[HeadOf(inputs)..], [])
    {
      hide Crc32.IsTable, Sent, HeadOf, Full;
      outputs, header := [], [];
      ghost var bs: seq<Block> := [];
      SentNothing(packAuth);
      for i := 0 to |inputs|
        invariant |outputs| == i && Sent(inputs[..i], outputs, packAuth, header, bs)
        invariant hasSentHeader == (Flatten(inputs[..i]) != [])
      {
        ghost var x := inputs[i];
        var out, h, more := PreEncrypt(inputs[i], packAuth);
        SentMore(inputs[..i], outputs, packAuth, header, bs, x, out, h, more);
        FlattenAppend(inputs[..i], x);
        assert inputs[..i + 1] == inputs[..i] + [x];
        outputs := outputs + [out];
        header := if h == 0 then header else packAuth(x[..h]);
        bs := bs + more;
      }
      assert inputs[..|inputs|] == inputs;
      SentIsReceived(inputs, outputs, packAuth, header, bs);
    }

    method WriteBlocks(data: seq<byte>) returns (ghost bs: seq<Block>)
      requires Crc32.IsTable(table)
      modifies `buffer
      ensures AllOk(bs) && Full(bs) && Datas(bs) == data && buffer == old(buffer) + Stream(bs)
    {
      hide Pack, Crc32.IsTable;
      bs := [];
      var offset := 0;
      assert buffer + [] == buffer;
      while |data| - offset > 4096
        invariant 0 <= offset <= |data| && AllOk(bs) && Datas(bs) == data[..offset]
        invariant forall i :: 0 <= i < |bs| ==> |bs[i].data| == 4096
        invariant buffer == old(buffer) + Stream(bs)
      {
        bs := WriteBlock(data[offset..offset + 4096], bs, old(buffer));
        assert data[..offset] + data[offset..offset + 4096] == data[..offset + 4096];
        offset := offset + 4096;
      }
      if |data| - offset > 0 {
        bs := WriteBlock(data[offset..], bs, old(buffer));
      }
      assert data[..offset] + data[offset..] == data;
    }

    method WriteBlock(data: seq<byte>, ghost before: seq<Block>, ghost front: seq<byte>) returns (ghost bs: seq<Block>)
      requires Crc32.IsTable(table) && AllOk(before) && 1 <= |data| <= 4096 && buffer == front + Stream(before)
      modifies `buffer
      ensures AllOk(bs) && Datas(bs) == Datas(before) + data && buffer == front + Stream(bs)
      ensures |bs| == |before| + 1 && bs[..|before|] == before && bs[|before|].data == data
    {
      hide Pack, Stream, Datas, Crc32.IsTable;
      var out, pad := PackData(data);
      var b := Block(data, pad);
      OneMore(before, b);
      Regroup(front, Stream(before), Pack(b));
      bs := before + [b];
      buffer := buffer + out[..];
    }
  }

  lemma OneMore(bs: seq<Block>, b: Block)
    requires AllOk(bs) && BlockOk(b)
    ensures AllOk(bs + [b]) && Stream(bs + [b]) == Stream(bs) + Pack(b) && Datas(bs + [b]) == Datas(bs) + b.data
  {
    hide Pack;
    StreamConcat(bs, [b]);
    StreamOfOne([b]);
    assert [b][..1] == [b] && [b][1..] == [] && Datas([b]) == b.data + Datas([]);
  }

  lemma PrependNothing(p: Parsed)
    ensures Prepend([], 0, p) == p
  {
    assert p.Ok? ==> [] + p.out == p.out;
  }

  lemma PrependTwice(a: seq<byte>, n: nat, b: seq<byte>, m: nat, p: Parsed)
    ensures Prepend(a, n, Prepend(b, m, p)) == Prepend(a + b, n + m, p)
  {
    if p.Ok? {
      assert a + (b + p.out) == (a + b) + p.out;
    }
  }

  // A field written where the zeros begin.
  lemma SpliceZeros(front: seq<byte>, n: nat, s: seq<byte>)
    requires |s| <= n
    ensures var a := front + Zeros(n);
      a[..|front|] + s + a[|front| + |s|..] == front + s + Zeros(n - |s|)
  {
  }

  lemma MoreZeros(front: seq<byte>, m: nat, n: nat)
    ensures front + Zeros(m + n) == front + Zeros(m) + Zeros(n)
  {
  }

  // copy(a[at:], s)
  method Put(a: array<byte>, at: nat, s: seq<byte>)
    requires at + |s| <= a.Length
    modifies a
    ensures a[..] == old(a[..at]) + s + old(a[at + |s|..])
  {
    forall i | 0 <= i < |s| {
      a[at + i] := s[i];
    }
  }
}

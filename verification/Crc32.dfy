// CRC-32 of the SSR layer: the table-driven loop against the bit-at-a-time division by the
// reflected polynomial 0xEDB88320 (section 8 of RFC 1952).
module Crc32 {
  const POLY: bv32 := 0xEDB88320

  function Xor(x: bv32, y: bv32): (r: bv32) {
    x ^ y
  }

  // One shift of the register.
  function Shift(v: bv32): (r: bv32) {
    if v & 1 == 1 then (v >> 1) ^ POLY else v >> 1
  }

  function Shifts(v: bv32, n: nat): (r: bv32)
    decreases n
  {
    if n == 0 then v else Shifts(Shift(v), n - 1)
  }

  // The definition: message bits enter one at a time, lowest bit of each byte first.
  function FeedBit(v: bv32, bit: bv32): (r: bv32) {
    if (v ^ bit) & 1 == 1 then (v >> 1) ^ POLY else v >> 1
  }

  function FeedBits(v: bv32, b: bv32, n: nat): (r: bv32)
    decreases n
  {
    if n == 0 then v else FeedBits(FeedBit(v, b & 1), b >> 1, n - 1)
  }

  function Feed(v: bv32, s: seq<bv8>): (r: bv32) {
    if s == [] then v else FeedBits(Feed(v, s[..|s| - 1]), s[|s| - 1] as bv32, 8)
  }

  function Crc(s: seq<bv8>): (r: bv32) {
    Feed(0xFFFFFFFF, s) ^ 0xFFFFFFFF
  }

  // ---- Shifting is linear over exclusive or, and loses nothing

  lemma XorHalves(x: bv32, y: bv32)
    ensures (x ^ y) >> 1 == (x >> 1) ^ (y >> 1)
    ensures (x ^ y) & 1 == (x & 1) ^ (y & 1)
    ensures (x & 1 == 0 || x & 1 == 1) && (y & 1 == 0 || y & 1 == 1)
  {
  }

  lemma XorCancels(x: bv32, y: bv32, p: bv32)
    ensures (x ^ p) ^ (y ^ p) == x ^ y
    ensures (x ^ p) ^ y == (x ^ y) ^ p && x ^ (y ^ p) == (x ^ y) ^ p
  {
  }

  lemma ShiftLinear(x: bv32, y: bv32)
    ensures Shift(Xor(x, y)) == Xor(Shift(x), Shift(y))
  {
    ShiftLinearBits(x, y);
  }

  lemma ShiftLinearBits(x: bv32, y: bv32)
    ensures Shift(x ^ y) == Shift(x) ^ Shift(y)
  {
    XorHalves(x, y);
    XorCancels(x >> 1, y >> 1, POLY);
  }

  lemma {:induction false} ShiftsLinear(x: bv32, y: bv32, n: nat)
    ensures Shifts(Xor(x, y), n) == Xor(Shifts(x, n), Shifts(y, n))
    decreases n
  {
    hide Shift, Xor;
    if n > 0 {
      ShiftLinear(x, y);
      ShiftsLinear(Shift(x), Shift(y), n - 1);
    }
  }

  lemma ShiftIsZero(x: bv32)
    ensures Shift(x) == 0 <==> x == 0
  {
  }

  lemma {:induction false} ShiftsAreZero(x: bv32, n: nat)
    ensures Shifts(x, n) == 0 <==> x == 0
    decreases n
  {
    if n > 0 {
      ShiftIsZero(x);
      ShiftsAreZero(Shift(x), n - 1);
    }
  }

  lemma {:induction false} ShiftsAdd(x: bv32, m: nat, n: nat)
    ensures Shifts(Shifts(x, m), n) == Shifts(x, m + n)
    decreases m
  {
    if m > 0 {
      ShiftsAdd(Shift(x), m - 1, n);
    }
  }

  function Eight(v: bv32): (r: bv32) {
    Shift(Shift(Shift(Shift(Shift(Shift(Shift(Shift(v))))))))
  }

  lemma EightShifts(v: bv32)
    ensures Shifts(v, 8) == Eight(v)
  {
    var v1 := Shift(v);
    var v2 := Shift(v1);
    var v3 := Shift(v2);
    var v4 := Shift(v3);
    var v5 := Shift(v4);
    var v6 := Shift(v5);
    var v7 := Shift(v6);
    assert Shifts(v7, 1) == Shifts(Shift(v7), 0);
    assert Shifts(v6, 2) == Shifts(v7, 1);
    assert Shifts(v5, 3) == Shifts(v6, 2);
    assert Shifts(v4, 4) == Shifts(v5, 3);
    assert Shifts(v3, 5) == Shifts(v4, 4);
    assert Shifts(v2, 6) == Shifts(v3, 5);
    assert Shifts(v1, 7) == Shifts(v2, 6);
  }

  // A low byte of zeros is shifted out unchanged.
  lemma ZeroByte(v: bv32)
    requires v & 0xFF == 0
    ensures Eight(v) == v >> 8
  {
  }

  // Eight shifts split into the high bytes moving down and the low byte's remainder.
  lemma SplitByte(v: bv32)
    ensures Shifts(v, 8) == Xor(v >> 8, Shifts(v & 0xFF, 8))
  {
    var hi, lo := v & 0xFFFFFF00, v & 0xFF;
    HighLow(v);
    ShiftsLinear(hi, lo, 8);
    EightShifts(hi);
    ZeroByte(hi);
    hide Shift, Shifts, Eight, Xor;
  }

  lemma HighLow(v: bv32)
    ensures v == Xor(v & 0xFFFFFF00, v & 0xFF)
    ensures (v & 0xFFFFFF00) & 0xFF == 0 && (v & 0xFFFFFF00) >> 8 == v >> 8
  {
  }

  lemma FeedBitIsShift(v: bv32, b: bv32)
    ensures Xor(FeedBit(v, b & 1), b >> 1) == Shift(Xor(v, b))
  {
    FeedBitIsShiftBits(v, b);
  }

  lemma FeedBitIsShiftBits(v: bv32, b: bv32)
    ensures FeedBit(v, b & 1) ^ (b >> 1) == Shift(v ^ b)
  {
  }

  function Drop(b: bv32, n: nat): (r: bv32)
    decreases n
  {
    if n == 0 then b else Drop(b >> 1, n - 1)
  }

  // Feeding bits one by one is putting them all into the register and shifting; what has not
  // been fed yet stands in its place.
  lemma {:induction false} FeedBitsIsShifts(v: bv32, b: bv32, n: nat)
    ensures Xor(FeedBits(v, b, n), Drop(b, n)) == Shifts(Xor(v, b), n)
    decreases n
  {
    hide Shift, FeedBit, Xor;
    if n > 0 {
      FeedBitIsShift(v, b);
      FeedBitsIsShifts(FeedBit(v, b & 1), b >> 1, n - 1);
    }
  }

  lemma DropByte(b: bv8)
    ensures Drop(b as bv32, 8) == 0
  {
    var b0 := b as bv32;
    assert b0 < 256;
    var b4 := b0 >> 1 >> 1 >> 1 >> 1;
    assert Drop(b0, 8) == Drop(b0 >> 1, 7) == Drop(b0 >> 1 >> 1, 6) == Drop(b0 >> 1 >> 1 >> 1, 5) == Drop(b4, 4);
    assert Drop(b4, 4) == Drop(b4 >> 1, 3) == Drop(b4 >> 1 >> 1, 2) == Drop(b4 >> 1 >> 1 >> 1, 1)
        == Drop(b4 >> 1 >> 1 >> 1 >> 1, 0);
  }

  lemma FeedByteIsShifts(v: bv32, b: bv8)
    ensures FeedBits(v, b as bv32, 8) == Shifts(Xor(v, b as bv32), 8)
  {
    hide Shifts, FeedBits, Drop, Shift;
    FeedBitsIsShifts(v, b as bv32, 8);
    DropByte(b);
  }

  lemma FeedMore(v: bv32, s: seq<bv8>, b: bv8, before: bv32, t: seq<bv8>, after: bv32)
    requires Feed(v, s) == before && after == Eight(before ^ (b as bv32)) && t == s + [b]
    ensures Feed(v, t) == after
  {
    assert t[..|s|] == s;
    FeedByteIsShifts(before, b);
    EightShifts(before ^ (b as bv32));
    hide Shifts, FeedBits, Eight;
  }

  // The published check value: the CRC of the digits 1 to 9.
  lemma CheckValue()
    ensures Crc([0x31, 0x32, 0x33, 0x34, 0x35, 0x36, 0x37, 0x38, 0x39]) == 0xCBF43926
  {
    var v: bv32 := 0xFFFFFFFF;
    assert Feed(v, []) == v;
    hide Feed;
    var s: seq<bv8> := [0x31, 0x32, 0x33, 0x34, 0x35, 0x36, 0x37, 0x38, 0x39];
    FeedMore(v, [], 0x31, v, s[..1], 0x7C231048);
    FeedMore(v, s[..1], 0x32, 0x7C231048, s[..2], 0xB0ACBB32);
    FeedMore(v, s[..2], 0x33, 0xB0ACBB32, s[..3], 0x77B79C2D);
    FeedMore(v, s[..3], 0x34, 0x77B79C2D, s[..4], 0x641C1F5C);
    FeedMore(v, s[..4], 0x35, 0x641C1F5C, s[..5], 0x340AC5E3);
    FeedMore(v, s[..5], 0x36, 0x340AC5E3, s[..6], 0xF68D2C9E);
    FeedMore(v, s[..6], 0x37, 0xF68D2C9E, s[..7], 0xAFFC9660);
    FeedMore(v, s[..7], 0x38, 0xAFFC9660, s[..8], 0x651F2550);
    FeedMore(v, s[..8], 0x39, 0x651F2550, s, 0x340BC6D9);
  }

  // ---- The table

  function At(table: seq<bv32>, b: bv8): (r: bv32)
    requires |table| == 256
  {
    table[b as int]
  }

  ghost predicate IsTable(table: seq<bv32>) {
    |table| == 256 && forall b: bv8 :: At(table, b) == Shifts(b as bv32, 8)
  }

  predicate Filled(table: seq<bv32>, b: bv8) {
    (b as int) < |table| ==> table[b as int] == Shifts(b as bv32, 8)
  }

  // k runs over the 256 bytes.
  method CreateTable() returns (table: seq<bv32>)
    ensures IsTable(table)
  {
    hide Shifts;
    table := [];
    var k: bv8 := 0;
    while true
      invariant |table| == k as int
      invariant forall b: bv8 :: Filled(table, b)
      decreases 255 - k
    {
      var crc := EntryFor(k as bv32);
      forall b: bv8
        ensures Filled(table + [crc], b)
      {
        assert Filled(table, b);
        if b as int == |table| {
          SameByte(b, k);
        }
      }
      table := table + [crc];
      if k == 255 {
        assert forall b: bv8 :: Filled(table, b) ==> At(table, b) == Shifts(b as bv32, 8);
        return;
      }
      NextByte(k);
      k := k + 1;
    }
  }

  lemma SameByte(b: bv8, k: bv8)
    requires b as int == k as int
    ensures b == k
  {
  }

  lemma NextByte(k: bv8)
    requires k < 255
    ensures (k + 1) as int == k as int + 1
  {
  }

  method EntryFor(i: bv32) returns (crc: bv32)
    ensures crc == Shifts(i, 8)
  {
    crc := i;
    for j := 8 downto 0
      invariant Shifts(crc, j) == Shifts(i, 8)
    {
      if crc & 1 == 1 {
        crc := (crc >> 1) ^ POLY;
      } else {
        crc := crc >> 1;
      }
    }
  }

  // One turn of the table loop.
  function TableStep(table: seq<bv32>, v: bv32, b: bv8): (r: bv32)
    requires |table| == 256
  {
    (v >> 8) ^ At(table, ((v & 0xFF) as bv8) ^ b)
  }

  lemma TableStepIsFeed(table: seq<bv32>, v: bv32, b: bv8)
    requires IsTable(table)
    ensures TableStep(table, v, b) == FeedBits(v, b as bv32, 8)
  {
    FeedByteIsShifts(v, b);
    SplitByte(Xor(v, b as bv32));
    LowByte(v, b);
    hide Shifts, FeedBits, At;
  }

  lemma LowByte(v: bv32, b: bv8)
    ensures Xor(v, b as bv32) >> 8 == v >> 8
    ensures (((v & 0xFF) as bv8) ^ b) as bv32 == Xor(v, b as bv32) & 0xFF
  {
  }

  // ---- The calculation, and the checksum at the end of a buffer

  // DoCalcCRC32: the table loop over input[index..length].
  method DoCalc(table: seq<bv32>, input: seq<bv8>, index: nat, length: nat, value: bv32) returns (r: bv32)
    requires IsTable(table) && (index < length ==> length <= |input|)
    ensures r == Feed(value, if index < length then input[index..length] else []) ^ 0xFFFFFFFF
  {
    hide FeedBits, TableStep, Shifts;
    var v := value;
    var i := index;
    while i < length
      invariant index <= i && (i <= length || i == index)
      invariant v == Feed(value, if index < i then input[index..i] else [])
    {
      TableStepIsFeed(table, v, input[i]);
      assert input[index..i + 1][..i - index] == input[index..i];
      v := TableStep(table, v, input[i]);
      i := i + 1;
    }
    r := v ^ 0xFFFFFFFF;
  }

  // CalcCRC32, whose value argument is ignored, is the CRC of the first `length` bytes.
  method Calc(table: seq<bv32>, input: seq<bv8>, length: nat) returns (r: bv32)
    requires IsTable(table) && length <= |input|
    ensures r == Crc(input[..length])
  {
    r := DoCalc(table, input, 0, length, 0xFFFFFFFF);
    assert input[0..length] == input[..length];
  }

  // Little-endian bytes of a word.
  function Bytes(w: bv32): (r: seq<bv8>)
    ensures |r| == 4
  {
    [(w & 0xFF) as bv8, ((w >> 8) & 0xFF) as bv8, ((w >> 16) & 0xFF) as bv8, ((w >> 24) & 0xFF) as bv8]
  }

  function Word(b0: bv8, b1: bv8, b2: bv8, b3: bv8): (r: bv32) {
    (b0 as bv32) ^ ((b1 as bv32) << 8) ^ ((b2 as bv32) << 16) ^ ((b3 as bv32) << 24)
  }

  lemma WordOfBytes(w: bv32)
    ensures var b := Bytes(w); Word(b[0], b[1], b[2], b[3]) == w
  {
  }

  lemma BytesOfWord(b0: bv8, b1: bv8, b2: bv8, b3: bv8)
    ensures Bytes(Word(b0, b1, b2, b3)) == [b0, b1, b2, b3]
  {
  }

  // SetCRC32 writes, after the first length-4 bytes, what makes CheckCRC32 accept.
  method Set(table: seq<bv32>, buffer: array<bv8>, length: nat)
    requires IsTable(table) && 4 <= length <= buffer.Length
    modifies buffer
    ensures buffer[..length - 4] == old(buffer[..length - 4]) && buffer[length..] == old(buffer[length..])
    ensures buffer[length - 4..length] == Bytes(Feed(0xFFFFFFFF, buffer[..length - 4]))
  {
    hide IsTable, Feed, Bytes;
    var n := length - 4;
    var w := Register(table, buffer[..n]);
    PutWord(buffer, n, Bytes(w));
  }

  // The complement of the CRC: the register over the data.
  method Register(table: seq<bv32>, data: seq<bv8>) returns (w: bv32)
    requires IsTable(table)
    ensures w == Feed(0xFFFFFFFF, data)
  {
    var crc := Calc(table, data, |data|);
    assert data[..|data|] == data;
    hide IsTable, Feed;
    w := crc ^ 0xFFFFFFFF;
    Twice(Feed(0xFFFFFFFF, data));
  }

  method PutWord(buffer: array<bv8>, n: nat, b: seq<bv8>)
    requires |b| == 4 && n + 4 <= buffer.Length
    modifies buffer
    ensures buffer[..n] == old(buffer[..n]) && buffer[n + 4..] == old(buffer[n + 4..]) && buffer[n..n + 4] == b
  {
    buffer[n], buffer[n + 1], buffer[n + 2], buffer[n + 3] := b[0], b[1], b[2], b[3];
  }

  lemma Twice(x: bv32)
    ensures (x ^ 0xFFFFFFFF) ^ 0xFFFFFFFF == x
    ensures x ^ 0xFFFFFFFF == 0xFFFFFFFF <==> x == 0
  {
  }

  method Check(table: seq<bv32>, buffer: seq<bv8>, length: nat) returns (ok: bool)
    requires IsTable(table) && length <= |buffer|
    ensures ok <==> Feed(0xFFFFFFFF, buffer[..length]) == 0
  {
    var crc := Calc(table, buffer, length);
    Twice(Feed(0xFFFFFFFF, buffer[..length]));
    ok := crc == 0xFFFFFFFF;
  }

  // ---- What the check accepts

  lemma {:induction false} FeedConcat(v: bv32, a: seq<bv8>, b: seq<bv8>)
    ensures Feed(v, a + b) == Feed(Feed(v, a), b)
    decreases |b|
  {
    hide FeedBits;
    if b == [] {
      assert a + b == a;
    } else {
      var n := |b| - 1;
      FeedConcat(v, a, b[..n]);
      assert (a + b)[..|a + b| - 1] == a + b[..n];
    }
  }

  // A byte standing one, two or three bytes further up.
  function Up1(b: bv8): (r: bv32) { (b as bv32) << 8 }
  function Up2(b: bv8): (r: bv32) { (b as bv32) << 16 }
  function Up3(b: bv8): (r: bv32) { (b as bv32) << 24 }

  lemma DownOne(b: bv8)
    ensures Eight(Up1(b)) == b as bv32 && Eight(Up2(b)) == Up1(b) && Eight(Up3(b)) == Up2(b)
  {
    UpAndDown(b);
    ZeroByte(Up1(b));
    ZeroByte(Up2(b));
    ZeroByte(Up3(b));
    hide Eight;
  }

  lemma UpAndDown(b: bv8)
    ensures Up1(b) & 0xFF == 0 && Up2(b) & 0xFF == 0 && Up3(b) & 0xFF == 0
    ensures Up1(b) >> 8 == b as bv32 && Up2(b) >> 8 == Up1(b) && Up3(b) >> 8 == Up2(b)
  {
  }

  lemma Lower(b: bv8)
    ensures Shifts(Up1(b), 8) == b as bv32 && Shifts(Up2(b), 16) == b as bv32 && Shifts(Up3(b), 24) == b as bv32
  {
    hide Shifts, Eight, Up1, Up2, Up3;
    DownOne(b);
    EightShifts(Up1(b));
    EightShifts(Up2(b));
    EightShifts(Up3(b));
    ShiftsAdd(Up2(b), 8, 8);
    ShiftsAdd(Up3(b), 8, 16);
  }

  // A byte fed after k*8 shifts is the byte standing k bytes further up before them.
  lemma ByteFromAbove(x: bv32, b: bv8)
    ensures FeedBits(Shifts(x, 8), b as bv32, 8) == Shifts(Xor(x, Up1(b)), 16)
    ensures FeedBits(Shifts(x, 16), b as bv32, 8) == Shifts(Xor(x, Up2(b)), 24)
    ensures FeedBits(Shifts(x, 24), b as bv32, 8) == Shifts(Xor(x, Up3(b)), 32)
  {
    hide Shifts, FeedBits, Xor, Up1, Up2, Up3;
    Lower(b);
    FeedByteIsShifts(Shifts(x, 8), b);
    FeedByteIsShifts(Shifts(x, 16), b);
    FeedByteIsShifts(Shifts(x, 24), b);
    ShiftsLinear(x, Up1(b), 8);
    ShiftsLinear(x, Up2(b), 16);
    ShiftsLinear(x, Up3(b), 24);
    ShiftsAdd(Xor(x, Up1(b)), 8, 8);
    ShiftsAdd(Xor(x, Up2(b)), 16, 8);
    ShiftsAdd(Xor(x, Up3(b)), 24, 8);
  }

  // Four bytes fed are their word put into the register and shifted out.
  lemma FeedWord(v: bv32, b0: bv8, b1: bv8, b2: bv8, b3: bv8)
    ensures Feed(v, [b0, b1, b2, b3]) == Shifts(Xor(v, Word(b0, b1, b2, b3)), 32)
  {
    hide Shifts, FeedBits, Xor, Word, Feed, Up1, Up2, Up3;
    FeedFour(v, b0, b1, b2, b3);
    var x0 := Xor(v, b0 as bv32);
    var x1 := Xor(x0, Up1(b1));
    var x2 := Xor(x1, Up2(b2));
    FeedByteIsShifts(v, b0);
    ByteFromAbove(x0, b1);
    ByteFromAbove(x1, b2);
    ByteFromAbove(x2, b3);
    XorWord(v, b0, b1, b2, b3);
  }

  lemma FeedOne(v: bv32, s: seq<bv8>, b: bv8)
    ensures Feed(v, s + [b]) == FeedBits(Feed(v, s), b as bv32, 8)
  {
    hide FeedBits;
    assert (s + [b])[..|s|] == s;
  }

  lemma FeedFour(v: bv32, b0: bv8, b1: bv8, b2: bv8, b3: bv8)
    ensures Feed(v, [b0, b1, b2, b3])
      == FeedBits(FeedBits(FeedBits(FeedBits(v, b0 as bv32, 8), b1 as bv32, 8), b2 as bv32, 8), b3 as bv32, 8)
  {
    assert Feed(v, []) == v;
    hide FeedBits, Feed;
    assert [] + [b0] == [b0] && [b0] + [b1] == [b0, b1] && [b0, b1] + [b2] == [b0, b1, b2];
    assert [b0, b1, b2] + [b3] == [b0, b1, b2, b3];
    FeedOne(v, [], b0);
    FeedOne(v, [b0], b1);
    FeedOne(v, [b0, b1], b2);
    FeedOne(v, [b0, b1, b2], b3);
  }

  lemma XorWord(v: bv32, b0: bv8, b1: bv8, b2: bv8, b3: bv8)
    ensures Xor(Xor(Xor(Xor(v, b0 as bv32), Up1(b1)), Up2(b2)), Up3(b3)) == Xor(v, Word(b0, b1, b2, b3))
  {
    var w0, w1, w2, w3 := b0 as bv32, Up1(b1), Up2(b2), Up3(b3);
    assert Word(b0, b1, b2, b3) == Xor(Xor(Xor(w0, w1), w2), w3);
    hide Word, Up1, Up2, Up3, Xor;
    XorAssoc(Xor(Xor(v, w0), w1), w2, w3);
    XorAssoc(Xor(v, w0), w1, Xor(w2, w3));
    XorAssoc(v, w0, Xor(w1, Xor(w2, w3)));
    XorAssoc(w0, w1, w2);
    XorAssoc(w0, Xor(w1, w2), w3);
    XorAssoc(w1, w2, w3);
  }

  lemma XorAssoc(x: bv32, y: bv32, z: bv32)
    ensures Xor(Xor(x, y), z) == Xor(x, Xor(y, z))
  {
  }

  lemma XorLaws(v: bv32, w: bv32)
    ensures Xor(v, v) == 0
    ensures Xor(0, v) == v
    ensures Xor(Xor(v, w), v) == w
  {
  }

  lemma XorIsZero(v: bv32, w: bv32)
    ensures Xor(v, w) == 0 <==> v == w
  {
    hide Xor;
    XorLaws(v, w);
  }

  // Four bytes after the register value v bring it to zero exactly when they are its bytes.
  lemma ZeroAfter(v: bv32, tail: seq<bv8>)
    requires |tail| == 4
    ensures Feed(v, tail) == 0 <==> tail == Bytes(v)
  {
    hide Shifts, Feed, Word, Bytes, Xor;
    var w := Word(tail[0], tail[1], tail[2], tail[3]);
    assert tail == [tail[0], tail[1], tail[2], tail[3]];
    FeedWord(v, tail[0], tail[1], tail[2], tail[3]);
    ShiftsAreZero(Xor(v, w), 32);
    XorIsZero(v, w);
    if v == w {
      BytesOfWord(tail[0], tail[1], tail[2], tail[3]);
    } else if tail == Bytes(v) {
      WordOfBytes(v);
    }
  }

  // The check accepts exactly the buffers that end in the checksum SetCRC32 would write.
  lemma CheckAcceptsExactly(s: seq<bv8>)
    requires |s| >= 4
    ensures Feed(0xFFFFFFFF, s) == 0 <==> s[|s| - 4..] == Bytes(Feed(0xFFFFFFFF, s[..|s| - 4]))
  {
    hide Feed, Bytes;
    var n := |s| - 4;
    assert s == s[..n] + s[n..];
    FeedConcat(0xFFFFFFFF, s[..n], s[n..]);
    ZeroAfter(Feed(0xFFFFFFFF, s[..n]), s[n..]);
  }

  // After SetCRC32 the check succeeds, whatever the buffer held.
  lemma SetThenCheck(before: seq<bv8>)
    requires |before| >= 4
    ensures var data := before[..|before| - 4];
      Feed(0xFFFFFFFF, data + Bytes(Feed(0xFFFFFFFF, data))) == 0
  {
    var data := before[..|before| - 4];
    var s := data + Bytes(Feed(0xFFFFFFFF, data));
    assert s[..|s| - 4] == data && s[|s| - 4..] == Bytes(Feed(0xFFFFFFFF, data));
    CheckAcceptsExactly(s);
  }
}

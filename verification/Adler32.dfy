// Adler-32 with the reductions deferred to the end of a chunk, against the definition that
// reduces after every byte (section 2.2 of RFC 1950).
module Adler32 {
  import opened Words
  import opened Bytes

  const BASE := 65521
  const NMAX := 5552

  // The definition, from any starting pair.
  function SumA(s: seq<byte>, a: nat): (r: nat) {
    if s == [] then a % BASE else (SumA(s[..|s| - 1], a) + s[|s| - 1]) % BASE
  }

  function SumB(s: seq<byte>, a: nat, b: nat): (r: nat) {
    if s == [] then b % BASE else (SumB(s[..|s| - 1], a, b) + SumA(s, a)) % BASE
  }

  function Adler(s: seq<byte>): (r: nat) {
    SumB(s, 1, 0) * 65536 + SumA(s, 1)
  }

  lemma {:induction false} SumsConcat(s: seq<byte>, t: seq<byte>, a: nat, b: nat)
    ensures SumA(s + t, a) == SumA(t, SumA(s, a))
    ensures SumB(s + t, a, b) == SumB(t, SumA(s, a), SumB(s, a, b))
    decreases |t|
  {
    if t == [] {
      assert s + t == s;
      Reduced(s, a, b);
    } else {
      var n := |t| - 1;
      SumsConcat(s, t[..n], a, b);
      assert (s + t)[..|s + t| - 1] == s + t[..n];
    }
  }

  lemma Reduced(s: seq<byte>, a: nat, b: nat)
    ensures SumA(s, a) < BASE && SumB(s, a, b) < BASE
  {
  }

  lemma OneMore(s: seq<byte>, x: byte, t: seq<byte>, a: nat, b: nat)
    requires t == s + [x] && SumA(s, 1) == a && SumB(s, 1, 0) == b && a + x < BASE && b + (a + x) < BASE
    ensures SumA(t, 1) == a + x && SumB(t, 1, 0) == b + (a + x)
  {
    assert t[..|s|] == s;
  }

  // A known value: the Adler-32 of "abc".
  lemma CheckValue()
    ensures Adler([97, 98, 99]) == 0x024D0127
  {
    assert SumA([], 1) == 1 && SumB([], 1, 0) == 0;
    hide SumA, SumB;
    OneMore([], 97, [97], 1, 0);
    OneMore([97], 98, [97, 98], 98, 98);
    OneMore([97, 98], 99, [97, 98, 99], 196, 294);
  }

  // ---- How large the unreduced sums get

  // The largest second sum after k bytes, starting from reduced sums.
  function Peak(k: nat): (r: nat) {
    if k == 0 then BASE - 1 else Peak(k - 1) + (BASE - 1 + 255 * k)
  }

  lemma {:induction false} PeakClosed(k: nat)
    ensures 2 * Peak(k) == 2 * (BASE - 1) * (k + 1) + 255 * k * (k + 1)
  {
    if k > 0 {
      PeakClosed(k - 1);
      assert 255 * k * (k + 1) == 255 * (k - 1) * k + 510 * k;
    }
  }

  lemma {:induction false} PeakGrows(j: nat, k: nat)
    requires j <= k
    ensures Peak(j) <= Peak(k)
    decreases k
  {
    if j < k {
      PeakGrows(j, k - 1);
    }
  }

  // 5552 is the longest chunk for which no input can overflow 32 bits.
  lemma ChunkIsLongest()
    ensures Peak(NMAX) < U32 <= Peak(NMAX + 1)
  {
    PeakClosed(NMAX);
    PeakClosed(NMAX + 1);
  }

  // The unreduced sums over a chunk.
  function RawA(s: seq<byte>, a: nat): (r: nat) {
    if s == [] then a else RawA(s[..|s| - 1], a) + s[|s| - 1]
  }

  function RawB(s: seq<byte>, a: nat, b: nat): (r: nat) {
    if s == [] then b else RawB(s[..|s| - 1], a, b) + RawA(s, a)
  }

  lemma {:induction false} RawBounds(s: seq<byte>, a: nat, b: nat)
    requires a < BASE && b < BASE
    ensures RawA(s, a) <= BASE - 1 + 255 * |s| && RawB(s, a, b) <= Peak(|s|)
  {
    if s != [] {
      RawBounds(s[..|s| - 1], a, b);
    }
  }

  lemma ModStep(x: nat, y: nat)
    ensures (x % BASE + y) % BASE == (x + y) % BASE
    ensures (x % BASE + y % BASE) % BASE == (x + y) % BASE
  {
  }

  lemma {:induction false} RawReduces(s: seq<byte>, a: nat, b: nat)
    ensures RawA(s, a) % BASE == SumA(s, a) && RawB(s, a, b) % BASE == SumB(s, a, b)
  {
    if s != [] {
      var p := s[..|s| - 1];
      RawReduces(p, a, b);
      ModStep(RawA(p, a), s[|s| - 1]);
      ModStep(RawB(p, a, b), RawA(s, a));
    }
  }

  // The bound is met, by a chunk of 0xFF bytes after the largest reduced sums.
  lemma {:induction false} PeakIsReached(k: nat)
    ensures var s := seq(k, _ => 255); RawA(s, BASE - 1) == BASE - 1 + 255 * k && RawB(s, BASE - 1, BASE - 1) == Peak(k)
  {
    var s: seq<byte> := seq(k, _ => 255);
    if k > 0 {
      PeakIsReached(k - 1);
      assert s[..k - 1] == seq(k - 1, _ => 255);
    }
  }

  // ---- The loops

  // calcShortAdler32, with the additions of uint32.
  method CalcShort(input: seq<byte>, a0: u32, b0: u32) returns (a: u32, b: u32)
    requires |input| <= NMAX && a0 < BASE && b0 < BASE
    ensures a == SumA(input, a0) && b == SumB(input, a0, b0)
  {
    a, b := a0, b0;
    for i := 0 to |input|
      invariant a == RawA(input[..i], a0) && b == RawB(input[..i], a0, b0)
    {
      assert input[..i + 1][..i] == input[..i];
      NoOverflow(input[..i + 1], a0, b0);
      a := Wrap32(a + input[i]);
      b := Wrap32(b + a);
    }
    assert input[..|input|] == input;
    RawReduces(input, a0, b0);
    a := a % BASE;
    b := b % BASE;
  }

  lemma NoOverflow(s: seq<byte>, a: nat, b: nat)
    requires |s| <= NMAX && a < BASE && b < BASE
    ensures RawA(s, a) < U32 && RawB(s, a, b) < U32
  {
    RawBounds(s, a, b);
    PeakGrows(|s|, NMAX);
    ChunkIsLongest();
  }

  method Calc(input: seq<byte>) returns (r: u32)
    ensures r == Adler(input)
  {
    assert SumA([], 1) == 1 && SumB([], 1, 0) == 0;
    hide SumA, SumB;
    var a: u32, b: u32 := 1, 0;
    var rest := input;
    ghost var done := 0;
    var length := |input|;
    assert input[..0] == [];
    while length > NMAX
      invariant 0 <= done <= |input| && length == |rest| && rest == input[done..]
      invariant a == SumA(input[..done], 1) && b == SumB(input[..done], 1, 0) && a < BASE && b < BASE
    {
      OneChunk(input, done, NMAX);
      assert rest[..NMAX] == input[done..done + NMAX];
      a, b := CalcShort(rest[..NMAX], a, b);
      rest := rest[NMAX..];
      done := done + NMAX;
      length := length - NMAX;
    }
    OneChunk(input, done, length);
    assert rest == input[done..done + length] && input[..done + length] == input;
    a, b := CalcShort(rest, a, b);
    r := Wrap32(b * 65536 + a);
  }

  lemma OneChunk(input: seq<byte>, i: nat, n: nat)
    requires i + n <= |input|
    ensures SumA(input[..i + n], 1) == SumA(input[i..i + n], SumA(input[..i], 1)) < BASE
    ensures SumB(input[..i + n], 1, 0) == SumB(input[i..i + n], SumA(input[..i], 1), SumB(input[..i], 1, 0)) < BASE
  {
    assert input[..i + n] == input[..i] + input[i..i + n];
    SumsConcat(input[..i], input[i..i + n], 1, 0);
    Reduced(input[..i + n], 1, 0);
  }

  // CheckAdler32: the last four of the first l bytes are the checksum of those before.
  method Check(input: seq<byte>, l: nat) returns (ok: bool)
    requires 4 <= l <= |input|
    ensures ok <==> Adler(input[..l - 4]) == FromLe32(input[l - 4..l])
  {
    var adler := Calc(input[..l - 4]);
    ok := adler == FromLe32(input[l - 4..l]);
  }
}

// Fixed-width numbers as bytes.
module Bytes {
  import opened Words

  function Be16(n: nat): (r: seq<byte>)
    ensures |r| == 2
  {
    [(n / 256) % 256, n % 256]
  }

  function FromBe16(s: seq<byte>): (r: nat)
    requires |s| == 2
    ensures r < 65536
  {
    256 * (s[0] as int) + s[1] as int
  }

  lemma Be16RoundTrip(n: nat)
    requires n < 65536
    ensures FromBe16(Be16(n)) == n
  {
  }

  function Be32(n: nat): (r: seq<byte>)
    ensures |r| == 4
  {
    Be16(n / 65536) + Be16(n % 65536)
  }

  function FromBe32(s: seq<byte>): (r: nat)
    requires |s| == 4
    ensures r < U32
  {
    65536 * FromBe16(s[..2]) + FromBe16(s[2..])
  }

  lemma Be32RoundTrip(n: nat)
    requires n < U32
    ensures FromBe32(Be32(n)) == n
  {
    Be16RoundTrip(n / 65536);
    Be16RoundTrip(n % 65536);
    assert Be32(n)[..2] == Be16(n / 65536) && Be32(n)[2..] == Be16(n % 65536);
  }

  function Be64(n: nat): (r: seq<byte>)
    ensures |r| == 8
  {
    Be32(n / U32) + Be32(n % U32)
  }

  function FromBe64(s: seq<byte>): (r: nat)
    requires |s| == 8
  {
    U32 * FromBe32(s[..4]) + FromBe32(s[4..])
  }

  lemma Be64RoundTrip(n: nat)
    requires n < U32 * U32
    ensures FromBe64(Be64(n)) == n
  {
    assert n / U32 < U32;
    Be32RoundTrip(n / U32);
    Be32RoundTrip(n % U32);
    assert Be64(n)[..4] == Be32(n / U32) && Be64(n)[4..] == Be32(n % U32);
  }

  function Le32(n: nat): (r: seq<byte>)
    ensures |r| == 4
  {
    [n % 256, (n / 256) % 256, (n / 65536) % 256, (n / 16777216) % 256]
  }

  function FromLe32(s: seq<byte>): (r: nat)
    requires |s| == 4
    ensures r < U32
  {
    (s[0] as int) + 256 * (s[1] as int) + 65536 * (s[2] as int) + 16777216 * (s[3] as int)
  }

  lemma Le32RoundTrip(n: nat)
    requires n < U32
    ensures FromLe32(Le32(n)) == n
  {
    FourDigits(n);
  }

  // ---- Digits of base 256, as the layouts of packets are stated with

  function Two(high: byte, low: byte): (r: nat) {
    256 * (high as int) + low as int
  }

  // Low byte first.
  function Four(b0: byte, b1: byte, b2: byte, b3: byte): (r: nat) {
    b0 as int + 256 * (b1 as int) + 65536 * (b2 as int) + 16777216 * (b3 as int)
  }

  lemma SameDigits(a: byte, b: byte, c: byte, d: byte)
    ensures Two(a, b) == Two(c, d) <==> a == c && b == d
  {
  }

  function Zeros(n: nat): (r: seq<byte>)
    ensures |r| == n
  {
    seq(n, _ => 0)
  }
}

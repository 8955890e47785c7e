// The byte buffers that the codecs borrow. A buffer has the length asked for and the capacity of
// the pool it comes from, and Go slice expressions reach up to the capacity.
module BufferPool {
  import opened Words

  const MAX_SIZE := 65536

  // bits.Len32
  function Len(n: nat): (r: nat) {
    if n == 0 then 0 else 1 + Len(n / 2)
  }

  // The capacity of GetBuffer(size).
  function Cap(size: nat): (r: nat) {
    if 1 <= size <= MAX_SIZE then Pow2(Len(size - 1)) else size
  }

  lemma {:induction false} LenBounds(n: nat)
    ensures n < Pow2(Len(n))
    ensures n > 0 ==> Pow2(Len(n) - 1) <= n
  {
    if n > 0 {
      LenBounds(n / 2);
    }
  }

  lemma {:induction false} Pow2Grows(i: nat, j: nat)
    requires i < j
    ensures Pow2(i) < Pow2(j)
  {
    if i < j - 1 {
      Pow2Grows(i, j - 1);
    }
  }

  // A pooled buffer comes from the pool of the least power of two that holds it, and that pool
  // exists.
  lemma CapIsLeast(size: nat, i: nat)
    requires 1 <= size <= MAX_SIZE
    ensures size <= Cap(size) <= MAX_SIZE
    ensures Cap(size) == Pow2(i) <==> size <= Pow2(i) < 2 * size
  {
    var l := Len(size - 1);
    LenBounds(size - 1);
    Sixteen();
    if l > 16 {
      Pow2Grows(15, l - 1);
      assert Pow2(16) <= Pow2(l - 1) by { if l > 17 { Pow2Grows(16, l - 1); } }
    } else if l < 16 {
      Pow2Grows(l, 16);
    }
    if i < l {
      Pow2Grows(i, l);
      if i < l - 1 {
        Pow2Grows(i, l - 1);
      }
    } else if i > l {
      Pow2Grows(l, i);
      if l + 1 < i {
        Pow2Grows(l + 1, i);
      }
    }
  }

  lemma Sixteen()
    ensures Pow2(15) == 32768 && Pow2(16) == MAX_SIZE
  {
    assert Pow2(4) == 16;
    assert Pow2(8) == 256;
    assert Pow2(12) == 4096;
  }
}

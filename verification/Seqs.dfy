// Sums and concatenations over sequences.
module Seqs {
  function Sum(s: seq<nat>): (r: nat)
  {
    if s == [] then 0 else s[0] + Sum(s[1..])
  }

  lemma EmptySum()
    ensures Sum([]) == 0
  {
  }

  lemma SumSplit(s: seq<nat>)
    requires s != []
    ensures Sum(s) == s[0] + Sum(s[1..])
  {
  }

  lemma {:induction false} SumConcat(a: seq<nat>, b: seq<nat>)
    ensures Sum(a + b) == Sum(a) + Sum(b)
  {
    if a == [] {
      assert a + b == b;
    } else {
      SumConcat(a[1..], b);
      assert (a + b)[1..] == a[1..] + b;
    }
  }

  lemma SumAppend(s: seq<nat>, x: nat)
    ensures Sum(s + [x]) == Sum(s) + x
  {
    SumConcat(s, [x]);
    assert Sum([x]) == x + Sum([]);
  }

  lemma SumUpdate(s: seq<nat>, i: nat, x: nat)
    requires i < |s|
    ensures Sum(s[i := x]) == Sum(s) - s[i] + x
  {
    assert s == s[..i] + ([s[i]] + s[i + 1..]);
    assert s[i := x] == s[..i] + ([x] + s[i + 1..]);
    SumConcat(s[..i], [s[i]] + s[i + 1..]);
    SumConcat(s[..i], [x] + s[i + 1..]);
  }

  function Flatten<T>(s: seq<seq<T>>): (r: seq<T>)
  {
    if s == [] then [] else s[0] + Flatten(s[1..])
  }

  lemma FlattenFirst<T>(s: seq<seq<T>>)
    requires s != []
    ensures Flatten(s) == s[0] + Flatten(s[1..])
  {
  }

  // Concatenation regrouped.
  lemma Regroup<T>(a: seq<T>, b: seq<T>, c: seq<T>)
    ensures a + b + c == a + (b + c)
  {
  }

  lemma {:induction false} FlattenConcat<T>(a: seq<seq<T>>, b: seq<seq<T>>)
    ensures Flatten(a + b) == Flatten(a) + Flatten(b)
  {
    if a == [] {
      assert a + b == b;
    } else {
      FlattenConcat(a[1..], b);
      assert (a + b)[1..] == a[1..] + b && (a + b)[0] == a[0];
      assert a[0] + (Flatten(a[1..]) + Flatten(b)) == (a[0] + Flatten(a[1..])) + Flatten(b);
    }
  }

  lemma FlattenAppend<T>(s: seq<seq<T>>, x: seq<T>)
    ensures Flatten(s + [x]) == Flatten(s) + x
  {
    FlattenConcat(s, [x]);
    assert Flatten([x]) == x + Flatten([]);
  }
}

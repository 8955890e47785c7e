// Domain names on the wire (sections 3.1 and 4.1.4 of RFC 1035): labels with length bytes, ended
// by a zero byte or by a pointer to another place in the message.
module DnsName {
  import opened Words
  import opened Bytes
  import opened Seqs

  const DOT: byte := 46

  // ---- Names as strings and as labels

  // strings.Split(domain, ".")
  function Split(d: seq<byte>): (r: seq<seq<byte>>)
    ensures r != []
  {
    if d == [] then [[]]
    else
      var rest := Split(d[1..]);
      if d[0] == DOT then [[]] + rest else [[d[0]] + rest[0]] + rest[1..]
  }

  // The name so far with one more label behind it.
  function WithLabel(sb: seq<byte>, l: seq<byte>): (r: seq<byte>) {
    if sb == [] then l else sb + [DOT] + l
  }

  function WithLabels(sb: seq<byte>, labels: seq<seq<byte>>): (r: seq<byte>)
    decreases |labels|
  {
    if labels == [] then sb else WithLabels(WithLabel(sb, labels[0]), labels[1..])
  }

  ghost predicate LabelsOk(labels: seq<seq<byte>>) {
    forall i :: 0 <= i < |labels| ==> 1 <= |labels[i]| <= 63
  }

  // A name of labels of 1 to 63 bytes.
  ghost predicate NameOk(d: seq<byte>) {
    LabelsOk(Split(d))
  }

  function Joined(labels: seq<seq<byte>>): (r: seq<byte>) {
    if labels == [] then [] else [DOT] + labels[0] + Joined(labels[1..])
  }

  lemma {:induction false} WithLabelsJoins(sb: seq<byte>, labels: seq<seq<byte>>)
    requires sb != []
    ensures WithLabels(sb, labels) == sb + Joined(labels)
    decreases |labels|
  {
    if labels != [] {
      WithLabelsJoins(sb + [DOT] + labels[0], labels[1..]);
    }
  }

  lemma {:induction false} SplitJoins(d: seq<byte>)
    ensures Split(d)[0] + Joined(Split(d)[1..]) == d
  {
    if d != [] {
      SplitJoins(d[1..]);
      var rest := Split(d[1..]);
      var a, b, c := rest[0], Joined(rest[1..]), [d[0]];
      assert d == c + (a + b);
      Regroup(c, a, b);
      if d[0] == DOT {
        assert Split(d)[0] == [] && Split(d)[1..] == rest;
        assert Joined(rest) == c + a + b;
        assert [] + (c + a + b) == c + a + b;
      } else {
        assert Split(d)[0] == c + a && Split(d)[1..] == rest[1..];
      }
    }
  }

  // The labels of a proper name put together again are the name.
  lemma LabelsSpellName(d: seq<byte>)
    requires NameOk(d)
    ensures WithLabels([], Split(d)) == d
  {
    SplitJoins(d);
    var s := Split(d);
    WithLabelsJoins(s[0], s[1..]);
  }

  // Labels with full stops between them.
  function Dotted(labels: seq<seq<byte>>): (r: seq<byte>)
    requires labels != []
  {
    if |labels| == 1 then labels[0] else labels[0] + [46] + Dotted(labels[1..])
  }

  lemma {:induction false} DottedJoins(labels: seq<seq<byte>>)
    requires labels != []
    ensures Dotted(labels) == labels[0] + Joined(labels[1..])
  {
    if |labels| > 1 {
      DottedJoins(labels[1..]);
      Regroup([DOT], labels[1], Joined(labels[1..][1..]));
      Regroup(labels[0], [DOT], Dotted(labels[1..]));
    }
  }

  // Names are taken apart at their full stops.
  lemma {:induction false} SplitDotted(labels: seq<seq<byte>>)
    requires labels != [] && forall i, k :: 0 <= i < |labels| && 0 <= k < |labels[i]| ==> labels[i][k] != 46
    ensures Split(Dotted(labels)) == labels
    decreases |labels|, |labels[0]|
  {
    var d, l := Dotted(labels), labels[0];
    if l == [] {
      if |labels| > 1 {
        assert d == [46] + Dotted(labels[1..]) && d[1..] == Dotted(labels[1..]);
        SplitDotted(labels[1..]);
      }
    } else {
      var less := [l[1..]] + labels[1..];
      assert less[1..] == labels[1..];
      assert d[0] == l[0] && d[1..] == Dotted(less);
      SplitDotted(less);
      assert [l[0]] + l[1..] == l && [l] + labels[1..] == labels;
    }
  }

  // Labels read one after the other make up the name with full stops between them.
  lemma LabelsReadDotted(labels: seq<seq<byte>>)
    requires LabelsOk(labels) && labels != []
    ensures WithLabels([], labels) == Dotted(labels)
  {
    DottedJoins(labels);
    WithLabelsJoins(labels[0], labels[1..]);
  }

  // ---- Writing

  function EncodeLabels(labels: seq<seq<byte>>): (r: seq<byte>) {
    if labels == [] then [] else [|labels[0]| % 256] + labels[0] + EncodeLabels(labels[1..])
  }

  function EncodeName(d: seq<byte>): (r: seq<byte>) {
    EncodeLabels(Split(d)) + [0]
  }

  // MarshalDomainTo: label by label, then the zero byte.
  method MarshalDomainTo(w: seq<byte>, domain: seq<byte>) returns (w': seq<byte>, n: nat)
    ensures w' == w + EncodeName(domain) && n == |EncodeName(domain)|
  {
    w', n := w, 0;
    var segs := Split(domain);
    for i := 0 to |segs|
      invariant w' + EncodeLabels(segs[i..]) == w + EncodeLabels(segs)
      invariant n + |EncodeLabels(segs[i..])| == |EncodeLabels(segs)|
    {
      var seg := segs[i];
      assert segs[i..][1..] == segs[i + 1..] && segs[i..][0] == seg;
      w' := w' + [|seg| % 256];
      n := n + 1;
      w' := w' + seg;
      n := n + |seg|;
    }
    assert segs[|segs|..] == [];
    assert w' == w + EncodeLabels(segs);
    Regroup(w, EncodeLabels(segs), [0]);
    w' := w' + [0];
    n := n + 1;
  }

  // ---- Reading

  datatype NameError = NoPointerByte | OffsetTooLarge | LabelTooLong | LabelBeyondMessage

  datatype Named = Name(sb: seq<byte>, next: nat) | BadName(error: NameError) | OutOfHops

  function Offset(msg: seq<byte>, idx: nat): (r: nat)
    requires idx + 2 <= |msg|
  {
    FromBe16(msg[idx..idx + 2]) % 16384
  }

  // A pointer is the low 14 bits of two bytes whose top bits are set.
  lemma OffsetIs(msg: seq<byte>, idx: nat)
    requires idx + 2 <= |msg| && msg[idx] >= 192
    ensures Offset(msg, idx) == Two(msg[idx] - 192, msg[idx + 1])
  {
  }

  // UnmarshalDomainTo at position idx, with sb read so far, cut short before it follows more than
  // `hops` pointers. The source follows pointers anywhere, without end if they form a cycle.
  function ReadName(msg: seq<byte>, hops: nat, idx: nat, sb: seq<byte>): (r: Named)
    ensures r.Name? ==> idx <= r.next
    decreases hops, |msg| - idx
  {
    if idx >= |msg| then Name(sb, idx)
    else if msg[idx] >= 192 then
      if idx + 2 > |msg| then BadName(NoPointerByte)
      else if Offset(msg, idx) > |msg| then BadName(OffsetTooLarge)
      else if hops == 0 then OutOfHops
      else
        match ReadName(msg, hops - 1, Offset(msg, idx), sb)
        case Name(sb', _) => Name(sb', idx + 2)
        case bad => bad
    else
      var size := msg[idx];
      if size == 0 then Name(sb, idx + 1)
      else if size > 63 then BadName(LabelTooLong)
      else if idx + 1 + size > |msg| then BadName(LabelBeyondMessage)
      else ReadName(msg, hops, idx + 1 + size, WithLabel(sb, msg[idx + 1..idx + 1 + size]))
  }

  // The loop of the source, recursive only through pointers, where it returns at all.
  method UnmarshalDomainTo(msg: seq<byte>, ghost hops: nat, start: nat, sb0: seq<byte>) returns (r: Named)
    requires ReadName(msg, hops, start, sb0) != OutOfHops
    ensures r == ReadName(msg, hops, start, sb0)
    decreases hops
  {
    hide Offset, WithLabel;
    var idx, sb := start, sb0;
    while idx < |msg|
      invariant ReadName(msg, hops, start, sb0) == ReadName(msg, hops, idx, sb)
      decreases |msg| - idx
    {
      if msg[idx] >= 192 {
        if |msg| - idx < 2 {
          return BadName(NoPointerByte);
        }
        var offset := Offset(msg, idx);
        if offset > |msg| {
          return BadName(OffsetTooLarge);
        }
        var pointed := UnmarshalDomainTo(msg, hops - 1, offset, sb);
        if pointed.BadName? {
          return pointed;
        }
        return Name(pointed.sb, idx + 2);
      }
      var size := msg[idx];
      idx := idx + 1;
      if size == 0 {
        return Name(sb, idx);
      }
      if size > 63 {
        return BadName(LabelTooLong);
      }
      if idx + size > |msg| {
        return BadName(LabelBeyondMessage);
      }
      sb := WithLabel(sb, msg[idx..idx + size]);
      idx := idx + size;
    }
    r := Name(sb, idx);
  }

  // ---- When reading ends

  // More hops than are needed change nothing.
  lemma {:induction false} MoreHops(msg: seq<byte>, hops: nat, more: nat, idx: nat, sb: seq<byte>)
    requires hops <= more && ReadName(msg, hops, idx, sb) != OutOfHops
    ensures ReadName(msg, more, idx, sb) == ReadName(msg, hops, idx, sb)
    decreases hops, |msg| - idx
  {
    hide Offset, WithLabel;
    if idx < |msg| && msg[idx] >= 192 {
      if idx + 2 <= |msg| && Offset(msg, idx) <= |msg| {
        MoreHops(msg, hops - 1, more - 1, Offset(msg, idx), sb);
      }
    } else if idx < |msg| && 0 < msg[idx] <= 63 && idx + 1 + msg[idx] <= |msg| {
      var next := idx + 1 + msg[idx];
      MoreHops(msg, hops, more, next, WithLabel(sb, msg[idx + 1..next]));
    }
  }

  datatype Place = At(idx: nat) | Ended

  // Where the first pointer from idx on leads, if the name at idx comes to a pointer.
  function Target(msg: seq<byte>, idx: nat): (r: Place)
    ensures r.At? ==> idx < |msg| && r.idx <= |msg|
    decreases |msg| - idx
  {
    if idx >= |msg| then Ended
    else if msg[idx] >= 192 then
      if idx + 2 > |msg| || Offset(msg, idx) > |msg| then Ended else At(Offset(msg, idx))
    else if msg[idx] == 0 || msg[idx] > 63 || idx + 1 + msg[idx] > |msg| then Ended
    else Target(msg, idx + 1 + msg[idx])
  }

  // The place after n pointers.
  function Follow(msg: seq<byte>, p: Place, n: nat): (r: Place)
    decreases n
  {
    if n == 0 || p.Ended? then p else Follow(msg, Target(msg, p.idx), n - 1)
  }

  lemma {:induction false} FollowAdds(msg: seq<byte>, p: Place, m: nat, n: nat)
    ensures Follow(msg, p, m + n) == Follow(msg, Follow(msg, p, m), n)
    decreases m
  {
    hide Target;
    if m > 0 && p.At? {
      FollowAdds(msg, Target(msg, p.idx), m - 1, n);
    } else if m > 0 {
      assert Follow(msg, p, m + n) == Ended == Follow(msg, p, m);
    }
  }

  // The reader runs out of hops exactly when one pointer more is there to follow.
  lemma {:induction false} OutOfHopsIff(msg: seq<byte>, hops: nat, idx: nat, sb: seq<byte>)
    ensures ReadName(msg, hops, idx, sb) == OutOfHops <==> Follow(msg, At(idx), hops + 1).At?
    decreases hops, |msg| - idx
  {
    hide Offset, WithLabel;
    if idx < |msg| && msg[idx] >= 192 {
      if idx + 2 <= |msg| && Offset(msg, idx) <= |msg| && hops > 0 {
        OutOfHopsIff(msg, hops - 1, Offset(msg, idx), sb);
      } else {
        assert Follow(msg, Ended, hops).Ended?;
      }
    } else if idx < |msg| && 0 < msg[idx] <= 63 && idx + 1 + msg[idx] <= |msg| {
      var next := idx + 1 + msg[idx];
      OutOfHopsIff(msg, hops, next, WithLabel(sb, msg[idx + 1..next]));
    } else {
      assert Follow(msg, Ended, hops).Ended?;
    }
  }

  // A place on the way of a chain that goes on is in the message.
  lemma OnTheWay(msg: seq<byte>, p: Place, k: nat, n: nat)
    requires k < n && Follow(msg, p, n).At?
    ensures Follow(msg, p, k).At? && Follow(msg, p, k).idx < |msg|
  {
    FollowAdds(msg, p, k, n - k);
    var q := Follow(msg, p, k);
    EndedStays(msg, n - k);
    EndedStays(msg, n - k - 1);
    assert q.At? && Follow(msg, q, n - k) == Follow(msg, Target(msg, q.idx), n - k - 1);
  }

  lemma EndedStays(msg: seq<byte>, n: nat)
    ensures Follow(msg, Ended, n) == Ended
  {
  }

  // Among more than n numbers below n two are the same.
  lemma {:induction false} Pigeonhole(s: seq<nat>, n: nat) returns (i: nat, j: nat)
    requires |s| > n && forall k :: 0 <= k < |s| ==> s[k] < n
    ensures i < j < |s| && s[i] == s[j]
    decreases n
  {
    assert s[0] < n;
    if k :| 0 <= k < |s| && s[k] == n - 1 {
      if m :| 0 <= m < |s| && m != k && s[m] == n - 1 {
        i, j := if k < m then k else m, if k < m then m else k;
      } else {
        var t := s[..k] + s[k + 1..];
        i, j := Pigeonhole(t, n - 1);
        i, j := if i < k then i else i + 1, if j < k then j else j + 1;
      }
    } else {
      i, j := Pigeonhole(s[1..], n - 1);
      i, j := i + 1, j + 1;
    }
  }

  lemma {:induction false} CycleGoesOn(msg: seq<byte>, p: Place, i: nat, j: nat, k: nat)
    requires i < j && Follow(msg, p, j).At? && Follow(msg, p, i) == Follow(msg, p, j)
    ensures Follow(msg, p, k).At?
    decreases k
  {
    if k < j {
      OnTheWay(msg, p, k, j);
    } else {
      FollowAdds(msg, p, j, k - j);
      FollowAdds(msg, p, i, k - j);
      CycleGoesOn(msg, p, i, j, i + (k - j));
    }
  }

  // A chain of more pointers than the message has places comes back to one of them.
  lemma LongChainsTurn(msg: seq<byte>, idx: nat) returns (i: nat, j: nat)
    requires Follow(msg, At(idx), |msg| + 1).At?
    ensures i < j <= |msg| && Follow(msg, At(idx), j).At? && Follow(msg, At(idx), i) == Follow(msg, At(idx), j)
  {
    var n := |msg| + 1;
    forall k | 0 <= k < n ensures Follow(msg, At(idx), k).At? && Follow(msg, At(idx), k).idx < |msg| {
      OnTheWay(msg, At(idx), k, n);
    }
    var places := seq(n, k requires 0 <= k < n => Follow(msg, At(idx), k).idx);
    i, j := Pigeonhole(places, |msg|);
  }

  // No name needs more hops than the message has bytes: either so many are enough, or the reader
  // of the source never returns, and that is exactly when its pointers lead back to one of
  // the places they came from.
  lemma EndlessIff(msg: seq<byte>, idx: nat, sb: seq<byte>)
    ensures ReadName(msg, |msg|, idx, sb) == OutOfHops <==>
            forall hops: nat :: ReadName(msg, hops, idx, sb) == OutOfHops
    ensures ReadName(msg, |msg|, idx, sb) == OutOfHops <==>
            exists i: nat, j: nat ::
              i < j && Follow(msg, At(idx), j).At? && Follow(msg, At(idx), i) == Follow(msg, At(idx), j)
  {
    hide ReadName, Follow;
    OutOfHopsIff(msg, |msg|, idx, sb);
    if ReadName(msg, |msg|, idx, sb) == OutOfHops {
      var i, j := LongChainsTurn(msg, idx);
      forall hops: nat ensures ReadName(msg, hops, idx, sb) == OutOfHops {
        CycleGoesOn(msg, At(idx), i, j, hops + 1);
        OutOfHopsIff(msg, hops, idx, sb);
      }
    } else {
      forall i: nat, j: nat | i < j && Follow(msg, At(idx), j).At?
        ensures Follow(msg, At(idx), i) != Follow(msg, At(idx), j)
      {
        if Follow(msg, At(idx), i) == Follow(msg, At(idx), j) {
          CycleGoesOn(msg, At(idx), i, j, |msg| + 1);
        }
      }
    }
  }

  // ---- What is read is what was spelled

  // The message spells the labels at idx, in plain or with pointers to earlier places.
  ghost predicate Spells(msg: seq<byte>, start: nat, idx: nat, labels: seq<seq<byte>>)
    decreases start, |msg| - idx
  {
    idx < |msg| &&
    if msg[idx] >= 192 then
      && idx + 2 <= |msg|
      && Offset(msg, idx) < start && Spells(msg, Offset(msg, idx), Offset(msg, idx), labels)
    else if msg[idx] == 0 then labels == []
    else
      var end := idx + 1 + msg[idx] as int;
      && msg[idx] <= 63 && end <= |msg|
      && labels != [] && msg[idx + 1..end] == labels[0] && Spells(msg, start, end, labels[1..])
  }

  // A name reached through any chain of backward pointers is read as the labels it stands for, in
  // fewer hops than the place where the chain starts.
  lemma {:induction false} SpelledIsRead(msg: seq<byte>, start: nat, idx: nat, labels: seq<seq<byte>>, sb: seq<byte>)
    requires Spells(msg, start, idx, labels)
    ensures ReadName(msg, start, idx, sb).Name? && ReadName(msg, start, idx, sb).sb == WithLabels(sb, labels)
    decreases start, |msg| - idx
  {
    hide Offset, WithLabel;
    if msg[idx] >= 192 {
      var off := Offset(msg, idx);
      SpelledIsRead(msg, off, off, labels, sb);
      MoreHops(msg, off, start - 1, off, sb);
    } else if msg[idx] > 0 {
      SpelledIsRead(msg, start, idx + 1 + msg[idx] as int, labels[1..], WithLabel(sb, labels[0]));
    }
  }

  lemma ReadLabel(msg: seq<byte>, hops: nat, idx: nat, sb: seq<byte>, l: seq<byte>)
    requires 1 <= |l| <= 63 && idx + 1 + |l| <= |msg| && msg[idx] == |l| && msg[idx + 1..idx + 1 + |l|] == l
    ensures ReadName(msg, hops, idx, sb) == ReadName(msg, hops, idx + 1 + |l|, WithLabel(sb, l))
  {
  }

  lemma ReadEnd(msg: seq<byte>, hops: nat, idx: nat, sb: seq<byte>)
    requires idx < |msg| && msg[idx] == 0
    ensures ReadName(msg, hops, idx, sb) == Name(sb, idx + 1)
  {
  }

  lemma FrontLabel(before: seq<byte>, l: seq<byte>, rest: seq<byte>)
    requires |l| <= 63
    ensures var msg, i := before + ([|l|] + l + rest), |before|;
      && msg[i] == |l| && msg[i + 1..i + 1 + |l|] == l && msg == (before + ([|l|] + l)) + rest
  {
  }

  // Names written by MarshalDomainTo are read back at their place, whatever surrounds them.
  lemma {:induction false} EncodedIsRead(
      before: seq<byte>, labels: seq<seq<byte>>, after: seq<byte>, hops: nat, sb: seq<byte>)
    requires LabelsOk(labels)
    ensures ReadName(before + (EncodeLabels(labels) + ([0] + after)), hops, |before|, sb)
         == Name(WithLabels(sb, labels), |before| + |EncodeLabels(labels)| + 1)
    decreases |labels|
  {
    hide ReadName, WithLabel;
    var end := [0] + after;
    var msg, i := before + (EncodeLabels(labels) + end), |before|;
    if labels == [] {
      assert msg[i] == 0;
      ReadEnd(msg, hops, i, sb);
    } else {
      var l, more := labels[0], EncodeLabels(labels[1..]);
      assert |l| % 256 == |l|;
      Regroup([|l|] + l, more, end);
      FrontLabel(before, l, more + end);
      ReadLabel(msg, hops, i, sb, l);
      EncodedIsRead(before + ([|l|] + l), labels[1..], after, hops, WithLabel(sb, l));
    }
  }

  lemma NameIsRead(before: seq<byte>, d: seq<byte>, after: seq<byte>, hops: nat)
    requires NameOk(d)
    ensures ReadName(before + (EncodeName(d) + after), hops, |before|, []) == Name(d, |before| + |EncodeName(d)|)
  {
    hide ReadName, EncodeLabels, Split;
    EncodedIsRead(before, Split(d), after, hops, []);
    LabelsSpellName(d);
    Regroup(EncodeLabels(Split(d)), [0], after);
  }

  // The string that Split takes apart, behind what was read before.
  function Glued(sb: seq<byte>, labels: seq<seq<byte>>): (r: seq<byte>)
    requires labels != [] || sb != []
  {
    if sb == [] then labels[0] + Joined(labels[1..]) else sb + Joined(labels)
  }

  lemma GluedOne(sb: seq<byte>, labels: seq<seq<byte>>)
    requires labels != [] && labels[0] != []
    ensures Glued(WithLabel(sb, labels[0]), labels[1..]) == Glued(sb, labels)
  {
    if sb != [] {
      Regroup(sb, [DOT] + labels[0], Joined(labels[1..]));
      Regroup(sb, [DOT], labels[0]);
    }
  }

  lemma GluedStarts(sb: seq<byte>, labels: seq<seq<byte>>)
    requires labels != []
    ensures WithLabel(sb, labels[0]) <= Glued(sb, labels)
  {
    if sb != [] {
      Regroup(sb, [DOT] + labels[0], Joined(labels[1..]));
      Regroup(sb, [DOT], labels[0]);
    }
  }

  ghost predicate NoDots(labels: seq<seq<byte>>) {
    forall i, k :: 0 <= i < |labels| && 0 <= k < |labels[i]| ==> labels[i][k] != DOT
  }

  lemma {:induction false} SplitHasNoDots(d: seq<byte>)
    ensures NoDots(Split(d))
  {
    if d != [] {
      SplitHasNoDots(d[1..]);
      var s, rest := Split(d), Split(d[1..]);
      assert d[0] == DOT ==> forall i :: 1 <= i < |s| ==> s[i] == rest[i - 1];
      assert d[0] != DOT ==> forall i :: 1 <= i < |s| ==> s[i] == rest[i];
    }
  }

  // What is read is only ever added to.
  lemma {:induction false} ReadExtends(msg: seq<byte>, hops: nat, idx: nat, sb: seq<byte>)
    ensures var r := ReadName(msg, hops, idx, sb); r.Name? ==> sb <= r.sb
    decreases hops, |msg| - idx
  {
    hide Offset;
    if idx < |msg| && msg[idx] >= 192 {
      if idx + 2 <= |msg| && Offset(msg, idx) <= |msg| && hops > 0 {
        ReadExtends(msg, hops - 1, Offset(msg, idx), sb);
      }
    } else if idx < |msg| && 0 < msg[idx] <= 63 && idx + 1 + msg[idx] <= |msg| {
      var next := idx + 1 + msg[idx];
      ReadExtends(msg, hops, next, WithLabel(sb, msg[idx + 1..next]));
    }
  }

  // A name that does not end within two bytes goes on with a dot.
  lemma EndsOrDot(msg: seq<byte>, hops: nat, idx: nat, sb: seq<byte>)
    requires idx < |msg| && sb != []
    ensures var r := ReadName(msg, hops, idx, sb); r.Name? ==> r.next <= idx + 2 || sb + [DOT] <= r.sb
  {
    hide Offset;
    if 0 < msg[idx] <= 63 && idx + 1 + msg[idx] <= |msg| {
      var next := idx + 1 + msg[idx];
      ReadExtends(msg, hops, next, WithLabel(sb, msg[idx + 1..next]));
    }
  }

  // A length byte of zero ends the name; one above 63 is refused or taken for a pointer.
  lemma BadLengthByte(msg: seq<byte>, hops: nat, idx: nat, sb: seq<byte>)
    requires idx + 2 < |msg| && (msg[idx] == 0 || msg[idx] > 63)
    ensures var r := ReadName(msg, hops, idx, sb); r.Name? ==> r.next <= idx + 2
  {
    hide Offset, WithLabel;
  }

  lemma SliceFront(msg: seq<byte>, at: nat, l: seq<byte>, m: nat)
    requires m <= |l| && at + |l| <= |msg| && msg[at..at + |l|] == l
    ensures msg[at..at + m] == l[..m]
  {
    assert msg[at..at + m] == msg[at..at + |l|][..m];
  }

  // Of a label too long for its length byte only the beginning is taken for the label.
  lemma LongLabel(msg: seq<byte>, hops: nat, idx: nat, sb: seq<byte>, l: seq<byte>, m: nat)
    requires 1 <= m <= 63 && m < |l| && idx + 1 + |l| < |msg|
    requires msg[idx] == m && msg[idx + 1..idx + 1 + |l|] == l
    ensures var r := ReadName(msg, hops, idx, sb);
      r.Name? ==> r.next <= idx + m + 3 || WithLabel(sb, l[..m]) + [DOT] <= r.sb
  {
    hide ReadName;
    SliceFront(msg, idx + 1, l, m);
    ReadLabel(msg, hops, idx, sb, l[..m]);
    EndsOrDot(msg, hops, idx + 1 + m, WithLabel(sb, l[..m]));
  }

  // The dot stands where the label has another byte.
  lemma DotInLabel(sb: seq<byte>, labels: seq<seq<byte>>, m: nat, out: seq<byte>)
    requires labels != [] && NoDots(labels) && m < |labels[0]|
    requires WithLabel(sb, labels[0][..m]) + [DOT] <= out
    ensures out != Glued(sb, labels)
  {
    hide Joined;
    var l, taken := labels[0], WithLabel(sb, labels[0][..m]);
    GluedStarts(sb, labels);
    hide Glued;
    assert WithLabel(sb, l)[|taken|] == l[m] != DOT;
    assert out[|taken|] == (taken + [DOT])[|taken|];
  }

  lemma BadLabel(msg: seq<byte>, hops: nat, idx: nat, sb: seq<byte>, labels: seq<seq<byte>>)
    requires labels != [] && NoDots(labels)
    requires var l := labels[0];
      && !(1 <= |l| <= 63) && idx + 1 + |l| < |msg| && msg[idx] == |l| % 256 && msg[idx + 1..idx + 1 + |l|] == l
    ensures var r := ReadName(msg, hops, idx, sb);
      r.Name? ==> r.next <= idx + 1 + |labels[0]| || r.sb != Glued(sb, labels)
  {
    hide ReadName, WithLabel, Glued, NoDots;
    var l := labels[0];
    var m := |l| % 256;
    if l == [] {
      ReadEnd(msg, hops, idx, sb);
    } else if m == 0 || m > 63 {
      BadLengthByte(msg, hops, idx, sb);
    } else {
      LongLabel(msg, hops, idx, sb, l, m);
      var r := ReadName(msg, hops, idx, sb);
      if r.Name? && r.next > idx + 1 + |l| {
        DotInLabel(sb, labels, m, r.sb);
      }
    }
  }

  lemma {:induction false} BadLabelsAreMisread(
      before: seq<byte>, labels: seq<seq<byte>>, after: seq<byte>, hops: nat, sb: seq<byte>)
    requires !LabelsOk(labels) && NoDots(labels)
    ensures var r := ReadName(before + (EncodeLabels(labels) + ([0] + after)), hops, |before|, sb);
      r.Name? ==> r.next < |before| + |EncodeLabels(labels)| + 1 || r.sb != Glued(sb, labels)
    decreases |labels|
  {
    hide ReadName, WithLabel, Glued;
    var end := [0] + after;
    var msg, i := before + (EncodeLabels(labels) + end), |before|;
    var l, more := labels[0], EncodeLabels(labels[1..]);
    Regroup([|l| % 256] + l, more, end);
    assert msg == before + ([|l| % 256] + l + (more + end));
    if 1 <= |l| <= 63 {
      FrontLabel(before, l, more + end);
      ReadLabel(msg, hops, i, sb, l);
      GluedOne(sb, labels);
      BadLabelsAreMisread(before + ([|l|] + l), labels[1..], after, hops, WithLabel(sb, l));
    } else {
      assert msg[i] == |l| % 256 && msg[i + 1..i + 1 + |l|] == l;
      BadLabel(msg, hops, i, sb, labels);
    }
  }

  // A written name is read back whole exactly when its labels have 1 to 63 bytes. In particular
  // the empty name, the root, is written as two zero bytes and read as one.
  lemma NameIsReadIff(before: seq<byte>, d: seq<byte>, after: seq<byte>, hops: nat)
    ensures var msg := before + (EncodeName(d) + after);
      ReadName(msg, hops, |before|, []) == Name(d, |before| + |EncodeName(d)|) <==> NameOk(d)
  {
    SplitJoins(d);
    assert Glued([], Split(d)) == d;
    hide ReadName, EncodeLabels, Split, Glued;
    if NameOk(d) {
      NameIsRead(before, d, after, hops);
    } else {
      SplitHasNoDots(d);
      BadLabelsAreMisread(before, Split(d), after, hops, []);
      Regroup(EncodeLabels(Split(d)), [0], after);
    }
  }

  // The root name takes two zero bytes and is read as the first of them.
  lemma RootIsMisread(before: seq<byte>, after: seq<byte>, hops: nat)
    ensures EncodeName([]) == [0, 0]
    ensures ReadName(before + (EncodeName([]) + after), hops, |before|, []) == Name([], |before| + 1)
  {
    assert Split([]) == [[]] && EncodeLabels([[]]) == [0];
    var msg := before + (EncodeName([]) + after);
    assert msg[|before|] == 0;
    ReadEnd(msg, hops, |before|, []);
  }
}

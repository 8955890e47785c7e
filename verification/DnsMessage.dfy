// DNS messages (sections 4.1.1 to 4.1.3 of RFC 1035): header, one question, answers.
module DnsMessage {
  import opened Words
  import opened Bytes
  import opened Seqs
  import opened DnsName
  import BufferPool

  const HEADER_LEN := 12
  const TYPE_A := 1
  const TYPE_AAAA := 28

  datatype Header = Header(id: nat, bits: nat, qdcount: nat, ancount: nat, nscount: nat, arcount: nat)
  datatype Question = Question(name: seq<byte>, qtype: nat, qclass: nat)
  // ip: the address taken from the data of A and AAAA records, empty for others
  datatype RR = RR(name: seq<byte>, typ: nat, class_: nat, ttl: nat, rdlength: nat, rdata: seq<byte>, ip: seq<byte>)
  datatype Message = Message(header: Header, question: Question, answers: seq<RR>)

  ghost predicate HeaderOk(h: Header) {
    h.id < 65536 && h.bits < 65536 && h.qdcount < 65536 && h.ancount < 65536 && h.nscount < 65536 && h.arcount < 65536
  }

  ghost predicate QuestionOk(q: Question) {
    NameOk(q.name) && q.qtype < 65536 && q.qclass < 65536
  }

  // The record's length field tells the length of its data, which is there, and enough for an
  // address if it is one.
  ghost predicate RROk(rr: RR) {
    && NameOk(rr.name) && rr.typ < 65536 && rr.class_ < 65536 && rr.ttl < U32
    && 1 <= rr.rdlength == |rr.rdata| < 65536
    && HasAddress(rr.typ, |rr.rdata|)
  }

  ghost predicate MessageOk(m: Message) {
    && HeaderOk(m.header) && QuestionOk(m.question) && |m.answers| < 65536
    && forall i :: 0 <= i < |m.answers| ==> RROk(m.answers[i])
  }

  // ---- Marshalling

  function EncodeHeader(h: Header): (r: seq<byte>)
    ensures |r| == HEADER_LEN
  {
    Be16(h.id) + Be16(h.bits) + Be16(h.qdcount) + Be16(h.ancount) + Be16(h.nscount) + Be16(h.arcount)
  }

  function EncodeQuestion(q: Question): (r: seq<byte>) {
    EncodeName(q.name) + (Be16(q.qtype) + Be16(q.qclass))
  }

  function RRFields(rr: RR): (r: seq<byte>)
    ensures |r| == 10
  {
    Be16(rr.typ) + Be16(rr.class_) + Be32(rr.ttl) + Be16(rr.rdlength)
  }

  function EncodeRR(rr: RR): (r: seq<byte>) {
    EncodeName(rr.name) + (RRFields(rr) + rr.rdata)
  }

  function EncodeRRs(rrs: seq<RR>): (r: seq<byte>) {
    if rrs == [] then [] else EncodeRR(rrs[0]) + EncodeRRs(rrs[1..])
  }

  // The counts are set on the way out.
  function Counted(m: Message): (r: Header) {
    m.header.(qdcount := 1, ancount := |m.answers| % 65536)
  }

  function Encode(m: Message): (r: seq<byte>) {
    EncodeHeader(Counted(m)) + (EncodeQuestion(m.question) + EncodeRRs(m.answers))
  }

  method MarshalTo(m: Message, w: seq<byte>) returns (w': seq<byte>, h: Header)
    ensures w' == w + Encode(m) && h == Counted(m)
  {
    hide EncodeHeader, EncodeQuestion, EncodeRRs;
    h := m.header.(qdcount := 1, ancount := |m.answers| % 65536);
    w' := w + EncodeHeader(h);
    w' := MarshalQuestion(m.question, w');
    w' := MarshalRRs(m.answers, w');
    Regroup(w, EncodeHeader(h), EncodeQuestion(m.question));
    Regroup(w, EncodeHeader(h) + EncodeQuestion(m.question), EncodeRRs(m.answers));
    Regroup(EncodeHeader(h), EncodeQuestion(m.question), EncodeRRs(m.answers));
  }

  method MarshalQuestion(q: Question, w: seq<byte>) returns (w': seq<byte>)
    ensures w' == w + EncodeQuestion(q)
  {
    hide EncodeName, Be16;
    var n;
    w', n := MarshalDomainTo(w, q.name);
    w' := w' + Be16(q.qtype);
    w' := w' + Be16(q.qclass);
  }

  method MarshalRRs(rrs: seq<RR>, w: seq<byte>) returns (w': seq<byte>)
    ensures w' == w + EncodeRRs(rrs)
  {
    hide EncodeRR;
    w' := w;
    for i := 0 to |rrs|
      invariant w' + EncodeRRs(rrs[i..]) == w + EncodeRRs(rrs)
    {
      assert rrs[i..][0] == rrs[i] && rrs[i..][1..] == rrs[i + 1..];
      Regroup(w', EncodeRR(rrs[i]), EncodeRRs(rrs[i + 1..]));
      w' := MarshalRR(rrs[i], w');
    }
    assert rrs[|rrs|..] == [];
  }

  method MarshalRR(rr: RR, w: seq<byte>) returns (w': seq<byte>)
    ensures w' == w + EncodeRR(rr)
  {
    hide EncodeName, Be16, Be32;
    var n;
    w', n := MarshalDomainTo(w, rr.name);
    w' := w' + Be16(rr.typ);
    w' := w' + Be16(rr.class_);
    w' := w' + Be32(rr.ttl);
    w' := w' + Be16(rr.rdlength);
    w' := w' + rr.rdata;
  }

  // ---- Unmarshalling

  // Panic: a slice expression leaves the buffer.
  // Endless: the pointers of a name are followed for ever.
  datatype Result<T> = Ok(value: T, next: nat) | Err | Panic | Endless

  function DecodeHeader(b: seq<byte>): (r: Header)
    requires |b| == HEADER_LEN
  {
    Header(FromBe16(b[..2]), FromBe16(b[2..4]), FromBe16(b[4..6]),
           FromBe16(b[6..8]), FromBe16(b[8..10]), FromBe16(b[10..]))
  }

  // The message is a slice of a buffer that has `room` behind it. Type and class are cut out of
  // the buffer, which may be behind the message.
  function DecodeQuestion(msg: seq<byte>, room: seq<byte>): (r: Result<Question>)
    requires |msg| >= HEADER_LEN
  {
    if |msg| - HEADER_LEN <= 5 then Err
    else match ReadName(msg, |msg|, HEADER_LEN, [])
      case BadName(_) => Err
      case OutOfHops => Endless
      case Name(name, i) =>
        var b := msg + room;
        if i + 4 > |b| then Panic
        else Ok(Question(name, FromBe16(b[i..i + 2]), FromBe16(b[i + 2..i + 4])), i + 4)
  }

  // Enough bytes for the address of a record of this type, counted from where its data begins.
  predicate HasAddress(typ: nat, n: nat) {
    (typ == TYPE_A ==> n >= 4) && (typ == TYPE_AAAA ==> n >= 16)
  }

  function Address(typ: nat, s: seq<byte>): (r: seq<byte>)
    requires HasAddress(typ, |s|)
  {
    if typ == TYPE_A then s[..4] else if typ == TYPE_AAAA then s[..16] else []
  }

  // A record cannot begin behind the message; the address of one may reach behind its data and
  // behind the message.
  function DecodeRR(msg: seq<byte>, room: seq<byte>, start: nat): (r: Result<RR>) {
    if start > |msg| then Panic
    else match ReadName(msg, |msg|, start, [])
      case BadName(_) => Err
      case OutOfHops => Endless
      case Name(name, i) =>
        if |msg| <= i + 10 then Err
        else
          var typ, len := FromBe16(msg[i..i + 2]), FromBe16(msg[i + 8..i + 10]);
          var data := msg[i + 10..] + room;
          if |msg| < i + 10 + len then Err
          else if !HasAddress(typ, |data|) then Panic
          else
            Ok(RR(name, typ, FromBe16(msg[i + 2..i + 4]), FromBe32(msg[i + 4..i + 8]), len,
                  msg[i + 10..i + 10 + len], Address(typ, data)), i + 10 + len)
  }

  function DecodeRRs(msg: seq<byte>, room: seq<byte>, start: nat, count: nat): (r: Result<seq<RR>>)
    decreases count
  {
    if count == 0 then Ok([], start)
    else match DecodeRR(msg, room, start)
      case Err => Err
      case Panic => Panic
      case Endless => Endless
      case Ok(rr, next) => Appended([rr], DecodeRRs(msg, room, next, count - 1))
  }

  function Appended(front: seq<RR>, r: Result<seq<RR>>): (s: Result<seq<RR>>) {
    match r
    case Ok(rrs, end) => Ok(front + rrs, end)
    case _ => r
  }

  function Decode(msg: seq<byte>, room: seq<byte>): (r: Result<Message>) {
    if |msg| < HEADER_LEN then Err
    else
      var h := DecodeHeader(msg[..HEADER_LEN]);
      match DecodeQuestion(msg, room)
      case Err => Err
      case Panic => Panic
      case Endless => Endless
      case Ok(q, i) =>
        match DecodeRRs(msg, room, i, h.ancount)
        case Err => Err
        case Panic => Panic
        case Endless => Endless
        case Ok(rrs, end) => Ok(Message(h.(qdcount := 1, ancount := |rrs| % 65536), q, rrs), end)
  }

  // ---- When the decoder fails to return, and when it panics

  // A question whose name is a pointer to itself.
  lemma LoopingQuestion(room: seq<byte>)
    ensures DecodeQuestion(Zeros(HEADER_LEN) + [192, 12, 0, 1, 0, 1], room) == Endless
  {
    var msg := Zeros(HEADER_LEN) + [192, 12, 0, 1, 0, 1];
    assert msg[12..14] == [192, 12];
    assert Offset(msg, 12) == 12;
    assert Target(msg, 12) == At(12);
    assert Follow(msg, At(12), 1) == Follow(msg, At(12), 0);
    EndlessIff(msg, HEADER_LEN, []);
  }

  // The name of the question ends less than four bytes before this place.
  predicate QuestionCut(msg: seq<byte>, end: nat) {
    && |msg| > HEADER_LEN + 5
    && var name := ReadName(msg, |msg|, HEADER_LEN, []); name.Name? && name.next + 4 > end
  }

  // The record at this place is of type A or AAAA, its fields and its data are in the message, and
  // the buffer, of capacity c, ends before an address of that type would.
  predicate AddressCut(msg: seq<byte>, c: nat, start: nat) {
    var name := ReadName(msg, |msg|, start, []);
    && name.Name? && name.next + 10 < |msg|
    && var data := name.next + 10;
       var typ, len := FromBe16(msg[name.next..name.next + 2]), FromBe16(msg[name.next + 8..data]);
       && data + len <= |msg|
       && ((typ == TYPE_A && c < data + 4) || (typ == TYPE_AAAA && c < data + 16))
  }

  // Where record k begins, if those before it are decoded.
  function RecordStart(msg: seq<byte>, room: seq<byte>, start: nat, k: nat): (r: Place)
    decreases k
  {
    if k == 0 then At(start)
    else match DecodeRR(msg, room, start)
      case Ok(_, next) => RecordStart(msg, room, next, k - 1)
      case _ => Ended
  }

  lemma RecordPanicsIff(msg: seq<byte>, room: seq<byte>, start: nat)
    ensures DecodeRR(msg, room, start) == Panic <==> start > |msg| || AddressCut(msg, |msg| + |room|, start)
  {
    hide FromBe16, FromBe32, ReadName;
    if start > |msg| {
    } else if ReadName(msg, |msg|, start, []).Name? {
      assert start <= ReadName(msg, |msg|, start, []).next;
    }
  }

  lemma RecordsStayInside(msg: seq<byte>, room: seq<byte>, start: nat)
    requires DecodeRR(msg, room, start).Ok?
    ensures start <= DecodeRR(msg, room, start).next <= |msg|
  {
    hide FromBe16, FromBe32;
  }

  // One of the records from here on is reached and cut.
  ghost predicate RecordCut(msg: seq<byte>, room: seq<byte>, start: nat, count: nat) {
    exists k :: 0 <= k < count && RecordCutAt(msg, room, start, k)
  }

  predicate RecordCutAt(msg: seq<byte>, room: seq<byte>, start: nat, k: nat) {
    var p := RecordStart(msg, room, start, k); p.At? && AddressCut(msg, |msg| + |room|, p.idx)
  }

  lemma {:induction false} RecordsPanicIff(msg: seq<byte>, room: seq<byte>, start: nat, count: nat)
    requires start <= |msg|
    ensures DecodeRRs(msg, room, start, count) == Panic <==> RecordCut(msg, room, start, count)
    decreases count
  {
    hide DecodeRR, AddressCut;
    if count > 0 {
      RecordPanicsIff(msg, room, start);
      assert RecordCutAt(msg, room, start, 0) <==> AddressCut(msg, |msg| + |room|, start);
      var r := DecodeRR(msg, room, start);
      if r.Ok? {
        RecordsStayInside(msg, room, start);
        RecordsPanicIff(msg, room, r.next, count - 1);
        LaterRecords(msg, room, start, count);
      } else {
        assert forall k :: 1 <= k < count ==> !RecordCutAt(msg, room, start, k);
      }
    }
  }

  lemma LaterRecords(msg: seq<byte>, room: seq<byte>, start: nat, count: nat)
    requires count > 0 && DecodeRR(msg, room, start).Ok?
    ensures RecordCut(msg, room, start, count) <==>
            RecordCutAt(msg, room, start, 0) || RecordCut(msg, room, DecodeRR(msg, room, start).next, count - 1)
  {
    hide DecodeRR, AddressCut;
    var next := DecodeRR(msg, room, start).next;
    if k :| 0 <= k < count - 1 && RecordCutAt(msg, room, next, k) {
      assert RecordCutAt(msg, room, start, k + 1);
    }
    if k :| 1 <= k < count && RecordCutAt(msg, room, start, k) {
      assert RecordCutAt(msg, room, next, k - 1);
    }
  }

  // The question is decoded, from the message alone, and one of the answers is reached and cut.
  ghost predicate AnswerCut(msg: seq<byte>, room: seq<byte>, count: nat) {
    && |msg| >= HEADER_LEN && DecodeQuestion(msg, room).Ok? && DecodeQuestion(msg, room).next <= |msg|
    && RecordCut(msg, room, DecodeQuestion(msg, room).next, count)
  }

  // The decoder panics exactly when
  // - the message ends inside the type and class of the question, and so does the buffer or there
  //   are answers to come, which would begin behind the message; or
  // - the buffer ends inside the address of an A or AAAA record reached by decoding those before.
  lemma PanicsIff(msg: seq<byte>, room: seq<byte>)
    ensures Decode(msg, room) == Panic <==>
      && |msg| >= HEADER_LEN
      && var count := DecodeHeader(msg[..HEADER_LEN]).ancount;
         || (QuestionCut(msg, |msg|) && (QuestionCut(msg, |msg| + |room|) || count > 0))
         || AnswerCut(msg, room, count)
  {
    hide FromBe16, ReadName, AddressCut, DecodeHeader, DecodeRR;
    if |msg| >= HEADER_LEN && DecodeQuestion(msg, room).Ok? {
      var i, count := DecodeQuestion(msg, room).next, DecodeHeader(msg[..HEADER_LEN]).ancount;
      if i <= |msg| {
        RecordsPanicIff(msg, room, i, count);
      } else if count > 0 {
        RecordPanicsIff(msg, room, i);
      }
    }
  }

  // A message received over UDP is at most 1232 bytes of a buffer of 1232, whose capacity is 2048.
  const UDP_MAX_LEN := 1232

  // Over UDP it panics exactly when the message ends inside the question and claims answers.
  lemma UdpPanicsIff(msg: seq<byte>, room: seq<byte>)
    requires |msg| <= UDP_MAX_LEN && |msg| + |room| == BufferPool.Cap(UDP_MAX_LEN)
    ensures Decode(msg, room) == Panic <==>
      |msg| >= HEADER_LEN && QuestionCut(msg, |msg|) && DecodeHeader(msg[..HEADER_LEN]).ancount > 0
  {
    UdpCap();
    PanicsIff(msg, room);
    NameEnds(msg);
    hide FromBe16, ReadName, DecodeHeader, RecordStart, DecodeQuestion, Decode;
  }

  lemma UdpCap()
    ensures BufferPool.Cap(UDP_MAX_LEN) == 2048
  {
    BufferPool.Sixteen();
    BufferPool.CapIsLeast(UDP_MAX_LEN, 11);
  }

  // No name is read beyond the message.
  lemma {:induction false} NextInside(msg: seq<byte>, hops: nat, idx: nat, sb: seq<byte>)
    requires idx <= |msg|
    ensures var r := ReadName(msg, hops, idx, sb); r.Name? ==> r.next <= |msg|
    decreases hops, |msg| - idx
  {
    hide Offset, WithLabel;
    if idx < |msg| && 0 < msg[idx] <= 63 && idx + 1 + msg[idx] <= |msg| {
      var next := idx + 1 + msg[idx];
      NextInside(msg, hops, next, WithLabel(sb, msg[idx + 1..next]));
    }
  }

  lemma NameEnds(msg: seq<byte>)
    ensures |msg| >= HEADER_LEN ==>
              var r := ReadName(msg, |msg|, HEADER_LEN, []); r.Name? ==> r.next <= |msg|
  {
    if |msg| >= HEADER_LEN {
      NextInside(msg, |msg|, HEADER_LEN, []);
    }
  }

  // A message with one answer that stops behind the name of its question: whatever the capacity.
  lemma CutQuestion(room: seq<byte>)
    ensures Decode(Zeros(7) + [1] + Zeros(4) + [3, 97, 97, 97, 0, 1], room) == Panic
  {
    var head := Zeros(7) + [1] + Zeros(4);
    var msg := head + [3, 97, 97, 97, 0, 1];
    assert msg[12] == 3 && msg[13..16] == [97, 97, 97] && msg[16] == 0;
    ReadLabel(msg, |msg|, 12, [], [97, 97, 97]);
    ReadEnd(msg, |msg|, 16, [97, 97, 97]);
    assert msg[..HEADER_LEN] == head && head[6..8] == [0, 1];
    assert DecodeHeader(head).ancount == 1;
    hide ReadName, DecodeHeader, Decode;
    PanicsIff(msg, room);
  }

  // A question and an A record with one byte of data, both of the same name of one letter.
  const ONE_ANSWER: seq<byte> := [0, 0, 0, 0, 0, 0, 0, 1, 0, 0, 0, 0]
  const NAME_AND_TYPE: seq<byte> := [1, 97, 0, 0, 1, 0, 1]
  const SHORT_RECORD: seq<byte> := ONE_ANSWER + NAME_AND_TYPE + (NAME_AND_TYPE + [0, 0, 0, 0, 0, 1, 9])

  lemma ShortNames(msg: seq<byte>)
    requires msg == SHORT_RECORD
    ensures ReadName(msg, |msg|, 12, []) == Name([97], 15) && ReadName(msg, |msg|, 19, []) == Name([97], 22)
  {
    assert msg[12] == 1 && msg[13..14] == [97] && msg[14] == 0;
    assert msg[19] == 1 && msg[20..21] == [97] && msg[21] == 0;
    ReadLabel(msg, |msg|, 12, [], [97]);
    ReadEnd(msg, |msg|, 14, [97]);
    ReadLabel(msg, |msg|, 19, [], [97]);
    ReadEnd(msg, |msg|, 21, [97]);
  }

  // The decoder takes the address from behind the message, and panics exactly when there are less
  // than the three bytes missing.
  lemma CutRecord(room: seq<byte>)
    ensures Decode(SHORT_RECORD, room) == Panic <==> |room| < 3
  {
    var msg := SHORT_RECORD;
    ShortNames(msg);
    assert msg[..HEADER_LEN] == ONE_ANSWER && ONE_ANSWER[6..8] == [0, 1];
    assert DecodeHeader(ONE_ANSWER).ancount == 1;
    assert msg[22..24] == [0, 1] && msg[30..32] == [0, 1] && |msg| == 33;
    assert FromBe16([0, 1]) == 1;
    hide ReadName, DecodeHeader, Decode, FromBe16;
    assert DecodeQuestion(msg, room).Ok? && DecodeQuestion(msg, room).next == 19;
    assert RecordCutAt(msg, room, 19, 0) <==> AddressCut(msg, |msg| + |room|, 19);
    PanicsIff(msg, room);
  }

  // ---- What the decoders give, byte by byte

  // The address is the first bytes of the data, four for type A and sixteen for type AAAA, and
  // nothing for other types.
  ghost predicate IpIs(ip: seq<byte>, typ: nat, data: seq<byte>) {
    && |ip| == (if typ == 1 then 4 else if typ == 28 then 16 else 0)
    && |ip| <= |data| && forall i :: 0 <= i < |ip| ==> ip[i] == data[i]
  }

  lemma AddressIs(typ: nat, s: seq<byte>)
    requires HasAddress(typ, |s|)
    ensures IpIs(Address(typ, s), typ, s)
  {
  }

  // The record's fields and data are those behind its name, and its address is the bytes of the
  // buffer where its data begins.
  ghost predicate RecordIs(msg: seq<byte>, room: seq<byte>, start: nat, rr: RR, next: nat) {
    var name := ReadName(msg, |msg|, start, []);
    && start <= |msg| && name.Name? && rr.name == name.sb
    && var i := name.next;
       && i + 10 < |msg| && i + 10 + rr.rdlength == next <= |msg|
       && rr.typ == Two(msg[i], msg[i + 1]) && rr.class_ == Two(msg[i + 2], msg[i + 3])
       && rr.ttl == Four(msg[i + 7], msg[i + 6], msg[i + 5], msg[i + 4])
       && rr.rdlength == Two(msg[i + 8], msg[i + 9]) && rr.rdata == msg[i + 10..next]
       && IpIs(rr.ip, rr.typ, msg[i + 10..] + room)
  }

  lemma RecordMeans(msg: seq<byte>, room: seq<byte>, start: nat)
    ensures DecodeRR(msg, room, start).Ok? ==>
      RecordIs(msg, room, start, DecodeRR(msg, room, start).value, DecodeRR(msg, room, start).next)
  {
    hide ReadName;
    if DecodeRR(msg, room, start).Ok? {
      var i := ReadName(msg, |msg|, start, []).next;
      assert msg[i + 4..i + 8][..2] == msg[i + 4..i + 6] && msg[i + 4..i + 8][2..] == msg[i + 6..i + 8];
      AddressIs(FromBe16(msg[i..i + 2]), msg[i + 10..] + room);
    }
  }

  // The six fields of the header in their order, and type and class behind the question's name.
  lemma FrontMeans(msg: seq<byte>, room: seq<byte>)
    requires |msg| >= HEADER_LEN
    ensures DecodeHeader(msg[..HEADER_LEN]) ==
            Header(Two(msg[0], msg[1]), Two(msg[2], msg[3]), Two(msg[4], msg[5]),
                   Two(msg[6], msg[7]), Two(msg[8], msg[9]), Two(msg[10], msg[11]))
    ensures DecodeQuestion(msg, room).Ok? ==>
      var Ok(q, next) := DecodeQuestion(msg, room);
      var name := ReadName(msg, |msg|, 12, []);
      && name.Name? && q.name == name.sb && next == name.next + 4 <= |msg + room|
      && var b, i := msg + room, name.next; q.qtype == Two(b[i], b[i + 1]) && q.qclass == Two(b[i + 2], b[i + 3])
  {
    hide ReadName;
  }

  // The methods of the source, where they return at all.
  method UnmarshalQuestion(b: seq<byte>, room: seq<byte>) returns (r: Result<Question>)
    requires |b| >= HEADER_LEN && DecodeQuestion(b, room) != Endless
    ensures r == DecodeQuestion(b, room)
  {
    hide FromBe16, ReadName;
    if |b| - HEADER_LEN <= 5 {
      return Err;
    }
    var name := UnmarshalDomainTo(b, |b|, HEADER_LEN, []);
    if name.BadName? {
      return Err;
    }
    var i, buf := name.next, b + room;
    if i + 4 > |buf| {
      return Panic;
    }
    r := Ok(Question(name.sb, FromBe16(buf[i..i + 2]), FromBe16(buf[i + 2..i + 4])), i + 4);
  }

  method UnmarshalRR(b: seq<byte>, room: seq<byte>, start: nat) returns (r: Result<RR>)
    requires DecodeRR(b, room, start) != Endless
    ensures r == DecodeRR(b, room, start)
    ensures r.Ok? ==> RecordIs(b, room, start, r.value, r.next)
  {
    hide RecordIs;
    RecordMeans(b, room, start);
    hide FromBe16, FromBe32, ReadName;
    if start > |b| {
      return Panic;
    }
    var name := UnmarshalDomainTo(b, |b|, start, []);
    if name.BadName? {
      return Err;
    }
    var i := name.next;
    if |b| <= i + 10 {
      return Err;
    }
    var typ, class_ := FromBe16(b[i..i + 2]), FromBe16(b[i + 2..i + 4]);
    var ttl, len := FromBe32(b[i + 4..i + 8]), FromBe16(b[i + 8..i + 10]);
    if |b| < i + 10 + len {
      return Err;
    }
    var rdata := b[i + 10..i + 10 + len];
    var panicked, ip := UnmarshalIp(typ, b[i + 10..] + room);
    if panicked {
      return Panic;
    }
    r := Ok(RR(name.sb, typ, class_, ttl, len, rdata, ip), i + 10 + len);
  }

  method UnmarshalIp(typ: nat, data: seq<byte>) returns (panicked: bool, ip: seq<byte>)
    ensures panicked <==> !HasAddress(typ, |data|)
    ensures !panicked ==> ip == Address(typ, data) && IpIs(ip, typ, data)
  {
    panicked, ip := false, [];
    if typ == TYPE_A {
      if |data| < 4 {
        return true, [];
      }
      ip := data[..4];
    } else if typ == TYPE_AAAA {
      if |data| < 16 {
        return true, [];
      }
      ip := data[..16];
    }
  }

  // The loop over the answers.
  method UnmarshalAnswers(b: seq<byte>, room: seq<byte>, start: nat, count: nat) returns (r: Result<seq<RR>>)
    requires DecodeRRs(b, room, start, count) != Endless
    ensures r == DecodeRRs(b, room, start, count)
  {
    var rrIdx, answers := start, [];
    AppendedNone(DecodeRRs(b, room, start, count));
    hide DecodeRR;
    for k := 0 to count
      invariant Appended(answers, DecodeRRs(b, room, rrIdx, count - k)) == DecodeRRs(b, room, start, count)
    {
      var rr := UnmarshalRR(b, room, rrIdx);
      if rr.Err? {
        return Err;
      }
      if rr.Panic? {
        return Panic;
      }
      AppendedOne(answers, rr.value, DecodeRRs(b, room, rr.next, count - k - 1));
      answers := answers + [rr.value];
      rrIdx := rr.next;
    }
    assert answers + [] == answers;
    r := Ok(answers, rrIdx);
  }

  method UnmarshalMessage(b: seq<byte>, room: seq<byte>) returns (r: Result<Message>)
    requires Decode(b, room) != Endless
    ensures r == Decode(b, room)
  {
    if |b| < HEADER_LEN {
      return Err;
    }
    hide DecodeQuestion, DecodeRRs, DecodeHeader;
    var h := DecodeHeader(b[..HEADER_LEN]);
    var q := UnmarshalQuestion(b, room);
    if q.Err? || q.Panic? {
      return if q.Err? then Err else Panic;
    }
    var answers := UnmarshalAnswers(b, room, q.next, h.ancount);
    if answers.Err? || answers.Panic? {
      return if answers.Err? then Err else Panic;
    }
    r := Ok(Message(h.(qdcount := 1, ancount := |answers.value| % 65536), q.value, answers.value), answers.next);
  }

  lemma AppendedNone(r: Result<seq<RR>>)
    ensures Appended([], r) == r
  {
    if r.Ok? {
      assert [] + r.value == r.value;
    }
  }

  lemma AppendedOne(front: seq<RR>, rr: RR, r: Result<seq<RR>>)
    ensures Appended(front, Appended([rr], r)) == Appended(front + [rr], r)
  {
    if r.Ok? {
      assert front + ([rr] + r.value) == front + [rr] + r.value;
    }
  }

  // ---- Round trip

  lemma HeaderRoundTrip(h: Header)
    requires HeaderOk(h)
    ensures DecodeHeader(EncodeHeader(h)) == h
  {
    hide Be16, FromBe16;
    var b := EncodeHeader(h);
    assert b[..2] == Be16(h.id) && b[2..4] == Be16(h.bits) && b[4..6] == Be16(h.qdcount);
    assert b[6..8] == Be16(h.ancount) && b[8..10] == Be16(h.nscount) && b[10..] == Be16(h.arcount);
    Be16RoundTrip(h.id);
    Be16RoundTrip(h.bits);
    Be16RoundTrip(h.qdcount);
    Be16RoundTrip(h.ancount);
    Be16RoundTrip(h.nscount);
    Be16RoundTrip(h.arcount);
  }

  lemma NameLength(d: seq<byte>)
    requires NameOk(d)
    ensures |EncodeName(d)| >= 3
  {
    assert 1 <= |Split(d)[0]|;
  }

  lemma QuestionRoundTrip(head: seq<byte>, q: Question, after: seq<byte>, room: seq<byte>)
    requires |head| == HEADER_LEN && QuestionOk(q)
    ensures DecodeQuestion(head + (EncodeQuestion(q) + after), room) == Ok(q, HEADER_LEN + |EncodeQuestion(q)|)
  {
    hide Be16, FromBe16, EncodeName, ReadName, NameOk;
    var name, fields := EncodeName(q.name), Be16(q.qtype) + Be16(q.qclass);
    var msg, i := head + (EncodeQuestion(q) + after), HEADER_LEN + |EncodeName(q.name)|;
    Regroup(name, fields, after);
    NameIsRead(head, q.name, fields + after, |msg|);
    NameLength(q.name);
    assert msg == head + (name + (fields + after));
    var b := msg + room;
    assert msg[i..i + 2] == Be16(q.qtype) && msg[i + 2..i + 4] == Be16(q.qclass);
    assert b[i..i + 2] == msg[i..i + 2] && b[i + 2..i + 4] == msg[i + 2..i + 4];
    Be16RoundTrip(q.qtype);
    Be16RoundTrip(q.qclass);
  }

  lemma FieldPieces(rr: RR)
    ensures var f := RRFields(rr);
      && f[..2] == Be16(rr.typ) && f[2..4] == Be16(rr.class_) && f[4..8] == Be32(rr.ttl) && f[8..] == Be16(rr.rdlength)
  {
    hide Be16, Be32;
  }

  // The fields of a record behind its name.
  lemma FieldsRoundTrip(front: seq<byte>, rr: RR, after: seq<byte>)
    requires RROk(rr)
    ensures var msg, i := front + (RRFields(rr) + rr.rdata + after), |front|;
      && |msg| >= i + 10 + |rr.rdata|
      && FromBe16(msg[i..i + 2]) == rr.typ && FromBe16(msg[i + 2..i + 4]) == rr.class_
      && FromBe32(msg[i + 4..i + 8]) == rr.ttl && FromBe16(msg[i + 8..i + 10]) == rr.rdlength
      && msg[i + 10..i + 10 + |rr.rdata|] == rr.rdata && msg[i + 10..] == rr.rdata + after
  {
    hide Be16, FromBe16, Be32, FromBe32, NameOk, RRFields;
    var msg, i, f := front + (RRFields(rr) + rr.rdata + after), |front|, RRFields(rr);
    FieldPieces(rr);
    assert msg[i..i + 2] == f[..2] && msg[i + 2..i + 4] == f[2..4];
    assert msg[i + 4..i + 8] == f[4..8] && msg[i + 8..i + 10] == f[8..];
    assert msg[i + 10..] == rr.rdata + after && msg[i + 10..i + 10 + |rr.rdata|] == rr.rdata;
    Be16RoundTrip(rr.typ);
    Be16RoundTrip(rr.class_);
    Be32RoundTrip(rr.ttl);
    Be16RoundTrip(rr.rdlength);
  }

  // A record with the address its data gives.
  function Addressed(rr: RR): (r: RR)
    requires HasAddress(rr.typ, |rr.rdata|)
  {
    rr.(ip := Address(rr.typ, rr.rdata))
  }

  // A record is read back as written, with the address its data holds, between anything.
  lemma RRRoundTrip(before: seq<byte>, rr: RR, after: seq<byte>, room: seq<byte>) returns (ip: seq<byte>)
    requires RROk(rr)
    ensures DecodeRR(before + (EncodeRR(rr) + after), room, |before|)
            == Ok(rr.(ip := ip), |before| + |EncodeRR(rr)|)
    ensures IpIs(ip, rr.typ, rr.rdata)
  {
    hide DecodeRR, EncodeRR, Address, IpIs, NameOk;
    RRIsDecoded(before, rr, after, room);
    AddressIs(rr.typ, rr.rdata);
    ip := Address(rr.typ, rr.rdata);
  }

  lemma RRIsDecoded(before: seq<byte>, rr: RR, after: seq<byte>, room: seq<byte>)
    requires RROk(rr)
    ensures DecodeRR(before + (EncodeRR(rr) + after), room, |before|) == Ok(Addressed(rr), |before| + |EncodeRR(rr)|)
  {
    hide FromBe16, FromBe32, EncodeName, ReadName, NameOk, RRFields;
    var name, fields := EncodeName(rr.name), RRFields(rr) + rr.rdata;
    Regroup(name, fields, after);
    Regroup(before, name, fields + after);
    NameIsRead(before, rr.name, fields + after, |before + (EncodeRR(rr) + after)|);
    FieldsRoundTrip(before + name, rr, after);
    Regroup(rr.rdata, after, room);
    AddressInside(rr.typ, rr.rdata, after + room);
  }

  lemma AddressInside(typ: nat, rdata: seq<byte>, after: seq<byte>)
    requires HasAddress(typ, |rdata|)
    ensures HasAddress(typ, |rdata + after|) && Address(typ, rdata + after) == Address(typ, rdata)
  {
    assert typ == TYPE_A ==> (rdata + after)[..4] == rdata[..4];
    assert typ == TYPE_AAAA ==> (rdata + after)[..16] == rdata[..16];
  }

  ghost predicate RRsOk(rrs: seq<RR>) {
    forall i :: 0 <= i < |rrs| ==> RROk(rrs[i])
  }

  function AllAddressed(rrs: seq<RR>): (r: seq<RR>)
    requires forall i :: 0 <= i < |rrs| ==> HasAddress(rrs[i].typ, |rrs[i].rdata|)
  {
    seq(|rrs|, i requires 0 <= i < |rrs| => Addressed(rrs[i]))
  }

  lemma {:induction false} RRsRoundTrip(before: seq<byte>, rrs: seq<RR>, room: seq<byte>)
    requires RRsOk(rrs)
    ensures DecodeRRs(before + EncodeRRs(rrs), room, |before|, |rrs|)
            == Ok(AllAddressed(rrs), |before| + |EncodeRRs(rrs)|)
    decreases |rrs|
  {
    hide DecodeRR, EncodeRR, RROk;
    if rrs != [] {
      var more := EncodeRRs(rrs[1..]);
      RRIsDecoded(before, rrs[0], more, room);
      Regroup(before, EncodeRR(rrs[0]), more);
      RRsRoundTrip(before + EncodeRR(rrs[0]), rrs[1..], room);
      FirstAddressed(rrs);
    } else {
      assert EncodeRRs(rrs) == [] && AllAddressed(rrs) == [];
      assert before + [] == before;
    }
  }

  lemma FirstAddressed(rrs: seq<RR>)
    requires RRsOk(rrs) && rrs != []
    ensures AllAddressed(rrs) == [Addressed(rrs[0])] + AllAddressed(rrs[1..])
  {
  }

  // Unmarshalling what was marshalled gives the header with its counts set, the question and the
  // answers, each with the address its data holds.
  lemma MessageRoundTrip(m: Message, room: seq<byte>) returns (answers: seq<RR>)
    requires MessageOk(m)
    ensures Decode(Encode(m), room) == Ok(Message(Counted(m), m.question, answers), |Encode(m)|)
    ensures |answers| == |m.answers|
    ensures forall i :: 0 <= i < |answers| ==>
      var a, rr := answers[i], m.answers[i]; a == rr.(ip := a.ip) && IpIs(a.ip, rr.typ, rr.rdata)
  {
    hide Decode, Encode, IpIs, NameOk, Address;
    MessageIsDecoded(m, room);
    answers := AllAddressed(m.answers);
    forall i | 0 <= i < |answers| ensures IpIs(answers[i].ip, m.answers[i].typ, m.answers[i].rdata) {
      AddressIs(m.answers[i].typ, m.answers[i].rdata);
    }
  }

  lemma MessageIsDecoded(m: Message, room: seq<byte>)
    requires MessageOk(m)
    ensures Decode(Encode(m), room)
            == Ok(Message(Counted(m), m.question, AllAddressed(m.answers)), |Encode(m)|)
  {
    hide EncodeHeader, EncodeQuestion, DecodeQuestion, DecodeHeader, EncodeRRs, DecodeRRs, NameOk;
    var h, q, rrs := EncodeHeader(Counted(m)), EncodeQuestion(m.question), EncodeRRs(m.answers);
    assert |h| == HEADER_LEN by { HeaderLength(Counted(m)); }
    assert Encode(m)[..HEADER_LEN] == h;
    HeaderRoundTrip(Counted(m));
    QuestionRoundTrip(h, m.question, rrs, room);
    Regroup(h, q, rrs);
    RRsRoundTrip(h + q, m.answers, room);
  }

  lemma HeaderLength(h: Header)
    ensures |EncodeHeader(h)| == HEADER_LEN
  {
  }
}

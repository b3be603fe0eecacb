// Whole messages (section 4.1 of RFC 1035): header, questions and three
// sections of records.

module Message {
  import opened Types
  import opened Wire
  import opened Header
  import opened Names
  import opened NameRead
  import opened Records

  datatype Message = Message(
    header: DnsHeader,
    questions: seq<DnsQuestion>,
    answers: seq<ResourceRecord>,
    authorities: seq<ResourceRecord>,
    additionals: seq<ResourceRecord>)

  // ---------- the wire form ----------

  function QuestionsBytes(qs: seq<DnsQuestion>): bytes {
    if qs == [] then [] else QuestionBytes(qs[0]) + QuestionsBytes(qs[1..])
  }

  function RecordsBytes(rs: seq<ResourceRecord>): bytes {
    if rs == [] then [] else RecordBytes(rs[0]) + RecordsBytes(rs[1..])
  }

  function SectionsBytes(m: Message): bytes {
    QuestionsBytes(m.questions)
    + (RecordsBytes(m.answers) + (RecordsBytes(m.authorities) + RecordsBytes(m.additionals)))
  }

  function MessageBytes(m: Message): bytes {
    HeaderBytes(m.header) + SectionsBytes(m)
  }

  // ---------- what a read gives ----------

  function QuestionsFrom(msg: bytes, pos: nat, count: nat, acc: seq<DnsQuestion>): (r: Result<(seq<DnsQuestion>, nat)>)
    decreases count
  {
    if count == 0 then Ok((acc, pos))
    else
      var (q, next) :- QuestionAt(msg, pos);
      QuestionsFrom(msg, next, count - 1, acc + [q])
  }

  function RecordsFrom(msg: bytes, pos: nat, count: nat, acc: seq<ResourceRecord>)
    : (r: Result<(seq<ResourceRecord>, nat)>)
    decreases count
  {
    if count == 0 then Ok((acc, pos))
    else
      var (rr, next) :- RecordAt(msg, pos);
      RecordsFrom(msg, next, count - 1, acc + [rr])
  }

  function SectionsAt(msg: bytes, pos: nat, h: DnsHeader): (r: Result<(Message, nat)>) {
    var (questions, p1) :- QuestionsFrom(msg, pos, h.qdcount, []);
    var (answers, p2) :- RecordsFrom(msg, p1, h.ancount, []);
    var (authorities, p3) :- RecordsFrom(msg, p2, h.nscount, []);
    var (additionals, p4) :- RecordsFrom(msg, p3, h.arcount, []);
    Ok((Message(h, questions, answers, authorities, additionals), p4))
  }

  // Bytes after the last record are ignored.
  function Decode(msg: bytes): (r: Result<Message>) {
    if |msg| < WIRE_SIZE then Err(BufferUnderflow(WIRE_SIZE, |msg|))
    else
      var (h, p) :- HeaderAt(msg, 0);
      var (m, _) :- SectionsAt(msg, p, h);
      Ok(m)
  }

  // ---------- which messages the round trip covers ----------

  predicate CountsMatch(m: Message) {
    && m.header.qdcount as int == |m.questions|
    && m.header.ancount as int == |m.answers|
    && m.header.nscount as int == |m.authorities|
    && m.header.arcount as int == |m.additionals|
  }

  predicate AllDecoded(rs: seq<ResourceRecord>) {
    forall i | 0 <= i < |rs| :: DecodedRecord(rs[i])
  }

  predicate AllWf(rs: seq<ResourceRecord>) {
    forall i | 0 <= i < |rs| :: WfRecord(rs[i])
  }

  predicate AllWfQuestions(qs: seq<DnsQuestion>) {
    forall i | 0 <= i < |qs| :: WfQuestion(qs[i])
  }

  // Every OPT record keeps its whole TTL and every record's data fits its length field.
  predicate Reencodable(rs: seq<ResourceRecord>) {
    forall i | 0 <= i < |rs| :: OptBitsClear(rs[i]) && DataFits(rs[i])
  }

  predicate DecodedMessage(m: Message) {
    && m.header.flags.Canonical() && CountsMatch(m)
    && AllWfQuestions(m.questions)
    && AllDecoded(m.answers) && AllDecoded(m.authorities) && AllDecoded(m.additionals)
  }

  predicate WfMessage(m: Message) {
    && m.header.flags.Canonical() && CountsMatch(m)
    && AllWfQuestions(m.questions)
    && AllWf(m.answers) && AllWf(m.authorities) && AllWf(m.additionals)
  }

  // ---------- lists of questions and records ----------

  lemma {:induction false} QuestionsDecoded(msg: bytes, pos: nat, count: nat, acc: seq<DnsQuestion>)
    requires AllWfQuestions(acc) && QuestionsFrom(msg, pos, count, acc).Ok?
    ensures AllWfQuestions(QuestionsFrom(msg, pos, count, acc).value.0)
    ensures |QuestionsFrom(msg, pos, count, acc).value.0| == |acc| + count
    ensures acc <= QuestionsFrom(msg, pos, count, acc).value.0
    decreases count
  {
    hide QuestionAt, WfQuestion;
    if count > 0 {
      ReadQuestionIsWf(msg, pos);
      var (q, next) := QuestionAt(msg, pos).value;
      QuestionsDecoded(msg, next, count - 1, acc + [q]);
    }
  }

  lemma {:induction false} RecordsDecoded(msg: bytes, pos: nat, count: nat, acc: seq<ResourceRecord>)
    requires AllDecoded(acc) && RecordsFrom(msg, pos, count, acc).Ok?
    ensures AllDecoded(RecordsFrom(msg, pos, count, acc).value.0)
    ensures |RecordsFrom(msg, pos, count, acc).value.0| == |acc| + count
    ensures acc <= RecordsFrom(msg, pos, count, acc).value.0
    decreases count
  {
    hide RecordAt, DecodedRecord;
    if count > 0 {
      ReadRecordIsDecoded(msg, pos);
      var (rr, next) := RecordAt(msg, pos).value;
      RecordsDecoded(msg, next, count - 1, acc + [rr]);
    }
  }

  lemma {:induction false} QuestionsReadBack(msg: bytes, pos: nat, qs: seq<DnsQuestion>, acc: seq<DnsQuestion>)
    requires At(msg, pos, QuestionsBytes(qs))
    ensures QuestionsFrom(msg, pos, |qs|, acc).Ok?
    ensures QuestionsFrom(msg, pos, |qs|, acc).value.1 == pos + |QuestionsBytes(qs)|
    ensures AllWfQuestions(qs) ==> QuestionsFrom(msg, pos, |qs|, acc).value.0 == acc + qs
    decreases |qs|
  {
    hide QuestionAt, WfQuestion, QuestionBytes;
    if qs == [] {
      assert acc + qs == acc;
    } else {
      AtSplit(msg, pos, QuestionBytes(qs[0]), QuestionsBytes(qs[1..]));
      QuestionReadBack(msg, pos, qs[0]);
      var (q, next) := QuestionAt(msg, pos).value;
      QuestionsReadBack(msg, next, qs[1..], acc + [q]);
      assert acc + [qs[0]] + qs[1..] == acc + qs;
    }
  }

  lemma {:induction false} RecordsReadBack(msg: bytes, pos: nat, rs: seq<ResourceRecord>, acc: seq<ResourceRecord>)
    requires AllWf(rs) && At(msg, pos, RecordsBytes(rs))
    ensures RecordsFrom(msg, pos, |rs|, acc) == Ok((acc + rs, pos + |RecordsBytes(rs)|))
    decreases |rs|
  {
    hide RecordAt, WfRecord, RecordBytes;
    if rs == [] {
      assert acc + rs == acc;
    } else {
      AtSplit(msg, pos, RecordBytes(rs[0]), RecordsBytes(rs[1..]));
      WfRecordReadsBack(msg, pos, rs[0]);
      RecordsReadBack(msg, pos + |RecordBytes(rs[0])|, rs[1..], acc + [rs[0]]);
      assert acc + [rs[0]] + rs[1..] == acc + rs;
    }
  }

  // Reading the same records back from their own bytes means each was well formed.
  lemma {:induction false} ReadBackRecordsAreWf(msg: bytes, pos: nat, rs: seq<ResourceRecord>, acc: seq<ResourceRecord>)
    requires At(msg, pos, RecordsBytes(rs)) && AllDecoded(acc)
    requires RecordsFrom(msg, pos, |rs|, acc).Ok? && RecordsFrom(msg, pos, |rs|, acc).value.0 == acc + rs
    ensures AllWf(rs)
    decreases |rs|
  {
    hide RecordAt, WfRecord, RecordBytes, DecodedRecord;
    if rs != [] {
      AtSplit(msg, pos, RecordBytes(rs[0]), RecordsBytes(rs[1..]));
      var (rr, next) := RecordAt(msg, pos).value;
      ReadRecordIsDecoded(msg, pos);
      RecordsDecoded(msg, next, |rs| - 1, acc + [rr]);
      assert (acc + rs)[|acc|] == rr;
      ReadBackRecordIsWf(msg, pos, rs[0]);
      WfRecordReadsBack(msg, pos, rs[0]);
      assert acc + [rs[0]] + rs[1..] == acc + rs;
      ReadBackRecordsAreWf(msg, next, rs[1..], acc + [rs[0]]);
    }
  }

  // ---------- whole messages ----------

  // Every message the decoder accepts has matching counts, canonical codes and
  // data of its record's type, even when names run past RDLENGTH.
  lemma DecodedIsWellFormed(msg: bytes)
    requires Decode(msg).Ok?
    ensures DecodedMessage(Decode(msg).value)
  {
    hide HeaderAt, QuestionsFrom, RecordsFrom, AllDecoded, AllWfQuestions;
    var (h, p) := HeaderAt(msg, 0).value;
    ReadHeaderIsCanonical(msg, 0);
    SectionsDecoded(msg, p, h);
  }

  lemma SectionsDecoded(msg: bytes, pos: nat, h: DnsHeader)
    requires SectionsAt(msg, pos, h).Ok?
    ensures var m := SectionsAt(msg, pos, h).value.0;
            && m.header == h && CountsMatch(m) && AllWfQuestions(m.questions)
            && AllDecoded(m.answers) && AllDecoded(m.authorities) && AllDecoded(m.additionals)
  {
    hide QuestionsFrom, RecordsFrom;
    QuestionsDecoded(msg, pos, h.qdcount, []);
    var p1 := QuestionsFrom(msg, pos, h.qdcount, []).value.1;
    RecordsDecoded(msg, p1, h.ancount, []);
    var p2 := RecordsFrom(msg, p1, h.ancount, []).value.1;
    RecordsDecoded(msg, p2, h.nscount, []);
    var p3 := RecordsFrom(msg, p2, h.nscount, []).value.1;
    RecordsDecoded(msg, p3, h.arcount, []);
  }

  lemma WfSectionsReadBack(msg: bytes, pos: nat, m: Message)
    requires WfMessage(m) && At(msg, pos, SectionsBytes(m))
    ensures SectionsAt(msg, pos, m.header) == Ok((m, pos + |SectionsBytes(m)|))
  {
    hide QuestionsFrom, RecordsFrom, QuestionsBytes, RecordsBytes, AllWf, AllWfQuestions;
    var c := RecordsBytes(m.authorities) + RecordsBytes(m.additionals);
    var b := RecordsBytes(m.answers) + c;
    AtSplit(msg, pos, QuestionsBytes(m.questions), b);
    QuestionsReadBack(msg, pos, m.questions, []);
    var p1 := pos + |QuestionsBytes(m.questions)|;
    AtSplit(msg, p1, RecordsBytes(m.answers), c);
    RecordsReadBack(msg, p1, m.answers, []);
    var p2 := p1 + |RecordsBytes(m.answers)|;
    AtSplit(msg, p2, RecordsBytes(m.authorities), RecordsBytes(m.additionals));
    RecordsReadBack(msg, p2, m.authorities, []);
    var p3 := p2 + |RecordsBytes(m.authorities)|;
    RecordsReadBack(msg, p3, m.additionals, []);
    assert [] + m.questions == m.questions && [] + m.answers == m.answers;
    assert [] + m.authorities == m.authorities && [] + m.additionals == m.additionals;
  }

  lemma ReadBackSectionsAreWf(msg: bytes, pos: nat, m: Message)
    requires At(msg, pos, SectionsBytes(m)) && CountsMatch(m)
    requires SectionsAt(msg, pos, m.header).Ok? && SectionsAt(msg, pos, m.header).value.0 == m
    ensures AllWf(m.answers) && AllWf(m.authorities) && AllWf(m.additionals)
  {
    hide QuestionsFrom, RecordsFrom, QuestionsBytes, RecordsBytes, AllWf, AllWfQuestions;
    assert [] + m.answers == m.answers;
    assert [] + m.authorities == m.authorities && [] + m.additionals == m.additionals;
    var c := RecordsBytes(m.authorities) + RecordsBytes(m.additionals);
    var b := RecordsBytes(m.answers) + c;
    AtSplit(msg, pos, QuestionsBytes(m.questions), b);
    QuestionsReadBack(msg, pos, m.questions, []);
    var p1 := pos + |QuestionsBytes(m.questions)|;
    AtSplit(msg, p1, RecordsBytes(m.answers), c);
    ReadBackRecordsAreWf(msg, p1, m.answers, []);
    RecordsReadBack(msg, p1, m.answers, []);
    var p2 := p1 + |RecordsBytes(m.answers)|;
    AtSplit(msg, p2, RecordsBytes(m.authorities), RecordsBytes(m.additionals));
    ReadBackRecordsAreWf(msg, p2, m.authorities, []);
    RecordsReadBack(msg, p2, m.authorities, []);
    ReadBackRecordsAreWf(msg, p2 + |RecordsBytes(m.authorities)|, m.additionals, []);
  }

  // What decoding the encoding of any message starts with.
  lemma EncodedHeader(m: Message)
    ensures var b := MessageBytes(m);
            && |b| >= WIRE_SIZE && At(b, WIRE_SIZE, SectionsBytes(m))
            && HeaderAt(b, 0) == Ok((m.header.(flags := UnpackFlags(PackFlags(m.header.flags))), WIRE_SIZE))
            && (HeaderAt(b, 0) == Ok((m.header, WIRE_SIZE)) <==> m.header.flags.Canonical())
  {
    hide HeaderBytes, SectionsBytes, HeaderAt, UnpackFlags, PackFlags;
    var b := MessageBytes(m);
    assert At(b, 0, b);
    AtSplit(b, 0, HeaderBytes(m.header), SectionsBytes(m));
    HeaderReadBack(b, 0, m.header);
  }

  lemma WfMessageReadsBack(m: Message)
    requires WfMessage(m)
    ensures Decode(MessageBytes(m)) == Ok(m)
  {
    hide MessageBytes, SectionsAt, SectionsBytes, HeaderAt, AllWf, AllWfQuestions;
    EncodedHeader(m);
    WfSectionsReadBack(MessageBytes(m), WIRE_SIZE, m);
  }

  lemma ReadBackMessageIsWf(m: Message)
    requires Decode(MessageBytes(m)) == Ok(m)
    ensures WfMessage(m)
  {
    hide MessageBytes, SectionsBytes, HeaderAt, AllWf, AllWfQuestions, AllDecoded, QuestionsFrom, RecordsFrom;
    EncodedHeader(m);
    DecodedIsWellFormed(MessageBytes(m));
    ReadBackSectionsAreWf(MessageBytes(m), WIRE_SIZE, m);
  }

  // Decoding the encoding gives the message back exactly when it is well formed.
  lemma MessageRoundTripIff(m: Message)
    ensures Decode(MessageBytes(m)) == Ok(m) <==> WfMessage(m)
  {
    hide Decode, MessageBytes, WfMessage;
    if WfMessage(m) {
      WfMessageReadsBack(m);
    }
    if Decode(MessageBytes(m)) == Ok(m) {
      ReadBackMessageIsWf(m);
    }
  }

  lemma WfSplits(rs: seq<ResourceRecord>)
    ensures AllWf(rs) <==> AllDecoded(rs) && Reencodable(rs)
  {
    hide DecodedRecord, OptBitsClear, DataFits;
    if AllWf(rs) {
      forall i | 0 <= i < |rs| ensures DecodedRecord(rs[i]) && OptBitsClear(rs[i]) && DataFits(rs[i]) {
        assert WfRecord(rs[i]);
      }
    }
    if AllDecoded(rs) && Reencodable(rs) {
      forall i | 0 <= i < |rs| ensures WfRecord(rs[i]) {
        assert DecodedRecord(rs[i]) && OptBitsClear(rs[i]) && DataFits(rs[i]);
      }
    }
  }

  // Decode, encode, decode: decompressing names and normalising codes changes
  // nothing further, exactly when no OPT record drops TTL bits and every
  // record's data fits its length field.
  lemma DecodedReencodesIff(msg: bytes)
    requires Decode(msg).Ok?
    ensures var m := Decode(msg).value;
            Decode(MessageBytes(m)) == Ok(m) <==>
            Reencodable(m.answers) && Reencodable(m.authorities) && Reencodable(m.additionals)
  {
    hide Decode, MessageBytes, AllWf, AllDecoded, Reencodable, AllWfQuestions;
    var m := Decode(msg).value;
    DecodedIsWellFormed(msg);
    MessageRoundTripIff(m);
    WfSplits(m.answers);
    WfSplits(m.authorities);
    WfSplits(m.additionals);
  }

  // A message with one additional record, of type OPT (41) with root name, class
  // 512, TTL 1 and no options.
  function OptMessage(): bytes {
    HeaderBytes(DnsHeader(0, Flags(false, OpCode.Query, false, false, false, false, 0, NoError), 0, 0, 0, 1))
    + (NameBytes(DomainName([], [])) + FixedBytes(41, 512, 1, []))
  }

  lemma OptRecordRead(msg: bytes, pos: nat)
    requires At(msg, pos, NameBytes(DomainName([], [])) + FixedBytes(41, 512, 1, []))
    ensures RecordAt(msg, pos).Ok?
    ensures var r := RecordAt(msg, pos).value.0; r.rdata.OPT? && r.ttl == 1
  {
    hide ReadNameAt, NameBytes, U16At, U32At, FixedBytes, At;
    var root: Name := DomainName([], []);
    NameThen(msg, pos, root, FixedBytes(41, 512, 1, []));
    FixedReadBack(msg, pos + |NameBytes(root)|, 41, 512, 1, []);
    NothingToRead(msg, pos + |NameBytes(root)| + 10);
  }

  lemma NothingToRead(msg: bytes, pos: nat)
    requires At(msg, pos, [])
    ensures BytesAt(msg, pos, 0) == Ok(([], pos))
  {
  }

  // It is accepted, and re-encoding it loses the TTL.
  lemma OptTtlIsLost()
    ensures Decode(OptMessage()).Ok?
    ensures Decode(MessageBytes(Decode(OptMessage()).value)) != Decode(OptMessage())
  {
    hide HeaderBytes, NameBytes, FixedBytes, HeaderAt, RecordAt, MessageBytes, PackFlags, UnpackFlags;
    var msg := OptMessage();
    var h := DnsHeader(0, Flags(false, OpCode.Query, false, false, false, false, 0, NoError), 0, 0, 0, 1);
    var record := NameBytes(DomainName([], [])) + FixedBytes(41, 512, 1, []);
    assert At(msg, 0, HeaderBytes(h) + record);
    AtSplit(msg, 0, HeaderBytes(h), record);
    HeaderReadBack(msg, 0, h);
    OptRecordRead(msg, WIRE_SIZE);
    var (r, p) := RecordAt(msg, WIRE_SIZE).value;
    assert RecordsFrom(msg, p, 0, [] + [r]) == Ok(([] + [r], p));
    assert Decode(msg).Ok? && Decode(msg).value.additionals == [] + [r];
    DecodedReencodesIff(msg);
    assert !OptBitsClear(([] + [r])[0]);
  }

  // ---------- replacing the id ----------

  function WithId(m: Message, id: u16): Message {
    m.(header := m.header.(id := id))
  }

  // Overwriting the first two bytes of the encoding is encoding with that id.
  lemma IdPatch(m: Message, id: u16)
    ensures |MessageBytes(m)| >= 2
    ensures MessageBytes(m)[0 := id / 0x100][1 := id % 0x100] == MessageBytes(WithId(m, id))
  {
    hide SectionsBytes, U16Bytes, PackFlags;
    var rest := HeaderBytes(m.header)[2..];
    assert HeaderBytes(WithId(m, id).header) == U16Bytes(id) + rest;
    assert MessageBytes(m) == U16Bytes(m.header.id) + (rest + SectionsBytes(m)) by {
      assert HeaderBytes(m.header) == U16Bytes(m.header.id) + rest;
      Assoc(U16Bytes(m.header.id), rest, SectionsBytes(m));
    }
    assert MessageBytes(WithId(m, id)) == U16Bytes(id) + (rest + SectionsBytes(m)) by {
      assert SectionsBytes(WithId(m, id)) == SectionsBytes(m) by { SameSections(m, id); }
      Assoc(U16Bytes(id), rest, SectionsBytes(m));
    }
    PatchFront(U16Bytes(m.header.id), id, rest + SectionsBytes(m));
  }

  lemma SameSections(m: Message, id: u16)
    ensures SectionsBytes(WithId(m, id)) == SectionsBytes(m)
  {
  }

  lemma PatchFront(front: bytes, x: u16, rest: bytes)
    requires |front| == 2
    ensures (front + rest)[0 := x / 0x100][1 := x % 0x100] == U16Bytes(x) + rest
  {
  }

  // ---------- the message object ----------

  // The header's counts are the section lengths as 16-bit numbers.
  predicate CountsFollow(m: Message) {
    && m.header.qdcount as int == |m.questions| % 0x1_0000
    && m.header.ancount as int == |m.answers| % 0x1_0000
    && m.header.nscount as int == |m.authorities| % 0x1_0000
    && m.header.arcount as int == |m.additionals| % 0x1_0000
  }

  class DnsMessage {
    var header: DnsHeader
    var questions: seq<DnsQuestion>
    var answers: seq<ResourceRecord>
    var authorities: seq<ResourceRecord>
    var additionals: seq<ResourceRecord>

    function View(): Message
      reads this
    {
      Message(header, questions, answers, authorities, additionals)
    }

    constructor Of(m: Message)
      ensures View() == m
    {
      header, questions, answers := m.header, m.questions, m.answers;
      authorities, additionals := m.authorities, m.additionals;
    }

    constructor Query(id: u16, question: DnsQuestion)
      ensures CountsFollow(View()) && questions == [question] && header.id == id
      ensures header.flags == Flags(false, OpCode.Query, false, false, true, false, 0, NoError)
      ensures answers == [] && authorities == [] && additionals == []
      ensures WfQuestion(question) ==> WfMessage(View())
    {
      header := DnsHeader(id, Flags(false, OpCode.Query, false, false, true, false, 0, NoError), 1, 0, 0, 0);
      questions, answers, authorities, additionals := [question], [], [], [];
    }

    constructor Response(query: Message)
      ensures CountsFollow(View()) && questions == query.questions && header.id == query.header.id
      ensures header.flags == Flags(true, OpCode.Query, false, false, query.header.flags.rd, true, 0, NoError)
      ensures answers == [] && authorities == [] && additionals == []
      ensures AllWfQuestions(query.questions) && |query.questions| <= 0xFFFF ==> WfMessage(View())
    {
      var flags := Flags(true, OpCode.Query, false, false, query.header.flags.rd, true, 0, NoError);
      header := DnsHeader(query.header.id, flags, |query.questions| % 0x1_0000, 0, 0, 0);
      questions, answers, authorities, additionals := query.questions, [], [], [];
    }

    method AddAnswer(rr: ResourceRecord)
      modifies this
      ensures answers == old(answers) + [rr]
      ensures View() == old(View()).(answers := answers, header := old(header).(ancount := |answers| % 0x1_0000))
      ensures old(CountsFollow(View())) ==> CountsFollow(View())
      ensures old(WfMessage(View())) && WfRecord(rr) && |answers| <= 0xFFFF ==> WfMessage(View())
    {
      hide WfRecord, WfQuestion;
      answers := answers + [rr];
      header := header.(ancount := |answers| % 0x1_0000);
    }

    method AddAuthority(rr: ResourceRecord)
      modifies this
      ensures authorities == old(authorities) + [rr]
      ensures View() == old(View()).(authorities := authorities,
                                     header := old(header).(nscount := |authorities| % 0x1_0000))
      ensures old(CountsFollow(View())) ==> CountsFollow(View())
      ensures old(WfMessage(View())) && WfRecord(rr) && |authorities| <= 0xFFFF ==> WfMessage(View())
    {
      hide WfRecord, WfQuestion;
      authorities := authorities + [rr];
      header := header.(nscount := |authorities| % 0x1_0000);
    }

    method AddAdditional(rr: ResourceRecord)
      modifies this
      ensures additionals == old(additionals) + [rr]
      ensures View() == old(View()).(additionals := additionals,
                                     header := old(header).(arcount := |additionals| % 0x1_0000))
      ensures old(CountsFollow(View())) ==> CountsFollow(View())
      ensures old(WfMessage(View())) && WfRecord(rr) && |additionals| <= 0xFFFF ==> WfMessage(View())
    {
      hide WfRecord, WfQuestion;
      additionals := additionals + [rr];
      header := header.(arcount := |additionals| % 0x1_0000);
    }

    method UpdateCounts()
      modifies this`header
      ensures CountsFollow(View())
      ensures View() == old(View()).(header := header)
      ensures header.id == old(header.id) && header.flags == old(header.flags)
    {
      header := header.(
        qdcount := |questions| % 0x1_0000,
        ancount := |answers| % 0x1_0000,
        nscount := |authorities| % 0x1_0000,
        arcount := |additionals| % 0x1_0000);
    }

    method WriteTo(writer: WireWriter)
      modifies writer
      ensures writer.buf == old(writer.buf) + MessageBytes(View())
    {
      hide HeaderBytes, QuestionsBytes, RecordsBytes;
      WriteHeader(header, writer);
      WriteQuestions(questions, writer);
      WriteRecords(answers, writer);
      WriteRecords(authorities, writer);
      WriteRecords(additionals, writer);
      Assoc6(old(writer.buf), HeaderBytes(header), QuestionsBytes(questions), RecordsBytes(answers),
             RecordsBytes(authorities), RecordsBytes(additionals));
    }

    method ToWire() returns (wire: bytes)
      ensures wire == MessageBytes(View())
      ensures WfMessage(View()) <==> Decode(wire) == Ok(View())
    {
      hide MessageBytes, WfMessage, Decode;
      var writer := new WireWriter();
      WriteTo(writer);
      wire := writer.buf;
      assert [] + MessageBytes(View()) == MessageBytes(View());
      MessageRoundTripIff(View());
    }
  }

  method WriteQuestions(qs: seq<DnsQuestion>, writer: WireWriter)
    modifies writer
    ensures writer.buf == old(writer.buf) + QuestionsBytes(qs)
  {
    hide QuestionBytes;
    assert qs[0..] == qs;
    for i := 0 to |qs|
      invariant old(writer.buf) + QuestionsBytes(qs) == writer.buf + QuestionsBytes(qs[i..])
    {
      DropOne(qs, i);
      Assoc(writer.buf, QuestionBytes(qs[i]), QuestionsBytes(qs[i + 1..]));
      WriteQuestion(qs[i], writer);
    }
    assert writer.buf + [] == writer.buf;
  }

  method WriteRecords(rs: seq<ResourceRecord>, writer: WireWriter)
    modifies writer
    ensures writer.buf == old(writer.buf) + RecordsBytes(rs)
  {
    hide RecordBytes;
    assert rs[0..] == rs;
    for i := 0 to |rs|
      invariant old(writer.buf) + RecordsBytes(rs) == writer.buf + RecordsBytes(rs[i..])
    {
      DropOne(rs, i);
      Assoc(writer.buf, RecordBytes(rs[i]), RecordsBytes(rs[i + 1..]));
      WriteRecord(rs[i], writer);
    }
    assert writer.buf + [] == writer.buf;
  }

  method ReadQuestions(reader: WireReader, count: nat) returns (r: Result<seq<DnsQuestion>>)
    requires reader.Valid()
    modifies reader`pos
    ensures reader.Valid()
    ensures Reads(r, QuestionsFrom(reader.buf, old(reader.pos), count, []), reader.pos)
  {
    hide QuestionAt;
    var questions: seq<DnsQuestion> := [];
    for i := 0 to count
      invariant reader.Valid()
      invariant QuestionsFrom(reader.buf, old(reader.pos), count, [])
             == QuestionsFrom(reader.buf, reader.pos, count - i, questions)
    {
      var q :- ReadQuestion(reader);
      questions := questions + [q];
    }
    return Ok(questions);
  }

  method ReadRecords(reader: WireReader, count: nat) returns (r: Result<seq<ResourceRecord>>)
    requires reader.Valid()
    modifies reader`pos
    ensures reader.Valid()
    ensures Reads(r, RecordsFrom(reader.buf, old(reader.pos), count, []), reader.pos)
  {
    hide RecordAt;
    var records: seq<ResourceRecord> := [];
    for i := 0 to count
      invariant reader.Valid()
      invariant RecordsFrom(reader.buf, old(reader.pos), count, [])
             == RecordsFrom(reader.buf, reader.pos, count - i, records)
    {
      var rr :- ReadRecord(reader);
      records := records + [rr];
    }
    return Ok(records);
  }

  method FromWire(data: bytes) returns (r: Result<Message>)
    ensures r == Decode(data)
    ensures r.Ok? ==> DecodedMessage(r.value)
  {
    hide HeaderAt, QuestionsFrom, RecordsFrom, DecodedMessage;
    if |data| < WIRE_SIZE {
      return Err(BufferUnderflow(WIRE_SIZE, |data|));
    }
    var reader := new WireReader(data);
    var h :- ReadHeader(reader);
    var questions :- ReadQuestions(reader, h.qdcount);
    var answers :- ReadRecords(reader, h.ancount);
    var authorities :- ReadRecords(reader, h.nscount);
    var additionals :- ReadRecords(reader, h.arcount);
    DecodedIsWellFormed(data);
    return Ok(Message(h, questions, answers, authorities, additionals));
  }
}

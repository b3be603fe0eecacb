// Questions and resource records: their wire form, what a read gives, and the
// methods that move the cursors.

module Records {
  import opened Types
  import opened Wire
  import opened Names
  import opened NameRead
  import opened RecordTypes

  // ---------- questions (section 4.1.2 of RFC 1035) ----------

  datatype DnsQuestion = DnsQuestion(qname: Name, qtype: QType, qclass: QClass)

  function QuestionBytes(q: DnsQuestion): bytes {
    NameBytes(q.qname) + (U16Bytes(q.qtype.AsU16()) + U16Bytes(q.qclass.AsU16()))
  }

  function QuestionAt(msg: bytes, pos: nat): (r: Result<(DnsQuestion, nat)>) {
    var (qname, p1) :- ReadNameAt(msg, pos);
    var (qtype, p2) :- U16At(msg, p1);
    var (qclass, p3) :- U16At(msg, p2);
    Ok((DnsQuestion(qname, QType.FromU16(qtype), QClass.FromU16(qclass)), p3))
  }

  predicate WfQuestion(q: DnsQuestion) {
    q.qtype.Canonical() && q.qclass.Canonical()
  }

  lemma NameThen(msg: bytes, pos: nat, n: Name, rest: bytes)
    requires At(msg, pos, NameBytes(n) + rest)
    ensures ReadNameAt(msg, pos) == Ok((n, pos + |NameBytes(n)|)) && At(msg, pos + |NameBytes(n)|, rest)
  {
    hide NameBytes, ReadNameAt;
    AtSplit(msg, pos, NameBytes(n), rest);
    NameRoundTrip(msg, pos, n);
  }

  // A written question reads back as itself exactly when its type and class
  // are the ones their numbers stand for; the cursor ends after it either way.
  lemma QuestionReadBack(msg: bytes, pos: nat, q: DnsQuestion)
    requires At(msg, pos, QuestionBytes(q))
    ensures QuestionAt(msg, pos).Ok? && QuestionAt(msg, pos).value.1 == pos + |QuestionBytes(q)|
    ensures QuestionAt(msg, pos).value.0 == q <==> WfQuestion(q)
  {
    hide ReadNameAt, NameBytes, U16At, U16Bytes, QType.FromU16, QClass.FromU16, QType.AsU16, QClass.AsU16;
    var c := U16Bytes(q.qclass.AsU16());
    var b := U16Bytes(q.qtype.AsU16()) + c;
    NameThen(msg, pos, q.qname, b);
    U16Then(msg, pos + |NameBytes(q.qname)|, q.qtype.AsU16(), c);
    U16RoundTrip(msg, pos + |NameBytes(q.qname)| + 2, q.qclass.AsU16());
    TypesRoundTrip(RecordType.A, q.qtype);
    ClassesRoundTrip(RecordClass.In, q.qclass);
  }

  lemma ReadQuestionIsWf(msg: bytes, pos: nat)
    requires QuestionAt(msg, pos).Ok?
    ensures WfQuestion(QuestionAt(msg, pos).value.0)
    ensures pos < QuestionAt(msg, pos).value.1 <= |msg|
  {
  }

  method ReadQuestion(reader: WireReader) returns (r: Result<DnsQuestion>)
    requires reader.Valid()
    modifies reader`pos
    ensures reader.Valid()
    ensures Reads(r, QuestionAt(reader.buf, old(reader.pos)), reader.pos)
  {
    var qname :- ReadName(reader);
    var qtype :- reader.ReadU16();
    var qclass :- reader.ReadU16();
    return Ok(DnsQuestion(qname, QType.FromU16(qtype), QClass.FromU16(qclass)));
  }

  method WriteQuestion(q: DnsQuestion, writer: WireWriter)
    modifies writer
    ensures writer.buf == old(writer.buf) + QuestionBytes(q)
  {
    WriteNameUncompressed(q.qname, writer);
    writer.WriteU16(q.qtype.AsU16());
    writer.WriteU16(q.qclass.AsU16());
    Assoc4(old(writer.buf), NameBytes(q.qname), U16Bytes(q.qtype.AsU16()), U16Bytes(q.qclass.AsU16()));
  }

  // ---------- record data ----------

  type Ipv4 = b: bytes | |b| == 4 witness [0, 0, 0, 0]
  type Ipv6 = b: bytes | |b| == 16 witness [0, 0, 0, 0, 0, 0, 0, 0, 0, 0, 0, 0, 0, 0, 0, 0]

  datatype SoaRecord = SoaRecord(
    mname: Name, rname: Name, serial: u32, refresh: u32, retry: u32, expire: u32, minimum: u32)

  datatype MxRecord = MxRecord(preference: u16, exchange: Name)

  datatype SrvRecord = SrvRecord(priority: u16, weight: u16, port: u16, target: Name)

  datatype SvcbRecord = SvcbRecord(priority: u16, target: Name, svcParams: bytes)

  datatype OptRecord = OptRecord(
    udpPayloadSize: u16, extendedRcode: byte, version: byte, doFlag: bool, options: bytes)

  datatype RData =
    | A(v4: Ipv4)
    | AAAA(v6: Ipv6)
    | CNAME(name: Name)
    | NS(name: Name)
    | PTR(name: Name)
    | MX(mx: MxRecord)
    | TXT(strings: seq<bytes>)
    | SOA(soa: SoaRecord)
    | SRV(srv: SrvRecord)
    | SVCB(svcb: SvcbRecord)
    | HTTPS(svcb: SvcbRecord)
    | OPT(opt: OptRecord)
    | Unknown(rrType: u16, data: bytes)

  function SoaBytes(s: SoaRecord): bytes {
    NameBytes(s.mname) + (NameBytes(s.rname)
      + (U32Bytes(s.serial) + (U32Bytes(s.refresh) + (U32Bytes(s.retry) + (U32Bytes(s.expire) + U32Bytes(s.minimum))))))
  }

  function SoaAt(msg: bytes, pos: nat): (r: Result<(SoaRecord, nat)>) {
    var (mname, p1) :- ReadNameAt(msg, pos);
    var (rname, p2) :- ReadNameAt(msg, p1);
    var (serial, p3) :- U32At(msg, p2);
    var (refresh, p4) :- U32At(msg, p3);
    var (retry, p5) :- U32At(msg, p4);
    var (expire, p6) :- U32At(msg, p5);
    var (minimum, p7) :- U32At(msg, p6);
    Ok((SoaRecord(mname, rname, serial, refresh, retry, expire, minimum), p7))
  }

  function MxBytes(m: MxRecord): bytes {
    U16Bytes(m.preference) + NameBytes(m.exchange)
  }

  function MxAt(msg: bytes, pos: nat): (r: Result<(MxRecord, nat)>) {
    var (preference, p1) :- U16At(msg, pos);
    var (exchange, p2) :- ReadNameAt(msg, p1);
    Ok((MxRecord(preference, exchange), p2))
  }

  function SrvBytes(s: SrvRecord): bytes {
    U16Bytes(s.priority) + (U16Bytes(s.weight) + (U16Bytes(s.port) + NameBytes(s.target)))
  }

  function SrvAt(msg: bytes, pos: nat): (r: Result<(SrvRecord, nat)>) {
    var (priority, p1) :- U16At(msg, pos);
    var (weight, p2) :- U16At(msg, p1);
    var (port, p3) :- U16At(msg, p2);
    var (target, p4) :- ReadNameAt(msg, p3);
    Ok((SrvRecord(priority, weight, port, target), p4))
  }

  function SvcbBytes(s: SvcbRecord): bytes {
    U16Bytes(s.priority) + (NameBytes(s.target) + s.svcParams)
  }

  // The parameters are whatever is left before `end`; nothing if the target
  // name already ran past it.
  function SvcbAt(msg: bytes, pos: nat, end: nat): (r: Result<(SvcbRecord, nat)>) {
    var (priority, p1) :- U16At(msg, pos);
    var (target, p2) :- ReadNameAt(msg, p1);
    var (svcParams, p3) :- BytesAt(msg, p2, if p2 <= end then end - p2 else 0);
    Ok((SvcbRecord(priority, target, svcParams), p3))
  }

  // A string's length is cut to one byte.
  function TxtBytes(strings: seq<bytes>): bytes {
    if strings == [] then [] else [|strings[0]| % 0x100] + strings[0] + TxtBytes(strings[1..])
  }

  // Strings are read while they start before `end`; the last one may run past it.
  function TxtFrom(msg: bytes, pos: nat, end: nat, acc: seq<bytes>): (r: Result<(seq<bytes>, nat)>)
    decreases if pos <= |msg| then |msg| - pos else 0
  {
    if pos >= end then Ok((acc, pos))
    else
      var (len, p1) :- U8At(msg, pos);
      var (data, p2) :- BytesAt(msg, p1, len);
      TxtFrom(msg, p2, end, acc + [data])
  }

  function RDataBytes(rd: RData): bytes {
    match rd
    case A(ip) => ip
    case AAAA(ip) => ip
    case CNAME(n) => NameBytes(n)
    case NS(n) => NameBytes(n)
    case PTR(n) => NameBytes(n)
    case MX(mx) => MxBytes(mx)
    case TXT(strings) => TxtBytes(strings)
    case SOA(soa) => SoaBytes(soa)
    case SRV(srv) => SrvBytes(srv)
    case SVCB(svcb) => SvcbBytes(svcb)
    case HTTPS(svcb) => SvcbBytes(svcb)
    case OPT(opt) => opt.options
    case Unknown(_, data) => data
  }

  function BodyAt(t: RecordType, rdlength: u16, msg: bytes, pos: nat): (r: Result<(RData, nat)>) {
    match t
    case A =>
      if rdlength != 4 then Err(MalformedRData(1))
      else var (ip, p) :- BytesAt(msg, pos, 4); Ok((RData.A(ip), p))
    case AAAA =>
      if rdlength != 16 then Err(MalformedRData(28))
      else var (ip, p) :- BytesAt(msg, pos, 16); Ok((RData.AAAA(ip), p))
    case CNAME => var (n, p) :- ReadNameAt(msg, pos); Ok((RData.CNAME(n), p))
    case NS => var (n, p) :- ReadNameAt(msg, pos); Ok((RData.NS(n), p))
    case PTR => var (n, p) :- ReadNameAt(msg, pos); Ok((RData.PTR(n), p))
    case MX => var (v, p) :- MxAt(msg, pos); Ok((RData.MX(v), p))
    case SOA => var (v, p) :- SoaAt(msg, pos); Ok((RData.SOA(v), p))
    case TXT => var (v, p) :- TxtFrom(msg, pos, pos + rdlength, []); Ok((RData.TXT(v), p))
    case SRV => var (v, p) :- SrvAt(msg, pos); Ok((RData.SRV(v), p))
    case SVCB => var (v, p) :- SvcbAt(msg, pos, pos + rdlength); Ok((RData.SVCB(v), p))
    case HTTPS => var (v, p) :- SvcbAt(msg, pos, pos + rdlength); Ok((RData.HTTPS(v), p))
    case OPT => var (v, p) :- BytesAt(msg, pos, rdlength); Ok((RData.OPT(OptRecord(0, 0, 0, false, v)), p))
    case Unknown(code) => var (v, p) :- BytesAt(msg, pos, rdlength); Ok((RData.Unknown(code, v), p))
  }

  // Data that ends early is skipped to RDLENGTH; data that ran past it stands.
  function RDataAt(t: RecordType, rdlength: u16, msg: bytes, pos: nat): (r: Result<(RData, nat)>) {
    var end := pos + rdlength as int;
    if end > |msg| then Err(RdLengthExceedsBuffer(rdlength, Remaining(msg, pos)))
    else
      var (rd, p) :- BodyAt(t, rdlength, msg, pos);
      Ok((rd, if p < end then end else p))
  }

  // ---------- which data the round trip covers ----------

  predicate MatchesType(rd: RData, t: RecordType) {
    match rd
    case A(_) => t == RecordType.A
    case AAAA(_) => t == RecordType.AAAA
    case CNAME(_) => t == RecordType.CNAME
    case NS(_) => t == RecordType.NS
    case PTR(_) => t == RecordType.PTR
    case MX(_) => t == RecordType.MX
    case TXT(_) => t == RecordType.TXT
    case SOA(_) => t == RecordType.SOA
    case SRV(_) => t == RecordType.SRV
    case SVCB(_) => t == RecordType.SVCB
    case HTTPS(_) => t == RecordType.HTTPS
    case OPT(_) => t == RecordType.OPT
    case Unknown(code, _) => t == RecordType.Unknown(code)
  }

  predicate ShortStrings(strings: seq<bytes>) {
    forall i | 0 <= i < |strings| :: |strings[i]| <= 0xFF
  }

  predicate WfRData(rd: RData, t: RecordType) {
    MatchesType(rd, t) && (rd.TXT? ==> ShortStrings(rd.strings))
  }

  // ---------- data read back ----------

  lemma MxReadBack(msg: bytes, pos: nat, m: MxRecord)
    requires At(msg, pos, MxBytes(m))
    ensures MxAt(msg, pos) == Ok((m, pos + |MxBytes(m)|))
  {
    hide ReadNameAt, NameBytes, U16At, U16Bytes;
    U16Then(msg, pos, m.preference, NameBytes(m.exchange));
    NameRoundTrip(msg, pos + 2, m.exchange);
  }

  lemma SrvReadBack(msg: bytes, pos: nat, s: SrvRecord)
    requires At(msg, pos, SrvBytes(s))
    ensures SrvAt(msg, pos) == Ok((s, pos + |SrvBytes(s)|))
  {
    hide ReadNameAt, NameBytes, U16At, U16Bytes;
    var c := NameBytes(s.target);
    var b := U16Bytes(s.port) + c;
    U16Then(msg, pos, s.priority, U16Bytes(s.weight) + b);
    U16Then(msg, pos + 2, s.weight, b);
    U16Then(msg, pos + 4, s.port, c);
    NameRoundTrip(msg, pos + 6, s.target);
  }

  lemma SoaReadBack(msg: bytes, pos: nat, s: SoaRecord)
    requires At(msg, pos, SoaBytes(s))
    ensures SoaAt(msg, pos) == Ok((s, pos + |SoaBytes(s)|))
  {
    hide ReadNameAt, NameBytes, U32At, U32Bytes;
    var f := U32Bytes(s.minimum);
    var e := U32Bytes(s.expire) + f;
    var d := U32Bytes(s.retry) + e;
    var c := U32Bytes(s.refresh) + d;
    var b := U32Bytes(s.serial) + c;
    NameThen(msg, pos, s.mname, NameBytes(s.rname) + b);
    var p := pos + |NameBytes(s.mname)|;
    NameThen(msg, p, s.rname, b);
    var q := p + |NameBytes(s.rname)|;
    U32Then(msg, q, s.serial, c);
    U32Then(msg, q + 4, s.refresh, d);
    U32Then(msg, q + 8, s.retry, e);
    U32Then(msg, q + 12, s.expire, f);
    U32RoundTrip(msg, q + 16, s.minimum);
  }

  // With the end given, the parameters read are those between the name and it.
  lemma SvcbReadBack(msg: bytes, pos: nat, s: SvcbRecord, end: nat)
    requires At(msg, pos, SvcbBytes(s)) && pos <= end <= |msg|
    ensures SvcbAt(msg, pos, end).Ok?
    ensures SvcbAt(msg, pos, end).value.0 == s <==>
            end == pos + |SvcbBytes(s)| || (s.svcParams == [] && end < pos + |SvcbBytes(s)|)
    ensures end == pos + |SvcbBytes(s)| ==> SvcbAt(msg, pos, end) == Ok((s, end))
  {
    hide ReadNameAt, NameBytes, U16At, U16Bytes;
    U16Then(msg, pos, s.priority, NameBytes(s.target) + s.svcParams);
    NameThen(msg, pos + 2, s.target, s.svcParams);
  }

  lemma {:induction false} TxtReadBack(msg: bytes, pos: nat, strings: seq<bytes>, acc: seq<bytes>)
    requires ShortStrings(strings) && At(msg, pos, TxtBytes(strings))
    ensures TxtFrom(msg, pos, pos + |TxtBytes(strings)|, acc) == Ok((acc + strings, pos + |TxtBytes(strings)|))
    decreases |strings|
  {
    if strings == [] {
      assert acc + [] == acc;
    } else {
      var s, more := strings[0], strings[1..];
      TxtFirst(msg, pos, strings);
      TxtReadBack(msg, pos + 1 + |s|, more, acc + [s]);
      assert acc + [s] + more == acc + strings;
    }
  }

  lemma TxtFirst(msg: bytes, pos: nat, strings: seq<bytes>)
    requires ShortStrings(strings) && strings != [] && At(msg, pos, TxtBytes(strings))
    ensures pos < |msg| && msg[pos] as int == |strings[0]|
    ensures BytesAt(msg, pos + 1, |strings[0]|) == Ok((strings[0], pos + 1 + |strings[0]|))
    ensures ShortStrings(strings[1..]) && At(msg, pos + 1 + |strings[0]|, TxtBytes(strings[1..]))
    ensures |TxtBytes(strings)| == 1 + |strings[0]| + |TxtBytes(strings[1..])|
  {
    hide TxtFrom;
    var s := strings[0];
    AtSplit(msg, pos, [|s| as byte] + s, TxtBytes(strings[1..]));
    AtSplit(msg, pos, [|s| as byte], s);
    AtIndex(msg, pos, [|s| as byte], 0);
  }

  // Reading all strings back means the end given was at most 255 bytes short.
  lemma {:induction false} TxtNeedsEnd(msg: bytes, pos: nat, end: nat, strings: seq<bytes>, acc: seq<bytes>)
    requires ShortStrings(strings) && strings != [] && At(msg, pos, TxtBytes(strings))
    requires TxtFrom(msg, pos, end, acc).Ok? && TxtFrom(msg, pos, end, acc).value.0 == acc + strings
    ensures pos + |TxtBytes(strings)| <= end + 0xFF
    decreases |strings|
  {
    assert |acc + strings| > |acc|;
    if pos < end {
      var s, more := strings[0], strings[1..];
      TxtFirst(msg, pos, strings);
      if more != [] {
        assert acc + [s] + more == acc + strings;
        TxtNeedsEnd(msg, pos + 1 + |s|, end, more, acc + [s]);
      }
    }
  }

  lemma {:induction false} TxtReadsShort(msg: bytes, pos: nat, end: nat, acc: seq<bytes>)
    requires TxtFrom(msg, pos, end, acc).Ok? && ShortStrings(acc) && pos <= |msg|
    ensures ShortStrings(TxtFrom(msg, pos, end, acc).value.0)
    ensures pos <= TxtFrom(msg, pos, end, acc).value.1 <= |msg|
    decreases |msg| - pos
  {
    if pos < end {
      var (len, p1) := U8At(msg, pos).value;
      var (data, p2) := BytesAt(msg, p1, len).value;
      TxtReadsShort(msg, p2, end, acc + [data]);
    }
  }

  predicate IsNameData(rd: RData) {
    rd.CNAME? || rd.NS? || rd.PTR? || rd.MX? || rd.SOA? || rd.SRV?
  }

  // Data made of names and numbers does not depend on the length given.
  lemma NameDataReadBack(t: RecordType, rd: RData, rdlength: u16, msg: bytes, pos: nat)
    requires WfRData(rd, t) && IsNameData(rd) && At(msg, pos, RDataBytes(rd))
    ensures BodyAt(t, rdlength, msg, pos) == Ok((rd, pos + |RDataBytes(rd)|))
  {
    hide ReadNameAt, NameBytes, MxAt, SoaAt, SrvAt, SvcbAt, TxtFrom, BytesAt;
    hide MxBytes, SoaBytes, SrvBytes, SvcbBytes, TxtBytes;
    match rd
    case CNAME(n) => NameRoundTrip(msg, pos, n);
    case NS(n) => NameRoundTrip(msg, pos, n);
    case PTR(n) => NameRoundTrip(msg, pos, n);
    case MX(mx) => MxReadBack(msg, pos, mx);
    case SOA(soa) => SoaReadBack(msg, pos, soa);
    case SRV(srv) => SrvReadBack(msg, pos, srv);
  }

  // Data written and read with its own length comes back unchanged.
  lemma BodyReadBack(t: RecordType, rd: RData, msg: bytes, pos: nat)
    requires WfRData(rd, t) && !rd.OPT? && At(msg, pos, RDataBytes(rd)) && |RDataBytes(rd)| <= 0xFFFF
    ensures BodyAt(t, |RDataBytes(rd)|, msg, pos) == Ok((rd, pos + |RDataBytes(rd)|))
  {
    hide ReadNameAt, NameBytes, MxAt, SoaAt, SrvAt, SvcbAt, TxtFrom, MxBytes, SoaBytes, SrvBytes, SvcbBytes, TxtBytes;
    if IsNameData(rd) {
      NameDataReadBack(t, rd, |RDataBytes(rd)|, msg, pos);
    } else {
      match rd
      case TXT(strings) =>
        TxtReadBack(msg, pos, strings, []);
        assert [] + strings == strings;
      case SVCB(svcb) => SvcbReadBack(msg, pos, svcb, pos + |SvcbBytes(svcb)|);
      case HTTPS(svcb) => SvcbReadBack(msg, pos, svcb, pos + |SvcbBytes(svcb)|);
      case _ =>
    }
  }

  lemma NameBytesShort(n: Name)
    ensures 1 <= |NameBytes(n)| <= 511
  {
    LabelsPack(n);
    PrefixedLength(n.Labels());
    assert n.Start(|n.ends|) == |n.buf|;
    EndsCount(n, |n.ends|);
  }

  lemma {:induction false} EndsCount(n: Name, k: nat)
    requires k <= |n.ends|
    ensures k <= n.Start(k) <= MAX_NAME_BYTES
  {
    if k > 0 {
      EndsCount(n, k - 1);
      assert n.Start(k - 1) < n.ends[k - 1];
    }
  }

  lemma NameDataFits(rd: RData)
    requires IsNameData(rd)
    ensures |RDataBytes(rd)| <= 0xFFFF
  {
    hide NameBytes;
    match rd
    case CNAME(n) => NameBytesShort(n);
    case NS(n) => NameBytesShort(n);
    case PTR(n) => NameBytesShort(n);
    case MX(mx) => NameBytesShort(mx.exchange);
    case SOA(soa) => NameBytesShort(soa.mname); NameBytesShort(soa.rname);
    case SRV(srv) => NameBytesShort(srv.target);
  }

  lemma SvcbFits(msg: bytes, pos: nat, s: SvcbRecord)
    requires At(msg, pos, SvcbBytes(s))
    requires SvcbAt(msg, pos, pos + |SvcbBytes(s)| % 0x1_0000).Ok?
    requires SvcbAt(msg, pos, pos + |SvcbBytes(s)| % 0x1_0000).value.0 == s
    ensures |SvcbBytes(s)| <= 0xFFFF
  {
    hide ReadNameAt, NameBytes, U16At, U16Bytes, SvcbAt;
    NameBytesShort(s.target);
    SvcbReadBack(msg, pos, s, pos + |SvcbBytes(s)| % 0x1_0000);
  }

  // Data that does come back from its own bytes with the length cut to 16 bits
  // was short enough for the length field.
  lemma BodyReadBackFits(t: RecordType, rd: RData, msg: bytes, pos: nat)
    requires WfRData(rd, t) && !rd.OPT? && At(msg, pos, RDataBytes(rd))
    requires var r := RDataAt(t, |RDataBytes(rd)| % 0x1_0000, msg, pos); r.Ok? && r.value.0 == rd
    ensures |RDataBytes(rd)| <= 0xFFFF
  {
    hide ReadNameAt, NameBytes, MxAt, SoaAt, SrvAt, SvcbAt, TxtFrom, MxBytes, SoaBytes, SrvBytes, SvcbBytes;
    var len := |RDataBytes(rd)| % 0x1_0000;
    if IsNameData(rd) {
      NameDataFits(rd);
    } else {
      match rd
      case TXT(strings) =>
        if strings != [] {
          assert [] + strings == strings;
          TxtNeedsEnd(msg, pos, pos + len, strings, []);
        }
      case SVCB(svcb) => SvcbFits(msg, pos, svcb);
      case HTTPS(svcb) => SvcbFits(msg, pos, svcb);
      case _ =>
    }
  }

  // Whatever is read as data of a type is well-formed data of that type, even
  // when its names run past RDLENGTH.
  lemma ReadRDataIsWf(t: RecordType, rdlength: u16, msg: bytes, pos: nat)
    requires RDataAt(t, rdlength, msg, pos).Ok?
    ensures WfRData(RDataAt(t, rdlength, msg, pos).value.0, t)
    ensures pos + rdlength as int <= RDataAt(t, rdlength, msg, pos).value.1 <= |msg|
  {
    hide NameBytes, TxtFrom, ReadNameAt;
    if t.TXT? {
      TxtReadsShort(msg, pos, pos + rdlength as int, []);
    }
  }

  // ---------- resource records (section 4.1.3 of RFC 1035) ----------

  datatype ResourceRecord = ResourceRecord(
    name: Name, rrType: RecordType, rrClass: RecordClass, ttl: u32, rdata: RData)

  // Type, class, TTL, RDLENGTH cut to 16 bits, and the data.
  function FixedBytes(t: u16, c: u16, ttl: u32, data: bytes): bytes {
    U16Bytes(t) + (U16Bytes(c) + (U32Bytes(ttl) + (U16Bytes(|data| % 0x1_0000) + data)))
  }

  function OptTtl(opt: OptRecord): u32 {
    opt.extendedRcode as int * 0x100_0000 + opt.version as int * 0x1_0000 + if opt.doFlag then 0x8000 else 0
  }

  // An OPT record's class and TTL fields come from its data (section 6.1 of RFC 6891).
  function ClassField(r: ResourceRecord): u16 {
    if r.rdata.OPT? then r.rdata.opt.udpPayloadSize else r.rrClass.AsU16()
  }

  function TtlField(r: ResourceRecord): u32 {
    if r.rdata.OPT? then OptTtl(r.rdata.opt) else r.ttl
  }

  function RecordBytes(r: ResourceRecord): bytes {
    NameBytes(r.name) + FixedBytes(r.rrType.AsU16(), ClassField(r), TtlField(r), RDataBytes(r.rdata))
  }

  function OptFrom(class_: u16, ttl: u32, options: bytes): OptRecord {
    OptRecord(class_, ttl / 0x100_0000, ttl / 0x1_0000 % 0x100, ttl / 0x8000 % 2 == 1, options)
  }

  function DataAt(t: RecordType, class_: u16, ttl: u32, rdlength: u16, msg: bytes, pos: nat)
    : (r: Result<(RData, nat)>)
  {
    if t == RecordType.OPT then
      var (options, p) :- BytesAt(msg, pos, rdlength);
      Ok((RData.OPT(OptFrom(class_, ttl, options)), p))
    else RDataAt(t, rdlength, msg, pos)
  }

  function RecordAt(msg: bytes, pos: nat): (r: Result<(ResourceRecord, nat)>) {
    var (name, p1) :- ReadNameAt(msg, pos);
    var (t, p2) :- U16At(msg, p1);
    var (c, p3) :- U16At(msg, p2);
    var (ttl, p4) :- U32At(msg, p3);
    var (rdlength, p5) :- U16At(msg, p4);
    var (rdata, p6) :- DataAt(RecordType.FromU16(t), c, ttl, rdlength, msg, p5);
    Ok((ResourceRecord(name, RecordType.FromU16(t), RecordClass.FromU16(c), ttl, rdata), p6))
  }

  // What every record read from a message satisfies.
  predicate DecodedRecord(r: ResourceRecord) {
    && r.rrType.Canonical() && r.rrClass.Canonical()
    && WfRData(r.rdata, r.rrType)
    && (r.rdata.OPT? ==>
          && r.rrClass == RecordClass.FromU16(r.rdata.opt.udpPayloadSize)
          && r.rdata.opt == OptFrom(r.rdata.opt.udpPayloadSize, r.ttl, r.rdata.opt.options))
  }

  // The TTL bits an OPT record does not keep in its fields are zero.
  predicate OptBitsClear(r: ResourceRecord) {
    r.rdata.OPT? ==> r.ttl % 0x8000 == 0
  }

  predicate DataFits(r: ResourceRecord) {
    |RDataBytes(r.rdata)| <= 0xFFFF
  }

  predicate WfRecord(r: ResourceRecord) {
    DecodedRecord(r) && OptBitsClear(r) && DataFits(r)
  }

  lemma OptTtlKept(ttl: u32, c: u16, options: bytes)
    ensures OptTtl(OptFrom(c, ttl, options)) == ttl - ttl % 0x8000
  {
    var t := ttl as int;
    var a, b := t / 0x8000, t / 0x1_0000;
    assert t / 0x1_0000 == a / 2;
    assert t / 0x100_0000 == b / 0x100;
  }

  lemma OptFieldsKept(opt: OptRecord)
    ensures OptFrom(opt.udpPayloadSize, OptTtl(opt), opt.options) == opt
    ensures OptTtl(opt) % 0x8000 == 0
  {
    var hi, lo := opt.extendedRcode as int, opt.version as int;
    var d := if opt.doFlag then 1 else 0;
    var t := OptTtl(opt) as int;
    assert t == ((hi * 0x100 + lo) * 2 + d) * 0x8000;
    assert t / 0x8000 == (hi * 0x100 + lo) * 2 + d;
    assert t / 0x1_0000 == hi * 0x100 + lo;
    assert t / 0x100_0000 == hi;
  }

  // The fields of a written record, read back one after the other.
  lemma FixedReadBack(msg: bytes, pos: nat, t: u16, c: u16, ttl: u32, data: bytes)
    requires At(msg, pos, FixedBytes(t, c, ttl, data))
    ensures U16At(msg, pos) == Ok((t, pos + 2)) && U16At(msg, pos + 2) == Ok((c, pos + 4))
    ensures U32At(msg, pos + 4) == Ok((ttl, pos + 8))
    ensures U16At(msg, pos + 8) == Ok((|data| % 0x1_0000, pos + 10))
    ensures At(msg, pos + 10, data) && |FixedBytes(t, c, ttl, data)| == 10 + |data|
  {
    hide U16At, U32At, U16Bytes, U32Bytes, At;
    var z := U16Bytes(|data| % 0x1_0000) + data;
    var y := U32Bytes(ttl) + z;
    U16Then(msg, pos, t, U16Bytes(c) + y);
    U16Then(msg, pos + 2, c, y);
    U32Then(msg, pos + 4, ttl, z);
    U16Then(msg, pos + 8, |data| % 0x1_0000, data);
  }

  // The data read behind the fields of a written record.
  function WrittenDataAt(msg: bytes, pos: nat, r: ResourceRecord): Result<(RData, nat)> {
    DataAt(RecordType.FromU16(r.rrType.AsU16()), ClassField(r), TtlField(r), |RDataBytes(r.rdata)| % 0x1_0000, msg, pos)
  }

  function WithFields(r: ResourceRecord, d: Result<(RData, nat)>): Result<(ResourceRecord, nat)> {
    match d
    case Err(e) => Err(e)
    case Ok(v) =>
      Ok((ResourceRecord(r.name, RecordType.FromU16(r.rrType.AsU16()), RecordClass.FromU16(ClassField(r)),
                         TtlField(r), v.0),
          v.1))
  }

  // Reading a written record: its own type, class field, TTL field and length
  // field, and whatever the data read gives.
  lemma RecordReadBack(msg: bytes, pos: nat, r: ResourceRecord)
    requires At(msg, pos, RecordBytes(r))
    ensures var p := pos + |NameBytes(r.name)| + 10;
            At(msg, p, RDataBytes(r.rdata)) && pos + |RecordBytes(r)| == p + |RDataBytes(r.rdata)|
    ensures RecordAt(msg, pos) == WithFields(r, WrittenDataAt(msg, pos + |NameBytes(r.name)| + 10, r))
  {
    hide ReadNameAt, NameBytes, U16At, U32At, At, RDataBytes, DataAt, FixedBytes, ClassField, TtlField;
    var data := RDataBytes(r.rdata);
    NameThen(msg, pos, r.name, FixedBytes(r.rrType.AsU16(), ClassField(r), TtlField(r), data));
    FixedReadBack(msg, pos + |NameBytes(r.name)|, r.rrType.AsU16(), ClassField(r), TtlField(r), data);
  }

  lemma ReadRecordIsDecoded(msg: bytes, pos: nat)
    requires RecordAt(msg, pos).Ok?
    ensures DecodedRecord(RecordAt(msg, pos).value.0)
    ensures pos < RecordAt(msg, pos).value.1 <= |msg|
  {
    hide ReadNameAt, RDataAt, WfRData, RecordType.FromU16, RecordClass.FromU16;
    var (name, p1) := ReadNameAt(msg, pos).value;
    var (t, p2) := U16At(msg, p1).value;
    var (c, p3) := U16At(msg, p2).value;
    var (ttl, p4) := U32At(msg, p3).value;
    var (rdlength, p5) := U16At(msg, p4).value;
    DataIsDecoded(RecordType.FromU16(t), c, ttl, rdlength, msg, p5);
  }

  lemma DataIsDecoded(t: RecordType, c: u16, ttl: u32, rdlength: u16, msg: bytes, pos: nat)
    requires DataAt(t, c, ttl, rdlength, msg, pos).Ok?
    ensures var (rd, p) := DataAt(t, c, ttl, rdlength, msg, pos).value;
            && WfRData(rd, t) && pos <= p <= |msg|
            && (rd.OPT? <==> t == RecordType.OPT)
            && (rd.OPT? ==> rd.opt == OptFrom(c, ttl, rd.opt.options))
  {
    hide RDataAt;
    if t != RecordType.OPT {
      ReadRDataIsWf(t, rdlength, msg, pos);
    }
  }

  lemma WfOptReadsBack(msg: bytes, pos: nat, r: ResourceRecord)
    requires WfRecord(r) && r.rdata.OPT? && At(msg, pos, RDataBytes(r.rdata))
    ensures TtlField(r) == r.ttl && RecordClass.FromU16(ClassField(r)) == r.rrClass
    ensures DataAt(r.rrType, ClassField(r), TtlField(r), |RDataBytes(r.rdata)|, msg, pos)
            == Ok((r.rdata, pos + |RDataBytes(r.rdata)|))
  {
    hide RecordClass.FromU16;
    OptTtlKept(r.ttl, r.rdata.opt.udpPayloadSize, r.rdata.opt.options);
    OptFieldsKept(r.rdata.opt);
  }

  lemma WfDataReadsBack(msg: bytes, pos: nat, r: ResourceRecord)
    requires WfRData(r.rdata, r.rrType) && !r.rdata.OPT? && DataFits(r) && At(msg, pos, RDataBytes(r.rdata))
    ensures RDataAt(r.rrType, |RDataBytes(r.rdata)|, msg, pos) == Ok((r.rdata, pos + |RDataBytes(r.rdata)|))
  {
    hide BodyAt, RDataBytes;
    BodyReadBack(r.rrType, r.rdata, msg, pos);
  }

  // What the fields of a well-formed record read back as.
  lemma WfFields(msg: bytes, pos: nat, r: ResourceRecord)
    requires WfRecord(r) && At(msg, pos, RDataBytes(r.rdata))
    ensures RecordType.FromU16(r.rrType.AsU16()) == r.rrType
    ensures RecordClass.FromU16(ClassField(r)) == r.rrClass && TtlField(r) == r.ttl
    ensures WrittenDataAt(msg, pos, r) == Ok((r.rdata, pos + |RDataBytes(r.rdata)|))
  {
    hide RDataAt, RDataBytes, OptTtl, OptFrom;
    hide RecordType.FromU16, RecordType.AsU16, RecordClass.FromU16, RecordClass.AsU16;
    TypesRoundTrip(r.rrType, QType.All);
    ClassesRoundTrip(r.rrClass, QClass.Any);
    if r.rdata.OPT? {
      WfOptReadsBack(msg, pos, r);
    } else {
      WfDataReadsBack(msg, pos, r);
    }
  }

  // A well-formed record reads back as itself, and the cursor ends after it.
  lemma WfRecordReadsBack(msg: bytes, pos: nat, r: ResourceRecord)
    requires WfRecord(r) && At(msg, pos, RecordBytes(r))
    ensures RecordAt(msg, pos) == Ok((r, pos + |RecordBytes(r)|))
  {
    hide RecordAt, RecordBytes, RDataBytes, NameBytes, WfRecord, WrittenDataAt, TtlField, ClassField;
    hide RecordType.FromU16, RecordType.AsU16, RecordClass.FromU16, At;
    RecordReadBack(msg, pos, r);
    WfFields(msg, pos + |NameBytes(r.name)| + 10, r);
  }

  // Reading data back from its own bytes means it fits the length field.
  lemma ReadBackDataFits(msg: bytes, pos: nat, r: ResourceRecord)
    requires At(msg, pos, RDataBytes(r.rdata)) && DecodedRecord(r)
    requires WrittenDataAt(msg, pos, r).Ok? && WrittenDataAt(msg, pos, r).value.0 == r.rdata
    ensures DataFits(r)
  {
    hide RDataAt, RecordType.FromU16, RecordType.AsU16, RecordClass.FromU16, OptTtl;
    TypesRoundTrip(r.rrType, QType.All);
    if !r.rdata.OPT? {
      BodyReadBackFits(r.rrType, r.rdata, msg, pos);
    }
  }

  // Only a well-formed record reads back as itself.
  lemma ReadBackRecordIsWf(msg: bytes, pos: nat, r: ResourceRecord)
    requires At(msg, pos, RecordBytes(r))
    requires RecordAt(msg, pos).Ok? && RecordAt(msg, pos).value.0 == r
    ensures WfRecord(r)
  {
    hide RecordAt, RecordBytes, RDataBytes, NameBytes, DecodedRecord, WrittenDataAt, DataFits, At;
    hide RecordType.FromU16, RecordType.AsU16, RecordClass.FromU16, OptTtl;
    RecordReadBack(msg, pos, r);
    ReadRecordIsDecoded(msg, pos);
    ReadBackDataFits(msg, pos + |NameBytes(r.name)| + 10, r);
    if r.rdata.OPT? {
      OptFieldsKept(r.rdata.opt);
    }
  }

  // ---------- reading records with a cursor ----------

  method ReadSoa(reader: WireReader) returns (r: Result<SoaRecord>)
    requires reader.Valid()
    modifies reader`pos
    ensures reader.Valid()
    ensures Reads(r, SoaAt(reader.buf, old(reader.pos)), reader.pos)
  {
    hide ReadNameAt, U32At;
    var mname :- ReadName(reader);
    var rname :- ReadName(reader);
    var serial :- reader.ReadU32();
    var refresh :- reader.ReadU32();
    var retry :- reader.ReadU32();
    var expire :- reader.ReadU32();
    var minimum :- reader.ReadU32();
    return Ok(SoaRecord(mname, rname, serial, refresh, retry, expire, minimum));
  }

  method ReadMx(reader: WireReader) returns (r: Result<MxRecord>)
    requires reader.Valid()
    modifies reader`pos
    ensures reader.Valid()
    ensures Reads(r, MxAt(reader.buf, old(reader.pos)), reader.pos)
  {
    hide ReadNameAt, U16At;
    var preference :- reader.ReadU16();
    var exchange :- ReadName(reader);
    return Ok(MxRecord(preference, exchange));
  }

  method ReadSrv(reader: WireReader) returns (r: Result<SrvRecord>)
    requires reader.Valid()
    modifies reader`pos
    ensures reader.Valid()
    ensures Reads(r, SrvAt(reader.buf, old(reader.pos)), reader.pos)
  {
    hide ReadNameAt, U16At;
    var priority :- reader.ReadU16();
    var weight :- reader.ReadU16();
    var port :- reader.ReadU16();
    var target :- ReadName(reader);
    return Ok(SrvRecord(priority, weight, port, target));
  }

  method ReadSvcb(reader: WireReader, rdataEnd: nat) returns (r: Result<SvcbRecord>)
    requires reader.Valid()
    modifies reader`pos
    ensures reader.Valid()
    ensures Reads(r, SvcbAt(reader.buf, old(reader.pos), rdataEnd), reader.pos)
  {
    hide ReadNameAt, U16At;
    var priority :- reader.ReadU16();
    var target :- ReadName(reader);
    var remaining := if reader.pos <= rdataEnd then rdataEnd - reader.pos else 0;
    var svcParams :- reader.ReadBytes(remaining);
    return Ok(SvcbRecord(priority, target, svcParams));
  }

  method ReadTxt(reader: WireReader, rdataEnd: nat) returns (r: Result<seq<bytes>>)
    requires reader.Valid()
    modifies reader`pos
    ensures reader.Valid()
    ensures Reads(r, TxtFrom(reader.buf, old(reader.pos), rdataEnd, []), reader.pos)
  {
    var strings: seq<bytes> := [];
    while reader.pos < rdataEnd
      invariant reader.Valid()
      invariant TxtFrom(reader.buf, old(reader.pos), rdataEnd, []) == TxtFrom(reader.buf, reader.pos, rdataEnd, strings)
      decreases |reader.buf| - reader.pos
    {
      var len :- reader.ReadU8();
      var data :- reader.ReadBytes(len);
      strings := strings + [data];
    }
    return Ok(strings);
  }

  method ReadBody(t: RecordType, rdlength: u16, reader: WireReader) returns (r: Result<RData>)
    requires reader.Valid()
    modifies reader`pos
    ensures reader.Valid()
    ensures Reads(r, BodyAt(t, rdlength, reader.buf, old(reader.pos)), reader.pos)
  {
    hide ReadNameAt, MxAt, SoaAt, SrvAt, SvcbAt, TxtFrom, BytesAt;
    match t
    case A =>
      if rdlength != 4 {
        return Err(MalformedRData(1));
      }
      var octets :- reader.ReadBytes(4);
      return Ok(RData.A(octets));
    case AAAA =>
      if rdlength != 16 {
        return Err(MalformedRData(28));
      }
      var octets :- reader.ReadBytes(16);
      return Ok(RData.AAAA(octets));
    case CNAME =>
      var n :- ReadName(reader);
      return Ok(RData.CNAME(n));
    case NS =>
      var n :- ReadName(reader);
      return Ok(RData.NS(n));
    case PTR =>
      var n :- ReadName(reader);
      return Ok(RData.PTR(n));
    case MX =>
      var mx :- ReadMx(reader);
      return Ok(RData.MX(mx));
    case SOA =>
      var soa :- ReadSoa(reader);
      return Ok(RData.SOA(soa));
    case TXT =>
      var strings :- ReadTxt(reader, reader.pos + rdlength as int);
      return Ok(RData.TXT(strings));
    case SRV =>
      var srv :- ReadSrv(reader);
      return Ok(RData.SRV(srv));
    case SVCB =>
      var svcb :- ReadSvcb(reader, reader.pos + rdlength as int);
      return Ok(RData.SVCB(svcb));
    case HTTPS =>
      var svcb :- ReadSvcb(reader, reader.pos + rdlength as int);
      return Ok(RData.HTTPS(svcb));
    case OPT =>
      var options :- reader.ReadBytes(rdlength);
      return Ok(RData.OPT(OptRecord(0, 0, 0, false, options)));
    case Unknown(code) =>
      var data :- reader.ReadBytes(rdlength);
      return Ok(RData.Unknown(code, data));
  }

  method ReadRData(t: RecordType, rdlength: u16, reader: WireReader) returns (r: Result<RData>)
    requires reader.Valid()
    modifies reader`pos
    ensures reader.Valid()
    ensures Reads(r, RDataAt(t, rdlength, reader.buf, old(reader.pos)), reader.pos)
  {
    hide BodyAt;
    var startPos := reader.pos;
    var rdataEnd := startPos + rdlength as int;
    if rdataEnd > |reader.buf| {
      return Err(RdLengthExceedsBuffer(rdlength, |reader.buf| - reader.pos));
    }
    var rdata :- ReadBody(t, rdlength, reader);
    if reader.pos < rdataEnd {
      var _ := reader.ReadBytes(rdataEnd - reader.pos);
    }
    return Ok(rdata);
  }

  method ReadRecord(reader: WireReader) returns (r: Result<ResourceRecord>)
    requires reader.Valid()
    modifies reader`pos
    ensures reader.Valid()
    ensures Reads(r, RecordAt(reader.buf, old(reader.pos)), reader.pos)
  {
    hide ReadNameAt, U16At, U32At, RDataAt, RecordType.FromU16, RecordClass.FromU16;
    var name :- ReadName(reader);
    var t :- reader.ReadU16();
    var c :- reader.ReadU16();
    var ttl :- reader.ReadU32();
    var rdlength :- reader.ReadU16();
    var rrType := RecordType.FromU16(t);
    if rrType == RecordType.OPT {
      var options :- reader.ReadBytes(rdlength);
      return Ok(ResourceRecord(name, rrType, RecordClass.FromU16(c), ttl, RData.OPT(OptFrom(c, ttl, options))));
    }
    var rdata :- ReadRData(rrType, rdlength, reader);
    return Ok(ResourceRecord(name, rrType, RecordClass.FromU16(c), ttl, rdata));
  }

  // ---------- writing records ----------

  method WriteSoa(s: SoaRecord, writer: WireWriter)
    modifies writer
    ensures writer.buf == old(writer.buf) + SoaBytes(s)
  {
    hide NameBytes, U32Bytes;
    WriteNameUncompressed(s.mname, writer);
    WriteNameUncompressed(s.rname, writer);
    writer.WriteU32(s.serial);
    writer.WriteU32(s.refresh);
    writer.WriteU32(s.retry);
    writer.WriteU32(s.expire);
    writer.WriteU32(s.minimum);
    Assoc7(old(writer.buf) + NameBytes(s.mname), NameBytes(s.rname), U32Bytes(s.serial), U32Bytes(s.refresh),
           U32Bytes(s.retry), U32Bytes(s.expire), U32Bytes(s.minimum));
    Assoc(old(writer.buf), NameBytes(s.mname),
          NameBytes(s.rname) + (U32Bytes(s.serial) + (U32Bytes(s.refresh)
            + (U32Bytes(s.retry) + (U32Bytes(s.expire) + U32Bytes(s.minimum))))));
  }

  method WriteTxt(strings: seq<bytes>, writer: WireWriter)
    modifies writer
    ensures writer.buf == old(writer.buf) + TxtBytes(strings)
  {
    assert strings[0..] == strings;
    for i := 0 to |strings|
      invariant old(writer.buf) + TxtBytes(strings) == writer.buf + TxtBytes(strings[i..])
    {
      DropOne(strings, i);
      ghost var before := writer.buf;
      var s := strings[i];
      writer.WriteU8(|s| % 0x100);
      writer.WriteBytes(s);
      Assoc4(before, [(|s| % 0x100) as byte], s, TxtBytes(strings[i + 1..]));
      Assoc([(|s| % 0x100) as byte], s, TxtBytes(strings[i + 1..]));
    }
    assert writer.buf + [] == writer.buf;
  }

  method WriteRData(rd: RData, writer: WireWriter) returns (written: nat)
    modifies writer
    ensures writer.buf == old(writer.buf) + RDataBytes(rd)
    ensures written == |RDataBytes(rd)|
  {
    hide NameBytes, SoaBytes, TxtBytes, U16Bytes;
    var start := |writer.buf|;
    match rd {
      case A(ip) => writer.WriteBytes(ip);
      case AAAA(ip) => writer.WriteBytes(ip);
      case CNAME(n) => WriteNameUncompressed(n, writer);
      case NS(n) => WriteNameUncompressed(n, writer);
      case PTR(n) => WriteNameUncompressed(n, writer);
      case MX(mx) =>
        writer.WriteU16(mx.preference);
        WriteNameUncompressed(mx.exchange, writer);
        Assoc(old(writer.buf), U16Bytes(mx.preference), NameBytes(mx.exchange));
      case SOA(soa) => WriteSoa(soa, writer);
      case TXT(strings) => WriteTxt(strings, writer);
      case SRV(srv) =>
        writer.WriteU16(srv.priority);
        writer.WriteU16(srv.weight);
        writer.WriteU16(srv.port);
        WriteNameUncompressed(srv.target, writer);
        Assoc5(old(writer.buf), U16Bytes(srv.priority), U16Bytes(srv.weight), U16Bytes(srv.port),
               NameBytes(srv.target));
      case SVCB(svcb) => WriteSvcb(svcb, writer);
      case HTTPS(svcb) => WriteSvcb(svcb, writer);
      case OPT(opt) => writer.WriteBytes(opt.options);
      case Unknown(_, data) => writer.WriteBytes(data);
    }
    written := |writer.buf| - start;
  }

  method WriteSvcb(s: SvcbRecord, writer: WireWriter)
    modifies writer
    ensures writer.buf == old(writer.buf) + SvcbBytes(s)
  {
    hide NameBytes, U16Bytes;
    writer.WriteU16(s.priority);
    WriteNameUncompressed(s.target, writer);
    writer.WriteBytes(s.svcParams);
    Assoc4(old(writer.buf), U16Bytes(s.priority), NameBytes(s.target), s.svcParams);
  }

  // RDLENGTH is reserved first and patched once the data is there.
  method WriteRecord(r: ResourceRecord, writer: WireWriter)
    modifies writer
    ensures writer.buf == old(writer.buf) + RecordBytes(r)
  {
    hide NameBytes, U32Bytes, RecordType.AsU16, RecordClass.AsU16;
    ghost var data := RDataBytes(r.rdata);
    WriteNameUncompressed(r.name, writer);
    writer.WriteU16(r.rrType.AsU16());
    if r.rdata.OPT? {
      var opt := r.rdata.opt;
      writer.WriteU16(opt.udpPayloadSize);
      writer.WriteU32(OptTtl(opt));
      writer.WriteU16(|opt.options| % 0x1_0000);
      writer.WriteBytes(opt.options);
    } else {
      writer.WriteU16(r.rrClass.AsU16());
      writer.WriteU32(r.ttl);
      var rdlenPos := |writer.buf|;
      ghost var before := writer.buf;
      writer.WriteU16(0);
      var written := WriteRData(r.rdata, writer);
      writer.PatchU16(rdlenPos, written % 0x1_0000);
      Patched(before, U16Bytes(0), U16Bytes(|data| % 0x1_0000), data);
    }
    Assoc6(old(writer.buf) + NameBytes(r.name), U16Bytes(r.rrType.AsU16()), U16Bytes(ClassField(r)),
           U32Bytes(TtlField(r)), U16Bytes(|data| % 0x1_0000), data);
    Assoc(old(writer.buf), NameBytes(r.name),
          FixedBytes(r.rrType.AsU16(), ClassField(r), TtlField(r), data));
  }

  lemma Patched(before: bytes, placeholder: bytes, length: bytes, data: bytes)
    requires |placeholder| == 2
    ensures var buf := before + placeholder + data;
            buf[..|before|] + length + buf[|before| + 2..] == before + length + data
  {
    var buf := before + placeholder + data;
    assert buf[..|before|] == before && buf[|before| + 2..] == data;
  }
}

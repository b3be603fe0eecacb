// Where each field of a message stands and which number stands for what: the
// readers against literal offsets and numbers (sections 3.2, 3.3 and 4.1 of RFC
// 1035, section 6.1 of RFC 6891, section 2.2 of RFC 9460).

module WireForm {
  import opened Types
  import opened Wire
  import opened Names
  import opened NameRead
  import opened RecordTypes
  import opened Header
  import opened Records
  import opened Message

  // ---------- numbers ----------

  function Num16(msg: bytes, pos: nat): (x: u16)
    requires pos + 2 <= |msg|
  {
    msg[pos] as int * 256 + msg[pos + 1] as int
  }

  function Num32(msg: bytes, pos: nat): (x: u32)
    requires pos + 4 <= |msg|
  {
    msg[pos] as int * 16777216 + msg[pos + 1] as int * 65536 + msg[pos + 2] as int * 256 + msg[pos + 3] as int
  }

  // Numbers are read and written with the highest byte first; a read that does
  // not fit tells what it needed and what there was.
  lemma NumbersAreRead(msg: bytes, pos: nat)
    ensures U8At(msg, pos) == if pos < |msg| then Ok((msg[pos], pos + 1)) else Err(BufferUnderflow(1, 0))
    ensures pos + 2 <= |msg| ==> U16At(msg, pos) == Ok((Num16(msg, pos), pos + 2))
    ensures pos <= |msg| < pos + 2 ==> U16At(msg, pos) == Err(BufferUnderflow(2, |msg| - pos))
    ensures pos + 4 <= |msg| ==> U32At(msg, pos) == Ok((Num32(msg, pos), pos + 4))
    ensures pos <= |msg| < pos + 4 ==> U32At(msg, pos) == Err(BufferUnderflow(4, |msg| - pos))
  {
  }

  lemma NumbersAreWritten(x: u16, y: u32)
    ensures U16Bytes(x) == [x / 256, x % 256]
    ensures U32Bytes(y) == [y / 16777216, y / 65536 % 256, y / 256 % 256, y % 256]
  {
    FourBytes(y);
    U32BytesInverse(y, y / 16777216, y / 65536 % 256, y / 256 % 256, y % 256);
  }

  lemma FourBytes(y: u32)
    ensures U32Of(y / 16777216, y / 65536 % 256, y / 256 % 256, y % 256) == y
  {
    var p, q, r := y / 256, y / 65536, y / 16777216;
    assert q == p / 256 && r == q / 256;
  }

  lemma BytesAreRead(msg: bytes, pos: nat, len: nat)
    ensures pos + len <= |msg| ==> BytesAt(msg, pos, len) == Ok((msg[pos..pos + len], pos + len))
    ensures pos <= |msg| < pos + len ==> BytesAt(msg, pos, len) == Err(BufferUnderflow(len, |msg| - pos))
  {
  }

  // ---------- codes ----------

  lemma TypeNumbers()
    ensures RecordType.FromU16(1) == RecordType.A && RecordType.A.AsU16() == 1
    ensures RecordType.FromU16(2) == RecordType.NS && RecordType.NS.AsU16() == 2
    ensures RecordType.FromU16(5) == RecordType.CNAME && RecordType.CNAME.AsU16() == 5
    ensures RecordType.FromU16(6) == RecordType.SOA && RecordType.SOA.AsU16() == 6
    ensures RecordType.FromU16(12) == RecordType.PTR && RecordType.PTR.AsU16() == 12
    ensures RecordType.FromU16(15) == RecordType.MX && RecordType.MX.AsU16() == 15
    ensures RecordType.FromU16(16) == RecordType.TXT && RecordType.TXT.AsU16() == 16
    ensures RecordType.FromU16(28) == RecordType.AAAA && RecordType.AAAA.AsU16() == 28
    ensures RecordType.FromU16(33) == RecordType.SRV && RecordType.SRV.AsU16() == 33
    ensures RecordType.FromU16(41) == RecordType.OPT && RecordType.OPT.AsU16() == 41
    ensures RecordType.FromU16(64) == RecordType.SVCB && RecordType.SVCB.AsU16() == 64
    ensures RecordType.FromU16(65) == RecordType.HTTPS && RecordType.HTTPS.AsU16() == 65
  {
  }

  lemma OtherTypeNumbers(v: u16)
    ensures v !in {1, 2, 5, 6, 12, 15, 16, 28, 33, 41, 64, 65} <==> RecordType.FromU16(v) == RecordType.Unknown(v)
    ensures RecordType.FromU16(v).Unknown? ==> RecordType.FromU16(v).code == v
    ensures v !in {252, 253, 254, 255} <==> QType.FromU16(v) == QType.Type(RecordType.FromU16(v))
    ensures v !in {1, 3, 4} <==> RecordClass.FromU16(v) == RecordClass.Unknown(v)
    ensures v != 255 <==> QClass.FromU16(v) == QClass.Class(RecordClass.FromU16(v))
  {
  }

  lemma QueryAndClassNumbers()
    ensures QType.FromU16(252) == QType.Axfr && QType.Axfr.AsU16() == 252
    ensures QType.FromU16(253) == QType.Mailb && QType.Mailb.AsU16() == 253
    ensures QType.FromU16(254) == QType.Maila && QType.Maila.AsU16() == 254
    ensures QType.FromU16(255) == QType.All && QType.All.AsU16() == 255
    ensures RecordClass.FromU16(1) == RecordClass.In && RecordClass.In.AsU16() == 1
    ensures RecordClass.FromU16(3) == RecordClass.Ch && RecordClass.Ch.AsU16() == 3
    ensures RecordClass.FromU16(4) == RecordClass.Hs && RecordClass.Hs.AsU16() == 4
    ensures QClass.FromU16(255) == QClass.Any && QClass.Any.AsU16() == 255
  {
  }

  // Every operation and response code by its number.
  function OpNumber(o: OpCode): nat {
    match o
    case Query => 0
    case IQuery => 1
    case Status => 2
    case Notify => 4
    case Update => 5
    case Unknown(c) => (c & 0x0F) as nat
  }

  function RcodeNumber(r: ResponseCode): nat {
    match r
    case NoError => 0
    case FormErr => 1
    case ServFail => 2
    case NXDomain => 3
    case NotImp => 4
    case Refused => 5
    case Unknown(c) => c as nat
  }

  lemma CodeNumbers(o: OpCode, r: ResponseCode)
    ensures o.AsU8() as nat == OpNumber(o) && r.AsU8() as nat == RcodeNumber(r)
    ensures OpCode.FromU8(0) == OpCode.Query && OpCode.FromU8(1) == OpCode.IQuery && OpCode.FromU8(2) == OpCode.Status
    ensures OpCode.FromU8(4) == OpCode.Notify && OpCode.FromU8(5) == OpCode.Update
    ensures ResponseCode.FromU8(0) == NoError && ResponseCode.FromU8(1) == FormErr
    ensures ResponseCode.FromU8(2) == ServFail && ResponseCode.FromU8(3) == NXDomain
    ensures ResponseCode.FromU8(4) == NotImp && ResponseCode.FromU8(5) == Refused
  {
  }

  // ---------- the header ----------

  // The flag word as a number: QR, four bits of operation, AA, TC, RD, RA, three
  // reserved bits, and four bits of response code, from the top down.
  lemma FlagBits(w: bv16)
    ensures UnpackFlags(w) ==
            Flags(w / 0x8000 == 1, OpCode.FromU8((w / 0x800 % 16) as bv8), w / 0x400 % 2 == 1, w / 0x200 % 2 == 1,
                  w / 0x100 % 2 == 1, w / 0x80 % 2 == 1, (w / 0x10 % 8) as bv8, ResponseCode.FromU8((w % 16) as bv8))
  {
    hide OpCode.FromU8, ResponseCode.FromU8;
  }

  // The twelve header bytes: id, flag word, and the four counts in order.
  lemma HeaderByOffsets(msg: bytes, pos: nat)
    requires pos + 12 <= |msg|
    ensures HeaderAt(msg, pos) ==
            Ok((DnsHeader(Num16(msg, pos), UnpackFlags(Num16(msg, pos + 2) as bv16), Num16(msg, pos + 4),
                          Num16(msg, pos + 6), Num16(msg, pos + 8), Num16(msg, pos + 10)), pos + 12))
  {
    hide UnpackFlags;
  }

  // ---------- questions ----------

  lemma QuestionByOffsets(msg: bytes, pos: nat, n: Name, p: nat)
    requires ReadNameAt(msg, pos) == Ok((n, p)) && p + 4 <= |msg|
    ensures QuestionAt(msg, pos) ==
            Ok((DnsQuestion(n, QType.FromU16(Num16(msg, p)), QClass.FromU16(Num16(msg, p + 2))), p + 4))
  {
    hide ReadNameAt, QType.FromU16, QClass.FromU16;
  }

  // ---------- records ----------

  // A record's name, then its type, class, TTL and data length, up to its data at `p`.
  predicate RecordHead(msg: bytes, pos: nat, n: Name, t: u16, c: u16, ttl: u32, len: u16, p: nat) {
    && p >= 10 && p + len as int <= |msg| && ReadNameAt(msg, pos) == Ok((n, p - 10))
    && Num16(msg, p - 10) == t && Num16(msg, p - 8) == c && Num32(msg, p - 6) == ttl && Num16(msg, p - 2) == len
  }

  // The cursor skips to the end of the data unless a name in it ran past that.
  function Past(q: nat, end: nat): nat {
    if q < end then end else q
  }

  // The record with this type and data, and the cursor after it.
  function Read(n: Name, t: RecordType, c: u16, ttl: u32, rd: RData, p: nat): Result<(ResourceRecord, nat)> {
    Ok((ResourceRecord(n, t, RecordClass.FromU16(c), ttl, rd), p))
  }

  lemma HeadIsRead(msg: bytes, pos: nat, n: Name, t: u16, c: u16, ttl: u32, len: u16, p: nat)
    requires RecordHead(msg, pos, n, t, c, ttl, len, p)
    ensures RecordAt(msg, pos) ==
            match DataAt(RecordType.FromU16(t), c, ttl, len, msg, p)
            case Err(e) => Err(e)
            case Ok(v) => Read(n, RecordType.FromU16(t), c, ttl, v.0, v.1)
  {
    hide ReadNameAt, DataAt, RecordType.FromU16, RecordClass.FromU16, U16At, U32At;
    NumbersAreRead(msg, p - 10);
    NumbersAreRead(msg, p - 8);
    NumbersAreRead(msg, p - 6);
    NumbersAreRead(msg, p - 2);
  }

  // Addresses: four bytes under type 1, sixteen under type 28, any other length refused.
  lemma AddressRecords(msg: bytes, pos: nat, n: Name, t: u16, c: u16, ttl: u32, len: u16, p: nat)
    requires RecordHead(msg, pos, n, t, c, ttl, len, p)
    ensures t == 1 && len == 4 ==> RecordAt(msg, pos) == Read(n, RecordType.A, c, ttl, RData.A(msg[p..p + 4]), p + 4)
    ensures t == 1 && len != 4 ==> RecordAt(msg, pos) == Err(MalformedRData(1))
    ensures t == 28 && len == 16 ==>
              RecordAt(msg, pos) == Read(n, RecordType.AAAA, c, ttl, RData.AAAA(msg[p..p + 16]), p + 16)
    ensures t == 28 && len != 16 ==> RecordAt(msg, pos) == Err(MalformedRData(28))
  {
    hide ReadNameAt, RecordAt, RecordHead, RecordClass.FromU16;
    HeadFits(msg, pos, n, t, c, ttl, len, p);
    HeadIsRead(msg, pos, n, t, c, ttl, len, p);
  }

  lemma HeadFits(msg: bytes, pos: nat, n: Name, t: u16, c: u16, ttl: u32, len: u16, p: nat)
    requires RecordHead(msg, pos, n, t, c, ttl, len, p)
    ensures p + len as int <= |msg|
  {
  }

  // A name under type 2, 5 or 12.
  lemma NameRecords(msg: bytes, pos: nat, n: Name, t: u16, c: u16, ttl: u32, len: u16, p: nat, target: Name, q: nat)
    requires RecordHead(msg, pos, n, t, c, ttl, len, p)
    requires ReadNameAt(msg, p) == Ok((target, q))
    ensures var end := Past(q, p + len as int);
            && (t == 2 ==> RecordAt(msg, pos) == Read(n, RecordType.NS, c, ttl, RData.NS(target), end))
            && (t == 5 ==> RecordAt(msg, pos) == Read(n, RecordType.CNAME, c, ttl, RData.CNAME(target), end))
            && (t == 12 ==> RecordAt(msg, pos) == Read(n, RecordType.PTR, c, ttl, RData.PTR(target), end))
  {
    hide ReadNameAt, RecordAt, RecordHead, RecordClass.FromU16;
    HeadFits(msg, pos, n, t, c, ttl, len, p);
    HeadIsRead(msg, pos, n, t, c, ttl, len, p);
  }

  // A 16-bit preference and a name under type 15.
  lemma MxRecords(msg: bytes, pos: nat, n: Name, c: u16, ttl: u32, len: u16, p: nat, x: Name, q: nat)
    requires RecordHead(msg, pos, n, 15, c, ttl, len, p)
    requires p + 2 <= |msg| && ReadNameAt(msg, p + 2) == Ok((x, q))
    ensures RecordAt(msg, pos)
            == Read(n, RecordType.MX, c, ttl, RData.MX(MxRecord(Num16(msg, p), x)), Past(q, p + len as int))
  {
    hide ReadNameAt, RecordAt, RecordHead, RecordClass.FromU16;
    HeadFits(msg, pos, n, 15, c, ttl, len, p);
    HeadIsRead(msg, pos, n, 15, c, ttl, len, p);
  }

  // Two names and five 32-bit numbers under type 6: primary server, mailbox,
  // serial, refresh, retry, expire, minimum.
  lemma SoaRecords(msg: bytes, pos: nat, n: Name, c: u16, ttl: u32, len: u16, p: nat,
                   server: Name, q: nat, mailbox: Name, r: nat)
    requires RecordHead(msg, pos, n, 6, c, ttl, len, p)
    requires ReadNameAt(msg, p) == Ok((server, q)) && ReadNameAt(msg, q) == Ok((mailbox, r))
    requires r + 20 <= |msg|
    ensures RecordAt(msg, pos) ==
            Read(n, RecordType.SOA, c, ttl,
                 RData.SOA(SoaRecord(server, mailbox, Num32(msg, r), Num32(msg, r + 4), Num32(msg, r + 8),
                                     Num32(msg, r + 12), Num32(msg, r + 16))), Past(r + 20, p + len as int))
  {
    hide ReadNameAt, RecordAt, RecordHead, RecordClass.FromU16, U32Of;
    HeadFits(msg, pos, n, 6, c, ttl, len, p);
    HeadIsRead(msg, pos, n, 6, c, ttl, len, p);
    SoaIsRead(msg, p, server, q, mailbox, r);
  }

  lemma SoaIsRead(msg: bytes, p: nat, server: Name, q: nat, mailbox: Name, r: nat)
    requires ReadNameAt(msg, p) == Ok((server, q)) && ReadNameAt(msg, q) == Ok((mailbox, r)) && r + 20 <= |msg|
    ensures SoaAt(msg, p) ==
            Ok((SoaRecord(server, mailbox, Num32(msg, r), Num32(msg, r + 4), Num32(msg, r + 8),
                          Num32(msg, r + 12), Num32(msg, r + 16)), r + 20))
  {
    hide ReadNameAt, U32At, Num32;
    NumbersAreRead(msg, r);
    NumbersAreRead(msg, r + 4);
    NumbersAreRead(msg, r + 8);
    NumbersAreRead(msg, r + 12);
    NumbersAreRead(msg, r + 16);
  }

  // Strings of one length byte each under type 16.
  lemma TxtRecords(msg: bytes, pos: nat, n: Name, c: u16, ttl: u32, len: u16, p: nat, a: bytes, b: bytes)
    requires RecordHead(msg, pos, n, 16, c, ttl, len, p)
    requires |a| <= 255 && |b| <= 255 && len as int == 2 + |a| + |b|
    requires At(msg, p, [|a| as byte] + a + ([|b| as byte] + b))
    ensures RecordAt(msg, pos) == Read(n, RecordType.TXT, c, ttl, RData.TXT([a, b]), p + len as int)
  {
    hide ReadNameAt, RecordAt, RecordHead, RecordClass.FromU16, TxtFrom;
    HeadFits(msg, pos, n, 16, c, ttl, len, p);
    HeadIsRead(msg, pos, n, 16, c, ttl, len, p);
    AtSplit(msg, p, [|a| as byte] + a, [|b| as byte] + b);
    OneString(msg, p, a, p + len as int, []);
    OneString(msg, p + 1 + |a|, b, p + len as int, [] + [a]);
    NoMoreStrings(msg, p + len as int, [] + [a] + [b]);
    assert [] + [a] + [b] == [a, b];
  }

  lemma OneString(msg: bytes, p: nat, s: bytes, end: nat, acc: seq<bytes>)
    requires |s| <= 255 && p < end && At(msg, p, [|s| as byte] + s)
    ensures TxtFrom(msg, p, end, acc) == TxtFrom(msg, p + 1 + |s|, end, acc + [s])
  {
    AtSplit(msg, p, [|s| as byte], s);
    AtIndex(msg, p, [|s| as byte], 0);
  }

  lemma NoMoreStrings(msg: bytes, end: nat, acc: seq<bytes>)
    ensures TxtFrom(msg, end, end, acc) == Ok((acc, end))
  {
  }

  // Priority, weight, port and a name under type 33.
  lemma SrvRecords(msg: bytes, pos: nat, n: Name, c: u16, ttl: u32, len: u16, p: nat, target: Name, q: nat)
    requires RecordHead(msg, pos, n, 33, c, ttl, len, p)
    requires p + 6 <= |msg| && ReadNameAt(msg, p + 6) == Ok((target, q))
    ensures RecordAt(msg, pos) ==
            Read(n, RecordType.SRV, c, ttl,
                 RData.SRV(SrvRecord(Num16(msg, p), Num16(msg, p + 2), Num16(msg, p + 4), target)),
                 Past(q, p + len as int))
  {
    hide ReadNameAt, RecordAt, RecordHead, RecordClass.FromU16, U16At, Num16;
    HeadFits(msg, pos, n, 33, c, ttl, len, p);
    HeadIsRead(msg, pos, n, 33, c, ttl, len, p);
    NumbersAreRead(msg, p);
    NumbersAreRead(msg, p + 2);
    NumbersAreRead(msg, p + 4);
  }

  // Priority, a name, and parameters to the end of the data under types 64 and 65.
  lemma SvcbRecords(msg: bytes, pos: nat, n: Name, t: u16, c: u16, ttl: u32, len: u16, p: nat, target: Name, q: nat)
    requires RecordHead(msg, pos, n, t, c, ttl, len, p)
    requires p + 2 <= |msg| && ReadNameAt(msg, p + 2) == Ok((target, q)) && q <= |msg| && p + len as int <= |msg|
    ensures var end := Past(q, p + len as int);
            var v := SvcbRecord(Num16(msg, p), target, msg[q..end]);
            && (t == 64 ==> RecordAt(msg, pos) == Read(n, RecordType.SVCB, c, ttl, RData.SVCB(v), end))
            && (t == 65 ==> RecordAt(msg, pos) == Read(n, RecordType.HTTPS, c, ttl, RData.HTTPS(v), end))
  {
    hide ReadNameAt, RecordAt, RecordHead, RecordClass.FromU16;
    HeadIsRead(msg, pos, n, t, c, ttl, len, p);
  }

  // Under type 41 the class is a payload size and the TTL holds eight bits of
  // response code, eight of version, and the DO bit at the top of the rest.
  lemma OptRecords(msg: bytes, pos: nat, n: Name, c: u16, ttl: u32, len: u16, p: nat)
    requires RecordHead(msg, pos, n, 41, c, ttl, len, p)
    ensures p >= 10 && p + len as int <= |msg|
    ensures RecordAt(msg, pos) ==
            Read(n, RecordType.OPT, c, ttl,
                 RData.OPT(OptRecord(c, msg[p - 6], msg[p - 5], msg[p - 4] >= 128, msg[p..p + len as int])),
                 p + len as int)
  {
    hide ReadNameAt, RecordAt, RecordClass.FromU16;
    HeadIsRead(msg, pos, n, 41, c, ttl, len, p);
    TtlBytes(msg[p - 6], msg[p - 5], msg[p - 4], msg[p - 3]);
  }

  lemma TtlBytes(a: byte, b: byte, c: byte, d: byte)
    ensures var t := a as int * 16777216 + b as int * 65536 + c as int * 256 + d as int;
            && t / 0x100_0000 == a as int && t / 0x1_0000 % 0x100 == b as int
            && (t / 0x8000 % 2 == 1 <==> c >= 128)
  {
    var t := a as int * 16777216 + b as int * 65536 + c as int * 256 + d as int;
    var low := c as int * 256 + d as int;
    assert t / 0x1_0000 == a as int * 256 + b as int;
    assert t / 0x8000 == (a as int * 256 + b as int) * 2 + low / 0x8000;
  }

  // Any other type keeps its number and its data as they are.
  lemma OtherRecords(msg: bytes, pos: nat, n: Name, t: u16, c: u16, ttl: u32, len: u16, p: nat)
    requires RecordHead(msg, pos, n, t, c, ttl, len, p)
    requires t !in {1, 2, 5, 6, 12, 15, 16, 28, 33, 41, 64, 65}
    ensures p + len as int <= |msg|
    ensures RecordAt(msg, pos) ==
            Read(n, RecordType.Unknown(t), c, ttl, RData.Unknown(t, msg[p..p + len as int]), p + len as int)
  {
    hide ReadNameAt, RecordAt, RecordHead, RecordClass.FromU16;
    HeadFits(msg, pos, n, t, c, ttl, len, p);
    HeadIsRead(msg, pos, n, t, c, ttl, len, p);
  }

  // A data length past the end of the message is refused.
  lemma LongDataIsRefused(msg: bytes, pos: nat, n: Name, p: nat)
    requires p >= 10 && p <= |msg| && ReadNameAt(msg, pos) == Ok((n, p - 10))
    requires p + Num16(msg, p - 2) as int > |msg|
    ensures RecordAt(msg, pos) ==
            Err(if Num16(msg, p - 10) == 41 then BufferUnderflow(Num16(msg, p - 2), |msg| - p)
                else RdLengthExceedsBuffer(Num16(msg, p - 2), |msg| - p))
  {
    hide ReadNameAt, BodyAt;
    NumbersAreRead(msg, p - 10);
    NumbersAreRead(msg, p - 8);
    NumbersAreRead(msg, p - 6);
    NumbersAreRead(msg, p - 2);
  }

  // ---------- whole messages ----------

  // These questions stand one behind the other from `pos` to `end`.
  predicate QuestionsStand(msg: bytes, pos: nat, qs: seq<DnsQuestion>, end: nat)
    decreases |qs|
  {
    if qs == [] then pos == end
    else
      && QuestionAt(msg, pos).Ok? && QuestionAt(msg, pos).value.0 == qs[0]
      && QuestionsStand(msg, QuestionAt(msg, pos).value.1, qs[1..], end)
  }

  predicate RecordsStand(msg: bytes, pos: nat, rs: seq<ResourceRecord>, end: nat)
    decreases |rs|
  {
    if rs == [] then pos == end
    else
      && RecordAt(msg, pos).Ok? && RecordAt(msg, pos).value.0 == rs[0]
      && RecordsStand(msg, RecordAt(msg, pos).value.1, rs[1..], end)
  }

  lemma {:induction false} QuestionsFromIff(msg: bytes, pos: nat, qs: seq<DnsQuestion>, acc: seq<DnsQuestion>, end: nat)
    ensures QuestionsFrom(msg, pos, |qs|, acc) == Ok((acc + qs, end)) <==> QuestionsStand(msg, pos, qs, end)
    decreases |qs|
  {
    hide QuestionAt;
    if qs == [] {
      assert acc + qs == acc;
    } else if QuestionAt(msg, pos).Ok? {
      var (q, next) := QuestionAt(msg, pos).value;
      if QuestionsFrom(msg, next, |qs| - 1, acc + [q]).Ok? {
        QuestionsGrow(msg, next, |qs| - 1, acc + [q]);
      }
      if q == qs[0] {
        QuestionsFromIff(msg, next, qs[1..], acc + [q], end);
        assert acc + [q] + qs[1..] == acc + qs;
      } else {
        assert (acc + [q])[|acc|] != (acc + qs)[|acc|];
      }
    }
  }

  lemma {:induction false} QuestionsGrow(msg: bytes, pos: nat, count: nat, acc: seq<DnsQuestion>)
    requires QuestionsFrom(msg, pos, count, acc).Ok?
    ensures acc <= QuestionsFrom(msg, pos, count, acc).value.0
    decreases count
  {
    hide QuestionAt;
    if count > 0 {
      var (q, next) := QuestionAt(msg, pos).value;
      QuestionsGrow(msg, next, count - 1, acc + [q]);
    }
  }

  lemma {:induction false} RecordsFromIff(
    msg: bytes, pos: nat, rs: seq<ResourceRecord>, acc: seq<ResourceRecord>, end: nat)
    ensures RecordsFrom(msg, pos, |rs|, acc) == Ok((acc + rs, end)) <==> RecordsStand(msg, pos, rs, end)
    decreases |rs|
  {
    hide RecordAt;
    if rs == [] {
      assert acc + rs == acc;
    } else if RecordAt(msg, pos).Ok? {
      var (r, next) := RecordAt(msg, pos).value;
      if RecordsFrom(msg, next, |rs| - 1, acc + [r]).Ok? {
        RecordsGrow(msg, next, |rs| - 1, acc + [r]);
      }
      if r == rs[0] {
        RecordsFromIff(msg, next, rs[1..], acc + [r], end);
        assert acc + [r] + rs[1..] == acc + rs;
      } else {
        assert (acc + [r])[|acc|] != (acc + rs)[|acc|];
      }
    }
  }

  lemma {:induction false} RecordsGrow(msg: bytes, pos: nat, count: nat, acc: seq<ResourceRecord>)
    requires RecordsFrom(msg, pos, count, acc).Ok?
    ensures acc <= RecordsFrom(msg, pos, count, acc).value.0
    decreases count
  {
    hide RecordAt;
    if count > 0 {
      var (r, next) := RecordAt(msg, pos).value;
      RecordsGrow(msg, next, count - 1, acc + [r]);
    }
  }

  // The id and flag word of a message, its counts, and its sections one behind
  // the other, the first at offset 12.
  ghost predicate Stands(msg: bytes, m: Message, p1: nat, p2: nat, p3: nat, end: nat)
    requires |msg| >= 12
  {
    && m.header.id == Num16(msg, 0) && m.header.flags == UnpackFlags(Num16(msg, 2) as bv16)
    && m.header.qdcount as int == Num16(msg, 4) as int == |m.questions|
    && m.header.ancount as int == Num16(msg, 6) as int == |m.answers|
    && m.header.nscount as int == Num16(msg, 8) as int == |m.authorities|
    && m.header.arcount as int == Num16(msg, 10) as int == |m.additionals|
    && QuestionsStand(msg, 12, m.questions, p1) && RecordsStand(msg, p1, m.answers, p2)
    && RecordsStand(msg, p2, m.authorities, p3) && RecordsStand(msg, p3, m.additionals, end)
  }

  lemma SectionsStand(msg: bytes, m: Message) returns (p1: nat, p2: nat, p3: nat, end: nat)
    requires SectionsAt(msg, 12, m.header).Ok? && SectionsAt(msg, 12, m.header).value.0 == m
    ensures CountsMatch(m)
    ensures QuestionsStand(msg, 12, m.questions, p1) && RecordsStand(msg, p1, m.answers, p2)
    ensures RecordsStand(msg, p2, m.authorities, p3) && RecordsStand(msg, p3, m.additionals, end)
  {
    hide QuestionsFrom, RecordsFrom, QuestionsStand, RecordsStand, AllDecoded, AllWfQuestions;
    var h := m.header;
    SectionsDecoded(msg, 12, h);
    p1 := QuestionsFrom(msg, 12, h.qdcount, []).value.1;
    p2 := RecordsFrom(msg, p1, h.ancount, []).value.1;
    p3 := RecordsFrom(msg, p2, h.nscount, []).value.1;
    end := RecordsFrom(msg, p3, h.arcount, []).value.1;
    assert [] + m.questions == m.questions && [] + m.answers == m.answers;
    assert [] + m.authorities == m.authorities && [] + m.additionals == m.additionals;
    QuestionsFromIff(msg, 12, m.questions, [], p1);
    RecordsFromIff(msg, p1, m.answers, [], p2);
    RecordsFromIff(msg, p2, m.authorities, [], p3);
    RecordsFromIff(msg, p3, m.additionals, [], end);
  }

  lemma StandingSections(msg: bytes, m: Message, p1: nat, p2: nat, p3: nat, end: nat)
    requires CountsMatch(m)
    requires QuestionsStand(msg, 12, m.questions, p1) && RecordsStand(msg, p1, m.answers, p2)
    requires RecordsStand(msg, p2, m.authorities, p3) && RecordsStand(msg, p3, m.additionals, end)
    ensures SectionsAt(msg, 12, m.header) == Ok((m, end))
  {
    hide QuestionsFrom, RecordsFrom, QuestionsStand, RecordsStand;
    assert [] + m.questions == m.questions && [] + m.answers == m.answers;
    assert [] + m.authorities == m.authorities && [] + m.additionals == m.additionals;
    QuestionsFromIff(msg, 12, m.questions, [], p1);
    RecordsFromIff(msg, p1, m.answers, [], p2);
    RecordsFromIff(msg, p2, m.authorities, [], p3);
    RecordsFromIff(msg, p3, m.additionals, [], end);
  }

  lemma DecodedStands(msg: bytes, m: Message)
    requires Decode(msg) == Ok(m)
    ensures |msg| >= 12 && exists p1, p2, p3, end :: Stands(msg, m, p1, p2, p3, end)
  {
    hide HeaderAt, UnpackFlags, Num16, SectionsAt, QuestionsStand, RecordsStand, AllDecoded, AllWfQuestions;
    HeaderByOffsets(msg, 0);
    SectionsDecoded(msg, 12, HeaderAt(msg, 0).value.0);
    var p1, p2, p3, end := SectionsStand(msg, m);
    assert Stands(msg, m, p1, p2, p3, end);
  }

  lemma StandingDecodes(msg: bytes, m: Message, p1: nat, p2: nat, p3: nat, end: nat)
    requires |msg| >= 12 && Stands(msg, m, p1, p2, p3, end)
    ensures Decode(msg) == Ok(m)
  {
    hide HeaderAt, UnpackFlags, Num16, SectionsAt, QuestionsStand, RecordsStand;
    HeaderByOffsets(msg, 0);
    StandingSections(msg, m, p1, p2, p3, end);
    assert HeaderAt(msg, 0).value.0 == m.header;
  }

  lemma ShortMessage(msg: bytes)
    requires |msg| < 12
    ensures Decode(msg) == Err(BufferUnderflow(12, |msg|))
  {
  }

  // Whatever its names' compression, a message decodes to exactly what stands in it:
  // as many questions, answers, authority records and additional records, in this
  // order, as the counts at offsets 4, 6, 8 and 10 say.
  lemma DecodeIff(msg: bytes, m: Message)
    ensures Decode(msg) == Ok(m) <==> |msg| >= 12 && exists p1, p2, p3, end :: Stands(msg, m, p1, p2, p3, end)
    ensures |msg| < 12 ==> Decode(msg) == Err(BufferUnderflow(12, |msg|))
  {
    hide Decode, Stands;
    if |msg| < 12 {
      ShortMessage(msg);
    }
    if Decode(msg) == Ok(m) {
      DecodedStands(msg, m);
    }
    if |msg| >= 12 {
      if p1, p2, p3, end :| Stands(msg, m, p1, p2, p3, end) {
        StandingDecodes(msg, m, p1, p2, p3, end);
      }
    }
  }
}

// The 12-byte message header (section 4.1.1 of RFC 1035).

module Header {
  import opened Types
  import opened Wire

  datatype OpCode = Query | IQuery | Status | Notify | Update | Unknown(code: bv8) {
    static function FromU8(value: bv8): OpCode {
      match value
      case 0 => Query
      case 1 => IQuery
      case 2 => Status
      case 4 => Notify
      case 5 => Update
      case other => OpCode.Unknown(other & 0x0F)
    }

    function AsU8(): bv8 {
      match this
      case Query => 0
      case IQuery => 1
      case Status => 2
      case Notify => 4
      case Update => 5
      case Unknown(v) => v & 0x0F
    }

    predicate Canonical() {
      Unknown? ==> code <= 15 && code !in {0, 1, 2, 4, 5}
    }
  }

  datatype ResponseCode = NoError | FormErr | ServFail | NXDomain | NotImp | Refused | Unknown(code: bv8) {
    static function FromU8(value: bv8): ResponseCode {
      match value
      case 0 => NoError
      case 1 => FormErr
      case 2 => ServFail
      case 3 => NXDomain
      case 4 => NotImp
      case 5 => Refused
      case other => ResponseCode.Unknown(other)
    }

    function AsU8(): bv8 {
      match this
      case NoError => 0
      case FormErr => 1
      case ServFail => 2
      case NXDomain => 3
      case NotImp => 4
      case Refused => 5
      case Unknown(v) => v
    }

    predicate Canonical() {
      Unknown? ==> 6 <= code <= 15
    }
  }

  // The flag word's fields.
  datatype Flags = Flags(
    qr: bool, opcode: OpCode, aa: bool, tc: bool, rd: bool, ra: bool, z: bv8, rcode: ResponseCode)
  {
    // The reserved field has three bits; the two codes have four.
    predicate Canonical() {
      opcode.Canonical() && z <= 7 && rcode.Canonical()
    }
  }

  function Bit(b: bool, mask: bv16): bv16 {
    if b then mask else 0
  }

  function PackFlags(f: Flags): bv16 {
    0 | Bit(f.qr, 0x8000) | ((f.opcode.AsU8() as bv16) << 11)
    | Bit(f.aa, 0x0400) | Bit(f.tc, 0x0200) | Bit(f.rd, 0x0100) | Bit(f.ra, 0x0080)
    | ((f.z as bv16) << 4) | (f.rcode.AsU8() as bv16)
  }

  function UnpackFlags(w: bv16): Flags {
    Flags((w & 0x8000) != 0, OpCode.FromU8(((w >> 11) & 0x0F) as bv8),
          (w & 0x0400) != 0, (w & 0x0200) != 0, (w & 0x0100) != 0, (w & 0x0080) != 0,
          ((w >> 4) & 0x07) as bv8, ResponseCode.FromU8((w & 0x000F) as bv8))
  }

  // Each field of a packed word stands alone in its bits.
  lemma FieldsStandAlone(f: Flags)
    requires f.opcode.AsU8() <= 15 && f.z <= 7 && f.rcode.AsU8() <= 15
    ensures var w := PackFlags(f);
            && ((w & 0x8000) != 0) == f.qr && ((w >> 11) & 0x0F) == f.opcode.AsU8() as bv16
            && ((w & 0x0400) != 0) == f.aa && ((w & 0x0200) != 0) == f.tc
            && ((w & 0x0100) != 0) == f.rd && ((w & 0x0080) != 0) == f.ra
            && ((w >> 4) & 0x07) == f.z as bv16 && (w & 0x000F) == f.rcode.AsU8() as bv16
  {
    hide OpCode.AsU8, ResponseCode.AsU8, PackFlags;
    CodesStandAlone(f);
    BitsStandAlone(f);
  }

  lemma CodesStandAlone(f: Flags)
    requires f.opcode.AsU8() <= 15 && f.z <= 7 && f.rcode.AsU8() <= 15
    ensures var w := PackFlags(f);
            && ((w >> 11) & 0x0F) == f.opcode.AsU8() as bv16
            && ((w >> 4) & 0x07) == f.z as bv16 && (w & 0x000F) == f.rcode.AsU8() as bv16
  {
    hide OpCode.AsU8, ResponseCode.AsU8;
  }

  lemma BitsStandAlone(f: Flags)
    requires f.opcode.AsU8() <= 15 && f.z <= 7 && f.rcode.AsU8() <= 15
    ensures var w := PackFlags(f);
            && ((w & 0x8000) != 0) == f.qr && ((w & 0x0400) != 0) == f.aa && ((w & 0x0200) != 0) == f.tc
            && ((w & 0x0100) != 0) == f.rd && ((w & 0x0080) != 0) == f.ra
  {
    hide OpCode.AsU8, ResponseCode.AsU8;
  }

  lemma CodesRoundTrip(o: OpCode, r: ResponseCode)
    ensures o.Canonical() ==> o.AsU8() <= 15 && OpCode.FromU8(o.AsU8()) == o
    ensures r.Canonical() ==> r.AsU8() <= 15 && ResponseCode.FromU8(r.AsU8()) == r
  {
  }

  // Packing loses nothing exactly when every field fits its bits.
  lemma FlagsRoundTrip(f: Flags)
    ensures UnpackFlags(PackFlags(f)) == f <==> f.Canonical()
  {
    hide PackFlags, OpCode.AsU8, OpCode.FromU8, OpCode.Canonical;
    hide ResponseCode.AsU8, ResponseCode.FromU8, ResponseCode.Canonical;
    UnpackedIsCanonical(PackFlags(f));
    if f.Canonical() {
      CodesRoundTrip(f.opcode, f.rcode);
      FieldsStandAlone(f);
    }
  }

  lemma UnpackedIsCanonical(w: bv16)
    ensures UnpackFlags(w).Canonical()
  {
  }

  datatype DnsHeader = DnsHeader(
    id: u16, flags: Flags, qdcount: u16, ancount: u16, nscount: u16, arcount: u16)

  const WIRE_SIZE: nat := 12

  function HeaderBytes(h: DnsHeader): (b: bytes)
    ensures |b| == WIRE_SIZE
  {
    U16Bytes(h.id) + (U16Bytes(PackFlags(h.flags) as u16)
      + (U16Bytes(h.qdcount) + (U16Bytes(h.ancount) + (U16Bytes(h.nscount) + U16Bytes(h.arcount)))))
  }

  function HeaderAt(msg: bytes, pos: nat): (r: Result<(DnsHeader, nat)>) {
    var (id, p1) :- U16At(msg, pos);
    var (word, p2) :- U16At(msg, p1);
    var (qdcount, p3) :- U16At(msg, p2);
    var (ancount, p4) :- U16At(msg, p3);
    var (nscount, p5) :- U16At(msg, p4);
    var (arcount, p6) :- U16At(msg, p5);
    Ok((DnsHeader(id, UnpackFlags(word as bv16), qdcount, ancount, nscount, arcount), p6))
  }

  // What reading a written header gives: the counts and id unchanged, the flags
  // as far as their fields fit.
  lemma HeaderReadBack(msg: bytes, pos: nat, h: DnsHeader)
    requires At(msg, pos, HeaderBytes(h))
    ensures HeaderAt(msg, pos) == Ok((h.(flags := UnpackFlags(PackFlags(h.flags))), pos + WIRE_SIZE))
    ensures HeaderAt(msg, pos) == Ok((h, pos + WIRE_SIZE)) <==> h.flags.Canonical()
  {
    var f := U16Bytes(h.arcount);
    var e := U16Bytes(h.nscount) + f;
    var d := U16Bytes(h.ancount) + e;
    var c := U16Bytes(h.qdcount) + d;
    var word := PackFlags(h.flags) as u16;
    U16Then(msg, pos, h.id, U16Bytes(word) + c);
    U16Then(msg, pos + 2, word, c);
    U16Then(msg, pos + 4, h.qdcount, d);
    U16Then(msg, pos + 6, h.ancount, e);
    U16Then(msg, pos + 8, h.nscount, f);
    U16RoundTrip(msg, pos + 10, h.arcount);
    FlagsRoundTrip(h.flags);
  }

  lemma ReadHeaderIsCanonical(msg: bytes, pos: nat)
    requires HeaderAt(msg, pos).Ok?
    ensures HeaderAt(msg, pos).value.0.flags.Canonical()
    ensures HeaderAt(msg, pos).value.1 == pos + WIRE_SIZE <= |msg|
  {
    var (id, p1) := U16At(msg, pos).value;
    var (word, p2) := U16At(msg, p1).value;
    UnpackedIsCanonical(word as bv16);
  }

  method ReadHeader(reader: WireReader) returns (r: Result<DnsHeader>)
    requires reader.Valid()
    modifies reader`pos
    ensures reader.Valid()
    ensures Reads(r, HeaderAt(reader.buf, old(reader.pos)), reader.pos)
  {
    var id :- reader.ReadU16();
    var word :- reader.ReadU16();
    var qdcount :- reader.ReadU16();
    var ancount :- reader.ReadU16();
    var nscount :- reader.ReadU16();
    var arcount :- reader.ReadU16();
    return Ok(DnsHeader(id, UnpackFlags(word as bv16), qdcount, ancount, nscount, arcount));
  }

  // The flag word is built one field at a time.
  method BuildFlags(f: Flags) returns (word: bv16)
    ensures word == PackFlags(f)
  {
    hide Bit, OpCode.AsU8, ResponseCode.AsU8;
    word := 0;
    word := word | Bit(f.qr, 0x8000);
    word := word | ((f.opcode.AsU8() as bv16) << 11);
    word := word | Bit(f.aa, 0x0400);
    word := word | Bit(f.tc, 0x0200);
    word := word | Bit(f.rd, 0x0100);
    word := word | Bit(f.ra, 0x0080);
    word := word | ((f.z as bv16) << 4);
    word := word | (f.rcode.AsU8() as bv16);
  }

  method WriteHeader(h: DnsHeader, writer: WireWriter)
    modifies writer
    ensures writer.buf == old(writer.buf) + HeaderBytes(h)
  {
    var word := BuildFlags(h.flags);
    writer.WriteU16(h.id);
    writer.WriteU16(word as u16);
    writer.WriteU16(h.qdcount);
    writer.WriteU16(h.ancount);
    writer.WriteU16(h.nscount);
    writer.WriteU16(h.arcount);
    Assoc7(old(writer.buf), U16Bytes(h.id), U16Bytes(word as u16), U16Bytes(h.qdcount),
           U16Bytes(h.ancount), U16Bytes(h.nscount), U16Bytes(h.arcount));
  }
}

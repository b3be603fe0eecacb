// Number maps of record types and classes, and of their query supersets.

module RecordTypes {
  import opened Types

  datatype RecordType =
    | A | NS | CNAME | SOA | PTR | MX | TXT | AAAA | SRV | SVCB | HTTPS | OPT
    | Unknown(code: u16)
  {
    static function FromU16(value: u16): (t: RecordType)
      ensures t.Canonical()
    {
      match value
      case 1 => A
      case 2 => NS
      case 5 => CNAME
      case 6 => SOA
      case 12 => PTR
      case 15 => MX
      case 16 => TXT
      case 28 => AAAA
      case 33 => SRV
      case 41 => OPT
      case 64 => SVCB
      case 65 => HTTPS
      case other => RecordType.Unknown(other)
    }

    function AsU16(): u16 {
      match this
      case A => 1
      case NS => 2
      case CNAME => 5
      case SOA => 6
      case PTR => 12
      case MX => 15
      case TXT => 16
      case AAAA => 28
      case SRV => 33
      case OPT => 41
      case SVCB => 64
      case HTTPS => 65
      case Unknown(v) => v
    }

    // `Unknown` is not used for a number that has its own constructor.
    predicate Canonical() {
      Unknown? ==> code !in {1, 2, 5, 6, 12, 15, 16, 28, 33, 41, 64, 65}
    }
  }

  datatype QType = Type(rt: RecordType) | All | Axfr | Mailb | Maila {
    static function FromU16(value: u16): (t: QType)
      ensures t.Canonical()
    {
      match value
      case 252 => Axfr
      case 253 => Mailb
      case 254 => Maila
      case 255 => All
      case other => Type(RecordType.FromU16(other))
    }

    function AsU16(): u16 {
      match this
      case Type(rt) => rt.AsU16()
      case All => 255
      case Axfr => 252
      case Mailb => 253
      case Maila => 254
    }

    predicate Canonical() {
      Type? ==> rt.Canonical() && !(252 <= rt.AsU16() <= 255)
    }
  }

  datatype RecordClass = In | Ch | Hs | Unknown(code: u16) {
    static function FromU16(value: u16): (c: RecordClass)
      ensures c.Canonical()
    {
      match value
      case 1 => In
      case 3 => Ch
      case 4 => Hs
      case other => RecordClass.Unknown(other)
    }

    function AsU16(): u16 {
      match this
      case In => 1
      case Ch => 3
      case Hs => 4
      case Unknown(v) => v
    }

    predicate Canonical() {
      Unknown? ==> code !in {1, 3, 4}
    }
  }

  datatype QClass = Class(rc: RecordClass) | Any {
    static function FromU16(value: u16): (c: QClass)
      ensures c.Canonical()
    {
      match value
      case 255 => Any
      case other => Class(RecordClass.FromU16(other))
    }

    function AsU16(): u16 {
      match this
      case Class(rc) => rc.AsU16()
      case Any => 255
    }

    predicate Canonical() {
      Class? ==> rc.Canonical() && rc.AsU16() != 255
    }
  }

  // Every number survives the maps; a value does exactly when it is canonical.
  lemma NumbersRoundTrip(v: u16)
    ensures RecordType.FromU16(v).AsU16() == QType.FromU16(v).AsU16() == v
    ensures RecordClass.FromU16(v).AsU16() == QClass.FromU16(v).AsU16() == v
  {
  }

  lemma TypesRoundTrip(t: RecordType, q: QType)
    ensures RecordType.FromU16(t.AsU16()) == t <==> t.Canonical()
    ensures QType.FromU16(q.AsU16()) == q <==> q.Canonical()
  {
  }

  lemma ClassesRoundTrip(c: RecordClass, k: QClass)
    ensures RecordClass.FromU16(c.AsU16()) == c <==> c.Canonical()
    ensures QClass.FromU16(k.AsU16()) == k <==> k.Canonical()
  {
  }
}

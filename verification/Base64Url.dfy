// Unpadded base64url (section 5 of RFC 4648), as DNS over HTTPS uses it for GET
// queries (section 6 of RFC 8484).

module Base64Url {
  import opened Types

  const PAD: byte := 0x3D
  const MINUS: byte := 0x2D
  const UNDERSCORE: byte := 0x5F
  const PLUS: byte := 0x2B
  const SLASH: byte := 0x2F

  type sextet = x: int | 0 <= x < 64

  // 'A'..'Z', 'a'..'z', '0'..'9', '-', '_'.
  function CharOf(v: sextet): byte {
    if v < 26 then 0x41 + v
    else if v < 52 then 0x61 + v - 26
    else if v < 62 then 0x30 + v - 52
    else if v == 62 then MINUS
    else UNDERSCORE
  }

  predicate UrlSafe(c: byte) {
    0x41 <= c <= 0x5A || 0x61 <= c <= 0x7A || 0x30 <= c <= 0x39 || c == MINUS || c == UNDERSCORE
  }

  // ---------- encoding ----------

  function Triple(chunk: bytes): (t: nat)
    requires 1 <= |chunk| <= 3
    ensures t < 0x100_0000
  {
    var b1 := if |chunk| > 1 then chunk[1] as int else 0;
    var b2 := if |chunk| > 2 then chunk[2] as int else 0;
    chunk[0] as int * 0x1_0000 + b1 * 0x100 + b2
  }

  // One character more than there are bytes.
  function ChunkChars(chunk: bytes): (s: bytes)
    requires 1 <= |chunk| <= 3
    ensures |s| == |chunk| + 1
  {
    var t := Triple(chunk);
    [CharOf(t / 0x4_0000), CharOf(t / 0x1000 % 64)]
    + (if |chunk| > 1 then [CharOf(t / 64 % 64)] else [])
    + (if |chunk| > 2 then [CharOf(t % 64)] else [])
  }

  function EncodeSpec(data: bytes): (s: bytes) {
    if data == [] then []
    else if |data| <= 3 then ChunkChars(data)
    else ChunkChars(data[..3]) + EncodeSpec(data[3..])
  }

  method EncodeChunk(chunk: bytes) returns (chars: bytes)
    requires 1 <= |chunk| <= 3
    ensures chars == ChunkChars(chunk)
  {
    hide CharOf;
    var b0 := chunk[0] as int;
    var b1 := if |chunk| > 1 then chunk[1] as int else 0;
    var b2 := if |chunk| > 2 then chunk[2] as int else 0;
    var triple := b0 * 0x1_0000 + b1 * 0x100 + b2;
    chars := [CharOf(triple / 0x4_0000), CharOf(triple / 0x1000 % 64)];
    if |chunk| > 1 {
      chars := chars + [CharOf(triple / 64 % 64)];
    }
    if |chunk| > 2 {
      chars := chars + [CharOf(triple % 64)];
    }
  }

  method Encode(data: bytes) returns (result: bytes)
    ensures result == EncodeSpec(data)
  {
    hide ChunkChars;
    result := [];
    var i := 0;
    assert data[0..] == data;
    while i < |data|
      invariant 0 <= i <= |data|
      invariant EncodeSpec(data) == result + EncodeSpec(data[i..])
    {
      var end := Min(i + 3, |data|);
      var chunk := data[i..end];
      ghost var before := result;
      var chars := EncodeChunk(chunk);
      result := result + chars;
      EncodeChunkStep(data, i);
      Assoc(before, ChunkChars(chunk), EncodeSpec(data[end..]));
      i := end;
    }
    assert result + [] == result;
  }

  lemma EncodeChunkStep(data: bytes, i: nat)
    requires i < |data|
    ensures var end := Min(i + 3, |data|);
            EncodeSpec(data[i..]) == ChunkChars(data[i..end]) + EncodeSpec(data[end..])
  {
    if i + 3 < |data| {
      assert data[i..][..3] == data[i..i + 3] && data[i..][3..] == data[i + 3..];
    } else {
      assert data[i..|data|] == data[i..];
      assert ChunkChars(data[i..]) + [] == ChunkChars(data[i..]);
    }
  }

  // Four characters for every three bytes, rounded up, and no padding.
  lemma {:induction false} EncodedLength(data: bytes)
    ensures |EncodeSpec(data)| == (4 * |data| + 2) / 3
    decreases |data|
  {
    if |data| > 3 {
      EncodedLength(data[3..]);
    }
  }

  const CAPITALS: string := "ABCDEFGHIJKLMNOPQRSTUVWXYZ"
  const SMALL: string := "abcdefghijklmnopqrstuvwxyz"
  const DIGITS: string := "0123456789"
  const ALPHABET: string := CAPITALS + SMALL + DIGITS + "-_"

  lemma Alphabet(v: sextet)
    ensures |ALPHABET| == 64 && CharOf(v) == ALPHABET[v] as int
  {
    Runs();
    if v < 26 {
      assert ALPHABET[v] == CAPITALS[v];
    } else if v < 52 {
      assert ALPHABET[v] == SMALL[v - 26];
    } else if v < 62 {
      assert ALPHABET[v] == DIGITS[v - 52];
    }
  }

  lemma Runs()
    ensures |CAPITALS| == 26 && forall i | 0 <= i < 26 :: CAPITALS[i] as int == 65 + i
    ensures |SMALL| == 26 && forall i | 0 <= i < 26 :: SMALL[i] as int == 97 + i
    ensures |DIGITS| == 10 && forall i | 0 <= i < 10 :: DIGITS[i] as int == 48 + i
  {
    forall i | 0 <= i < 26 ensures CAPITALS[i] as int == 65 + i {
    }
    forall i | 0 <= i < 26 ensures SMALL[i] as int == 97 + i {
    }
    forall i | 0 <= i < 10 ensures DIGITS[i] as int == 48 + i {
    }
  }

  function ByteOrZero(data: bytes, i: nat): byte {
    if i < |data| then data[i] else 0
  }

  // The bits 6k to 6k + 5 of the data, highest first.
  function SixBits(data: bytes, k: nat): sextet {
    var q := 3 * (k / 4);
    var b0, b1, b2 := ByteOrZero(data, q), ByteOrZero(data, q + 1), ByteOrZero(data, q + 2);
    match k % 4
    case 0 => b0 / 4
    case 1 => b0 % 4 * 16 + b1 / 16
    case 2 => b1 % 16 * 4 + b2 / 64
    case _ => b2 % 64
  }

  // Every character of an encoding is the letter of the alphabet for its six bits.
  lemma {:induction false} EncodedCharacter(data: bytes, k: nat)
    requires k < |EncodeSpec(data)|
    ensures |ALPHABET| == 64 && EncodeSpec(data)[k] == ALPHABET[SixBits(data, k)] as int
    decreases |data|
  {
    hide CharOf, SixBits, ChunkChars;
    Alphabet(SixBits(data, k));
    if k < 4 {
      FirstCharacters(data, k);
    } else {
      EncodedLength(data);
      EncodedCharacter(data[3..], k - 4);
      SixBitsLater(data, k);
    }
  }

  lemma SixBitsLater(data: bytes, k: nat)
    requires |data| >= 3 && k >= 4
    ensures SixBits(data, k) == SixBits(data[3..], k - 4)
  {
    assert (k - 4) / 4 == k / 4 - 1 && (k - 4) % 4 == k % 4;
  }

  lemma FirstCharacters(data: bytes, k: nat)
    requires k < 4 && k < |EncodeSpec(data)|
    ensures EncodeSpec(data)[k] == CharOf(SixBits(data, k))
  {
    hide CharOf, ChunkChars, SixBits;
    if |data| <= 3 {
      ChunkCharacters(data, k);
    } else {
      ChunkCharacters(data[..3], k);
      FirstSixBits(data, k);
    }
  }

  lemma FirstSixBits(data: bytes, k: nat)
    requires |data| > 3 && k < 4
    ensures SixBits(data, k) == SixBits(data[..3], k)
  {
  }

  lemma ChunkCharacters(chunk: bytes, k: nat)
    requires 1 <= |chunk| <= 3 && k < |ChunkChars(chunk)|
    ensures ChunkChars(chunk)[k] == CharOf(SixBits(chunk, k))
  {
    hide CharOf;
    TripleOfSixBits(chunk[0], ByteOrZero(chunk, 1), ByteOrZero(chunk, 2));
  }

  lemma TripleOfSixBits(b0: byte, b1: byte, b2: byte)
    ensures var t := b0 as int * 0x1_0000 + b1 as int * 0x100 + b2 as int;
            && t / 0x4_0000 == b0 as int / 4 && t / 0x1000 % 64 == b0 as int % 4 * 16 + b1 as int / 16
            && t / 64 % 64 == b1 as int % 16 * 4 + b2 as int / 64 && t % 64 == b2 as int % 64
  {
    SixBitParts(b0 as int / 4, b0 as int % 4, b1 as int / 16, b1 as int % 16, b2 as int / 64, b2 as int % 64);
  }

  lemma SixBitParts(h0: nat, l0: nat, h1: nat, l1: nat, h2: nat, l2: nat)
    requires h0 < 64 && l0 < 4 && h1 < 16 && l1 < 16 && h2 < 4 && l2 < 64
    ensures var t := (h0 * 4 + l0) * 0x1_0000 + (h1 * 16 + l1) * 0x100 + (h2 * 64 + l2);
            && t / 0x4_0000 == h0 && t / 0x1000 % 64 == l0 * 16 + h1
            && t / 64 % 64 == l1 * 4 + h2 && t % 64 == l2
  {
    var t := (h0 * 4 + l0) * 0x1_0000 + (h1 * 16 + l1) * 0x100 + (h2 * 64 + l2);
    assert t / 0x1000 == h0 * 64 + (l0 * 16 + h1);
    assert t / 64 == (h0 * 64 + (l0 * 16 + h1)) * 64 + (l1 * 4 + h2);
  }

  lemma {:induction false} EncodedIsUrlSafe(data: bytes)
    ensures forall k | 0 <= k < |EncodeSpec(data)| :: UrlSafe(EncodeSpec(data)[k])
    decreases |data|
  {
    if |data| > 3 {
      EncodedIsUrlSafe(data[3..]);
    }
  }

  // ---------- decoding ----------

  datatype B64UrlError = InvalidLength | InvalidChar(c: byte)

  datatype Decoded = Bytes(data: bytes) | Failed(error: B64UrlError)

  function Standard(c: byte): byte {
    if c == MINUS then PLUS else if c == UNDERSCORE then SLASH else c
  }

  // The value of a character after '-' and '_' were mapped; padding counts as zero.
  function ValueOf(c: byte): Option<sextet> {
    if 0x41 <= c <= 0x5A then Some(c - 0x41)
    else if 0x61 <= c <= 0x7A then Some(c - 0x61 + 26)
    else if 0x30 <= c <= 0x39 then Some(c - 0x30 + 52)
    else if c == PLUS then Some(62)
    else if c == SLASH then Some(63)
    else if c == PAD then Some(0)
    else None
  }

  predicate Valid(c: byte) {
    ValueOf(Standard(c)).Some?
  }

  function FirstInvalid(chunk: bytes): (c: byte)
    requires exists k :: 0 <= k < |chunk| && ValueOf(chunk[k]).None?
    ensures c in chunk && ValueOf(c).None?
  {
    if ValueOf(chunk[0]).None? then chunk[0] else FirstInvalid(chunk[1..])
  }

  function BytesOf(v0: sextet, v1: sextet, v2: sextet, v3: sextet, two: bool, three: bool): bytes {
    var t := v0 as int * 0x4_0000 + v1 as int * 0x1000 + v2 as int * 64 + v3 as int;
    [t / 0x1_0000] + (if two then [t / 0x100 % 0x100] else []) + (if three then [t % 0x100] else [])
  }

  function ChunkBytes(chunk: bytes): Decoded
    requires |chunk| == 4
  {
    if exists k :: 0 <= k < 4 && ValueOf(chunk[k]).None? then Failed(InvalidChar(FirstInvalid(chunk)))
    else
      assert ValueOf(chunk[0]).Some? && ValueOf(chunk[1]).Some? && ValueOf(chunk[2]).Some? && ValueOf(chunk[3]).Some?;
      Bytes(BytesOf(ValueOf(chunk[0]).value, ValueOf(chunk[1]).value, ValueOf(chunk[2]).value, ValueOf(chunk[3]).value,
                    chunk[2] != PAD, chunk[3] != PAD))
  }

  function DecodeChunks(s: bytes): Decoded {
    if s == [] then Bytes([])
    else if |s| < 4 then Failed(InvalidLength)
    else
      match ChunkBytes(s[..4])
      case Failed(e) => Failed(e)
      case Bytes(front) =>
        match DecodeChunks(s[4..])
        case Failed(e) => Failed(e)
        case Bytes(rest) => Bytes(front + rest)
  }

  function PaddedLength(n: nat): nat {
    (n + 3) / 4 * 4
  }

  function Padding(n: nat): bytes {
    if n == 0 then [] else [PAD] + Padding(n - 1)
  }

  function Padded(s: bytes): (p: bytes) {
    s + Padding(PaddedLength(|s|) - |s|)
  }

  function Standardised(s: bytes): (t: bytes)
    ensures |t| == |s|
    ensures forall k | 0 <= k < |s| :: t[k] == Standard(s[k])
  {
    if s == [] then [] else [Standard(s[0])] + Standardised(s[1..])
  }

  function DecodeSpec(s: bytes): Decoded {
    DecodeChunks(Standardised(Padded(s)))
  }

  // ---------- decoding undoes encoding ----------

  lemma SextetRoundTrip(v: sextet)
    ensures UrlSafe(CharOf(v)) && ValueOf(Standard(CharOf(v))) == Some(v) && Standard(CharOf(v)) != PAD
  {
  }

  lemma SextetsRecompose(t: nat)
    ensures t / 0x4_0000 * 0x4_0000 + t / 0x1000 % 64 * 0x1000 + t / 64 % 64 * 64 + t % 64 == t
  {
    var p, q, r := t / 64, t / 0x1000, t / 0x4_0000;
    assert t == p * 64 + t % 64;
    assert p == q * 64 + p % 64;
    assert q == r * 64 + q % 64;
  }

  lemma SplitTriple(b0: byte, b1: byte, b2: byte)
    ensures var t := b0 as int * 0x1_0000 + b1 as int * 0x100 + b2 as int;
            && t / 0x1_0000 == b0 as int && t / 0x100 % 0x100 == b1 as int && t % 0x100 == b2 as int
            && (b2 == 0 ==> t % 64 == 0) && (b1 == 0 && b2 == 0 ==> t / 64 % 64 == 0)
  {
    var t := b0 as int * 0x1_0000 + b1 as int * 0x100 + b2 as int;
    assert t / 0x100 == b0 as int * 0x100 + b1 as int;
    if b2 == 0 {
      assert t == (b0 as int * 0x400 + b1 as int * 4) * 64;
    }
    if b1 == 0 && b2 == 0 {
      assert t / 64 == b0 as int * 16 * 64;
    }
  }

  lemma PaddingSmall()
    ensures Padding(0) == [] && Padding(1) == [PAD] && Padding(2) == [PAD, PAD]
  {
    assert Padding(2) == [PAD] + Padding(1);
  }

  // The four sextets of a chunk, cut back to its bytes.
  lemma BytesOfTriple(chunk: bytes)
    requires 1 <= |chunk| <= 3
    ensures var t := Triple(chunk);
            BytesOf(t / 0x4_0000, t / 0x1000 % 64, t / 64 % 64, t % 64, |chunk| > 1, |chunk| > 2) == chunk
    ensures |chunk| < 3 ==> Triple(chunk) % 64 == 0
    ensures |chunk| < 2 ==> Triple(chunk) / 64 % 64 == 0
  {
    SextetsRecompose(Triple(chunk));
    SplitTriple(chunk[0], if |chunk| > 1 then chunk[1] else 0, if |chunk| > 2 then chunk[2] else 0);
  }

  lemma FourValues(s: bytes, v0: sextet, v1: sextet, v2: sextet, v3: sextet)
    requires |s| == 4
    requires ValueOf(s[0]) == Some(v0) && ValueOf(s[1]) == Some(v1)
    requires ValueOf(s[2]) == Some(v2) && ValueOf(s[3]) == Some(v3)
    ensures ChunkBytes(s) == Bytes(BytesOf(v0, v1, v2, v3, s[2] != PAD, s[3] != PAD))
  {
    hide ValueOf, BytesOf;
  }

  lemma PadIsZero()
    ensures Standard(PAD) == PAD && ValueOf(PAD) == Some(0)
  {
  }

  // A chunk of one to three bytes, padded to four characters, decodes to itself.
  lemma ChunkRoundTrip(chunk: bytes)
    requires 1 <= |chunk| <= 3
    ensures |ChunkChars(chunk) + Padding(3 - |chunk|)| == 4
    ensures ChunkBytes(Standardised(ChunkChars(chunk) + Padding(3 - |chunk|))) == Bytes(chunk)
  {
    hide ValueOf, CharOf, Standard, BytesOf, ChunkBytes, Standardised, Padding, Triple;
    PaddingSmall();
    PadIsZero();
    BytesOfTriple(chunk);
    var t := Triple(chunk);
    var v0, v1, v2, v3 := t / 0x4_0000, t / 0x1000 % 64, t / 64 % 64, t % 64;
    SextetRoundTrip(v0);
    SextetRoundTrip(v1);
    SextetRoundTrip(v2);
    SextetRoundTrip(v3);
    var c := ChunkChars(chunk) + Padding(3 - |chunk|);
    assert c[0] == CharOf(v0) && c[1] == CharOf(v1);
    assert c[2] == if |chunk| > 1 then CharOf(v2) else PAD;
    assert c[3] == if |chunk| > 2 then CharOf(v3) else PAD;
    FourValues(Standardised(c), v0, v1, v2, v3);
  }

  lemma StandardisedConcat(a: bytes, b: bytes)
    ensures Standardised(a + b) == Standardised(a) + Standardised(b)
  {
  }

  // Decoding the encoding of any byte string gives it back.
  lemma {:induction false} DecodeEncode(data: bytes)
    ensures DecodeSpec(EncodeSpec(data)) == Bytes(data)
    decreases |data|
  {
    hide ChunkChars, ChunkBytes, DecodeChunks, Standardised, Triple;
    if data == [] {
      NothingDecodes();
    } else if |data| <= 3 {
      ChunkRoundTrip(data);
      assert Padded(EncodeSpec(data)) == ChunkChars(data) + Padding(3 - |data|);
      LastChunk(Standardised(Padded(EncodeSpec(data))), data);
    } else {
      var front, rest := ChunkChars(data[..3]), EncodeSpec(data[3..]);
      ChunkRoundTrip(data[..3]);
      DecodeEncode(data[3..]);
      assert front + Padding(0) == front;
      PaddedFront(front, rest);
      StandardisedConcat(front, Padded(rest));
      FirstChunk(Standardised(front), Standardised(Padded(rest)), data[..3], data[3..]);
    }
  }

  lemma NothingDecodes()
    ensures DecodeSpec([]) == Bytes([])
  {
    assert Padded([]) == [];
  }

  lemma PaddedFront(front: bytes, rest: bytes)
    requires |front| == 4
    ensures Padded(front + rest) == front + Padded(rest)
  {
    assert PaddedLength(|front + rest|) == 4 + PaddedLength(|rest|);
    Assoc(front, rest, Padding(PaddedLength(|rest|) - |rest|));
  }

  lemma LastChunk(s: bytes, data: bytes)
    requires |s| == 4 && ChunkBytes(s) == Bytes(data)
    ensures DecodeChunks(s) == Bytes(data)
  {
    assert s[..4] == s && s[4..] == [];
    assert DecodeChunks(s[4..]) == Bytes([]);
    assert data + [] == data;
  }

  lemma FirstChunk(s: bytes, more: bytes, front: bytes, rest: bytes)
    requires |s| == 4 && ChunkBytes(s) == Bytes(front) && DecodeChunks(more) == Bytes(rest)
    ensures DecodeChunks(s + more) == Bytes(front + rest)
  {
    assert (s + more)[..4] == s && (s + more)[4..] == more;
  }

  // ---------- what is accepted ----------

  lemma {:induction false} ChunksAccepted(s: bytes)
    requires |s| % 4 == 0
    ensures DecodeChunks(s).Bytes? <==> forall k | 0 <= k < |s| :: ValueOf(s[k]).Some?
    ensures DecodeChunks(s) != Failed(InvalidLength)
    decreases |s|
  {
    if s != [] {
      ChunksAccepted(s[4..]);
      assert forall k | 4 <= k < |s| :: s[4..][k - 4] == s[k];
      assert forall k | 0 <= k < 4 :: s[..4][k] == s[k];
      if DecodeChunks(s[4..]).Bytes? && ChunkBytes(s[..4]).Bytes? {
        forall k | 0 <= k < |s| ensures ValueOf(s[k]).Some? {
          if k < 4 {
            assert ValueOf(s[..4][k]).Some?;
          } else {
            assert ValueOf(s[4..][k - 4]).Some?;
          }
        }
      }
    }
  }

  lemma {:induction false} PaddingAll(n: nat)
    ensures |Padding(n)| == n && forall k | 0 <= k < n :: Padding(n)[k] == PAD
  {
    if n > 0 {
      PaddingAll(n - 1);
    }
  }

  // Decoding fails only on a character outside both base64 alphabets and '=';
  // no length is refused.
  lemma DecodeAcceptsIff(s: bytes)
    ensures DecodeSpec(s).Bytes? <==> forall k | 0 <= k < |s| :: Valid(s[k])
    ensures DecodeSpec(s) != Failed(InvalidLength)
  {
    hide DecodeChunks, Padding, Standard, ValueOf;
    PadIsZero();
    var n := PaddedLength(|s|) - |s|;
    PaddingAll(n);
    var p := Padded(s);
    ChunksAccepted(Standardised(p));
    assert forall k | 0 <= k < |s| :: p[k] == s[k];
    if forall k | 0 <= k < |s| :: Valid(s[k]) {
      forall k | 0 <= k < |p| ensures ValueOf(Standardised(p)[k]).Some? {
        if k < |s| {
          assert Valid(s[k]);
        } else {
          assert p[k] == Padding(n)[k - |s|];
        }
      }
    }
    if DecodeSpec(s).Bytes? {
      forall k | 0 <= k < |s| ensures Valid(s[k]) {
        assert ValueOf(Standardised(p)[k]).Some?;
      }
    }
  }

  // ---------- which texts are encodings ----------

  function SextetOf(c: byte): sextet
    requires UrlSafe(c)
  {
    ValueOf(Standard(c)).value
  }

  lemma CharIsItsSextet(c: byte)
    requires UrlSafe(c)
    ensures CharOf(SextetOf(c)) == c
  {
  }

  // The bits of the last character that no byte takes are zero.
  predicate UnusedBitsZero(s: bytes)
    requires s != [] ==> UrlSafe(s[|s| - 1])
  {
    && (|s| % 4 == 2 ==> SextetOf(s[|s| - 1]) % 16 == 0)
    && (|s| % 4 == 3 ==> SextetOf(s[|s| - 1]) % 4 == 0)
  }

  predicate Canonical(s: bytes) {
    (forall k | 0 <= k < |s| :: UrlSafe(s[k])) && |s| % 4 != 1 && UnusedBitsZero(s)
  }

  lemma FourTimes(x: nat)
    ensures x * 4 % 64 == x % 16 * 4 && x * 4 % 64 % 4 == 0
  {
    assert x == x / 16 * 16 + x % 16;
  }

  lemma UnusedBitsOfChunk(chunk: bytes)
    requires 1 <= |chunk| <= 3
    ensures var t := Triple(chunk);
            && (|chunk| == 1 ==> t / 0x1000 % 64 % 16 == 0)
            && (|chunk| == 2 ==> t / 64 % 64 % 4 == 0)
  {
    var t := Triple(chunk);
    var a := chunk[0] as int;
    if |chunk| == 1 {
      assert t / 0x1000 == a * 16;
      assert a * 16 % 64 == a % 4 * 16;
    } else if |chunk| == 2 {
      var b := chunk[1] as int;
      assert t / 64 == (a * 256 + b) * 4;
      FourTimes(a * 256 + b);
    }
  }

  lemma ChunkIsCanonical(chunk: bytes)
    requires 1 <= |chunk| <= 3
    ensures Canonical(ChunkChars(chunk))
  {
    hide CharOf, ValueOf, Standard, UrlSafe, Triple;
    var t := Triple(chunk);
    SextetRoundTrip(t / 0x4_0000);
    SextetRoundTrip(t / 0x1000 % 64);
    SextetRoundTrip(t / 64 % 64);
    SextetRoundTrip(t % 64);
    UnusedBitsOfChunk(chunk);
  }

  // What goes before whole fours decides nothing about the end.
  lemma CanonicalConcat(front: bytes, rest: bytes)
    requires |front| == 4 && rest != [] && forall k | 0 <= k < 4 :: UrlSafe(front[k])
    ensures Canonical(front + rest) <==> Canonical(rest)
  {
    hide UrlSafe, UnusedBitsZero;
    var s := front + rest;
    if Canonical(rest) {
      forall k | 0 <= k < |s| ensures UrlSafe(s[k]) {
        assert s[k] == if k < 4 then front[k] else rest[k - 4];
      }
      SameEnd(front, rest);
    }
    if Canonical(s) {
      forall k | 0 <= k < |rest| ensures UrlSafe(rest[k]) {
        assert rest[k] == s[4 + k];
      }
      SameEnd(front, rest);
    }
  }

  lemma SameEnd(front: bytes, rest: bytes)
    requires |front| == 4 && rest != [] && UrlSafe(rest[|rest| - 1])
    ensures (front + rest)[|front + rest| - 1] == rest[|rest| - 1]
    ensures UnusedBitsZero(front + rest) <==> UnusedBitsZero(rest)
  {
    hide UrlSafe, SextetOf;
  }

  lemma {:induction false} EncodedIsCanonical(data: bytes)
    ensures Canonical(EncodeSpec(data))
    decreases |data|
  {
    hide ChunkChars, UrlSafe, UnusedBitsZero;
    if data == [] {
      NothingIsCanonical();
    } else if |data| <= 3 {
      ChunkIsCanonical(data);
    } else {
      ChunkIsCanonical(data[..3]);
      EncodedIsCanonical(data[3..]);
      CanonicalConcat(ChunkChars(data[..3]), EncodeSpec(data[3..]));
    }
  }

  lemma NothingIsCanonical()
    ensures Canonical([])
  {
  }

  // The bytes whose chunk has these sextets.
  lemma ChunkOf(v0: sextet, v1: sextet, v2: sextet, v3: sextet, n: nat) returns (chunk: bytes)
    requires 1 <= n <= 3
    requires n == 1 ==> v1 % 16 == 0 && v2 == 0 && v3 == 0
    requires n == 2 ==> v2 % 4 == 0 && v3 == 0
    ensures |chunk| == n
    ensures ChunkChars(chunk) == [CharOf(v0), CharOf(v1), CharOf(v2), CharOf(v3)][..n + 1]
  {
    hide CharOf;
    var b0: byte, b1: byte, b2: byte := v0 * 4 + v1 / 16, v1 % 16 * 16 + v2 / 4, v2 % 4 * 64 + v3;
    chunk := [b0, b1, b2][..n];
    var t := v0 as int * 0x4_0000 + v1 as int * 0x1000 + v2 as int * 64 + v3 as int;
    assert b0 as int * 0x1_0000 + b1 as int * 0x100 + b2 as int == t;
    assert Triple(chunk) == t;
    SextetsOfTriple(v0, v1, v2, v3);
  }

  lemma SextetsOfTriple(v0: sextet, v1: sextet, v2: sextet, v3: sextet)
    ensures var t := v0 as int * 0x4_0000 + v1 as int * 0x1000 + v2 as int * 64 + v3 as int;
            && t / 0x4_0000 == v0 as int && t / 0x1000 % 64 == v1 as int
            && t / 64 % 64 == v2 as int && t % 64 == v3 as int
  {
    var t := v0 as int * 0x4_0000 + v1 as int * 0x1000 + v2 as int * 64 + v3 as int;
    assert t / 64 == v0 as int * 0x1000 + v1 as int * 64 + v2 as int;
    assert t / 0x1000 == v0 as int * 64 + v1 as int;
  }

  // Two to four canonical characters are a chunk's.
  lemma CanonicalChunk(s: bytes) returns (chunk: bytes)
    requires Canonical(s) && 2 <= |s| <= 4
    ensures |chunk| == |s| - 1 && ChunkChars(chunk) == s
  {
    hide ChunkChars, CharOf, ValueOf, Standard, UrlSafe;
    var v0, v1 := SextetOf(s[0]), SextetOf(s[1]);
    var v2: sextet := if |s| > 2 then SextetOf(s[2]) else 0;
    var v3: sextet := if |s| > 3 then SextetOf(s[3]) else 0;
    forall k | 0 <= k < |s| ensures CharOf(SextetOf(s[k])) == s[k] {
      CharIsItsSextet(s[k]);
    }
    chunk := ChunkOf(v0, v1, v2, v3, |s| - 1);
    assert [CharOf(v0), CharOf(v1), CharOf(v2), CharOf(v3)][..|s|] == s;
  }

  lemma {:induction false} CanonicalIsEncoded(s: bytes) returns (data: bytes)
    requires Canonical(s)
    ensures EncodeSpec(data) == s
    decreases |s|
  {
    hide ChunkChars, UrlSafe, UnusedBitsZero;
    if s == [] {
      data := [];
    } else if |s| <= 4 {
      data := CanonicalChunk(s);
    } else {
      var front, rest := s[..4], s[4..];
      assert s == front + rest;
      CanonicalConcat(front, rest);
      FrontIsCanonical(front);
      var head := CanonicalChunk(front);
      var tail := CanonicalIsEncoded(rest);
      data := head + tail;
      assert data[..3] == head && data[3..] == tail;
      NonEmptyEncoding(tail);
    }
  }

  lemma NonEmptyEncoding(data: bytes)
    ensures EncodeSpec(data) != [] ==> data != []
  {
  }

  lemma FrontIsCanonical(front: bytes)
    requires |front| == 4 && forall k | 0 <= k < 4 :: UrlSafe(front[k])
    ensures Canonical(front)
  {
  }

  // Encoding what a text decodes to gives the text back exactly when it is URL-safe
  // without padding, has no single character left over, and its unused bits are zero.
  lemma EncodeDecodeIff(s: bytes)
    ensures (DecodeSpec(s).Bytes? && EncodeSpec(DecodeSpec(s).data) == s) <==> Canonical(s)
  {
    hide DecodeSpec, EncodeSpec, Canonical;
    if Canonical(s) {
      var data := CanonicalIsEncoded(s);
      DecodeEncode(data);
    }
    if DecodeSpec(s).Bytes? {
      EncodedIsCanonical(DecodeSpec(s).data);
    }
  }

  // ---------- the decoding loops ----------

  method DecodeChunk(chunk: bytes) returns (d: Decoded)
    requires |chunk| == 4
    ensures d == ChunkBytes(chunk)
  {
    var values: seq<sextet> := [0, 0, 0, 0];
    for i := 0 to 4
      invariant |values| == 4
      invariant forall k | 0 <= k < i :: ValueOf(chunk[k]) == Some(values[k])
      invariant forall k | i <= k < 4 :: values[k] == 0
    {
      var c := chunk[i];
      var v := ValueOf(c);
      if v.None? {
        FirstInvalidAt(chunk, i);
        return Failed(InvalidChar(c));
      }
      values := values[i := v.value];
    }
    var triple := values[0] as int * 0x4_0000 + values[1] as int * 0x1000 + values[2] as int * 64 + values[3] as int;
    var data: bytes := [triple / 0x1_0000];
    if chunk[2] != PAD {
      data := data + [triple / 0x100 % 0x100];
    }
    if chunk[3] != PAD {
      data := data + [triple % 0x100];
    }
    return Bytes(data);
  }

  lemma {:induction false} FirstInvalidAt(chunk: bytes, i: nat)
    requires i < |chunk| && ValueOf(chunk[i]).None? && forall k | 0 <= k < i :: ValueOf(chunk[k]).Some?
    ensures FirstInvalid(chunk) == chunk[i]
  {
    if i > 0 {
      FirstInvalidAt(chunk[1..], i - 1);
    }
  }

  method Pad(encoded: bytes) returns (padded: bytes)
    ensures padded == Padded(encoded) && |padded| % 4 == 0
  {
    var paddedLen := (|encoded| + 3) / 4 * 4;
    padded := encoded;
    while |padded| < paddedLen
      invariant |padded| <= paddedLen
      invariant Padded(encoded) == padded + Padding(paddedLen - |padded|)
    {
      Assoc(padded, [PAD], Padding(paddedLen - |padded| - 1));
      padded := padded + [PAD];
    }
    assert padded + [] == padded;
  }

  method Decode(encoded: bytes) returns (d: Decoded)
    ensures d == DecodeSpec(encoded)
  {
    hide ChunkBytes, Padded, Standard;
    var padded := Pad(encoded);
    var standard: bytes := [];
    for i := 0 to |padded|
      invariant standard == Standardised(padded)[..i]
    {
      standard := standard + [Standard(padded[i])];
    }
    assert standard == Standardised(padded);
    var result: bytes := [];
    var i := 0;
    assert standard[0..] == standard;
    assert Prepend([], DecodeChunks(standard)) == DecodeChunks(standard);
    while i < |standard|
      invariant 0 <= i <= |standard| && i % 4 == 0
      invariant DecodeSpec(encoded) == Prepend(result, DecodeChunks(standard[i..]))
    {
      ChunkStep(standard, i);
      var chunk := DecodeChunk(standard[i..i + 4]);
      if chunk.Failed? {
        return chunk;
      }
      PrependAssoc(result, chunk.data, DecodeChunks(standard[i + 4..]));
      result := result + chunk.data;
      i := i + 4;
    }
    assert result + [] == result;
    return Bytes(result);
  }

  lemma ChunkStep(s: bytes, i: nat)
    requires i + 4 <= |s|
    ensures var c := ChunkBytes(s[i..i + 4]);
            DecodeChunks(s[i..]) == if c.Failed? then c else Prepend(c.data, DecodeChunks(s[i + 4..]))
  {
    hide ChunkBytes;
    assert s[i..][..4] == s[i..i + 4] && s[i..][4..] == s[i + 4..];
  }

  ghost function Prepend(front: bytes, d: Decoded): Decoded {
    match d
    case Failed(e) => Failed(e)
    case Bytes(rest) => Bytes(front + rest)
  }

  lemma PrependAssoc(a: bytes, b: bytes, d: Decoded)
    ensures Prepend(a + b, d) == Prepend(a, Prepend(b, d))
  {
    if d.Bytes? {
      Assoc(a, b, d.data);
    }
  }
}

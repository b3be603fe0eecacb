// The cursor reader and the appending writer everything else is built on, with
// the big-endian integers they read and write.

module Wire {
  import opened Types

  // ---------- integers in network byte order ----------

  function U16Bytes(x: u16): (b: bytes)
    ensures |b| == 2
  {
    [x / 0x100, x % 0x100]
  }

  function U32Bytes(x: u32): (b: bytes)
    ensures |b| == 4
  {
    U16Bytes(x / 0x1_0000) + U16Bytes(x % 0x1_0000)
  }

  function U16Of(hi: byte, lo: byte): (x: u16) {
    (hi as int) * 0x100 + lo as int
  }

  function U32Of(a: byte, b: byte, c: byte, d: byte): (x: u32) {
    (U16Of(a, b) as int) * 0x1_0000 + U16Of(c, d) as int
  }

  lemma U16BytesInverse(x: u16, hi: byte, lo: byte)
    ensures U16Of(hi, lo) == x <==> U16Bytes(x) == [hi, lo]
  {
  }

  lemma U32BytesInverse(x: u32, a: byte, b: byte, c: byte, d: byte)
    ensures U32Of(a, b, c, d) == x <==> U32Bytes(x) == [a, b, c, d]
  {
    var hi, lo := x / 0x1_0000, x % 0x1_0000;
    U16BytesInverse(hi, a, b);
    U16BytesInverse(lo, c, d);
    assert [a, b] + [c, d] == [a, b, c, d];
    if U32Bytes(x) == [a, b, c, d] {
      assert U16Bytes(hi) == U32Bytes(x)[..2] && U16Bytes(lo) == U32Bytes(x)[2..];
    }
    if U32Of(a, b, c, d) == x {
      assert hi == U16Of(a, b) && lo == U16Of(c, d);
    }
  }

  // ---------- what a read at a position gives: the value and the next position ----------

  function Remaining(msg: bytes, pos: nat): nat {
    if pos <= |msg| then |msg| - pos else 0
  }

  function U8At(msg: bytes, pos: nat): (r: Result<(byte, nat)>) {
    if pos < |msg| then Ok((msg[pos], pos + 1)) else Err(BufferUnderflow(1, 0))
  }

  function U16At(msg: bytes, pos: nat): (r: Result<(u16, nat)>) {
    if pos + 2 <= |msg| then Ok((U16Of(msg[pos], msg[pos + 1]), pos + 2))
    else Err(BufferUnderflow(2, Remaining(msg, pos)))
  }

  function U32At(msg: bytes, pos: nat): (r: Result<(u32, nat)>) {
    if pos + 4 <= |msg| then
      Ok((U32Of(msg[pos], msg[pos + 1], msg[pos + 2], msg[pos + 3]), pos + 4))
    else Err(BufferUnderflow(4, Remaining(msg, pos)))
  }

  function BytesAt(msg: bytes, pos: nat, len: nat): (r: Result<(bytes, nat)>)
    ensures r.Ok? ==> |r.value.0| == len && At(msg, pos, r.value.0) && r.value.1 == pos + len
  {
    if pos + len <= |msg| then Ok((msg[pos..pos + len], pos + len))
    else Err(BufferUnderflow(len, Remaining(msg, pos)))
  }

  // A big-endian integer standing at a position is what the read gives back,
  // and nothing else reads as that integer.
  lemma U16RoundTrip(msg: bytes, pos: nat, x: u16)
    ensures U16At(msg, pos) == Ok((x, pos + 2)) <==> At(msg, pos, U16Bytes(x))
  {
    if pos + 2 <= |msg| {
      assert msg[pos..pos + 2] == [msg[pos], msg[pos + 1]];
      U16BytesInverse(x, msg[pos], msg[pos + 1]);
    }
  }

  lemma U32RoundTrip(msg: bytes, pos: nat, x: u32)
    ensures U32At(msg, pos) == Ok((x, pos + 4)) <==> At(msg, pos, U32Bytes(x))
  {
    if pos + 4 <= |msg| {
      assert msg[pos..pos + 4] == [msg[pos], msg[pos + 1], msg[pos + 2], msg[pos + 3]];
      U32BytesInverse(x, msg[pos], msg[pos + 1], msg[pos + 2], msg[pos + 3]);
    }
  }

  // The same for a value with more bytes after it.
  lemma U16Then(msg: bytes, pos: nat, x: u16, rest: bytes)
    requires At(msg, pos, U16Bytes(x) + rest)
    ensures U16At(msg, pos) == Ok((x, pos + 2)) && At(msg, pos + 2, rest)
  {
    AtSplit(msg, pos, U16Bytes(x), rest);
    U16RoundTrip(msg, pos, x);
  }

  lemma U32Then(msg: bytes, pos: nat, x: u32, rest: bytes)
    requires At(msg, pos, U32Bytes(x) + rest)
    ensures U32At(msg, pos) == Ok((x, pos + 4)) && At(msg, pos + 4, rest)
  {
    AtSplit(msg, pos, U32Bytes(x), rest);
    U32RoundTrip(msg, pos, x);
  }

  // ---------- the reader ----------

  class WireReader {
    const buf: bytes
    var pos: nat

    ghost predicate Valid()
      reads this
    {
      pos <= |buf|
    }

    constructor (buf: bytes)
      ensures Valid() && this.buf == buf && pos == 0
    {
      this.buf := buf;
      pos := 0;
    }

    method SetPos(newPos: nat) returns (r: Result<()>)
      requires Valid()
      modifies this`pos
      ensures Valid()
      ensures r == if newPos <= |buf| then Ok(()) else Err(BufferUnderflow(0, |buf| - old(pos)))
      ensures pos == if newPos <= |buf| then newPos else old(pos)
    {
      if newPos > |buf| {
        return Err(BufferUnderflow(0, |buf| - pos));
      }
      pos := newPos;
      return Ok(());
    }

    method PeekU8() returns (r: Result<byte>)
      requires Valid()
      ensures r == if pos < |buf| then Ok(buf[pos]) else Err(BufferUnderflow(1, 0))
    {
      if pos >= |buf| {
        return Err(BufferUnderflow(1, 0));
      }
      return Ok(buf[pos]);
    }

    method ReadU8() returns (r: Result<byte>)
      requires Valid()
      modifies this`pos
      ensures Valid()
      ensures Yields(r, U8At(buf, old(pos)), old(pos), pos)
    {
      if pos >= |buf| {
        return Err(BufferUnderflow(1, 0));
      }
      r := Ok(buf[pos]);
      pos := pos + 1;
    }

    method ReadU16() returns (r: Result<u16>)
      requires Valid()
      modifies this`pos
      ensures Valid()
      ensures Yields(r, U16At(buf, old(pos)), old(pos), pos)
    {
      var remaining := |buf| - pos;
      if remaining < 2 {
        return Err(BufferUnderflow(2, remaining));
      }
      r := Ok(U16Of(buf[pos], buf[pos + 1]));
      pos := pos + 2;
    }

    method ReadU32() returns (r: Result<u32>)
      requires Valid()
      modifies this`pos
      ensures Valid()
      ensures Yields(r, U32At(buf, old(pos)), old(pos), pos)
    {
      var remaining := |buf| - pos;
      if remaining < 4 {
        return Err(BufferUnderflow(4, remaining));
      }
      r := Ok(U32Of(buf[pos], buf[pos + 1], buf[pos + 2], buf[pos + 3]));
      pos := pos + 4;
    }

    method ReadBytes(len: nat) returns (r: Result<bytes>)
      requires Valid()
      modifies this`pos
      ensures Valid()
      ensures Yields(r, BytesAt(buf, old(pos), len), old(pos), pos)
    {
      var remaining := |buf| - pos;
      if remaining < len {
        return Err(BufferUnderflow(len, remaining));
      }
      r := Ok(buf[pos..pos + len]);
      pos := pos + len;
    }
  }

  // A primitive read agrees with its specification; a failed one does not move.
  ghost predicate Yields<T(!new)>(r: Result<T>, spec: Result<(T, nat)>, before: nat, after: nat) {
    match spec
    case Ok(v) => r == Ok(v.0) && after == v.1
    case Err(e) => r == Err(e) && after == before
  }

  // A composite read agrees with its specification; a failed one leaves the
  // cursor wherever the failing step found it.
  ghost predicate Reads<T(!new)>(r: Result<T>, spec: Result<(T, nat)>, after: nat) {
    match spec
    case Ok(v) => r == Ok(v.0) && after == v.1
    case Err(e) => r == Err(e)
  }

  // ---------- the writer ----------

  class WireWriter {
    var buf: bytes

    constructor ()
      ensures buf == []
    {
      buf := [];
    }

    method WriteU8(x: byte)
      modifies this
      ensures buf == old(buf) + [x]
    {
      buf := buf + [x];
    }

    method WriteU16(x: u16)
      modifies this
      ensures buf == old(buf) + U16Bytes(x)
    {
      buf := buf + [x / 0x100, x % 0x100];
    }

    method WriteU32(x: u32)
      modifies this
      ensures buf == old(buf) + U32Bytes(x)
    {
      buf := buf + U32Bytes(x);
    }

    method WriteBytes(data: bytes)
      modifies this
      ensures buf == old(buf) + data
    {
      buf := buf + data;
    }

    // Overwrites two bytes already written with a big-endian integer.
    method PatchU16(at: nat, x: u16)
      requires at + 2 <= |buf|
      modifies this
      ensures buf == old(buf[..at]) + U16Bytes(x) + old(buf[at + 2..])
    {
      buf := buf[at := x / 0x100][at + 1 := x % 0x100];
    }
  }
}

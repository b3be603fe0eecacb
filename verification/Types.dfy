// Fixed-width integers, byte strings, and the error type shared by the codec.

module Types {
  type byte = x: int | 0 <= x < 0x100
  type u16 = x: int | 0 <= x < 0x1_0000
  type u32 = x: int | 0 <= x < 0x1_0000_0000
  type bytes = seq<byte>

  // The error values of the protocol crate that the modelled code can produce.
  // Human-readable reasons are dropped.
  datatype ProtocolError =
    | BufferUnderflow(need: nat, have: nat)
    | LabelTooLong(labelLength: nat)
    | TooManyLabels(count: nat)
    | PointerOutOfBounds(pointer: nat, messageLen: nat)
    | PointerLoop(offset: nat, depth: nat)
    | InvalidPointerMarker(offset: nat, marker: byte)
    | RdLengthExceedsBuffer(rdlength: u16, available: nat)
    | MalformedRData(rrType: u16)
    | TcpFrameTooLarge(frameLength: u16, limit: u16)

  datatype Option<+T> = None | Some(value: T)

  datatype Result<+T> = Ok(value: T) | Err(error: ProtocolError) {
    predicate IsFailure() {
      Err?
    }

    function PropagateFailure<U>(): Result<U>
      requires Err?
    {
      Err(error)
    }

    function Extract(): T
      requires Ok?
    {
      value
    }
  }

  function Min(a: int, b: int): int {
    if a <= b then a else b
  }

  lemma Assoc<T>(a: seq<T>, b: seq<T>, c: seq<T>)
    ensures a + b + c == a + (b + c)
  {
  }

  lemma Assoc4<T>(o: seq<T>, a: seq<T>, b: seq<T>, c: seq<T>)
    ensures o + a + b + c == o + (a + (b + c))
  {
    Assoc(o, a, b);
    Assoc(o, a + b, c);
    Assoc(a, b, c);
  }

  lemma Assoc5<T>(o: seq<T>, a: seq<T>, b: seq<T>, c: seq<T>, d: seq<T>)
    ensures o + a + b + c + d == o + (a + (b + (c + d)))
  {
    Assoc(o, a, b);
    Assoc4(o, a + b, c, d);
    Assoc(a, b, c + d);
  }

  lemma Assoc6<T>(o: seq<T>, a: seq<T>, b: seq<T>, c: seq<T>, d: seq<T>, e: seq<T>)
    ensures o + a + b + c + d + e == o + (a + (b + (c + (d + e))))
  {
    Assoc(o, a, b);
    Assoc5(o, a + b, c, d, e);
    Assoc(a, b, c + (d + e));
  }

  lemma Assoc7<T>(o: seq<T>, a: seq<T>, b: seq<T>, c: seq<T>, d: seq<T>, e: seq<T>, f: seq<T>)
    ensures o + a + b + c + d + e + f == o + (a + (b + (c + (d + (e + f)))))
  {
    Assoc(o, a, b);
    Assoc6(o, a + b, c, d, e, f);
    Assoc(a, b, c + (d + (e + f)));
  }

  lemma TakeOneMore<T>(s: seq<T>, k: nat)
    requires k < |s|
    ensures s[..k + 1] == s[..k] + [s[k]]
  {
  }

  lemma DropOne<T>(s: seq<T>, k: nat)
    requires k < |s|
    ensures s[k..] == [s[k]] + s[k + 1..]
    ensures s[k..][0] == s[k] && s[k..][1..] == s[k + 1..]
  {
  }

  // `part` stands in `msg` at offset `pos`.
  predicate At(msg: bytes, pos: nat, part: bytes) {
    pos + |part| <= |msg| && msg[pos..pos + |part|] == part
  }

  lemma AtSplit(msg: bytes, pos: nat, a: bytes, b: bytes)
    ensures At(msg, pos, a + b) <==> At(msg, pos, a) && At(msg, pos + |a|, b)
  {
    if At(msg, pos, a + b) {
      assert msg[pos..pos + |a|] == (a + b)[..|a|] == a;
      assert msg[pos + |a|..pos + |a| + |b|] == (a + b)[|a|..] == b;
    }
    if At(msg, pos, a) && At(msg, pos + |a|, b) {
      assert msg[pos..pos + |a + b|] == msg[pos..pos + |a|] + msg[pos + |a|..pos + |a| + |b|];
    }
  }

  lemma AtIndex(msg: bytes, pos: nat, part: bytes, k: nat)
    requires At(msg, pos, part) && k < |part|
    ensures msg[pos + k] == part[k]
  {
    assert msg[pos..pos + |part|][k] == part[k];
  }
}

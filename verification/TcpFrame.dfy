// Length-prefixed frames over a byte stream (section 8 of RFC 7766) and the
// streaming decoder with its lazily compacted buffer.

module TcpFrame {
  import opened Types
  import opened Wire

  const DEFAULT_MAX_TCP_FRAME: u16 := 0xFFFF

  // ---------- one frame ----------

  // The length prefix is cut to 16 bits; nothing is refused here.
  function EncodeFrame(message: bytes): bytes {
    U16Bytes(|message| % 0x1_0000) + message
  }

  datatype Head =
    | NeedMore
    | TooLarge(length: u16)
    | Frame(message: bytes, total: nat)

  // What stands at the front of a stream.
  function Peel(s: bytes, limit: u16): (h: Head)
    ensures h.Frame? ==> 2 <= h.total <= |s| && h.message == s[2..h.total] && |h.message| <= limit as int
  {
    if |s| < 2 then NeedMore
    else
      var length := U16Of(s[0], s[1]);
      if length > limit then TooLarge(length)
      else if |s| < 2 + length as int then NeedMore
      else Frame(s[2..2 + length as int], 2 + length as int)
  }

  function DecodeFrameSpec(data: bytes, limit: u16): (r: Result<(bytes, nat)>) {
    if |data| < 2 then Err(BufferUnderflow(2, |data|))
    else
      match Peel(data, limit)
      case TooLarge(length) => Err(TcpFrameTooLarge(length, limit))
      case NeedMore => Err(BufferUnderflow(2 + U16Of(data[0], data[1]) as int, |data|))
      case Frame(message, total) => Ok((message, total))
  }

  method DecodeFrame(data: bytes, maxFrameSize: u16) returns (r: Result<(bytes, nat)>)
    ensures r == DecodeFrameSpec(data, maxFrameSize)
  {
    if |data| < 2 {
      return Err(BufferUnderflow(2, |data|));
    }
    var length := U16Of(data[0], data[1]);
    if length > maxFrameSize {
      return Err(TcpFrameTooLarge(length, maxFrameSize));
    }
    var total := 2 + length as int;
    if |data| < total {
      return Err(BufferUnderflow(total, |data|));
    }
    return Ok((data[2..total], total));
  }

  // A frame followed by anything peels off as its message exactly when the
  // message is within the limit.
  lemma FramePeelsIff(message: bytes, more: bytes, limit: u16)
    ensures Peel(EncodeFrame(message) + more, limit) == Frame(message, 2 + |message|) <==> |message| <= limit as int
  {
    hide U16Bytes, U16Of;
    FrameHead(message, more);
    var s := EncodeFrame(message) + more;
    if |message| <= limit as int {
      assert s[2..2 + |message|] == message;
    }
  }

  // A message of 65536 bytes is framed with a length of zero: what peels off is
  // the empty message, and the rest is read from inside it.
  lemma LongFramePeelsAsEmpty(message: bytes, more: bytes, limit: u16)
    requires |message| == 0x1_0000
    ensures Peel(EncodeFrame(message) + more, limit) == Frame([], 2)
  {
    hide U16Bytes, U16Of;
    FrameHead(message, more);
  }

  // What stands at the front of an encoded frame: the length cut to 16 bits.
  lemma FrameHead(message: bytes, more: bytes)
    ensures var s := EncodeFrame(message) + more;
            |s| == 2 + |message| + |more| && U16Of(s[0], s[1]) as int == |message| % 0x1_0000
            && s[2..2 + |message|] == message
  {
    var s := EncodeFrame(message) + more;
    var length := |message| % 0x1_0000;
    assert U16Bytes(length) == [s[0], s[1]];
    U16BytesInverse(length, s[0], s[1]);
  }

  lemma FrameRoundTripIff(message: bytes, limit: u16)
    ensures DecodeFrameSpec(EncodeFrame(message), limit) == Ok((message, 2 + |message|)) <==> |message| <= limit as int
  {
    FramePeelsIff(message, [], limit);
    assert EncodeFrame(message) + [] == EncodeFrame(message);
  }

  // ---------- frames by their bytes ----------

  // Two bytes of length, the higher first, and the message.
  lemma FrameBytes(message: bytes)
    requires |message| < 65536
    ensures EncodeFrame(message) == [|message| / 256, |message| % 256] + message
  {
    NumberBytes(|message|);
  }

  lemma NumberBytes(n: u16)
    ensures n as int % 0x1_0000 == n as int && U16Bytes(n) == [n / 256, n % 256]
  {
  }

  lemma HeadByBytes(s: bytes, limit: u16)
    ensures |s| < 2 ==> Peel(s, limit) == NeedMore && DecodeFrameSpec(s, limit) == Err(BufferUnderflow(2, |s|))
    ensures |s| >= 2 ==>
              var n := s[0] as int * 256 + s[1] as int;
              && (n > limit as int ==>
                    Peel(s, limit) == TooLarge(n) && DecodeFrameSpec(s, limit) == Err(TcpFrameTooLarge(n, limit)))
              && (n <= limit as int && |s| < 2 + n ==>
                    Peel(s, limit) == NeedMore && DecodeFrameSpec(s, limit) == Err(BufferUnderflow(2 + n, |s|)))
              && (n <= limit as int && |s| >= 2 + n ==>
                    && Peel(s, limit) == Frame(s[2..2 + n], 2 + n)
                    && DecodeFrameSpec(s, limit) == Ok((s[2..2 + n], 2 + n)))
    ensures DEFAULT_MAX_TCP_FRAME == 65535
  {
  }

  // ---------- a whole stream at once ----------

  // The messages of a stream, what is left of it, and whether parsing stopped
  // for want of bytes rather than at an oversized length.
  datatype Parsed = Parsed(messages: seq<bytes>, rest: bytes, clean: bool)

  function Parse(s: bytes, limit: u16): (p: Parsed)
    decreases |s|
  {
    match Peel(s, limit)
    case NeedMore => Parsed([], s, true)
    case TooLarge(_) => Parsed([], s, false)
    case Frame(message, total) =>
      var p := Parse(s[total..], limit);
      Parsed([message] + p.messages, p.rest, p.clean)
  }

  function Frames(messages: seq<bytes>): bytes {
    if messages == [] then [] else EncodeFrame(messages[0]) + Frames(messages[1..])
  }

  lemma {:induction false} FramesParse(messages: seq<bytes>, limit: u16)
    requires forall i | 0 <= i < |messages| :: |messages[i]| <= limit as int
    ensures Parse(Frames(messages), limit) == Parsed(messages, [], true)
    decreases |messages|
  {
    if messages != [] {
      var rest := Frames(messages[1..]);
      FramePeelsIff(messages[0], rest, limit);
      assert (EncodeFrame(messages[0]) + rest)[2 + |messages[0]|..] == rest;
      FramesParse(messages[1..], limit);
    }
  }

  // No byte is lost or made up: the frames of the messages and what is left are the stream.
  lemma {:induction false} ParsedIsFrames(s: bytes, limit: u16)
    ensures Frames(Parse(s, limit).messages) + Parse(s, limit).rest == s
    decreases |s|
  {
    var h := Peel(s, limit);
    if h.Frame? {
      var p := Parse(s[h.total..], limit);
      ParsedIsFrames(s[h.total..], limit);
      PeeledFrame(s, limit);
      Assoc(EncodeFrame(h.message), Frames(p.messages), p.rest);
      assert ([h.message] + p.messages)[1..] == p.messages;
    }
  }

  lemma PeeledFrame(s: bytes, limit: u16)
    requires Peel(s, limit).Frame?
    ensures s == EncodeFrame(Peel(s, limit).message) + s[Peel(s, limit).total..]
  {
    hide U16Bytes;
    var h := Peel(s, limit);
    U16BytesInverse(U16Of(s[0], s[1]), s[0], s[1]);
    assert s == s[..2] + s[2..h.total] + s[h.total..];
    assert s[..2] == [s[0], s[1]];
  }

  // An oversized length cannot occur when the limit is the largest 16-bit number.
  lemma {:induction false} DefaultLimitIsClean(s: bytes)
    ensures Parse(s, DEFAULT_MAX_TCP_FRAME).clean
    decreases |s|
  {
    var h := Peel(s, DEFAULT_MAX_TCP_FRAME);
    if h.Frame? {
      DefaultLimitIsClean(s[h.total..]);
    }
  }

  // What is left over is shorter than a frame.
  lemma {:induction false} RestIsShort(s: bytes, limit: u16)
    ensures Parse(s, limit).clean ==> |Parse(s, limit).rest| <= limit as int + 1
    ensures Parse(s, limit).clean ==> Peel(Parse(s, limit).rest, limit) == NeedMore
    decreases |s|
  {
    var h := Peel(s, limit);
    if h.Frame? {
      RestIsShort(s[h.total..], limit);
    }
  }

  // Parsing more bytes goes on from what was left over.
  lemma {:induction false} ParseAppend(a: bytes, b: bytes, limit: u16)
    requires Parse(a, limit).clean
    ensures var p := Parse(a, limit);
            var q := Parse(p.rest + b, limit);
            Parse(a + b, limit) == Parsed(p.messages + q.messages, q.rest, q.clean)
    decreases |a|
  {
    var h := Peel(a, limit);
    if h.Frame? {
      assert (a + b)[0] == a[0] && (a + b)[1] == a[1];
      assert (a + b)[2..h.total] == a[2..h.total];
      assert (a + b)[h.total..] == a[h.total..] + b;
      ParseAppend(a[h.total..], b, limit);
      var p := Parse(a[h.total..], limit);
      Assoc([h.message], p.messages, Parse(p.rest + b, limit).messages);
    } else {
      var q := Parse(a + b, limit);
      assert [] + q.messages == q.messages;
    }
  }

  lemma UncleanStaysUnclean(a: bytes, b: bytes, limit: u16)
    requires !Parse(a, limit).clean
    ensures Parse(a + b, limit) == Parsed(Parse(a, limit).messages, Parse(a, limit).rest + b, false)
    decreases |a|
  {
    var h := Peel(a, limit);
    assert (a + b)[0] == a[0] && (a + b)[1] == a[1];
    if h.Frame? {
      assert (a + b)[2..h.total] == a[2..h.total];
      assert (a + b)[h.total..] == a[h.total..] + b;
      UncleanStaysUnclean(a[h.total..], b, limit);
    }
  }

  // ---------- feeding a stream in chunks ----------

  function Concat(chunks: seq<bytes>): bytes {
    if chunks == [] then [] else chunks[0] + Concat(chunks[1..])
  }

  // One chunk fed and drained: the messages decoded and the bytes kept. An
  // oversized length discards everything buffered.
  function FeedSpec(unread: bytes, chunk: bytes, limit: u16): (seq<bytes>, bytes) {
    var p := Parse(unread + chunk, limit);
    (p.messages, if p.clean then p.rest else [])
  }

  function ServeSpec(unread: bytes, chunks: seq<bytes>, limit: u16): (seq<bytes>, bytes)
    decreases |chunks|
  {
    if chunks == [] then ([], unread)
    else
      var (m, u) := FeedSpec(unread, chunks[0], limit);
      var (ms, v) := ServeSpec(u, chunks[1..], limit);
      (m + ms, v)
  }

  lemma {:induction false} ServeIsParse(unread: bytes, chunks: seq<bytes>, limit: u16)
    requires Parse(unread + Concat(chunks), limit).clean
    requires Peel(unread, limit) == NeedMore
    ensures var p := Parse(unread + Concat(chunks), limit);
            ServeSpec(unread, chunks, limit) == (p.messages, p.rest)
    decreases |chunks|
  {
    if chunks == [] {
      assert unread + [] == unread;
    } else {
      var a, b := unread + chunks[0], Concat(chunks[1..]);
      Assoc(unread, chunks[0], b);
      if !Parse(a, limit).clean {
        UncleanStaysUnclean(a, b, limit);
      }
      ParseAppend(a, b, limit);
      RestIsShort(a, limit);
      ServeIsParse(Parse(a, limit).rest, chunks[1..], limit);
    }
  }

  // Chunking does not matter on any stream without an oversized length: the
  // messages and the bytes kept are those of parsing the stream at once.
  lemma ChunkingDoesNotMatter(chunks: seq<bytes>, limit: u16)
    requires Parse(Concat(chunks), limit).clean
    ensures var p := Parse(Concat(chunks), limit);
            ServeSpec([], chunks, limit) == (p.messages, p.rest)
  {
    assert [] + Concat(chunks) == Concat(chunks);
    ServeIsParse([], chunks, limit);
  }

  // And on no other stream: parsing keeps the bytes from an oversized length on,
  // while a decoder fed the stream in one piece discards them.
  lemma ChunkingDoesNotMatterIff(s: bytes, limit: u16)
    ensures (forall chunks | Concat(chunks) == s ::
               ServeSpec([], chunks, limit) == (Parse(s, limit).messages, Parse(s, limit).rest))
            <==> Parse(s, limit).clean
  {
    if Parse(s, limit).clean {
      forall chunks | Concat(chunks) == s
        ensures ServeSpec([], chunks, limit) == (Parse(s, limit).messages, Parse(s, limit).rest)
      {
        ChunkingDoesNotMatter(chunks, limit);
      }
    } else {
      WholeDiscards(s, limit);
      UncleanRest(s, limit);
    }
  }

  lemma {:induction false} UncleanRest(s: bytes, limit: u16)
    requires !Parse(s, limit).clean
    ensures |Parse(s, limit).rest| >= 2
    decreases |s|
  {
    var h := Peel(s, limit);
    if h.Frame? {
      UncleanRest(s[h.total..], limit);
    }
  }

  // Under the default limit every stream is served as it is parsed.
  lemma DefaultLimitServesTheStream(chunks: seq<bytes>)
    ensures var p := Parse(Concat(chunks), DEFAULT_MAX_TCP_FRAME);
            ServeSpec([], chunks, DEFAULT_MAX_TCP_FRAME) == (p.messages, p.rest)
  {
    DefaultLimitIsClean(Concat(chunks));
    ChunkingDoesNotMatter(chunks, DEFAULT_MAX_TCP_FRAME);
  }

  // However the frames of some messages are cut into chunks, those messages
  // come out, in order, with nothing left.
  lemma FramesArrive(messages: seq<bytes>, chunks: seq<bytes>, limit: u16)
    requires forall i | 0 <= i < |messages| :: |messages[i]| <= limit as int
    requires Concat(chunks) == Frames(messages)
    ensures ServeSpec([], chunks, limit) == (messages, [])
  {
    FramesParse(messages, limit);
    ChunkingDoesNotMatter(chunks, limit);
  }

  // ---------- two ways to cut the same stream ----------

  lemma WholeDiscards(s: bytes, limit: u16)
    requires !Parse(s, limit).clean
    ensures Concat([s]) == s && ServeSpec([], [s], limit) == (Parse(s, limit).messages, [])
  {
    assert [s][1..] == [] && s + [] == s && [] + s == s;
    OneChunk([], s, limit);
  }

  lemma FrameAlone(s: bytes, limit: u16)
    requires Peel(s, limit).Frame?
    ensures var h := Peel(s, limit);
            s == s[..h.total] + s[h.total..] && Parse(s[..h.total], limit) == Parsed([h.message], [], true)
  {
    var h := Peel(s, limit);
    var a := s[..h.total];
    assert a[2..h.total] == h.message && a[h.total..] == [];
    assert Peel(a, limit) == h && Parse([], limit) == Parsed([], [], true);
  }

  // An unclean stream is whole frames followed by an oversized length.
  lemma {:induction false} UncleanSplit(s: bytes, limit: u16) returns (before: bytes)
    requires !Parse(s, limit).clean
    ensures s == before + Parse(s, limit).rest && Peel(Parse(s, limit).rest, limit).TooLarge?
    ensures Parse(before, limit) == Parsed(Parse(s, limit).messages, [], true)
    decreases |s|
  {
    var h := Peel(s, limit);
    if h.Frame? {
      var later := UncleanSplit(s[h.total..], limit);
      FrameAlone(s, limit);
      before := s[..h.total] + later;
      Assoc(s[..h.total], later, Parse(s, limit).rest);
      ParseAppend(s[..h.total], later, limit);
      assert [] + later == later;
    } else {
      before := [];
      assert [] + s == s;
    }
  }

  lemma StillTooLarge(rest: bytes, limit: u16, k: nat)
    requires Peel(rest, limit).TooLarge? && 2 <= k <= |rest|
    ensures Parse(rest[..k], limit) == Parsed([], rest[..k], false)
  {
  }

  // The stream cut once, k bytes after the oversized length begins: the second
  // piece is read from its own start.
  lemma CutAfter(s: bytes, limit: u16, k: nat) returns (cut: seq<bytes>)
    requires !Parse(s, limit).clean && 2 <= k <= |Parse(s, limit).rest|
    ensures Concat(cut) == s
    ensures var p := Parse(s, limit);
            var q := FeedSpec([], p.rest[k..], limit);
            ServeSpec([], cut, limit) == (p.messages + q.0, q.1)
  {
    hide Parse, Peel, ServeSpec, FeedSpec, Concat;
    var p := Parse(s, limit);
    var before := UncleanSplit(s, limit);
    var front, back := before + p.rest[..k], p.rest[k..];
    assert p.rest == p.rest[..k] + back;
    Assoc(before, p.rest[..k], back);
    StillTooLarge(p.rest, limit, k);
    ParseAppend(before, p.rest[..k], limit);
    assert [] + p.rest[..k] == p.rest[..k];
    cut := [front, back];
    TwoChunks(front, back, limit);
    assert Parse(front, limit).messages == p.messages by {
      assert p.messages + [] == p.messages;
    }
    assert s == front + back;
  }

  lemma TwoChunks(front: bytes, back: bytes, limit: u16)
    requires !Parse(front, limit).clean
    ensures Concat([front, back]) == front + back
    ensures var q := FeedSpec([], back, limit);
            ServeSpec([], [front, back], limit) == (Parse(front, limit).messages + q.0, q.1)
  {
    hide Parse;
    var cut: seq<bytes> := [front, back];
    var tail: seq<bytes> := cut[1..];
    assert tail == [back] && tail[1..] == [];
    assert [] + front == front;
    assert Concat(tail) == back;
    assert FeedSpec([], front, limit) == (Parse(front, limit).messages, []);
    OneChunk([], back, limit);
  }

  // However an unclean stream is cut, its messages up to the oversized length
  // come out, and reading starts afresh from some point past that length.
  lemma {:induction false} ServeUnclean(unread: bytes, chunks: seq<bytes>, limit: u16)
    returns (k: nat, later: seq<bytes>)
    requires !Parse(unread + Concat(chunks), limit).clean && Peel(unread, limit) == NeedMore
    ensures var p := Parse(unread + Concat(chunks), limit);
            && 2 <= k <= |p.rest| && Concat(later) == p.rest[k..]
            && ServeSpec(unread, chunks, limit)
               == (p.messages + ServeSpec([], later, limit).0, ServeSpec([], later, limit).1)
    decreases |chunks|
  {
    hide Parse;
    ShortIsClean(unread, limit);
    if chunks != [] {
      var a, b := unread + chunks[0], Concat(chunks[1..]);
      Assoc(unread, chunks[0], b);
      var p := Parse(a, limit);
      if p.clean {
        ParseAppend(a, b, limit);
        RestIsShort(a, limit);
        k, later := ServeUnclean(p.rest, chunks[1..], limit);
        Assoc(p.messages, Parse(p.rest + b, limit).messages, ServeSpec([], later, limit).0);
      } else {
        UncleanStaysUnclean(a, b, limit);
        UncleanRest(a, limit);
        k, later := |p.rest|, chunks[1..];
      }
    }
  }

  lemma ShortIsClean(unread: bytes, limit: u16)
    requires Peel(unread, limit) == NeedMore
    ensures Parse(unread, limit).clean && unread + [] == unread
  {
  }

  lemma NothingNeedsMore(limit: u16)
    ensures Peel([], limit) == NeedMore
  {
  }

  lemma OneByteIsKept(last: bytes, limit: u16)
    requires |last| == 1
    ensures FeedSpec([], last, limit) == ([], last)
  {
    assert [] + last == last;
  }

  lemma {:induction false} NothingServed(chunks: seq<bytes>, limit: u16)
    requires Concat(chunks) == []
    ensures ServeSpec([], chunks, limit) == ([], [])
    decreases |chunks|
  {
    if chunks != [] {
      assert |chunks[0]| + |Concat(chunks[1..])| == 0;
      assert [] + chunks[0] == [];
      NothingServed(chunks[1..], limit);
    }
  }

  // All ways to cut a stream give the same messages and the same remainder
  // exactly when it has no oversized length, or ends right after one.
  lemma CutsAgreeIff(s: bytes, limit: u16)
    ensures (forall c, d | Concat(c) == s && Concat(d) == s :: ServeSpec([], c, limit) == ServeSpec([], d, limit))
            <==> Parse(s, limit).clean || |Parse(s, limit).rest| == 2
  {
    hide Parse, Concat, ServeSpec, FeedSpec;
    NothingNeedsMore(limit);
    var p := Parse(s, limit);
    if p.clean || |p.rest| == 2 {
      forall c | Concat(c) == s
        ensures ServeSpec([], c, limit) == (p.messages, if p.clean then p.rest else [])
      {
        if p.clean {
          ChunkingDoesNotMatter(c, limit);
        } else {
          assert [] + s == s;
          var k, later := ServeUnclean([], c, limit);
          NothingServed(later, limit);
          assert p.messages + [] == p.messages;
        }
      }
    } else {
      UncleanRest(s, limit);
      WholeDiscards(s, limit);
      var cut := CutAfter(s, limit, |p.rest| - 1);
      var last := p.rest[|p.rest| - 1..];
      OneByteIsKept(last, limit);
      assert ServeSpec([], cut, limit).1 == last;
    }
  }

  // A frame stands somewhere past the oversized length.
  predicate FrameWithin(rest: bytes, limit: u16) {
    exists j | 2 <= j <= |rest| :: Peel(rest[j..], limit).Frame?
  }

  predicate NoFrames(t: bytes, limit: u16) {
    forall j | 0 <= j <= |t| :: !Peel(t[j..], limit).Frame?
  }

  lemma FrameGrows(a: bytes, b: bytes, limit: u16)
    requires Peel(a, limit).Frame?
    ensures Peel(a + b, limit).Frame?
  {
    assert (a + b)[0] == a[0] && (a + b)[1] == a[1];
  }

  lemma {:induction false} NoFramesNoMessages(unread: bytes, chunks: seq<bytes>, limit: u16)
    requires NoFrames(unread + Concat(chunks), limit)
    ensures ServeSpec(unread, chunks, limit).0 == []
    decreases |chunks|
  {
    if chunks != [] {
      var a, b := unread + chunks[0], Concat(chunks[1..]);
      Assoc(unread, chunks[0], b);
      assert (a + b)[0..] == a + b;
      if Peel(a, limit).Frame? {
        FrameGrows(a, b, limit);
      }
      forall j | 0 <= j <= |b| ensures !Peel(([] + b)[j..], limit).Frame? {
        assert ([] + b)[j..] == (a + b)[|a| + j..];
      }
      NoFramesNoMessages(FeedSpec(unread, chunks[0], limit).1, chunks[1..], limit);
    }
  }

  // All ways to cut a stream give the same messages exactly when it has no
  // oversized length, or no frame can be read anywhere past it.
  lemma MessagesAgreeIff(s: bytes, limit: u16)
    ensures (forall c, d | Concat(c) == s && Concat(d) == s :: ServeSpec([], c, limit).0 == ServeSpec([], d, limit).0)
            <==> Parse(s, limit).clean || !FrameWithin(Parse(s, limit).rest, limit)
  {
    hide Parse, Peel, ServeSpec, FeedSpec, Concat, FrameWithin;
    var p := Parse(s, limit);
    if p.clean || !FrameWithin(p.rest, limit) {
      forall c | Concat(c) == s ensures ServeSpec([], c, limit).0 == p.messages {
        SameMessages(s, c, limit);
      }
    } else {
      MessagesDiffer(s, limit);
    }
  }

  lemma MessagesDiffer(s: bytes, limit: u16)
    requires !Parse(s, limit).clean && FrameWithin(Parse(s, limit).rest, limit)
    ensures exists c, d :: Concat(c) == s && Concat(d) == s && ServeSpec([], c, limit).0 != ServeSpec([], d, limit).0
  {
    hide Parse, Peel, ServeSpec, FeedSpec, Concat;
    var p := Parse(s, limit);
    var j :| 2 <= j <= |p.rest| && Peel(p.rest[j..], limit).Frame?;
    WholeDiscards(s, limit);
    var cut := CutAfter(s, limit, j);
    FrameIsServed(p.rest[j..], limit);
    assert |ServeSpec([], cut, limit).0| > |p.messages|;
  }

  lemma FrameIsServed(t: bytes, limit: u16)
    requires Peel(t, limit).Frame?
    ensures FeedSpec([], t, limit).0 != []
  {
    assert [] + t == t;
  }

  lemma SameMessages(s: bytes, c: seq<bytes>, limit: u16)
    requires Concat(c) == s && (Parse(s, limit).clean || !FrameWithin(Parse(s, limit).rest, limit))
    ensures ServeSpec([], c, limit).0 == Parse(s, limit).messages
  {
    hide Parse, Peel, ServeSpec, Concat, FrameWithin, NoFrames;
    var p := Parse(s, limit);
    if p.clean {
      ChunkingDoesNotMatter(c, limit);
    } else {
      assert [] + s == s;
      NothingNeedsMore(limit);
      var k, later := ServeUnclean([], c, limit);
      NoFramesPast(p.rest, k, limit);
      assert [] + Concat(later) == p.rest[k..];
      NoFramesNoMessages([], later, limit);
      assert p.messages + [] == p.messages;
    }
  }

  lemma NoFramesPast(rest: bytes, k: nat, limit: u16)
    requires !FrameWithin(rest, limit) && 2 <= k <= |rest|
    ensures NoFrames(rest[k..], limit)
  {
    hide Peel;
    forall j | 0 <= j <= |rest| - k ensures !Peel(rest[k..][j..], limit).Frame? {
      assert rest[k..][j..] == rest[k + j..];
    }
  }

  // With a limit of 1, the oversized frame 2,x,y followed by the frame 1,z gives
  // nothing in one chunk and the second message when cut between the frames.
  lemma ChunkingMattersAfterOversize(x: byte, y: byte, z: byte)
    ensures ServeSpec([], [[0, 2, x, y, 0, 1, z]], 1) == ([], [])
    ensures ServeSpec([], [[0, 2, x, y], [0, 1, z]], 1) == ([[z]], [])
  {
    var a, b := [0, 2, x, y], [0, 1, z];
    var whole := a + b;
    assert whole == [0, 2, x, y, 0, 1, z];
    assert [] + whole == whole && [] + a == a && [] + b == b;
    assert Parse(whole, 1) == Parsed([], whole, false) && Parse(a, 1) == Parsed([], a, false);
    assert b[2..3] == [z] && b[3..] == [];
    assert Parse([], 1) == Parsed([], [], true);
    assert Parse(b, 1) == Parsed([[z]], [], true);
    OneChunk([], whole, 1);
    OneChunk([], b, 1);
    var two := [a, b];
    assert two[0] == a && two[1..] == [b];
    assert FeedSpec([], a, 1) == ([], []);
    assert [] + [[z]] == [[z]];
  }

  lemma OneChunk(unread: bytes, chunk: bytes, limit: u16)
    ensures ServeSpec(unread, [chunk], limit) == FeedSpec(unread, chunk, limit)
  {
    var m := FeedSpec(unread, chunk, limit).0;
    assert [chunk][1..] == [];
    assert m + [] == m;
  }

  // ---------- decoding a buffer of frames at once ----------

  function DecodeFramesFrom(data: bytes, limit: u16, offset: nat, acc: seq<bytes>): (r: Result<(seq<bytes>, nat)>)
    requires offset <= |data|
    decreases |data| - offset
  {
    if |data| - offset < 2 then Ok((acc, offset))
    else
      var (message, consumed) :- DecodeFrameSpec(data[offset..], limit);
      DecodeFramesFrom(data, limit, offset + consumed, acc + [message])
  }

  method DecodeFrames(data: bytes, maxFrameSize: u16) returns (r: Result<(seq<bytes>, nat)>)
    ensures r == DecodeFramesFrom(data, maxFrameSize, 0, [])
  {
    var messages: seq<bytes>, offset := [], 0;
    while true
      invariant 0 <= offset <= |data|
      invariant DecodeFramesFrom(data, maxFrameSize, 0, []) == DecodeFramesFrom(data, maxFrameSize, offset, messages)
      decreases |data| - offset
    {
      if offset >= |data| {
        break;
      }
      if |data| - offset < 2 {
        break;
      }
      var one := DecodeFrame(data[offset..], maxFrameSize);
      if one.Err? {
        return Err(one.error);
      }
      messages := messages + [one.value.0];
      offset := offset + one.value.1;
    }
    return Ok((messages, offset));
  }

  lemma {:induction false} FramesFromIsParse(data: bytes, limit: u16, offset: nat, acc: seq<bytes>)
    requires offset <= |data|
    ensures var p := Parse(data[offset..], limit);
            |p.rest| <= |data| - offset && (!p.clean || |p.rest| >= 2 ==> DecodeFrameSpec(p.rest, limit).Err?)
    ensures var p := Parse(data[offset..], limit);
            DecodeFramesFrom(data, limit, offset, acc) ==
            if p.clean && |p.rest| < 2 then Ok((acc + p.messages, |data| - |p.rest|))
            else Err(DecodeFrameSpec(p.rest, limit).error)
    decreases |data| - offset
  {
    var s := data[offset..];
    var h := Peel(s, limit);
    if h.Frame? {
      assert data[offset + h.total..] == s[h.total..];
      FramesFromIsParse(data, limit, offset + h.total, acc + [h.message]);
      Assoc(acc, [h.message], Parse(s[h.total..], limit).messages);
    } else {
      assert acc + [] == acc;
    }
  }

  // Bulk decoding succeeds exactly on clean streams that stop before a length
  // prefix, and then gives the streaming decoder's messages and remainder.
  lemma BulkIsStreaming(data: bytes, limit: u16, messages: seq<bytes>, offset: nat)
    ensures DecodeFramesFrom(data, limit, 0, []) == Ok((messages, offset)) <==>
            offset <= |data| && |data| - offset < 2
            && Parse(data, limit) == Parsed(messages, data[offset..], true)
    ensures DecodeFramesFrom(data, limit, 0, []) == Ok((messages, offset)) ==>
              offset <= |data| && forall chunks | Concat(chunks) == data ::
                ServeSpec([], chunks, limit) == (messages, data[offset..])
  {
    assert data[0..] == data;
    FramesFromIsParse(data, limit, 0, []);
    var p := Parse(data, limit);
    assert [] + p.messages == p.messages;
    RestIsSuffix(data, limit);
    if p.clean {
      forall chunks | Concat(chunks) == data ensures ServeSpec([], chunks, limit) == (p.messages, p.rest) {
        ChunkingDoesNotMatter(chunks, limit);
      }
    }
  }

  lemma {:induction false} RestIsSuffix(s: bytes, limit: u16)
    ensures var p := Parse(s, limit); |p.rest| <= |s| && p.rest == s[|s| - |p.rest|..]
    decreases |s|
  {
    var h := Peel(s, limit);
    if h.Frame? {
      RestIsSuffix(s[h.total..], limit);
    }
  }

  // ---------- what compaction moves ----------

  // The buffer's length, the read position, and the bytes moved so far.
  datatype Layout = Layout(stored: nat, readPos: nat, moved: nat)

  // A read prefix of half the buffer or more is dropped by moving the rest.
  function Compacted(l: Layout): Layout
    requires l.readPos <= l.stored
  {
    if l.readPos > 0 && l.readPos >= l.stored / 2
    then Layout(l.stored - l.readPos, 0, l.moved + l.stored - l.readPos)
    else l
  }

  // Frames taken one after the other; a reset drops everything without a move.
  function DrainLayout(l: Layout, unread: bytes, limit: u16): (r: Layout)
    requires l.readPos + |unread| == l.stored
    decreases |unread|
  {
    match Peel(unread, limit)
    case NeedMore => l
    case TooLarge(_) => Layout(0, 0, l.moved)
    case Frame(_, total) =>
      DrainLayout(Compacted(l.(readPos := l.readPos + total)), unread[total..], limit)
  }

  function FeedLayout(l: Layout, unread: bytes, chunk: bytes, limit: u16): (r: Layout)
    requires l.readPos + |unread| == l.stored
  {
    DrainLayout(l.(stored := l.stored + |chunk|), unread + chunk, limit)
  }

  lemma {:induction false} DrainKeeps(l: Layout, unread: bytes, limit: u16)
    requires l.readPos + |unread| == l.stored
    ensures var r, p := DrainLayout(l, unread, limit), Parse(unread, limit);
            r.readPos + (if p.clean then |p.rest| else 0) == r.stored
    decreases |unread|
  {
    var h := Peel(unread, limit);
    if h.Frame? {
      DrainKeeps(Compacted(l.(readPos := l.readPos + h.total)), unread[h.total..], limit);
    }
  }

  function ServeLayout(l: Layout, unread: bytes, chunks: seq<bytes>, limit: u16): (r: Layout)
    requires l.readPos + |unread| == l.stored
    decreases |chunks|
  {
    if chunks == [] then l
    else
      DrainKeeps(l.(stored := l.stored + |chunks[0]|), unread + chunks[0], limit);
      ServeLayout(FeedLayout(l, unread, chunks[0], limit), FeedSpec(unread, chunks[0], limit).1, chunks[1..], limit)
  }

  // A kept prefix is less than half the buffer, and compaction has been paid
  // for by the bytes consumed before the read position.
  predicate Paid(l: Layout, consumed: nat) {
    && l.readPos <= l.stored && l.readPos <= consumed
    && (l.readPos == 0 || l.readPos < l.stored / 2)
    && 2 * l.moved <= 3 * (consumed - l.readPos)
  }

  lemma CompactionIsPaid(l: Layout, consumed: nat)
    requires 2 <= l.readPos <= l.stored && l.readPos <= consumed && 2 * l.moved <= 3 * (consumed - l.readPos)
    ensures Paid(Compacted(l), consumed)
  {
  }

  lemma ResetIsPaid(l: Layout, consumed: nat, dropped: nat)
    requires Paid(l, consumed)
    ensures Paid(Layout(0, 0, l.moved), consumed + dropped)
  {
  }

  lemma CompactedFits(l: Layout)
    requires l.readPos <= l.stored
    ensures Compacted(l).readPos <= Compacted(l).stored
    ensures Compacted(l).stored - Compacted(l).readPos == l.stored - l.readPos
  {
  }

  lemma {:induction false} DrainIsPaid(l: Layout, unread: bytes, limit: u16, consumed: nat)
    requires l.readPos + |unread| == l.stored && Paid(l, consumed)
    ensures var p := Parse(unread, limit);
            |p.rest| <= |unread| &&
            Paid(DrainLayout(l, unread, limit), consumed + |unread| - if p.clean then |p.rest| else 0)
    decreases |unread|
  {
    hide Paid, Compacted, Peel;
    RestIsSuffix(unread, limit);
    var h := Peel(unread, limit);
    match h
    case NeedMore =>
    case TooLarge(_) => ResetIsPaid(l, consumed, |unread|);
    case Frame(_, total) =>
      var taken := Compacted(l.(readPos := l.readPos + total));
      TakenIsPaid(l, consumed, total);
      CompactedFits(l.(readPos := l.readPos + total));
      DrainIsPaid(taken, unread[total..], limit, consumed + total);
      assert |unread[total..]| == |unread| - total;
  }

  lemma TakenIsPaid(l: Layout, consumed: nat, total: nat)
    requires Paid(l, consumed) && total >= 2 && l.readPos + total <= l.stored
    ensures Paid(Compacted(l.(readPos := l.readPos + total)), consumed + total)
  {
    CompactionIsPaid(l.(readPos := l.readPos + total), consumed + total);
  }

  lemma FedIsPaid(l: Layout, consumed: nat, more: nat)
    requires Paid(l, consumed)
    ensures Paid(l.(stored := l.stored + more), consumed)
  {
  }

  lemma {:induction false} ServeIsPaid(l: Layout, unread: bytes, chunks: seq<bytes>, limit: u16, consumed: nat)
    requires l.readPos + |unread| == l.stored && Paid(l, consumed)
    ensures |ServeSpec(unread, chunks, limit).1| <= |unread| + |Concat(chunks)|
    ensures Paid(ServeLayout(l, unread, chunks, limit),
                 consumed + |unread| + |Concat(chunks)| - |ServeSpec(unread, chunks, limit).1|)
    decreases |chunks|
  {
    hide Paid, Compacted, Parse, DrainLayout;
    if chunks != [] {
      var fed := l.(stored := l.stored + |chunks[0]|);
      FedIsPaid(l, consumed, |chunks[0]|);
      var u := FeedSpec(unread, chunks[0], limit).1;
      DrainIsPaid(fed, unread + chunks[0], limit, consumed);
      DrainKeeps(fed, unread + chunks[0], limit);
      ServeIsPaid(FeedLayout(l, unread, chunks[0], limit), u, chunks[1..], limit,
                  consumed + |unread| + |chunks[0]| - |u|);
    }
  }

  // Over every run of a connection, twice the bytes moved by compaction is at
  // most three times the bytes received and no longer held.
  lemma CompactionIsAmortised(chunks: seq<bytes>, limit: u16)
    ensures |ServeSpec([], chunks, limit).1| <= |Concat(chunks)|
    ensures 2 * ServeLayout(Layout(0, 0, 0), [], chunks, limit).moved
            <= 3 * (|Concat(chunks)| - |ServeSpec([], chunks, limit).1|)
  {
    hide ServeLayout, ServeSpec, Concat;
    ServeIsPaid(Layout(0, 0, 0), [], chunks, limit, 0);
  }

  // ---------- the streaming decoder ----------

  class TcpFrameDecoder {
    var buf: bytes
    var readPos: nat
    const maxFrameSize: u16
    // Bytes handed out in frames or discarded, and bytes moved by compaction, so far.
    ghost var consumed: nat
    ghost var moved: nat

    ghost predicate Valid()
      reads this
    {
      Paid(Now(), consumed)
    }

    ghost function Now(): Layout
      reads this
    {
      Layout(|buf|, readPos, moved)
    }

    ghost function Unread(): bytes
      reads this
      requires readPos <= |buf|
      ensures |Unread()| == |buf| - readPos
    {
      buf[readPos..]
    }

    constructor (maxFrameSize: u16)
      ensures Valid() && Unread() == [] && this.maxFrameSize == maxFrameSize
      ensures consumed == moved == 0
    {
      this.maxFrameSize := maxFrameSize;
      buf, readPos, consumed, moved := [], 0, 0, 0;
    }

    method Feed(data: bytes)
      requires Valid()
      modifies this
      ensures Valid() && Unread() == old(Unread()) + data
      ensures consumed == old(consumed) && Now() == old(Now()).(stored := |old(buf)| + |data|)
    {
      buf := buf + data;
    }

    method Buffered() returns (n: nat)
      requires Valid()
      ensures n == |Unread()|
      ensures |buf| <= 2 * n
    {
      return |buf| - readPos;
    }

    // Moves the unread bytes to the front once the read prefix is half the buffer.
    method Compact()
      requires readPos <= |buf|
      modifies this
      ensures Now() == Compacted(old(Now()))
      ensures readPos <= |buf| && Unread() == old(Unread()) && consumed == old(consumed)
    {
      if readPos > 0 && readPos >= |buf| / 2 {
        moved := moved + (|buf| - readPos);
        buf := buf[readPos..];
        readPos := 0;
      }
    }

    method TryDecode() returns (r: Result<Option<(bytes, nat)>>)
      requires Valid()
      modifies this
      ensures Valid()
      ensures match Peel(old(Unread()), maxFrameSize)
              case NeedMore => r == Ok(None) && unchanged(this)
              case TooLarge(length) => r == Err(TcpFrameTooLarge(length, maxFrameSize)) && unchanged(this)
              case Frame(message, total) =>
                && r == Ok(Some((message, total)))
                && Unread() == old(Unread())[total..]
                && consumed == old(consumed) + total
                && Now() == Compacted(old(Now()).(readPos := old(readPos) + total))
    {
      hide Compacted;
      var available := |buf| - readPos;
      if available < 2 {
        return Ok(None);
      }
      var headerStart := readPos;
      var length := U16Of(buf[headerStart], buf[headerStart + 1]);
      if length > maxFrameSize {
        return Err(TcpFrameTooLarge(length, maxFrameSize));
      }
      var total := 2 + length as int;
      if available < total {
        return Ok(None);
      }
      var message := buf[headerStart + 2..headerStart + total];
      assert message == buf[headerStart..][2..total];
      readPos := readPos + total;
      consumed := consumed + total;
      assert buf[readPos..] == buf[headerStart..][total..];
      TakenIsPaid(old(Now()), old(consumed), total);
      Compact();
      return Ok(Some((message, total)));
    }

    method Reset()
      requires Valid()
      modifies this
      ensures Valid() && Unread() == [] && consumed == old(consumed) + |old(Unread())|
      ensures Now() == Layout(0, 0, old(moved))
    {
      consumed := consumed + (|buf| - readPos);
      buf := [];
      readPos := 0;
    }

    // One turn of the connection loop: feed what arrived, then drain.
    method FeedAndDrain(chunk: bytes) returns (messages: seq<bytes>)
      requires Valid()
      modifies this
      ensures Valid()
      ensures (messages, Unread()) == FeedSpec(old(Unread()), chunk, maxFrameSize)
      ensures |Unread()| <= maxFrameSize as int + 1
      ensures consumed + |Unread()| == old(consumed) + |old(Unread())| + |chunk|
      ensures Now() == FeedLayout(old(Now()), old(Unread()), chunk, maxFrameSize)
    {
      hide Compacted, Peel;
      Feed(chunk);
      messages := [];
      ghost var all := Unread();
      while true
        invariant Valid()
        invariant Parse(all, maxFrameSize) ==
                  Parsed(messages + Parse(Unread(), maxFrameSize).messages,
                         Parse(Unread(), maxFrameSize).rest, Parse(Unread(), maxFrameSize).clean)
        invariant consumed + |Unread()| == old(consumed) + |all|
        invariant FeedLayout(old(Now()), old(Unread()), chunk, maxFrameSize)
                  == DrainLayout(Now(), Unread(), maxFrameSize)
        decreases |Unread()|
      {
        ghost var before := Unread();
        var r := TryDecode();
        if r.Err? {
          assert messages + [] == messages;
          Reset();
          break;
        } else if r.value.None? {
          assert messages + [] == messages;
          RestIsShort(before, maxFrameSize);
          break;
        } else {
          Assoc(messages, [r.value.value.0], Parse(Unread(), maxFrameSize).messages);
          messages := messages + [r.value.value.0];
        }
      }
    }

    // A connection: chunk after chunk.
    method Serve(chunks: seq<bytes>) returns (messages: seq<bytes>)
      requires Valid()
      modifies this
      ensures Valid()
      ensures (messages, Unread()) == ServeSpec(old(Unread()), chunks, maxFrameSize)
      ensures consumed + |Unread()| == old(consumed) + |old(Unread())| + |Concat(chunks)|
      ensures Now() == ServeLayout(old(Now()), old(Unread()), chunks, maxFrameSize)
      ensures 2 * moved <= 3 * consumed
    {
      messages := [];
      assert chunks[0..] == chunks;
      ghost var whole := ServeSpec(Unread(), chunks, maxFrameSize);
      assert [] + whole.0 == whole.0;
      for i := 0 to |chunks|
        invariant Valid()
        invariant ServeSpec(old(Unread()), chunks, maxFrameSize) ==
                  (messages + ServeSpec(Unread(), chunks[i..], maxFrameSize).0,
                   ServeSpec(Unread(), chunks[i..], maxFrameSize).1)
        invariant consumed + |Unread()| + |Concat(chunks[i..])| == old(consumed) + |old(Unread())| + |Concat(chunks)|
        invariant ServeLayout(old(Now()), old(Unread()), chunks, maxFrameSize)
                  == ServeLayout(Now(), Unread(), chunks[i..], maxFrameSize)
      {
        DropOne(chunks, i);
        ghost var before := messages;
        var more := FeedAndDrain(chunks[i]);
        Assoc(before, more, ServeSpec(Unread(), chunks[i + 1..], maxFrameSize).0);
        messages := messages + more;
      }
      assert messages + [] == messages;
    }
  }
}

/** `MessageBuffer`, the receive buffer that reassembles eISCP packets from a
    TCP byte stream (eiscp/core.py:314-343), and what it guarantees about the
    order of the messages it hands out. */
module Buffer {
  import opened Wrappers
  import opened Text
  import Iscp
  import Packet

  /** What one `get_message` call yields, and the bytes held afterwards. */
  datatype Step = Step(outcome: Result<Option<string>>, rest: seq<Byte>)

  /** One `get_message` on a buffer holding `buf`. With fewer than 16 bytes,
      or fewer than the 16 + data size the header announces, there is no
      message yet and nothing changes. A header failure is raised before the
      buffer is trimmed, so it leaves `buf` as it was; so does a decoding or
      ISCP failure of the packet (see `TakePacket`). */
  function NextMessage(buf: seq<Byte>): (s: Step)
    ensures s.outcome.Err? || s.outcome.value.None? ==> s.rest == buf
    ensures s.outcome.Ok? && s.outcome.value.Some? ==> |s.rest| < |buf|
  {
    if |buf| < Packet.HEADER_SIZE then Step(Ok(None), buf)
    else
      match Packet.ParseHeader(buf[..Packet.HEADER_SIZE])
      case Err(e) => Step(Err(e), buf)
      case Ok(header) =>
        var end := Packet.HEADER_SIZE + header.dataSize;
        if |buf| < end then Step(Ok(None), buf)
        else TakePacket(buf, end)
  }

  /** The first packet is complete and its bytes end at `end`: its message
      comes out and exactly its bytes are dropped from the front, unless
      decoding or ISCP parsing raises first, which leaves `buf` as it was. */
  function TakePacket(buf: seq<Byte>, end: nat): (s: Step)
    requires Packet.HEADER_SIZE <= end <= |buf|
    ensures s.outcome.Ok? ==> s.outcome.value.Some? && s.rest == buf[end..]
    ensures s.outcome.Ok? ==> exists t ::
      && Iscp.IsTrailer(t) && IsAscii(Iscp.START + s.outcome.value.value + [Iscp.EOF] + t)
      && buf[Packet.HEADER_SIZE..end] == Encode(Iscp.START + s.outcome.value.value + [Iscp.EOF] + t)
    ensures s.outcome.Err? ==> s.rest == buf
    ensures s.outcome.Err? ==> s.outcome.error in {UnicodeDecodeError, AssertionError}
  {
    match PayloadMessage(buf[Packet.HEADER_SIZE..end])
    case Err(e) => Step(Err(e), buf)
    case Ok(message) => Step(Ok(Some(message)), buf[end..])
  }

  /** `ISCPMessage.parse(payload.decode())`: the payload must be ASCII text
      framed as a reply, "!1", the body, EOF and at most two CR/LF; the body
      comes out. */
  function PayloadMessage(payload: seq<Byte>): (r: Result<string>)
    ensures !IsAsciiBytes(payload) ==> r == Err(UnicodeDecodeError)
    ensures IsAsciiBytes(payload) && r.Err? ==> r.error == AssertionError
    ensures r.Ok? ==> exists t ::
      && Iscp.IsTrailer(t) && IsAscii(Iscp.START + r.value + [Iscp.EOF] + t)
      && payload == Encode(Iscp.START + r.value + [Iscp.EOF] + t)
  {
    match Decode(payload)
    case Err(e) => Err(e)
    case Ok(text) =>
      var r := Iscp.Parse(text);
      assert r.Ok? ==> var t := text[|r.value| + 3..];
        && Iscp.IsTrailer(t) && text == Iscp.START + r.value + [Iscp.EOF] + t;
      r
  }

  /** The converse: the bytes of any reply framing give back its body. */
  lemma PayloadOfReply(body: string, trailer: string)
    requires IsAscii(body) && Iscp.IsTrailer(trailer)
    ensures var text := Iscp.START + body + [Iscp.EOF] + trailer;
      IsAscii(text) && PayloadMessage(Encode(text)) == Ok(body)
  {
    var text := Iscp.START + body + [Iscp.EOF] + trailer;
    FramedAscii(body, trailer);
    DecodeEncode(text);
    Iscp.ParseFramed(body, trailer);
  }

  class MessageBuffer {
    const bufferSize: int
    var buffer: seq<Byte>

    constructor (bufferSize: int)
      ensures this.bufferSize == bufferSize && buffer == []
    {
      this.bufferSize := bufferSize;
      buffer := [];
    }

    /** `reset`: drop everything held (done on every reconnect). */
    method Reset()
      modifies this
      ensures buffer == [] && Available() == bufferSize
    {
      buffer := [];
    }

    /** `available`: room left before the capacity is reached; callers read
        at most this many bytes from the socket. */
    function Available(): (n: int)
      reads this
      ensures n == bufferSize - |buffer| && n <= bufferSize
    {
      bufferSize - |buffer|
    }

    /** `recv`: append what the socket delivered. The capacity is not
        enforced here; it holds as long as callers respect `Available`. */
    method Recv(data: seq<Byte>)
      modifies this
      ensures buffer == old(buffer) + data
      ensures Available() == old(Available()) - |data|
      ensures |data| <= old(Available()) ==> |buffer| <= bufferSize
    {
      buffer := buffer + data;
    }

    /** `get_message`: at most one message from the front of the buffer. */
    method GetMessage() returns (r: Result<Option<string>>)
      modifies this
      ensures r == NextMessage(old(buffer)).outcome
      ensures buffer == NextMessage(old(buffer)).rest
      ensures |buffer| <= |old(buffer)|
    {
      if |buffer| >= Packet.HEADER_SIZE {
        var header := Packet.ParseHeader(buffer[..Packet.HEADER_SIZE]);
        if header.Err? {
          return Err(header.error);
        }
        var dataSize := header.value.dataSize;
        if |buffer| >= dataSize + Packet.HEADER_SIZE {
          var text := Decode(buffer[Packet.HEADER_SIZE..dataSize + Packet.HEADER_SIZE]);
          if text.Err? {
            return Err(text.error);
          }
          var packet := Iscp.Parse(text.value);
          if packet.Err? {
            return Err(packet.error);
          }
          buffer := buffer[Packet.HEADER_SIZE + dataSize..];
          return Ok(Some(packet.value));
        }
      }
      return Ok(None);
    }
  }

  /** Bytes appended after a complete packet, or after a failing one, do not
      change what `get_message` does with the front of the buffer. */
  lemma NextMessageExtend(buf: seq<Byte>, more: seq<Byte>)
    ensures var s := NextMessage(buf);
      && (s.outcome.Err? ==> NextMessage(buf + more) == Step(s.outcome, buf + more))
      && (s.outcome.Ok? && s.outcome.value.Some? ==> NextMessage(buf + more) == Step(s.outcome, s.rest + more))
  {
    ShortWaits(buf);
    HeaderErrorExtend(buf, more);
    PartialWaits(buf);
    CompletePacketExtend(buf, more);
  }

  /** Without a whole header there is no message yet. */
  lemma ShortWaits(buf: seq<Byte>)
    ensures |buf| < Packet.HEADER_SIZE ==> NextMessage(buf) == Step(Ok(None), buf)
  {
  }

  /** Without all the data the header announces there is no message yet. */
  lemma PartialWaits(buf: seq<Byte>)
    ensures (&& |buf| >= Packet.HEADER_SIZE
             && Packet.ParseHeader(buf[..Packet.HEADER_SIZE]).Ok?
             && |buf| < Packet.HEADER_SIZE + Packet.ParseHeader(buf[..Packet.HEADER_SIZE]).value.dataSize)
      ==> NextMessage(buf) == Step(Ok(None), buf)
  {
  }

  /** A header that fails fails the same way with more bytes behind it. */
  lemma HeaderErrorExtend(buf: seq<Byte>, more: seq<Byte>)
    ensures |buf| >= Packet.HEADER_SIZE && Packet.ParseHeader(buf[..Packet.HEADER_SIZE]).Err? ==>
      var e := Packet.ParseHeader(buf[..Packet.HEADER_SIZE]).error;
      NextMessage(buf) == Step(Err(e), buf) && NextMessage(buf + more) == Step(Err(e), buf + more)
  {
    if |buf| >= Packet.HEADER_SIZE {
      assert (buf + more)[..Packet.HEADER_SIZE] == buf[..Packet.HEADER_SIZE];
    }
  }

  /** A complete first packet is taken the same way with more bytes behind
      it. */
  lemma CompletePacketExtend(buf: seq<Byte>, more: seq<Byte>)
    ensures (&& |buf| >= Packet.HEADER_SIZE
             && Packet.ParseHeader(buf[..Packet.HEADER_SIZE]).Ok?
             && Packet.HEADER_SIZE + Packet.ParseHeader(buf[..Packet.HEADER_SIZE]).value.dataSize <= |buf|)
      ==> var s := NextMessage(buf);
          && (s.outcome.Err? ==> NextMessage(buf + more) == Step(s.outcome, buf + more))
          && (s.outcome.Ok? ==> NextMessage(buf + more) == Step(s.outcome, s.rest + more))
  {
    if |buf| >= Packet.HEADER_SIZE && Packet.ParseHeader(buf[..Packet.HEADER_SIZE]).Ok? {
      var end := Packet.HEADER_SIZE + Packet.ParseHeader(buf[..Packet.HEADER_SIZE]).value.dataSize;
      if end <= |buf| {
        CompleteTakes(buf, end);
        HeaderPrefix(buf, more);
        CompleteTakes(buf + more, end);
        TakePacketExtend(buf, more, end);
      }
    }
  }

  lemma HeaderPrefix(buf: seq<Byte>, more: seq<Byte>)
    requires |buf| >= Packet.HEADER_SIZE
    ensures (buf + more)[..Packet.HEADER_SIZE] == buf[..Packet.HEADER_SIZE]
  {
  }

  /** A complete first packet is handled by `TakePacket`. */
  lemma CompleteTakes(buf: seq<Byte>, end: nat)
    requires |buf| >= Packet.HEADER_SIZE && Packet.ParseHeader(buf[..Packet.HEADER_SIZE]).Ok?
    requires end == Packet.HEADER_SIZE + Packet.ParseHeader(buf[..Packet.HEADER_SIZE]).value.dataSize <= |buf|
    ensures NextMessage(buf) == TakePacket(buf, end)
  {
  }

  /** The payload of a complete packet does not see the bytes after it. */
  lemma TakePacketExtend(buf: seq<Byte>, more: seq<Byte>, end: nat)
    requires Packet.HEADER_SIZE <= end <= |buf|
    ensures var s := TakePacket(buf, end);
      && (s.outcome.Err? ==> TakePacket(buf + more, end) == Step(s.outcome, buf + more))
      && (s.outcome.Ok? ==> TakePacket(buf + more, end) == Step(s.outcome, s.rest + more))
  {
    assert (buf + more)[Packet.HEADER_SIZE..end] == buf[Packet.HEADER_SIZE..end];
    assert (buf + more)[end..] == buf[end..] + more;
  }

  /** The messages, in order, that repeated `get_message` calls take from a
      buffer until one yields no message or raises; what is then held; and
      the error if one was raised. */
  datatype Drained = Drained(messages: seq<string>, rest: seq<Byte>, failure: Option<Error>)

  function Drain(buf: seq<Byte>): Drained
    decreases |buf|
  {
    var s := NextMessage(buf);
    if s.outcome.Err? then Drained([], buf, Some(s.outcome.error))
    else if s.outcome.value.None? then Drained([], buf, None)
    else
      var d := Drain(s.rest);
      Drained([s.outcome.value.value] + d.messages, d.rest, d.failure)
  }

  /** Draining `d.rest + more` after a drain that ended in `d`; a failure is
      sticky, since the failing packet stays at the front. */
  function Continue(d: Drained, more: seq<Byte>): Drained
  {
    if d.failure.Some? then Drained(d.messages, d.rest + more, d.failure)
    else
      var e := Drain(d.rest + more);
      Drained(d.messages + e.messages, e.rest, e.failure)
  }

  /** Draining after more bytes arrive yields what the earlier drain yielded,
      followed by what the remaining bytes then yield: arrival in pieces
      neither reorders, drops nor invents messages. */
  lemma {:induction false} DrainAppend(buf: seq<Byte>, more: seq<Byte>)
    ensures Drain(buf + more) == Continue(Drain(buf), more)
    decreases |buf|
  {
    var s := NextMessage(buf);
    if s.outcome.Err? {
      DrainAppendFailure(buf, more);
    } else if s.outcome.value.None? {
      DrainAppendQuiet(buf, more);
    } else {
      DrainAppend(s.rest, more);
      DrainAppendMessage(buf, more);
    }
  }

  /** The cases of `DrainAppend`: a failing front packet, no message yet, and
      a message followed by the drain of what is left. */
  lemma DrainAppendFailure(buf: seq<Byte>, more: seq<Byte>)
    requires NextMessage(buf).outcome.Err?
    ensures Drain(buf + more) == Continue(Drain(buf), more)
  {
    NextMessageExtend(buf, more);
  }

  lemma DrainAppendQuiet(buf: seq<Byte>, more: seq<Byte>)
    requires NextMessage(buf).outcome == Ok(None)
    ensures Drain(buf + more) == Continue(Drain(buf), more)
  {
    assert [] + Drain(buf + more).messages == Drain(buf + more).messages;
  }

  lemma DrainAppendMessage(buf: seq<Byte>, more: seq<Byte>)
    requires NextMessage(buf).outcome.Ok? && NextMessage(buf).outcome.value.Some?
    requires Drain(NextMessage(buf).rest + more) == Continue(Drain(NextMessage(buf).rest), more)
    ensures Drain(buf + more) == Continue(Drain(buf), more)
  {
    var s := NextMessage(buf);
    DrainOfMessage(buf);
    NextMessageExtend(buf, more);
    DrainOfMessage(buf + more);
    ContinueAfterMessage(s.outcome.value.value, Drain(s.rest), more);
  }

  /** One message taken, then the drain of the rest. */
  lemma DrainOfMessage(buf: seq<Byte>)
    requires NextMessage(buf).outcome.Ok? && NextMessage(buf).outcome.value.Some?
    ensures var s := NextMessage(buf); var d := Drain(s.rest);
      Drain(buf) == Drained([s.outcome.value.value] + d.messages, d.rest, d.failure)
  {
  }

  lemma ContinueAfterMessage(m: string, d: Drained, more: seq<Byte>)
    ensures var c := Continue(d, more);
      Continue(Drained([m] + d.messages, d.rest, d.failure), more) == Drained([m] + c.messages, c.rest, c.failure)
  {
    if d.failure.None? {
      var e := Drain(d.rest + more);
      assert [m] + d.messages + e.messages == [m] + (d.messages + e.messages);
    }
  }

  /** A drain that raised nothing stops at a buffer with no message ready. */
  lemma {:induction false} DrainStopsQuiet(buf: seq<Byte>)
    requires Drain(buf).failure.None?
    ensures Drain(Drain(buf).rest) == Drained([], Drain(buf).rest, None)
    decreases |buf|
  {
    var s := NextMessage(buf);
    if s.outcome.Ok? && s.outcome.value.Some? {
      DrainStopsQuiet(s.rest);
    }
  }

  function Flatten(chunks: seq<seq<Byte>>): seq<Byte>
  {
    if |chunks| == 0 then [] else chunks[0] + Flatten(chunks[1..])
  }

  /** A connection that receives `chunks` one after another into a buffer
      holding `buf`, calling `get_message` after each until it yields no
      message. After a failure later chunks are only appended: the failing
      packet stays at the front and every further call raises again. */
  function Feed(buf: seq<Byte>, chunks: seq<seq<Byte>>): Drained
    decreases |chunks|
  {
    if |chunks| == 0 then Drained([], buf, None)
    else
      var d := Drain(buf + chunks[0]);
      if d.failure.Some? then Drained(d.messages, d.rest + Flatten(chunks[1..]), d.failure)
      else
        var e := Feed(d.rest, chunks[1..]);
        Drained(d.messages + e.messages, e.rest, e.failure)
  }

  lemma {:induction false} FeedIsDrain(buf: seq<Byte>, chunks: seq<seq<Byte>>)
    requires Drain(buf) == Drained([], buf, None)
    ensures Feed(buf, chunks) == Drain(buf + Flatten(chunks))
    decreases |chunks|
  {
    if |chunks| == 0 {
      assert buf + Flatten(chunks) == buf;
    } else {
      var c, cs := chunks[0], chunks[1..];
      assert buf + Flatten(chunks) == (buf + c) + Flatten(cs);
      DrainAppend(buf + c, Flatten(cs));
      var d := Drain(buf + c);
      if d.failure.None? {
        DrainStopsQuiet(buf + c);
        FeedIsDrain(d.rest, cs);
      }
    }
  }

  /** However the stream is cut into `recv` chunks, the messages come out
      in the same order, with the same bytes left over and the same error, as
      when the whole stream arrives at once. */
  lemma ChunkingInvariant(chunks: seq<seq<Byte>>)
    ensures Feed([], chunks) == Drain(Flatten(chunks))
  {
    assert Drain([]) == Drained([], [], None);
    FeedIsDrain([], chunks);
    assert [] + Flatten(chunks) == Flatten(chunks);
  }

  /** A message as the receiver sends it: body, EOF, then a CR/LF trailer. */
  datatype Reply = Reply(body: string, trailer: string)

  predicate ValidReply(r: Reply)
  {
    IsAscii(r.body) && Iscp.IsTrailer(r.trailer) && |r.body| + 3 + |r.trailer| < Packet.U32_LIMIT
  }

  /** The ISCP text of a reply: "!1", the body, EOF and the trailer. */
  function ReplyIscpText(r: Reply): (t: string)
    requires ValidReply(r)
    ensures IsAscii(t) && |t| < Packet.U32_LIMIT
  {
    FramedAscii(r.body, r.trailer);
    Iscp.START + r.body + [Iscp.EOF] + r.trailer
  }

  /** A reply framing of ASCII text is ASCII. */
  lemma FramedAscii(body: string, trailer: string)
    requires IsAscii(body) && Iscp.IsTrailer(trailer)
    ensures IsAscii(Iscp.START + body + [Iscp.EOF] + trailer)
  {
    var t := Iscp.START + body + [Iscp.EOF] + trailer;
    forall i | 0 <= i < |t| ensures t[i] as int < 128 {
      if i >= |t| - |trailer| {
        assert t[i] == trailer[i - (|t| - |trailer|)];
      } else if 2 <= i < 2 + |body| {
        assert t[i] == body[i - 2];
      }
    }
  }

  /** The eISCP packet carrying a reply. */
  function Frame(r: Reply): seq<Byte>
    requires ValidReply(r)
  {
    Packet.Pack(ReplyIscpText(r)).value
  }

  lemma NextMessageOfFrame(r: Reply, more: seq<Byte>)
    requires ValidReply(r)
    ensures NextMessage(Frame(r) + more) == Step(Ok(Some(r.body)), more)
  {
    var text := ReplyIscpText(r);
    var f := Frame(r);
    var b := f + more;
    Packet.ParseHeaderOfPack(text);
    assert b[..Packet.HEADER_SIZE] == f[..Packet.HEADER_SIZE];
    var end := Packet.HEADER_SIZE + |text|;
    assert b[Packet.HEADER_SIZE..end] == Encode(text);
    DecodeEncode(text);
    Iscp.ParseFramed(r.body, r.trailer);
    assert b[end..] == more;
  }

  predicate ValidReplies(rs: seq<Reply>)
  {
    forall i :: 0 <= i < |rs| ==> ValidReply(rs[i])
  }

  function Stream(rs: seq<Reply>): seq<Byte>
    requires ValidReplies(rs)
  {
    if |rs| == 0 then [] else Frame(rs[0]) + Stream(rs[1..])
  }

  function Bodies(rs: seq<Reply>): (bodies: seq<string>)
    ensures |bodies| == |rs| && forall i :: 0 <= i < |rs| ==> bodies[i] == rs[i].body
  {
    if |rs| == 0 then [] else [rs[0].body] + Bodies(rs[1..])
  }

  /** Back-to-back reply packets drain to their bodies, in order, leaving
      nothing behind. */
  lemma {:induction false} DrainStream(rs: seq<Reply>)
    requires ValidReplies(rs)
    ensures Drain(Stream(rs)) == Drained(Bodies(rs), [], None)
  {
    if |rs| == 0 {
      assert Drain([]) == Drained([], [], None);
    } else {
      NextMessageOfFrame(rs[0], Stream(rs[1..]));
      DrainStream(rs[1..]);
    }
  }

  /** The receive path end to end: reply packets cut into arbitrary `recv`
      chunks come out as the replies' bodies, in arrival order. */
  lemma ChunkedReplies(chunks: seq<seq<Byte>>, rs: seq<Reply>)
    requires ValidReplies(rs) && Flatten(chunks) == Stream(rs)
    ensures Feed([], chunks) == Drained(Bodies(rs), [], None)
  {
    ChunkingInvariant(chunks);
    DrainStream(rs);
  }
}

/** The FTP client of client/src/client.rs: it reads the server's greeting
    when it connects, sends `USER` to log in, and sorts each reply it reads
    into success, a refusal the protocol defines, or an unexpected reply.
    Replies are read by growing a buffer with whatever the socket reader
    holds until the streaming reply parser is done with it. */
module Client {
  import opened Prelude
  import opened Nom
  import opened Messages
  import opened Io
  import opened ReplyParser
  import opened ReplySerializer
  import ReplyRoundTrip
  import opened ReplyStreaming
  import CommandSerializer

  datatype Result<T, E> = Ok(value: T) | Err(error: E)

  /** `ConnectionErrorReplyCode`. */
  datatype ConnectionErrorReplyCode = NotReady | NotAvailable

  /** `LoginErrorReplyCode`. */
  datatype LoginErrorReplyCode = RequirePassword | RequireAccount | NotLoggedIn

  /** `ClientReadError`. `Stalled` is not a variant of the source: it stands
      for `read_reply` looping forever once the stream has ended before a
      whole reply arrived. */
  datatype ClientReadError =
    | UnexpectedReply(reply: Reply)
    | InvalidReply(input: seq<Byte>)
    | ReadIo
    | Stalled

  /** `ClientWriteError`. */
  datatype ClientWriteError = WriteIo

  /** `ClientError<C>`: a reply the protocol defines as a refusal (the
      source's `Reply` variant), a read error, a write error, or a failed
      connection. */
  datatype ClientError<C> =
    | ErrorReply(code: C, text: Text)
    | Read(readError: ClientReadError)
    | Write(writeError: ClientWriteError)
    | Connection

  /** The discriminants of `ConnectionErrorReplyCode`. */
  function ConnectionValue(c: ConnectionErrorReplyCode): nat {
    match c
    case NotReady => 120
    case NotAvailable => 421
  }

  /** The discriminants of `LoginErrorReplyCode`. */
  function LoginValue(c: LoginErrorReplyCode): nat {
    match c
    case RequirePassword => 331
    case RequireAccount => 332
    case NotLoggedIn => 530
  }

  /** A three-digit number as the three bytes of a reply code. */
  function CodeOf(n: nat): (r: Code)
    requires 100 <= n < 1000
    ensures forall i :: 0 <= i < 3 ==> IsDigit(r[i])
  {
    [48 + n / 100, 48 + n / 10 % 10, 48 + n % 10]
  }

  // ---------------------------------------------------------------------
  // What a reply means

  /** The `match` of `connect`: 220 admits the client; 120 and 421 are
      refusals; any other code is unexpected. */
  function ClassifyConnect(reply: Reply): (r: Result<Text, ClientError<ConnectionErrorReplyCode>>)
    ensures r.Ok? ==> r.value == reply.text
    ensures r.Err? ==> (r.error.ErrorReply? && r.error.text == reply.text) || r.error == Read(UnexpectedReply(reply))
  {
    if reply.code == [49, 50, 48] then Err(ErrorReply(NotReady, reply.text))
    else if reply.code == [50, 50, 48] then Ok(reply.text)
    else if reply.code == [52, 50, 49] then Err(ErrorReply(NotAvailable, reply.text))
    else Err(Read(UnexpectedReply(reply)))
  }

  /** The `match` of `login`: 230 logs the user in; 331, 332 and 530 are
      refusals; any other code is unexpected. */
  function ClassifyLogin(reply: Reply): (r: Result<Text, ClientError<LoginErrorReplyCode>>)
    ensures r.Ok? ==> r.value == reply.text
    ensures r.Err? ==> (r.error.ErrorReply? && r.error.text == reply.text) || r.error == Read(UnexpectedReply(reply))
  {
    if reply.code == [50, 51, 48] then Ok(reply.text)
    else if reply.code == [51, 51, 49] then Err(ErrorReply(RequirePassword, reply.text))
    else if reply.code == [51, 51, 50] then Err(ErrorReply(RequireAccount, reply.text))
    else if reply.code == [53, 51, 48] then Err(ErrorReply(NotLoggedIn, reply.text))
    else Err(Read(UnexpectedReply(reply)))
  }

  /** A refusal at connection carries the code its variant is numbered
      by, and only that code gives it. */
  lemma ConnectRefusal(reply: Reply, c: ConnectionErrorReplyCode)
    ensures ClassifyConnect(reply) == Err(ErrorReply(c, reply.text)) <==> reply.code == CodeOf(ConnectionValue(c))
    ensures ClassifyConnect(reply).Ok? <==> reply.code == CodeOf(220)
  {
  }

  /** A refusal at login carries the code its variant is numbered by, and
      only that code gives it. */
  lemma LoginRefusal(reply: Reply, c: LoginErrorReplyCode)
    ensures ClassifyLogin(reply) == Err(ErrorReply(c, reply.text)) <==> reply.code == CodeOf(LoginValue(c))
    ensures ClassifyLogin(reply).Ok? <==> reply.code == CodeOf(230)
  {
  }

  /** A reply whose code is not one `connect` knows is unexpected. */
  lemma ConnectUnexpected(reply: Reply)
    ensures ClassifyConnect(reply) == Err(Read(UnexpectedReply(reply))) <==>
      reply.code != CodeOf(120) && reply.code != CodeOf(220) && reply.code != CodeOf(421)
  {
  }

  /** A reply whose code is not one `login` knows is unexpected. */
  lemma LoginUnexpected(reply: Reply)
    ensures ClassifyLogin(reply) == Err(Read(UnexpectedReply(reply))) <==>
      reply.code != CodeOf(230) && reply.code != CodeOf(331) && reply.code != CodeOf(332) && reply.code != CodeOf(530)
  {
  }

  // ---------------------------------------------------------------------
  // The client

  /** `usize` arithmetic wraps modulo 2^64. */
  const USIZE_MODULUS: nat := 0x1_0000_0000_0000_0000

  /** What one `read_reply` promises about the stream: it held `before`
      and holds `after` afterwards, of which the reader buffers `held`;
      `seen` is the buffer the parser was last handed, and is taken from
      the stream. A reply read is what the parser read from `seen`, is
      transmissible, and, with a code free of `\r`, is exactly what left
      the stream. A parse error gives the input where it failed; every
      chunk before the last has left the stream, and the last is still
      held. An ended stream leaves the loop spinning (`Stalled`) with
      everything consumed and the parse still incomplete. */
  ghost predicate ReadFrom(before: seq<Byte>, after: seq<Byte>, held: seq<Byte>,
                           result: Result<Reply, ClientReadError>, seen: seq<Byte>)
  {
    && seen <= before
    && (result.Ok? ==>
          ParseReply(seen).Done? && ParseReply(seen).value == result.value && Transmissible(result.value))
    && (result.Ok? && ReplyRoundTrip.NoCr(result.value.code) ==> before == EncodeReply(result.value) + after)
    && (result.Err? ==> result.error.InvalidReply? || result.error == Stalled)
    && (result.Err? && result.error.InvalidReply? ==>
          ParseReply(seen) == Error(result.error.input) &&
          |held| <= |seen| && held == seen[|seen| - |held|..] && before == seen[..|seen| - |held|] + after)
    && (result == Err(Stalled) ==> seen == before && after == [] && ParseReply(seen).Incomplete?)
  }

  class Client {
    const reader: Reader
    const writer: CommandSerializer.CommandSerializer

    constructor (reader: Reader, writer: CommandSerializer.CommandSerializer)
      ensures this.reader == reader && this.writer == writer
    {
      this.reader := reader;
      this.writer := writer;
    }

    /** `read_reply`: what the reader holds is appended to a growing
        buffer and parsed. While the parse is incomplete the whole of it is
        consumed; once a reply is read only the part of the last chunk the
        reply took is consumed, so the bytes after it stay in the reader.
        `seen` is the buffer the parser was last handed; `ReadFrom` says
        what the call promises. */
    method ReadReply() returns (result: Result<Reply, ClientReadError>, ghost seen: seq<Byte>)
      requires reader.Valid()
      modifies reader
      ensures reader.Valid()
      ensures ReadFrom(old(reader.Incoming()), reader.Incoming(), reader.buffered, result, seen)
    {
      var buffer: seq<Byte> := [];
      while true
        invariant reader.Valid()
        invariant old(reader.Incoming()) == buffer + reader.Incoming()
        invariant ParseReply(buffer).Incomplete?
        decreases |reader.Incoming()|
      {
        ghost var unread := reader.Incoming();
        var chunk := reader.FillBuf();
        ghost var later := Flatten(reader.chunks);
        assert unread == chunk + later;
        assert old(reader.Incoming()) == buffer + chunk + later by {
          assert old(reader.Incoming()) == buffer + unread;
        }
        var readAmount := |chunk|;
        seen := buffer + chunk;
        var parsed := ParseReply(buffer + chunk);
        if parsed.Done? {
          if ReplyRoundTrip.NoCr(parsed.value.code) {
            ConsumedWithinChunk(buffer, chunk, parsed.rest, parsed.value);
          }
          ConsumeReply(buffer, chunk, parsed.rest, parsed.value);
          return Ok(parsed.value), seen;
        } else if parsed.Incomplete? {
          reader.Consume(readAmount);
          if chunk == [] {
            return Err(Stalled), seen;
          }
          buffer := buffer + chunk;
        } else {
          assert seen == buffer + reader.buffered;
          assert seen[..|seen| - |reader.buffered|] == buffer;
          return Err(InvalidReply(parsed.input)), seen;
        }
      }
    }

    /** `consume(read_amount - unparsed.len())` once a reply was parsed
        from the buffer and the chunk the reader holds, leaving `rest`; the
        `usize` subtraction wraps. When the rest lies inside the chunk,
        exactly the reply's bytes leave the stream. */
    method ConsumeReply(ghost buffer: seq<Byte>, chunk: seq<Byte>, rest: seq<Byte>, ghost reply: Reply)
      requires reader.Valid() && reader.buffered == chunk
      requires buffer + chunk == EncodeReply(reply) + rest
      modifies reader
      ensures reader.Valid()
      ensures |rest| <= |chunk| ==> buffer + old(reader.Incoming()) == EncodeReply(reply) + reader.Incoming()
    {
      var readAmount, unparsed := |chunk|, |rest|;
      var amount := if unparsed <= readAmount then readAmount - unparsed else (readAmount - unparsed) % USIZE_MODULUS;
      ghost var later := Flatten(reader.chunks);
      reader.Consume(amount);
      if unparsed <= readAmount {
        SplitChunk(buffer, chunk, later, EncodeReply(reply), rest);
        calc {
          buffer + old(reader.Incoming());
          buffer + (chunk + later);
          buffer + chunk + later;
          EncodeReply(reply) + (rest + later);
          EncodeReply(reply) + reader.Incoming();
        }
      }
    }

    /** `connect`, once the socket is open: the greeting is read and
        classified; with 220 the client is ready. */
    static method Connect(reader: Reader, writer: Writer)
      returns (result: Result<(Client, Text), ClientError<ConnectionErrorReplyCode>>,
               ghost greeting: Result<Reply, ClientReadError>, ghost seen: seq<Byte>)
      requires reader.Valid()
      modifies reader
      ensures reader.Valid()
      ensures ReadFrom(old(reader.Incoming()), reader.Incoming(), reader.buffered, greeting, seen)
      ensures greeting.Err? ==> result == Err(Read(greeting.error))
      ensures greeting.Ok? ==> (result.Ok? <==> ClassifyConnect(greeting.value).Ok?)
      ensures greeting.Ok? && result.Ok? ==>
        result.value.1 == ClassifyConnect(greeting.value).value &&
        fresh(result.value.0) && result.value.0.reader == reader && result.value.0.writer.writer == writer
      ensures greeting.Ok? && result.Err? ==> result.error == ClassifyConnect(greeting.value).error
    {
      var serializer := new CommandSerializer.CommandSerializer(writer);
      var instance := new Client(reader, serializer);
      var reply;
      reply, seen := instance.ReadReply();
      greeting := reply;
      if reply.Err? {
        return Err(Read(reply.error)), greeting, seen;
      }
      var outcome := ClassifyConnect(reply.value);
      if outcome.Ok? {
        result := Ok((instance, outcome.value));
      } else {
        result := Err(outcome.error);
      }
    }

    /** `login`: `USER` with the name is sent and flushed, then the reply
        is read and classified. */
    method Login(username: seq<Byte>)
      returns (result: Result<Text, ClientError<LoginErrorReplyCode>>, ghost answer: Result<Reply, ClientReadError>,
               ghost seen: seq<Byte>)
      requires reader.Valid()
      modifies reader, writer.writer
      ensures reader.Valid()
      ensures ReadFrom(old(reader.Incoming()), reader.Incoming(), reader.buffered, answer, seen)
      ensures writer.writer.written == old(writer.writer.written) + CommandSerializer.EncodeCommand(UserName(username))
      ensures writer.writer.flushes == old(writer.writer.flushes) + 1
      ensures answer.Err? ==> result == Err(Read(answer.error))
      ensures answer.Ok? ==> result == ClassifyLogin(answer.value)
    {
      writer.Serialize(UserName(username));
      var reply;
      reply, seen := ReadReply();
      answer := reply;
      if reply.Err? {
        return Err(Read(reply.error)), answer, seen;
      }
      result := ClassifyLogin(reply.value);
    }
  }

  /** When the parse of the buffer was still incomplete, a reply parsed
      from the buffer and a new chunk ends inside that chunk: the
      subtraction in `read_reply` cannot wrap, and cannot come to zero. */
  lemma ConsumedWithinChunk(buffer: seq<Byte>, chunk: seq<Byte>, rest: seq<Byte>, reply: Reply)
    requires ParseReply(buffer).Incomplete?
    requires ParseReply(buffer + chunk) == Done(rest, reply)
    requires ReplyRoundTrip.NoCr(reply.code)
    ensures |rest| < |chunk|
  {
    var e := EncodeReply(reply);
    assert buffer + chunk == e + rest && Transmissible(reply);
    if |chunk| <= |rest| {
      assert StartsWith(buffer, e) by {
        assert buffer == (buffer + chunk)[..|buffer|];
      }
      ReplyPrefixParses(buffer, reply);
      assert false;
    }
  }

  /** On a stream that begins with a whole transmissible reply whose code
      holds no `\r`, `read_reply` returns that reply, neither an error nor
      a stall, and the stream then holds what followed it. */
  lemma ReadFromWholeReply(before: seq<Byte>, after: seq<Byte>, held: seq<Byte>,
                           result: Result<Reply, ClientReadError>, seen: seq<Byte>, reply: Reply, t: seq<Byte>)
    requires Transmissible(reply) && ReplyRoundTrip.NoCr(reply.code)
    requires before == EncodeReply(reply) + t
    requires ReadFrom(before, after, held, result, seen)
    ensures result == Ok(reply) && after == t
  {
    if result.Err? {
      if result.error.InvalidReply? {
        PrefixNotInvalid(seen, reply, t);
      } else {
        ReplyPrefixParses(before, reply);
      }
      assert false;
    }
    PrefixParsesSame(seen, reply, t);
    var e := EncodeReply(reply);
    assert before == e + after;
    assert after == before[|e|..] == t;
  }

  /** A stream cut in two places: the reply and its rest on one side, the
      buffer and the chunk on the other, the rest lying inside the chunk. */
  lemma SplitChunk(buffer: seq<Byte>, chunk: seq<Byte>, later: seq<Byte>, e: seq<Byte>, rest: seq<Byte>)
    requires buffer + chunk == e + rest && |rest| <= |chunk|
    ensures chunk[|chunk| - |rest|..] == rest
    ensures buffer + chunk + later == e + (rest + later)
  {
    assert (buffer + chunk)[|e|..] == rest;
  }
}

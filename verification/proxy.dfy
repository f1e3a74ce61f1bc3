/** The forwarding loop of proxy/src/proxy.rs: bytes arrive from a reader
    into a fixed 16 KiB buffer, the streaming parser is tried on what has
    arrived, more is read as the parser asks for it, and every parsed
    message is handed to a serializer. Commands flow from the client to the
    server, replies back. */
module Proxy {
  import opened Prelude
  import opened Nom
  import opened Messages
  import opened Io
  import CommandParser
  import ReplyParser
  import CommandSerializer
  import ReplySerializer
  import ReplyRoundTrip
  import ReplyStreaming

  /** `BUFFER_SIZE`: 16 KiB. */
  const BUFFER_SIZE: nat := 1024 * 16

  /** How `parse_stream` ends: with a message, with the `UnexpectedEof`
      error, or with the thread panicking (`panic!` after a parse error, or
      a slice index past the end of the buffer). */
  datatype Streamed<T> = Received(value: T) | EndOfStream | Panicked

  /** How `pipe` ends: `Ok(())` once the stream ended, or a panic. */
  datatype PipeEnd = Finished | Aborted

  /** The parser hands back a suffix of its input as the rest, as every
      nom parser over a slice does. */
  ghost predicate Streaming<T>(parse: seq<Byte> -> IResult<T>) {
    forall s :: ConsumesPrefix(parse(s), s)
  }

  /** The parser consumes at least one byte whenever it succeeds. */
  ghost predicate Progressing<T>(parse: seq<Byte> -> IResult<T>) {
    forall s :: MakesProgress(parse(s), s)
  }

  /** What makes `parse_stream` panic when the parser is handed `seen`: a
      parse error, or a request for more bytes than the buffer has room
      for. */
  ghost predicate Fails<T>(parse: seq<Byte> -> IResult<T>, seen: seq<Byte>) {
    var r := parse(seen);
    r.Error? || r.Panic? || (r.Incomplete? && r.needed.Size? && BUFFER_SIZE < |seen| + r.needed.n)
  }

  /** How `pipe` stopped, given what was `left` unparsed, the bytes the
      parser was last handed (`tail`, a prefix of `left` that fits the
      buffer) and what the reader still holds (`unread`). It finished
      because the stream ended while `tail` was incomplete:
      - when the parser asked for as much as could come, `read` found the
        stream empty, and `left` is `tail` alone; or the buffer was full, and
        `read` into it returned nothing with `unread` still behind `tail`;
      - when the parser asked for `n` more bytes, fewer than `n` were left,
        and the reader is drained.
      It aborted exactly when `tail` failed to parse or asked for more than
      the buffer holds, with nothing read past `tail`. */
  ghost predicate Stopped<T>(parse: seq<Byte> -> IResult<T>, end: PipeEnd, left: seq<Byte>, tail: seq<Byte>,
                             unread: seq<Byte>)
  {
    && tail <= left && |tail| <= BUFFER_SIZE
    && (end.Finished? ==> parse(tail).Incomplete?)
    && (end.Finished? && parse(tail).needed.Unknown? ==>
          left == tail + unread && (unread == [] || |tail| == BUFFER_SIZE))
    && (end.Finished? && parse(tail).needed.Size? ==>
          unread == [] && |left| < |tail| + parse(tail).needed.n)
    && (end.Aborted? <==> Fails(parse, tail))
    && (end.Aborted? ==> left == tail + unread)
  }

  /** `sent` is `values` passed through the hook. */
  ghost predicate Hooked<T>(values: seq<T>, sent: seq<T>, hook: T -> T) {
    |sent| == |values| && forall k :: 0 <= k < |values| ==> sent[k] == hook(values[k])
  }

  /** Hooking one more message. */
  lemma HookedSnoc<T>(values: seq<T>, sent: seq<T>, hook: T -> T, value: T)
    requires Hooked(values, sent, hook)
    ensures Hooked(values + [value], sent + [hook(value)], hook)
  {
  }

  // ---------------------------------------------------------------------
  // The buffer

  /** `copy_within(from..from + len, 0)`: the range moves to the front;
      the bytes from `len` on are left as they were. */
  method CopyWithin(buffer: array<Byte>, from: nat, len: nat)
    requires from + len <= buffer.Length
    modifies buffer
    ensures buffer[..len] == old(buffer[from..from + len])
    ensures buffer[len..] == old(buffer[len..])
  {
    for j := 0 to len
      invariant forall k :: 0 <= k < j ==> buffer[k] == old(buffer[from + k])
      invariant forall k :: j <= k < buffer.Length ==> buffer[k] == old(buffer[k])
    {
      buffer[j] := buffer[from + j];
    }
  }

  /** What a read stores into `buffer[at..]`: the bytes before `at` stay. */
  method CopyInto(buffer: array<Byte>, at: nat, bytes: seq<Byte>)
    requires at + |bytes| <= buffer.Length
    modifies buffer
    ensures buffer[..at + |bytes|] == old(buffer[..at]) + bytes
  {
    for j := 0 to |bytes|
      invariant forall k :: 0 <= k < at ==> buffer[k] == old(buffer[k])
      invariant forall k :: 0 <= k < j ==> buffer[at + k] == bytes[k]
    {
      buffer[at + j] := bytes[j];
    }
  }

  /** The reset after a successful parse: the `amount` unparsed bytes at
      the end of `buffer[..index]` move to the front, and the index points
      past them. */
  method ResetBuffer(buffer: array<Byte>, index: nat, amount: nat) returns (newIndex: nat)
    requires amount <= index <= buffer.Length
    modifies buffer
    ensures newIndex == amount
    ensures buffer[..newIndex] == old(buffer[..index])[index - amount..]
  {
    if amount > 0 {
      CopyWithin(buffer, index - amount, amount);
      newIndex := amount;
    } else {
      newIndex := 0;
    }
  }

  // ---------------------------------------------------------------------
  // parse_stream

  /** `parse_stream`: the parser is tried on `buffer[..index]`. On success
      the unparsed rest is moved to the front and the message returned;
      `Incomplete(Size(n))` reads exactly `n` more bytes, `Incomplete(Unknown)`
      as many as fit, and an error panics. `stream` is the buffered bytes
      followed by the unread ones; `seen` is what the parser was last
      handed, a prefix of `stream`. On success nothing is lost: `seen` is
      followed by what is still unread, and the rest of the parse is at the
      front of the buffer. The stream ends where `read_exact` runs short,
      or where `read` returns nothing, which it also does into a full
      buffer. */
  method ParseStream<T>(buffer: array<Byte>, index: nat, reader: Reader, parse: seq<Byte> -> IResult<T>,
                        ghost stream: seq<Byte>)
    returns (outcome: Streamed<T>, newIndex: nat, ghost seen: seq<Byte>)
    requires buffer.Length == BUFFER_SIZE && index <= BUFFER_SIZE
    requires reader.Valid() && Streaming(parse)
    requires stream == buffer[..index] + reader.Incoming()
    modifies buffer, reader
    ensures reader.Valid() && newIndex <= BUFFER_SIZE
    ensures index <= |seen| <= BUFFER_SIZE
    ensures seen <= stream
    ensures outcome.Received? ==>
      parse(seen) == Done(buffer[..newIndex], outcome.value) &&
      stream == seen + reader.Incoming()
    ensures outcome.EndOfStream? ==> parse(seen).Incomplete?
    ensures outcome.EndOfStream? && parse(seen).needed.Size? ==>
      reader.Incoming() == [] &&
      |stream| < |seen| + parse(seen).needed.n
    ensures outcome.EndOfStream? && parse(seen).needed.Unknown? ==>
      stream == seen + reader.Incoming() &&
      (reader.Incoming() == [] || |seen| == BUFFER_SIZE)
    ensures outcome.Panicked? <==>
      parse(seen).Error? || parse(seen).Panic? ||
      (parse(seen).Incomplete? && parse(seen).needed.Size? && BUFFER_SIZE < |seen| + parse(seen).needed.n)
    ensures outcome.Panicked? ==> stream == seen + reader.Incoming()
  {
    var i := index;
    while true
      invariant reader.Valid() && index <= i <= BUFFER_SIZE
      invariant stream == buffer[..i] + reader.Incoming()
      decreases |reader.Incoming()|
    {
      seen := buffer[..i];
      var r := parse(buffer[..i]);
      match r {
        case Done(rest, value) =>
          assert IsSuffix(rest, seen);
          newIndex := ResetBuffer(buffer, i, |rest|);
          return Received(value), newIndex, seen;
        case Incomplete(Size(n)) =>
          if BUFFER_SIZE < i + n {
            return Panicked, i, seen;
          }
          var ok, bytes := reader.ReadExact(n);
          if !ok {
            return EndOfStream, i, seen;
          }
          CopyInto(buffer, i, bytes);
          assert stream == (seen + bytes) + reader.Incoming();
          i := i + n;
        case Incomplete(Unknown) =>
          var bytes := reader.Read(BUFFER_SIZE - i);
          if bytes == [] {
            return EndOfStream, i, seen;
          }
          CopyInto(buffer, i, bytes);
          assert stream == (seen + bytes) + reader.Incoming();
          i := i + |bytes|;
        case _ =>
          return Panicked, i, seen;
      }
    }
  }

  // ---------------------------------------------------------------------
  // pipe

  /** The stream `s` was cut into the messages `values`, in order, with
      `left` not yet parsed: each message is what the parser made of a
      prefix (`inputs[k]`) of what remained, and the rest it left was put
      back in front of the remainder. */
  ghost predicate Reads<T>(parse: seq<Byte> -> IResult<T>, s: seq<Byte>,
                           inputs: seq<seq<Byte>>, values: seq<T>, left: seq<Byte>)
    decreases |inputs|
  {
    if inputs == [] then values == [] && left == s
    else
      var r := parse(inputs[0]);
      values != [] && inputs[0] <= s && r.Done? && r.value == values[0] && IsSuffix(r.rest, inputs[0]) &&
      Reads(parse, s[|inputs[0]| - |r.rest|..], inputs[1..], values[1..], left)
  }

  /** One more message read from what was left. */
  lemma {:induction false} ReadsSnoc<T>(parse: seq<Byte> -> IResult<T>, s: seq<Byte>, inputs: seq<seq<Byte>>,
                                        values: seq<T>, left: seq<Byte>, input: seq<Byte>)
    requires Reads(parse, s, inputs, values, left)
    requires input <= left && parse(input).Done? && IsSuffix(parse(input).rest, input)
    ensures Reads(parse, s, inputs + [input], values + [parse(input).value],
                  left[|input| - |parse(input).rest|..])
    decreases |inputs|
  {
    if inputs != [] {
      var r := parse(inputs[0]);
      ReadsSnoc(parse, s[|inputs[0]| - |r.rest|..], inputs[1..], values[1..], left, input);
      assert (inputs + [input])[1..] == inputs[1..] + [input];
      assert (values + [parse(input).value])[1..] == values[1..] + [parse(input).value];
    }
  }

  /** A message parsed from the front of what was left, with the parser's
      rest put back in front of the bytes not yet read: fewer bytes are
      left. */
  lemma ReadsNext<T>(parse: seq<Byte> -> IResult<T>, s: seq<Byte>, inputs: seq<seq<Byte>>,
                     values: seq<T>, left: seq<Byte>, input: seq<Byte>, unread: seq<Byte>)
    requires Reads(parse, s, inputs, values, left) && Progressing(parse)
    requires left == input + unread && parse(input).Done?
    ensures Reads(parse, s, inputs + [input], values + [parse(input).value], parse(input).rest + unread)
    ensures |parse(input).rest + unread| < |left|
  {
    var rest := parse(input).rest;
    assert MakesProgress(parse(input), input);
    assert left[|input| - |rest|..] == rest + unread by {
      assert input[|input| - |rest|..] == rest;
    }
    ReadsSnoc(parse, s, inputs, values, left, input);
  }

  /** The encodings of the messages one after the other. */
  function Forwarded<T>(messages: seq<T>, encode: T -> seq<Byte>): seq<Byte>
  {
    if messages == [] then [] else encode(messages[0]) + Forwarded(messages[1..], encode)
  }

  /** `Forwarded` grows at the end one message at a time. */
  lemma {:induction false} ForwardedSnoc<T>(messages: seq<T>, m: T, encode: T -> seq<Byte>)
    ensures Forwarded(messages + [m], encode) == Forwarded(messages, encode) + encode(m)
  {
    if messages != [] {
      assert (messages + [m])[1..] == messages[1..] + [m];
      ForwardedSnoc(messages[1..], m, encode);
    }
  }

  /** `pipe`: `parse_stream` over a buffer of `BUFFER_SIZE` bytes, the
      hook, then `serialize` (the encoding written out and one flush), until
      the stream ends or the thread panics. The stream read splits into the
      messages parsed (`values`) and what is `left`; the writer receives
      exactly the encodings of the hooked messages (`sent`), one flush each.
      The last bytes handed to the parser (`tail`) were incomplete when the
      stream ended, or made it panic (`Stopped`). */
  method Pipe<T>(reader: Reader, parse: seq<Byte> -> IResult<T>, hook: T -> T,
                 encode: T -> seq<Byte>, writer: Writer)
    returns (end: PipeEnd, ghost inputs: seq<seq<Byte>>, ghost values: seq<T>, ghost sent: seq<T>,
             ghost left: seq<Byte>, ghost tail: seq<Byte>)
    requires reader.Valid() && Progressing(parse)
    modifies reader, writer
    ensures Reads(parse, old(reader.Incoming()), inputs, values, left)
    ensures Hooked(values, sent, hook)
    ensures writer.written == old(writer.written) + Forwarded(sent, encode)
    ensures writer.flushes == old(writer.flushes) + |sent|
    ensures Stopped(parse, end, left, tail, reader.Incoming())
  {
    var buffer := new Byte[BUFFER_SIZE](_ => 0);
    var index := 0;
    ghost var stream := reader.Incoming();
    ghost var start := writer.written;
    inputs, values, sent, left := [], [], [], stream;
    while true
      invariant fresh(buffer) && buffer.Length == BUFFER_SIZE && index <= BUFFER_SIZE
      invariant reader.Valid()
      invariant left == buffer[..index] + reader.Incoming()
      invariant Reads(parse, stream, inputs, values, left)
      invariant Hooked(values, sent, hook)
      invariant writer.written == start + Forwarded(sent, encode)
      invariant writer.flushes == old(writer.flushes) + |sent|
      decreases |left|
    {
      var outcome, newIndex;
      outcome, newIndex, tail := ParseStream(buffer, index, reader, parse, left);
      match outcome {
        case Received(value) =>
          ghost var unread := reader.Incoming();
          ReadsNext(parse, stream, inputs, values, left, tail, unread);
          assert values + [value] == values[..|sent|] + [value];
          inputs, values := inputs + [tail], values + [value];
          left := buffer[..newIndex] + unread;
          index := newIndex;
          var message := hook(value);
          Serialize(writer, encode, sent, message, start);
          HookedSnoc(values[..|sent|], sent, hook, value);
          sent := sent + [message];
        case EndOfStream =>
          return Finished, inputs, values, sent, left, tail;
        case Panicked =>
          return Aborted, inputs, values, sent, left, tail;
      }
    }
  }

  /** The serializer's `serialize`: the encoding of the message written
      out, then one flush, as `CommandSerializer.Serialize` and
      `ReplySerializer.Serialize` do. */
  method Serialize<T>(writer: Writer, encode: T -> seq<Byte>, ghost sent: seq<T>, message: T, ghost start: seq<Byte>)
    requires writer.written == start + Forwarded(sent, encode)
    modifies writer
    ensures writer.written == start + Forwarded(sent + [message], encode)
    ensures writer.flushes == old(writer.flushes) + 1
  {
    writer.WriteAll(encode(message));
    writer.Flush();
    ForwardedSnoc(sent, message, encode);
  }

  // ---------------------------------------------------------------------
  // The two directions of `proxy_connection`

  /** The bytes of a reply stream, read as replies, are the replies'
      encodings followed by what was left over. */
  lemma {:induction false} RepliesPassThrough(s: seq<Byte>, inputs: seq<seq<Byte>>, values: seq<Reply>, left: seq<Byte>)
    requires Reads(ReplyParser.ParseReply, s, inputs, values, left)
    ensures s == Forwarded(values, ReplySerializer.EncodeReply) + left
    decreases |inputs|
  {
    if inputs != [] {
      var r := ReplyParser.ParseReply(inputs[0]);
      var e := ReplySerializer.EncodeReply(values[0]);
      assert inputs[0] == e + r.rest;
      var more := s[|e|..];
      assert s == e + more by {
        assert s[..|inputs[0]|] == inputs[0];
      }
      RepliesPassThrough(more, inputs[1..], values[1..], left);
    }
  }

  /** Replies the proxy can forward whole: each is transmissible, its code
      holds no `\r`, and its encoding fits the buffer. */
  ghost predicate Forwardable(rs: seq<Reply>) {
    forall k :: 0 <= k < |rs| ==>
      ReplyParser.Transmissible(rs[k]) && ReplyRoundTrip.NoCr(rs[k].code) &&
      |ReplySerializer.EncodeReply(rs[k])| <= BUFFER_SIZE
  }

  /** The first reply read from a stream of whole replies is the first of
      them, and reading it consumes exactly its encoding. */
  lemma FirstReplyRead(rs: seq<Reply>, input: seq<Byte>)
    requires Forwardable(rs)
    requires input <= Forwarded(rs, ReplySerializer.EncodeReply) && ReplyParser.ParseReply(input).Done?
    ensures rs != [] && ReplyParser.ParseReply(input).value == rs[0]
    ensures Forwarded(rs, ReplySerializer.EncodeReply)[|input| - |ReplyParser.ParseReply(input).rest|..] ==
      Forwarded(rs[1..], ReplySerializer.EncodeReply)
  {
    if rs == [] {
      assert false;
    }
    var e := ReplySerializer.EncodeReply(rs[0]);
    ReplyStreaming.PrefixParsesSame(input, rs[0], Forwarded(rs[1..], ReplySerializer.EncodeReply));
    assert |input| - |ReplyParser.ParseReply(input).rest| == |e|;
  }

  /** The replies read from a stream of whole replies are the first of
      those replies, in order, and what is left is the encoding of the
      others. */
  lemma {:induction false} WholeRepliesRead(rs: seq<Reply>, inputs: seq<seq<Byte>>, values: seq<Reply>, left: seq<Byte>)
    requires Forwardable(rs)
    requires Reads(ReplyParser.ParseReply, Forwarded(rs, ReplySerializer.EncodeReply), inputs, values, left)
    ensures |values| <= |rs| && values == rs[..|values|]
    ensures left == Forwarded(rs[|values|..], ReplySerializer.EncodeReply)
    decreases |inputs|
  {
    if inputs != [] {
      WholeRepliesStep(rs, inputs, values, left);
      WholeRepliesRead(rs[1..], inputs[1..], values[1..], left);
      PrefixStep(rs, values);
    }
  }

  /** Reading one reply from a stream of whole replies takes the first. */
  lemma WholeRepliesStep(rs: seq<Reply>, inputs: seq<seq<Byte>>, values: seq<Reply>, left: seq<Byte>)
    requires Forwardable(rs) && inputs != []
    requires Reads(ReplyParser.ParseReply, Forwarded(rs, ReplySerializer.EncodeReply), inputs, values, left)
    ensures rs != [] && values != [] && values[0] == rs[0] && Forwardable(rs[1..])
    ensures Reads(ReplyParser.ParseReply, Forwarded(rs[1..], ReplySerializer.EncodeReply), inputs[1..], values[1..], left)
  {
    FirstReplyRead(rs, inputs[0]);
  }

  /** A sequence that starts like `rs` and goes on like `rs[1..]` is a
      prefix of `rs`. */
  lemma PrefixStep<T>(rs: seq<T>, values: seq<T>)
    requires rs != [] && values != [] && values[0] == rs[0]
    requires |values[1..]| <= |rs[1..]| && values[1..] == rs[1..][..|values[1..]|]
    ensures |values| <= |rs| && values == rs[..|values|]
    ensures rs[1..][|values[1..]|..] == rs[|values|..]
  {
    assert values == [rs[0]] + values[1..];
  }

  /** `pipe` does not stop on what is left while that begins with a whole
      reply that fits the buffer: a prefix of it is neither an error nor
      a request for more bytes than would complete the reply. */
  lemma WholeReplyNotStopped(r: Reply, t: seq<Byte>, end: PipeEnd, left: seq<Byte>, tail: seq<Byte>,
                             unread: seq<Byte>)
    requires ReplyParser.Transmissible(r) && ReplyRoundTrip.NoCr(r.code)
    requires |ReplySerializer.EncodeReply(r)| <= BUFFER_SIZE
    requires left == ReplySerializer.EncodeReply(r) + t
    ensures !Stopped(ReplyParser.ParseReply, end, left, tail, unread)
  {
    if tail <= left {
      ReplyStreaming.PrefixOfWholeReply(tail, r, t);
    }
  }

  /** A server stream made of whole replies the proxy can forward passes
      through entirely: every reply is read, in order, nothing is left, and
      `pipe` finishes. */
  lemma RepliesDrained(rs: seq<Reply>, inputs: seq<seq<Byte>>, values: seq<Reply>, left: seq<Byte>,
                       end: PipeEnd, tail: seq<Byte>, unread: seq<Byte>)
    requires Forwardable(rs)
    requires Reads(ReplyParser.ParseReply, Forwarded(rs, ReplySerializer.EncodeReply), inputs, values, left)
    requires Stopped(ReplyParser.ParseReply, end, left, tail, unread)
    ensures end == Finished && values == rs && left == []
  {
    WholeRepliesRead(rs, inputs, values, left);
    var k := |values|;
    if k < |rs| {
      assert rs[k..][1..] == rs[k + 1..];
      WholeReplyNotStopped(rs[k], Forwarded(rs[k + 1..], ReplySerializer.EncodeReply), end, left, tail, unread);
      assert false;
    }
    assert rs[..k] == rs;
  }

  /** The forward direction: commands parsed from the client's stream and
      written unchanged, by the command serializer, to the server. */
  method ForwardCommands(reader: Reader, writer: Writer)
    returns (end: PipeEnd, ghost values: seq<Command>, ghost left: seq<Byte>, ghost tail: seq<Byte>)
    requires reader.Valid()
    modifies reader, writer
    ensures writer.written == old(writer.written) + Forwarded(values, CommandSerializer.EncodeCommand)
    ensures writer.flushes == old(writer.flushes) + |values|
    ensures exists inputs :: Reads(CommandParser.ParseCommand, old(reader.Incoming()), inputs, values, left)
    ensures Stopped(CommandParser.ParseCommand, end, left, tail, reader.Incoming())
  {
    ghost var inputs, sent;
    end, inputs, values, sent, left, tail :=
      Pipe(reader, CommandParser.ParseCommand, c => c, CommandSerializer.EncodeCommand, writer);
    assert sent == values;
  }

  /** The backward direction: replies parsed from the server's stream and
      written unchanged, by the reply serializer, to the client. The client
      receives exactly the bytes of the replies the server sent. */
  method ForwardReplies(reader: Reader, writer: Writer)
    returns (end: PipeEnd, ghost forwarded: seq<Byte>, ghost left: seq<Byte>, ghost tail: seq<Byte>)
    requires reader.Valid()
    modifies reader, writer
    ensures writer.written == old(writer.written) + forwarded
    ensures old(reader.Incoming()) == forwarded + left
    ensures Stopped(ReplyParser.ParseReply, end, left, tail, reader.Incoming())
    ensures forall rs :: Forwardable(rs) && old(reader.Incoming()) == Forwarded(rs, ReplySerializer.EncodeReply) ==>
      end.Finished? && left == [] && forwarded == old(reader.Incoming())
  {
    ghost var inputs, values, sent;
    end, inputs, values, sent, left, tail :=
      Pipe(reader, ReplyParser.ParseReply, r => r, ReplySerializer.EncodeReply, writer);
    assert sent == values;
    RepliesPassThrough(old(reader.Incoming()), inputs, values, left);
    forwarded := Forwarded(values, ReplySerializer.EncodeReply);
    forall rs | Forwardable(rs) && old(reader.Incoming()) == Forwarded(rs, ReplySerializer.EncodeReply)
      ensures end.Finished? && left == [] && forwarded == old(reader.Incoming())
    {
      RepliesDrained(rs, inputs, values, left, end, tail, reader.Incoming());
    }
  }
}

/** `ReplySerializer` of ftp/src/serializer/reply.rs: writes a reply in the
    form RFC 959, section 4.2 gives it, then flushes once. */
module ReplySerializer {
  import opened Prelude
  import opened Messages
  import opened Io

  /** The bytes `serialize_reply` writes: the code; then ` ` and the line,
      or `-`, every line followed by `\r\n`, the code again, ` ` and the
      last line; then `\r\n`. */
  function EncodeReply(r: Reply): (b: seq<Byte>)
    ensures 6 <= |b| && b[..3] == r.code && b[|b| - 2..] == CRLF
    ensures b[3] == if r.text.SingleLine? then SP else HYPHEN
  {
    r.code +
    (match r.text
     case SingleLine(line) => [SP] + line
     case MultiLine(lines, last) => [HYPHEN] + CrlfTerminated(lines) + r.code + [SP] + last) +
    CRLF
  }

  /** `EncodeReply` appended to `w`, piece by piece as the writes go. */
  lemma AppendEncodeReply(w: seq<Byte>, r: Reply)
    ensures r.text.SingleLine? ==>
      w + EncodeReply(r) == w + r.code + [SP] + r.text.line + CRLF
    ensures r.text.MultiLine? ==>
      w + EncodeReply(r) ==
        w + r.code + [HYPHEN] + CrlfTerminated(r.text.lines) + r.code + [SP] + r.text.lastLine + CRLF
  {
  }

  class ReplySerializer {
    const writer: Writer

    constructor (writer: Writer)
      ensures this.writer == writer
    {
      this.writer := writer;
    }

    /** `serialize_reply`: one `write_all` after another, a loop over the
        lines of a multi-line text. */
    method SerializeReply(value: Reply)
      modifies writer
      ensures writer.written == old(writer.written) + EncodeReply(value)
      ensures writer.flushes == old(writer.flushes)
    {
      AppendEncodeReply(writer.written, value);
      writer.WriteAll(value.code);
      match value.text {
        case SingleLine(line) =>
          writer.WriteAll([SP]);
          writer.WriteAll(line);
        case MultiLine(lines, last) =>
          writer.WriteAll([HYPHEN]);
          WriteLines(lines);
          writer.WriteAll(value.code);
          writer.WriteAll([SP]);
          writer.WriteAll(last);
      }
      writer.WriteAll(CRLF);
    }

    /** The `for` loop of `serialize_reply`: each line, then `\r\n`. */
    method WriteLines(lines: seq<seq<Byte>>)
      modifies writer
      ensures writer.written == old(writer.written) + CrlfTerminated(lines)
      ensures writer.flushes == old(writer.flushes)
    {
      for i := 0 to |lines|
        invariant writer.written == old(writer.written) + CrlfTerminated(lines[..i])
        invariant writer.flushes == old(writer.flushes)
      {
        writer.WriteAll(lines[i]);
        writer.WriteAll(CRLF);
        assert lines[..i + 1] == lines[..i] + [lines[i]];
        CrlfTerminatedSnoc(lines[..i], lines[i]);
      }
      assert lines[..|lines|] == lines;
    }

    /** `serialize`: the reply, then one flush. */
    method Serialize(value: Reply)
      modifies writer
      ensures writer.written == old(writer.written) + EncodeReply(value)
      ensures writer.flushes == old(writer.flushes) + 1
    {
      SerializeReply(value);
      writer.Flush();
    }
  }
}

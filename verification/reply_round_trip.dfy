/** Writing a reply and reading it back (ftp/src/serializer/reply.rs
    against ftp/src/parser/reply.rs). */
module ReplyRoundTrip {
  import opened Prelude
  import opened Nom
  import opened Messages
  import opened ReplySerializer
  import opened ReplyParser

  /** No byte of the code is `\r`; true of every three-digit code. */
  predicate NoCr(code: Code) {
    forall i :: 0 <= i < 3 ==> code[i] != CR
  }

  /** A byte string splits in at most one way around its first `\r\n`. */
  lemma CrlfSplitUnique(v1: seq<Byte>, w1: seq<Byte>, v2: seq<Byte>, w2: seq<Byte>)
    requires v1 + CRLF + w1 == v2 + CRLF + w2
    requires !ContainsCrlf(v1) && !ContainsCrlf(v2)
    ensures v1 == v2 && w1 == w2
  {
    var s := v1 + CRLF + w1;
    if |v1| < |v2| {
      ShorterSplit(s, v1, w1, v2, w2);
    } else if |v2| < |v1| {
      ShorterSplit(s, v2, w2, v1, w1);
    }
    assert v1 == s[..|v1|] && w1 == s[|v1| + 2..];
  }

  /** The shorter split would put a `\r\n` inside the longer prefix. */
  lemma ShorterSplit(s: seq<Byte>, v1: seq<Byte>, w1: seq<Byte>, v2: seq<Byte>, w2: seq<Byte>)
    requires s == v1 + CRLF + w1 && s == v2 + CRLF + w2 && |v1| < |v2|
    ensures ContainsCrlf(v2)
  {
    assert s[|v1|] == CR && s[|v1| + 1] == LF;
    assert s[|v2|] == CR;
    assert CrlfAt(v2, |v1|);
  }

  /** A line without `\r\n` is read back whole, whatever follows it. */
  lemma TextLineReads(line: seq<Byte>, t: seq<Byte>)
    requires !ContainsCrlf(line)
    ensures TextLine(line + CRLF + t) == Done(t, line)
  {
    var s := line + CRLF + t;
    assert CrlfAt(s, |line|);
    var r := TextLine(s);
    CrlfSplitUnique(r.value, r.rest, line, t);
  }

  /** The closing line is read back whole. */
  lemma LastLineReads(code: Code, last: seq<Byte>, t: seq<Byte>)
    requires !ContainsCrlf(last)
    ensures LastLine(code + [SP] + last + CRLF + t, code) == Done(t, last)
  {
    var s := code + [SP] + last + CRLF + t;
    assert s[..3] == code && s[3..] == [SP] + (last + CRLF + t);
    TextLineReads(last, t);
  }

  /** An ordinary line followed by at least two bytes is no closing line. */
  lemma OrdinaryLineRejected(line: seq<Byte>, u: seq<Byte>, code: Code)
    requires !ContainsCrlf(line) && !StartsWith(line, code + [SP]) && NoCr(code) && 2 <= |u|
    ensures LastLine(line + CRLF + u, code).Error?
  {
    var s := line + CRLF + u;
    if 4 <= |line| {
      assert s[..4] == line[..4];
    } else {
      assert s[|line|] == CR;
    }
  }

  /** One step of `many_till` past an ordinary line. */
  lemma MoreLinesStep(s: seq<Byte>, code: Code, line: seq<Byte>, u: seq<Byte>,
                      lines: seq<seq<Byte>>, last: seq<Byte>, rest: seq<Byte>)
    requires LastLine(s, code).Error? && TextLine(s) == Done(u, line)
    requires MoreLines(u, code) == Done(rest, (lines, last))
    ensures MoreLines(s, code) == Done(rest, ([line] + lines, last))
  {
  }

  /** The regrouping `MoreLinesRead` needs, over plain sequences. */
  lemma LineRegroup(head: seq<Byte>, a: seq<Byte>, closing: seq<Byte>)
    ensures head + CRLF + a + closing == head + CRLF + (a + closing)
  {
  }

  /** Ordinary lines and the closing line are read back as they were
      written. */
  lemma {:induction false} MoreLinesRead(lines: seq<seq<Byte>>, code: Code, last: seq<Byte>, t: seq<Byte>)
    requires NoCr(code) && NoLineBreaks(lines) && NoneCloses(lines, code) && !ContainsCrlf(last)
    ensures MoreLines(CrlfTerminated(lines) + code + [SP] + last + CRLF + t, code) == Done(t, (lines, last))
    decreases |lines|
  {
    var s := CrlfTerminated(lines) + code + [SP] + last + CRLF + t;
    if lines == [] {
      assert s == code + [SP] + last + CRLF + t;
      LastLineReads(code, last, t);
    } else {
      var head, tail := lines[0], lines[1..];
      assert lines == [head] + tail;
      var a := CrlfTerminated(tail);
      assert CrlfTerminated(lines) == head + CRLF + a;
      var u := a + code + [SP] + last + CRLF + t;
      LineRegroup(head, a, code + [SP] + last + CRLF + t);
      assert s == head + CRLF + u;
      OrdinaryLineRejected(head, u, code);
      TextLineReads(head, u);
      MoreLinesRead(tail, code, last, t);
      MoreLinesStep(s, code, head, u, tail, last, t);
    }
  }

  /** A single-line reply is read back from its encoding. */
  lemma SingleLineRead(code: Code, line: seq<Byte>, t: seq<Byte>)
    requires !ContainsCrlf(line)
    ensures ParseReply(EncodeReply(Reply(code, SingleLine(line))) + t) == Done(t, Reply(code, SingleLine(line)))
  {
    var s := EncodeReply(Reply(code, SingleLine(line))) + t;
    assert s == code + ([SP] + (line + CRLF + t));
    assert ReplyCode(s) == Done([SP] + (line + CRLF + t), code);
    TextLineReads(line, t);
  }

  /** A transmissible multi-line reply whose code holds no `\r` is read
      back from its encoding. */
  lemma MultiLineRead(code: Code, lines: seq<seq<Byte>>, last: seq<Byte>, t: seq<Byte>)
    requires NoCr(code) && Transmissible(Reply(code, MultiLine(lines, last)))
    ensures ParseReply(EncodeReply(Reply(code, MultiLine(lines, last))) + t) == Done(t, Reply(code, MultiLine(lines, last)))
  {
    var head, tail := lines[0], lines[1..];
    assert lines == [head] + tail;
    var u := CrlfTerminated(tail) + code + [SP] + last + CRLF;
    EncodeMultiLine(code, head, tail, last, t);
    var s := EncodeReply(Reply(code, MultiLine(lines, last))) + t;
    var body := head + CRLF + (u + t);
    assert s == code + [HYPHEN] + body;
    assert s == code + ([HYPHEN] + body);
    assert ReplyCode(s) == Done([HYPHEN] + body, code);
    TextLineReads(head, u + t);
    MoreLinesRead(tail, code, last, t);
  }

  /** A reply read back from its encoding, with anything after it left
      over, was transmissible; and a transmissible reply whose code holds
      no `\r` is always read back exactly. */
  lemma ReplyRoundTrip(r: Reply, t: seq<Byte>)
    ensures ParseReply(EncodeReply(r) + t) == Done(t, r) ==> Transmissible(r)
    ensures Transmissible(r) && NoCr(r.code) ==> ParseReply(EncodeReply(r) + t) == Done(t, r)
  {
    if Transmissible(r) && NoCr(r.code) {
      match r.text
      case SingleLine(line) => SingleLineRead(r.code, line, t);
      case MultiLine(lines, last) => MultiLineRead(r.code, lines, last, t);
    }
  }
}

/** The streaming reply parser of ftp/src/parser/reply.rs: a three-byte
    code, ` ` or `-`, a first text line, and for `-` the lines up to the
    first one that starts with the same code and a space (RFC 959,
    section 4.2). */
module ReplyParser {
  import opened Prelude
  import opened Nom
  import opened Messages
  import opened Common
  import opened ReplySerializer

  /** `code`: the first three bytes, taken verbatim. The conversion of the
      three-byte slice into an array cannot fail, so its `Failure` branch
      has no counterpart here. */
  function ReplyCode(s: seq<Byte>): (r: IResult<Code>)
    ensures r.Done? <==> 3 <= |s|
    ensures r.Done? ==> r.value == s[..3] && r.rest == s[3..]
    ensures r.Incomplete? ==> r.needed == Size(3 - |s|)
    ensures r.Done? || r.Incomplete?
  {
    var t :- Take(s, 3);
    var code: Code := t.value;
    Done(t.rest, code)
  }

  /** `hyphen`: exactly one `-`. */
  function Hyphen(s: seq<Byte>): (r: IResult<Byte>)
    ensures r.Done? <==> 0 < |s| && s[0] == HYPHEN
    ensures r.Done? ==> r.rest == s[1..]
    ensures r.Incomplete? <==> s == []
    ensures r.Error? ==> r.input == s
  {
    Char(s, HYPHEN)
  }

  /** `alt((space, hyphen))`: the byte that says whether more lines follow. */
  function Separator(s: seq<Byte>): (r: IResult<Byte>)
    ensures r.Done? <==> 0 < |s| && (s[0] == SP || s[0] == HYPHEN)
    ensures r.Done? ==> r.rest == s[1..] && r.value == s[0]
    ensures r.Incomplete? <==> s == []
    ensures r.Incomplete? ==> r.needed == Size(1)
    ensures r.Error? ==> r.input == s
    ensures !r.Panic?
  {
    Alt(Space(s), Hyphen(s))
  }

  /** `text_line`: the bytes before the first `\r\n`, which is consumed too;
      without a `\r\n` yet, more input of unknown size is needed. */
  function TextLine(s: seq<Byte>): (r: IResult<seq<Byte>>)
    ensures r.Done? <==> ContainsCrlf(s)
    ensures r.Done? ==> s == r.value + CRLF + r.rest && !ContainsCrlf(r.value)
    ensures r.Incomplete? ==> r.needed == Unknown
    ensures r.Done? || r.Incomplete?
  {
    var line :- TakeUntilCrlf(s);
    // What `take_until` leaves starts with `\r\n`, so `crlf` succeeds.
    var end := Crlf(line.rest);
    Done(end.rest, line.value)
  }

  /** Starting with the code and a space, spelled out byte by byte. */
  lemma StartsWithCodeSpace(s: seq<Byte>, code: Code)
    ensures StartsWith(s, code + [SP]) <==> 4 <= |s| && s[..3] == code && s[3] == SP
  {
    if 4 <= |s| && s[..3] == code && s[3] == SP {
      assert s[..4] == s[..3] + [s[3]];
    }
    if StartsWith(s, code + [SP]) {
      assert s[..3] == s[..4][..3];
    }
  }

  /** `preceded(pair(tag(code), space), text_line)`: the line that closes a
      multi-line reply. On four bytes or more it is an error exactly when
      they are not the code and a space. */
  function LastLine(s: seq<Byte>, code: Code): (r: IResult<seq<Byte>>)
    ensures r.Done? ==> StartsWith(s, code + [SP]) && s[4..] == r.value + CRLF + r.rest
    ensures r.Done? ==> !ContainsCrlf(r.value)
    ensures r.Error? ==> !StartsWith(s, code + [SP])
    ensures 4 <= |s| && !StartsWith(s, code + [SP]) ==> r.Error?
    ensures !r.Panic?
  {
    StartsWithCodeSpace(s, code);
    var c :- Tag(s, code);
    assert c.rest == s[3..];
    var sp :- Space(c.rest);
    TextLine(sp.rest)
  }

  /** No line contains `\r\n`. */
  predicate NoLineBreaks(lines: seq<seq<Byte>>) {
    forall i :: 0 <= i < |lines| ==> !ContainsCrlf(lines[i])
  }

  /** No line starts like the closing line of a reply with this code. */
  predicate NoneCloses(lines: seq<seq<Byte>>, code: Code) {
    forall i :: 0 <= i < |lines| ==> !StartsWith(lines[i], code + [SP])
  }

  /** `s` is `lines`, each ended by `\r\n`, then the closing line with
      `code` and `last`, then `rest`; no line holds `\r\n` and none of
      `lines` starts like the closing line. */
  predicate ClosedBy(s: seq<Byte>, code: Code, lines: seq<seq<Byte>>, last: seq<Byte>, rest: seq<Byte>) {
    s == CrlfTerminated(lines) + code + [SP] + last + CRLF + rest &&
    NoLineBreaks(lines) && NoneCloses(lines, code) && !ContainsCrlf(last)
  }

  /** The closing line alone. */
  lemma ClosingLineOnly(s: seq<Byte>, code: Code, last: seq<Byte>, rest: seq<Byte>)
    requires StartsWith(s, code + [SP]) && s[4..] == last + CRLF + rest && !ContainsCrlf(last)
    ensures ClosedBy(s, code, [], last, rest)
  {
    assert CrlfTerminated([]) == [];
    assert s == s[..4] + s[4..];
  }

  /** One more ordinary line in front of the lines found so far. */
  lemma PrependLine(s: seq<Byte>, line: seq<Byte>, t: seq<Byte>, code: Code,
                    lines: seq<seq<Byte>>, last: seq<Byte>, rest: seq<Byte>)
    requires s == line + CRLF + t && !ContainsCrlf(line) && !StartsWith(s, code + [SP])
    requires ClosedBy(t, code, lines, last, rest)
    ensures ClosedBy(s, code, [line] + lines, last, rest)
  {
    assert ([line] + lines)[1..] == lines;
  }

  /** `many_till(text_line, ...)`: the closing line is tried first; where it
      is an error an ordinary line is taken and the search goes on. */
  function MoreLines(s: seq<Byte>, code: Code): (r: IResult<(seq<seq<Byte>>, seq<Byte>)>)
    ensures r.Done? ==> ClosedBy(s, code, r.value.0, r.value.1, r.rest)
    ensures r.Done? || r.Incomplete?
    decreases |s|, 1
  {
    var last := LastLine(s, code);
    if last.Done? then
      ClosingLineOnly(s, code, last.value, last.rest);
      Done(last.rest, ([], last.value))
    else if last.Incomplete? then Incomplete(last.needed)
    else OrdinaryLine(s, code)
  }

  /** The `many_till` step after the closing line was an error: one
      `text_line`, then the search for the closing line goes on. */
  function OrdinaryLine(s: seq<Byte>, code: Code): (r: IResult<(seq<seq<Byte>>, seq<Byte>)>)
    requires !StartsWith(s, code + [SP])
    ensures r.Done? ==> ClosedBy(s, code, r.value.0, r.value.1, r.rest)
    ensures r.Done? || r.Incomplete?
    decreases |s|, 0
  {
    var line :- TextLine(s);
    var more :- MoreLines(line.rest, code);
    PrependLine(s, line.value, line.rest, code, more.value.0, more.value.1, more.rest);
    Done(more.rest, ([line.value] + more.value.0, more.value.1))
  }

  /** What a parsed reply always satisfies, and what a reply must satisfy to
      survive being written and read back: no line holds `\r\n`, a
      multi-line text has at least one line before the last, and no line
      after the first starts with the code and a space. */
  predicate Transmissible(r: Reply) {
    match r.text
    case SingleLine(line) => !ContainsCrlf(line)
    case MultiLine(lines, last) =>
      0 < |lines| && NoLineBreaks(lines) && NoneCloses(lines[1..], r.code) && !ContainsCrlf(last)
  }

  /** A single-line reply put back together. */
  lemma SingleLineFrame(s: seq<Byte>, line: seq<Byte>, rest: seq<Byte>)
    requires 3 < |s| && s[3] == SP && s[4..] == line + CRLF + rest && !ContainsCrlf(line)
    ensures var r := Reply(s[..3], SingleLine(line));
      Transmissible(r) && s == EncodeReply(r) + rest
  {
    assert s == s[..3] + [SP] + s[4..];
  }

  /** The encoding of a multi-line reply, first line apart. */
  lemma EncodeMultiLine(code: Code, first: seq<Byte>, lines: seq<seq<Byte>>, last: seq<Byte>, rest: seq<Byte>)
    ensures EncodeReply(Reply(code, MultiLine([first] + lines, last))) + rest ==
      code + [HYPHEN] + (first + CRLF + ((CrlfTerminated(lines) + code + [SP] + last + CRLF) + rest))
  {
    var all := [first] + lines;
    assert all[1..] == lines;
    var a := CrlfTerminated(lines);
    assert CrlfTerminated(all) == first + CRLF + a;
    assert EncodeReply(Reply(code, MultiLine(all, last))) == code + ([HYPHEN] + (first + CRLF + a) + code + [SP] + last) + CRLF;
    Regroup(code, [HYPHEN], first, CRLF, a, [SP], last, rest);
  }

  /** The regrouping `EncodeMultiLine` needs, over plain sequences. */
  lemma Regroup(code: seq<Byte>, h: seq<Byte>, first: seq<Byte>, crlf: seq<Byte>, a: seq<Byte>,
                sp: seq<Byte>, last: seq<Byte>, rest: seq<Byte>)
    ensures code + (h + (first + crlf + a) + code + sp + last) + crlf + rest ==
      code + h + (first + crlf + ((a + code + sp + last + crlf) + rest))
  {
  }

  /** A multi-line reply put back together. */
  lemma MultiLineFrame(s: seq<Byte>, first: seq<Byte>, t: seq<Byte>,
                       lines: seq<seq<Byte>>, last: seq<Byte>, rest: seq<Byte>)
    requires 3 < |s| && s[3] == HYPHEN && s[4..] == first + CRLF + t && !ContainsCrlf(first)
    requires ClosedBy(t, s[..3], lines, last, rest)
    ensures var r := Reply(s[..3], MultiLine([first] + lines, last));
      Transmissible(r) && s == EncodeReply(r) + rest
  {
    var code: Code := s[..3];
    var all := [first] + lines;
    assert all[1..] == lines;
    var tail := CrlfTerminated(lines) + code + [SP] + last + CRLF;
    assert t == tail + rest;
    EncodeMultiLine(code, first, lines, last, rest);
    assert s == code + [HYPHEN] + s[4..];
  }

  /** `reply`: the code, the separator and the first line, then for `-`
      the lines up to the closing one. What it consumes is exactly the
      encoding of the reply it returns. */
  function ParseReply(s: seq<Byte>): (r: IResult<Reply>)
    ensures MakesProgress(r, s)
    ensures r.Done? ==> Transmissible(r.value) && s == EncodeReply(r.value) + r.rest
    ensures r.Error? <==> 3 < |s| && s[3] != SP && s[3] != HYPHEN
    ensures r.Error? ==> r.input == s[3..]
    ensures |s| < 3 ==> r == Incomplete(Size(3 - |s|))
    ensures |s| == 3 ==> r == Incomplete(Size(1))
    ensures !r.Panic?
  {
    var c :- ReplyCode(s);
    var sep :- Separator(c.rest);
    var first :- TextLine(sep.rest);
    if sep.value == HYPHEN then
      var more :- MoreLines(first.rest, c.value);
      MultiLineFrame(s, first.value, first.rest, more.value.0, more.value.1, more.rest);
      Done(more.rest, Reply(c.value, MultiLine([first.value] + more.value.0, more.value.1)))
    else
      SingleLineFrame(s, first.value, first.rest);
      Done(first.rest, Reply(c.value, SingleLine(first.value)))
  }
}

/** The earlier streaming reply parser of src/ftp/parser/reply.rs. It has
    the shape of the reply parser of ftp/src/parser/reply.rs, but ends each
    text line with nom's own `crlf`, whose `Incomplete` always asks for two
    bytes, and puts the first line in front of the others afterwards. The
    two parsers give the same outcome on every input: `take_until` only
    stops in front of a `\r\n`, so the two `crlf`s never differ where they
    are used. */
module EarlyReplyParser {
  import opened Prelude
  import opened Nom
  import opened Messages
  import opened Common
  import RP = ReplyParser

  /** `text_line`, ended by nom's `crlf`. */
  function EarlyTextLine(s: seq<Byte>): (r: IResult<seq<Byte>>)
    ensures r.Done? <==> ContainsCrlf(s)
    ensures r.Done? ==> s == r.value + CRLF + r.rest && !ContainsCrlf(r.value)
    ensures r.Incomplete? ==> r.needed == Unknown
    ensures r.Done? || r.Incomplete?
  {
    var line :- TakeUntilCrlf(s);
    var end := NomCrlf(line.rest);
    Done(end.rest, line.value)
  }

  /** Both ways of ending a text line read the same line. */
  lemma TextLinesAgree(s: seq<Byte>)
    ensures EarlyTextLine(s) == RP.TextLine(s)
  {
  }

  /** `preceded(pair(tag(code), space), text_line)`. */
  function EarlyLastLine(s: seq<Byte>, code: Code): (r: IResult<seq<Byte>>)
  {
    var c :- Tag(s, code);
    var sp :- Space(c.rest);
    EarlyTextLine(sp.rest)
  }

  /** `many_till(text_line, ...)`: the closing line is tried first, then an
      ordinary line. */
  function EarlyMoreLines(s: seq<Byte>, code: Code): (r: IResult<(seq<seq<Byte>>, seq<Byte>)>)
    decreases |s|, 1
  {
    var last := EarlyLastLine(s, code);
    if last.Done? then Done(last.rest, ([], last.value))
    else if last.Incomplete? then Incomplete(last.needed)
    else if last.Panic? then Panic
    else EarlyOrdinaryLine(s, code)
  }

  /** One `text_line` of `many_till`, then the search goes on. */
  function EarlyOrdinaryLine(s: seq<Byte>, code: Code): (r: IResult<(seq<seq<Byte>>, seq<Byte>)>)
    decreases |s|, 0
  {
    var line :- EarlyTextLine(s);
    var more :- EarlyMoreLines(line.rest, code);
    Done(more.rest, ([line.value] + more.value.0, more.value.1))
  }

  /** `reply`: code, separator and first line; for `-` the further lines,
      with the first one inserted at the front. */
  function EarlyParseReply(s: seq<Byte>): (r: IResult<Reply>)
  {
    var c :- RP.ReplyCode(s);
    var sep :- RP.Separator(c.rest);
    var first :- EarlyTextLine(sep.rest);
    if sep.value == HYPHEN then
      var more :- EarlyMoreLines(first.rest, c.value);
      Done(more.rest, Reply(c.value, MultiLine([first.value] + more.value.0, more.value.1)))
    else
      Done(first.rest, Reply(c.value, SingleLine(first.value)))
  }

  lemma LastLinesAgree(s: seq<Byte>, code: Code)
    ensures EarlyLastLine(s, code) == RP.LastLine(s, code)
  {
    RP.StartsWithCodeSpace(s, code);
    if StartsWith(s, code + [SP]) {
      TextLinesAgree(s[4..]);
      assert s[3..][1..] == s[4..];
    }
  }

  lemma {:induction false} MoreLinesAgree(s: seq<Byte>, code: Code)
    ensures EarlyMoreLines(s, code) == RP.MoreLines(s, code)
    decreases |s|
  {
    LastLinesAgree(s, code);
    if RP.LastLine(s, code).Error? {
      TextLinesAgree(s);
      var line := RP.TextLine(s);
      if line.Done? {
        MoreLinesAgree(line.rest, code);
      }
    }
  }

  /** The earlier reply parser and the later one agree on every input. */
  lemma ParsersAgree(s: seq<Byte>)
    ensures EarlyParseReply(s) == RP.ParseReply(s)
  {
    if 4 <= |s| && (s[3] == SP || s[3] == HYPHEN) {
      TextLinesAgree(s[4..]);
      var first := RP.TextLine(s[4..]);
      if first.Done? && s[3] == HYPHEN {
        MoreLinesAgree(first.rest, s[..3]);
      }
    }
  }
}

/** The single-token streaming parsers shared by the command and reply
    parsers (src/parser/common.rs; src/ftp/parser/common.rs has the same
    `comma` and `space`). */
module Common {
  import opened Prelude
  import opened Nom

  /** `comma`: exactly one `,`. */
  function Comma(s: seq<Byte>): (r: IResult<Byte>)
    ensures r.Done? <==> 0 < |s| && s[0] == COMMA
    ensures r.Done? ==> r.rest == s[1..]
    ensures r == Incomplete(Size(1)) <==> s == []
    ensures r.Error? <==> 0 < |s| && s[0] != COMMA
    ensures r.Error? ==> r.input == s
  {
    Char(s, COMMA)
  }

  /** `space`: exactly one ` `. */
  function Space(s: seq<Byte>): (r: IResult<Byte>)
    ensures r.Done? <==> 0 < |s| && s[0] == SP
    ensures r.Done? ==> r.rest == s[1..]
    ensures r == Incomplete(Size(1)) <==> s == []
    ensures r.Error? <==> 0 < |s| && s[0] != SP
    ensures r.Error? ==> r.input == s
  {
    Char(s, SP)
  }

  /** `crlf` of src/parser/common.rs: a `tag`, so that a strict prefix of
      `\r\n` asks for exactly the bytes still missing. */
  function Crlf(s: seq<Byte>): (r: IResult<seq<Byte>>)
    ensures r.Done? <==> StartsWith(s, CRLF)
    ensures r.Done? ==> r.rest == s[2..] && r.value == CRLF
    ensures s == [] ==> r == Incomplete(Size(2))
    ensures s == [CR] ==> r == Incomplete(Size(1))
    ensures r.Incomplete? <==> s == [] || s == [CR]
    ensures r.Error? <==> (0 < |s| && s[0] != CR) || (1 < |s| && s[0] == CR && s[1] != LF)
  {
    Tag(s, CRLF)
  }

  /** nom's own `character::streaming::crlf`, used by the earlier reply
      parser: on a strict prefix of `\r\n` it always asks for two bytes. */
  function NomCrlf(s: seq<Byte>): (r: IResult<seq<Byte>>)
    ensures r.Done? <==> StartsWith(s, CRLF)
    ensures r.Done? ==> r.rest == s[2..] && r.value == CRLF
    ensures r.Incomplete? <==> s == [] || s == [CR]
    ensures r.Incomplete? ==> r.needed == Size(2)
    ensures r.Error? ==> r.input == s
  {
    match Tag(s, CRLF)
    case Incomplete(_) => Incomplete(Size(2))
    case other => other
  }
}

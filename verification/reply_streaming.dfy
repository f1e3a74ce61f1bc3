/** The reply parser of ftp/src/parser/reply.rs on a buffer that grows as
    bytes arrive, as the client's `read_reply` and the proxy's
    `parse_stream` feed it: what a prefix of a stream of replies parses
    to, and how many more bytes a parse that asked for more truly needs. */
module ReplyStreaming {
  import opened Prelude
  import opened Nom
  import opened Messages
  import opened Common
  import opened ReplyParser
  import opened ReplySerializer
  import ReplyRoundTrip

  /** Bytes that begin with the encoding of a transmissible reply whose
      code holds no `\r` parse to that reply. */
  lemma ReplyPrefixParses(s: seq<Byte>, reply: Reply)
    requires Transmissible(reply) && ReplyRoundTrip.NoCr(reply.code)
    requires StartsWith(s, EncodeReply(reply))
    ensures ParseReply(s) == Done(s[|EncodeReply(reply)|..], reply)
  {
    var e := EncodeReply(reply);
    assert s == e + s[|e|..];
    ReplyRoundTrip.ReplyRoundTrip(reply, s[|e|..]);
  }

  /** No prefix of a stream that begins with a reply's encoding is a parse
      error: the byte after the code is a space or a hyphen. */
  lemma PrefixNotInvalid(seen: seq<Byte>, reply: Reply, t: seq<Byte>)
    requires seen <= EncodeReply(reply) + t
    ensures !ParseReply(seen).Error?
  {
    var e := EncodeReply(reply);
    if 3 < |seen| {
      assert seen[3] == (e + t)[3] == e[3];
    }
  }

  /** A reply parsed from a prefix of a stream that begins with a whole
      transmissible reply whose code holds no `\r` is that reply. */
  lemma PrefixParsesSame(seen: seq<Byte>, reply: Reply, t: seq<Byte>)
    requires Transmissible(reply) && ReplyRoundTrip.NoCr(reply.code)
    requires seen <= EncodeReply(reply) + t
    requires ParseReply(seen).Done?
    ensures ParseReply(seen).value == reply
  {
    var before := EncodeReply(reply) + t;
    var v := ParseReply(seen).value;
    StartsThrough(seen, before, EncodeReply(v), ParseReply(seen).rest);
    SameCode(before, v, reply, t);
    ReplyPrefixParses(before, reply);
    ReplyPrefixParses(before, v);
  }

  /** What a prefix of `before` starts with, `before` starts with. */
  lemma StartsThrough(seen: seq<Byte>, before: seq<Byte>, e: seq<Byte>, rest: seq<Byte>)
    requires seen <= before && seen == e + rest
    ensures StartsWith(before, e)
  {
    assert before[..|e|] == seen[..|e|];
  }

  /** Two replies whose encodings both start a stream have the same code. */
  lemma SameCode(before: seq<Byte>, v: Reply, reply: Reply, t: seq<Byte>)
    requires StartsWith(before, EncodeReply(v)) && before == EncodeReply(reply) + t
    ensures v.code == reply.code
  {
    var ev, e := EncodeReply(v), EncodeReply(reply);
    assert v.code == ev[..3] == before[..3] == e[..3] == reply.code;
  }

  /** A text line read from a buffer is read the same once more bytes
      have arrived behind it. */
  lemma TextLineExtends(s: seq<Byte>, x: seq<Byte>)
    requires TextLine(s).Done?
    ensures TextLine(s + x) == Done(TextLine(s).rest + x, TextLine(s).value)
  {
    var r := TextLine(s);
    assert s + x == r.value + CRLF + (r.rest + x);
    ReplyRoundTrip.TextLineReads(r.value, r.rest + x);
  }

  /** A buffer on which `tag(code)` fails still fails with more bytes. */
  lemma TagErrorExtends(s: seq<Byte>, x: seq<Byte>, code: Code)
    requires Tag(s, code).Error?
    ensures Tag(s + x, code).Error?
  {
    var sx := s + x;
    if 3 <= |s| {
      assert sx[..3] == s[..3];
    } else {
      assert s == sx[..|s|];
      if 3 <= |sx| {
        assert sx[..3][..|s|] == s;
      } else {
        assert sx[..|s|] == s;
      }
    }
  }

  /** A buffer that cannot start the closing line still cannot once more
      bytes have arrived: its first four bytes already differ from the
      code and a space. */
  lemma LastLineErrorExtends(s: seq<Byte>, x: seq<Byte>, code: Code)
    requires LastLine(s, code).Error?
    ensures LastLine(s + x, code).Error?
  {
    var sx := s + x;
    if 4 <= |s| {
      assert sx[..4] == s[..4];
    } else {
      assert Tag(s, code).Error?;
      TagErrorExtends(s, x, code);
    }
  }

  /** When the closing line asks for `n` more bytes, those bytes would
      complete at most the code and the space. */
  lemma LastLineNeed(s: seq<Byte>, code: Code)
    requires LastLine(s, code).Incomplete? && LastLine(s, code).needed.Size?
    ensures |s| + LastLine(s, code).needed.n <= 4
  {
    var c := Tag(s, code);
    if c.Done? {
      assert c.rest == s[3..];
    }
  }

  /** When the search for the closing line asks for `n` more bytes, fewer
      bytes cannot finish the reply. */
  lemma {:induction false} MoreLinesNeedsAtLeast(s: seq<Byte>, x: seq<Byte>, code: Code, n: Pos)
    requires MoreLines(s, code) == Incomplete(Size(n)) && |x| < n
    ensures !MoreLines(s + x, code).Done?
    decreases |s|
  {
    var last := LastLine(s, code);
    if last.Incomplete? {
      LastLineNeed(s, code);
    } else {
      LastLineErrorExtends(s, x, code);
      var line := TextLine(s);
      TextLineExtends(s, x);
      MoreLinesNeedsAtLeast(line.rest, x, code, n);
    }
  }

  /** A request for a known number of bytes after the code comes from the
      search for the closing line of a multi-line reply. */
  lemma SizeRequestAfterCode(s: seq<Byte>)
    requires 3 < |s| && ParseReply(s).Incomplete? && ParseReply(s).needed.Size?
    ensures s[3] == HYPHEN && TextLine(s[4..]).Done?
    ensures MoreLines(TextLine(s[4..]).rest, s[..3]) == Incomplete(ParseReply(s).needed)
  {
    assert s[3..][1..] == s[4..];
  }

  /** A multi-line reply is done only when the search for its closing
      line is. */
  lemma MultiLineDone(s: seq<Byte>)
    requires 3 < |s| && s[3] == HYPHEN && TextLine(s[4..]).Done? && ParseReply(s).Done?
    ensures MoreLines(TextLine(s[4..]).rest, s[..3]).Done?
  {
    assert s[3..][1..] == s[4..];
  }

  /** When the reply parser asks for `n` more bytes, no fewer bytes can
      complete the reply: nom's `Needed::Size` is a true lower bound. */
  lemma ParseReplyNeedsAtLeast(s: seq<Byte>, x: seq<Byte>, n: Pos)
    requires ParseReply(s) == Incomplete(Size(n)) && |x| < n
    ensures !ParseReply(s + x).Done?
  {
    if 3 < |s| {
      var sx := s + x;
      SizeRequestAfterCode(s);
      var first := TextLine(s[4..]);
      Extended(s, x);
      TextLineExtends(s[4..], x);
      MoreLinesNeedsAtLeast(first.rest, x, s[..3], n);
      if ParseReply(sx).Done? {
        MultiLineDone(sx);
      }
    }
  }

  /** The code, the separator and the text of `s` are those of `s + x`. */
  lemma Extended(s: seq<Byte>, x: seq<Byte>)
    requires 3 < |s|
    ensures (s + x)[..3] == s[..3] && (s + x)[3] == s[3] && (s + x)[4..] == s[4..] + x
  {
  }

  /** On a prefix of a stream that begins with a whole transmissible reply
      whose code holds no `\r`, the reply parser never fails, is done once
      the prefix holds the whole reply, and never asks for more bytes than
      would complete it. */
  lemma PrefixOfWholeReply(tail: seq<Byte>, r: Reply, t: seq<Byte>)
    requires Transmissible(r) && ReplyRoundTrip.NoCr(r.code)
    requires tail <= EncodeReply(r) + t
    ensures !ParseReply(tail).Error?
    ensures |EncodeReply(r)| <= |tail| ==> ParseReply(tail).Done?
    ensures ParseReply(tail).Incomplete? && ParseReply(tail).needed.Size? ==>
      |tail| + ParseReply(tail).needed.n <= |EncodeReply(r)|
  {
    var e := EncodeReply(r);
    PrefixNotInvalid(tail, r, t);
    PrefixCut(tail, e, t);
    if |e| <= |tail| {
      ReplyPrefixParses(tail, r);
    } else if ParseReply(tail).Incomplete? && ParseReply(tail).needed.Size? {
      NeedWithinReply(tail, r, ParseReply(tail).needed.n);
    }
  }

  /** A prefix of `e + t` either starts with `e` or is a prefix of `e`. */
  lemma PrefixCut(tail: seq<Byte>, e: seq<Byte>, t: seq<Byte>)
    requires tail <= e + t
    ensures |e| <= |tail| ==> StartsWith(tail, e)
    ensures |tail| < |e| ==> tail <= e
  {
    if |e| <= |tail| {
      assert tail[..|e|] == (e + t)[..|e|];
    } else {
      assert tail == (e + t)[..|tail|] == e[..|tail|];
    }
  }

  /** A prefix of a reply's encoding that asks for `n` more bytes lacks at
      least `n` of the encoding. */
  lemma NeedWithinReply(tail: seq<Byte>, r: Reply, n: Pos)
    requires Transmissible(r) && ReplyRoundTrip.NoCr(r.code)
    requires tail <= EncodeReply(r) && ParseReply(tail) == Incomplete(Size(n))
    ensures |tail| + n <= |EncodeReply(r)|
  {
    var e := EncodeReply(r);
    if |e| < |tail| + n {
      Completes(tail, e);
      ParseReplyNeedsAtLeast(tail, e[|tail|..], n);
      ReplyPrefixParses(e, r);
      assert false;
    }
  }

  /** A prefix of `e` and the bytes of `e` after it make up `e`. */
  lemma Completes(tail: seq<Byte>, e: seq<Byte>)
    requires tail <= e
    ensures tail + e[|tail|..] == e && StartsWith(e, e)
  {
  }
}

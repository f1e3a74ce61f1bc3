/** The streaming command parser of src/ftp/parser/command.rs: a keyword
    matched without regard to case, then the arguments RFC 959 section 5.3.1
    gives that keyword, then `\r\n`. */
module CommandParser {
  import opened Prelude
  import opened Nom
  import opened Messages
  import opened Common
  import K = Keywords

  // ---------------------------------------------------------------------
  // command_name

  predicate IsUpperWord(k: seq<Byte>) {
    forall j :: 0 <= j < |k| ==> 65 <= k[j] <= 90
  }

  /** The first three bytes of `a` and `b` are not all the same. */
  predicate Differ3(a: seq<Byte>, b: seq<Byte>) {
    |a| >= 3 && |b| >= 3 && (a[0] != b[0] || a[1] != b[1] || a[2] != b[2])
  }

  /** A keyword list as `command_name` needs it: upper-case words, the `m`
      three-letter ones first and four-letter ones after them, and no
      three-letter keyword begins a four-letter one. */
  predicate WellOrdered(kws: seq<seq<Byte>>, m: nat) {
    m <= |kws| &&
    (forall i :: 0 <= i < |kws| ==> IsUpperWord(kws[i]) && |kws[i]| == (if i < m then 3 else 4)) &&
    (forall i, j :: 0 <= i < m <= j < |kws| ==> Differ3(kws[i], kws[j]))
  }

  /** The keyword list holds 33 upper-case words, three-letter ones first. */
  lemma KeywordShapes()
    ensures |K.KEYWORDS| == 33
    ensures forall i :: 0 <= i < 33 ==> IsUpperWord(K.KEYWORDS[i]) && |K.KEYWORDS[i]| == if i < 4 then 3 else 4
  {
  }

  /** Neither CWD nor MKD begins a four-letter keyword. */
  lemma CwdMkdPrefixes()
    ensures |K.KEYWORDS| == 33
    ensures forall j :: 4 <= j < 33 ==> Differ3(K.KEYWORDS[0], K.KEYWORDS[j]) && Differ3(K.KEYWORDS[1], K.KEYWORDS[j])
  {
  }

  /** Neither PWD nor RMD begins a four-letter keyword. */
  lemma PwdRmdPrefixes()
    ensures |K.KEYWORDS| == 33
    ensures forall j :: 4 <= j < 33 ==> Differ3(K.KEYWORDS[2], K.KEYWORDS[j]) && Differ3(K.KEYWORDS[3], K.KEYWORDS[j])
  {
  }

  lemma KeywordFacts()
    ensures |K.KEYWORDS| == 33 && WellOrdered(K.KEYWORDS, 4)
  {
    KeywordShapes();
    CwdMkdPrefixes();
    PwdRmdPrefixes();
  }

  /** nom `alt` over `tag_no_case` of each keyword in turn. The source writes
      this as an `alt` of twenty alternatives whose last one is an `alt` of
      the remaining thirteen (nom's tuples stop at 21); trying them in list
      order is the same thing. */
  function AltTags(s: seq<Byte>, kws: seq<seq<Byte>>): IResult<seq<Byte>>
    requires |kws| > 0
    decreases |kws|
  {
    if |kws| == 1 then TagNoCase(s, kws[0])
    else Alt(TagNoCase(s, kws[0]), AltTags(s, kws[1..]))
  }

  /** `alt` returns the outcome of the first alternative that is not an
      `Error`, or the `Error` of the last one. */
  lemma {:induction false} AltTagsPicksFirst(s: seq<Byte>, kws: seq<seq<Byte>>)
    requires |kws| > 0
    ensures AltTags(s, kws).Error? <==> forall j :: 0 <= j < |kws| ==> TagNoCase(s, kws[j]).Error?
    ensures AltTags(s, kws).Error? ==> AltTags(s, kws) == Error(s)
    ensures !AltTags(s, kws).Error? ==>
      (exists j :: 0 <= j < |kws| && AltTags(s, kws) == TagNoCase(s, kws[j]) &&
        forall i :: 0 <= i < j ==> TagNoCase(s, kws[i]).Error?)
    decreases |kws|
  {
    if |kws| > 1 {
      AltTagsPicksFirst(s, kws[1..]);
      if TagNoCase(s, kws[0]).Error? && !AltTags(s, kws[1..]).Error? {
        var j :| 0 <= j < |kws| - 1 && AltTags(s, kws[1..]) == TagNoCase(s, kws[1..][j]) &&
          forall i :: 0 <= i < j ==> TagNoCase(s, kws[1..][i]).Error?;
        assert AltTags(s, kws) == TagNoCase(s, kws[j + 1]);
        forall i | 0 <= i < j + 1 ensures TagNoCase(s, kws[i]).Error? {
          if i > 0 { assert kws[i] == kws[1..][i - 1]; }
        }
      }
      if !TagNoCase(s, kws[0]).Error? {
        assert AltTags(s, kws) == TagNoCase(s, kws[0]);
      }
    }
  }

  /** `command_name`. */
  function CommandName(s: seq<Byte>): IResult<seq<Byte>> {
    AltTags(s, K.KEYWORDS)
  }

  /** A case-insensitive match of an upper-case word is an upper-casing. */
  lemma NoCaseMatch(v: seq<Byte>, k: seq<Byte>)
    requires IsUpperWord(k) && |v| <= |k|
    ensures (forall j :: 0 <= j < |v| ==> ToLower(v[j]) == ToLower(k[j])) <==> UpperCase(v) == k[..|v|]
  {
    if forall j :: 0 <= j < |v| ==> ToLower(v[j]) == ToLower(k[j]) {
      forall j | 0 <= j < |v| ensures UpperCase(v)[j] == k[j] {
        assert ToLower(v[j]) == ToLower(k[j]);
      }
    }
    if UpperCase(v) == k[..|v|] {
      forall j | 0 <= j < |v| ensures ToLower(v[j]) == ToLower(k[j]) {
        assert UpperCase(v)[j] == k[j];
      }
    }
  }

  /** `tag_no_case` of an upper-case word, restated with `UpperCase`. */
  lemma TagUpper(s: seq<Byte>, k: seq<Byte>)
    requires IsUpperWord(k)
    ensures TagNoCase(s, k).Done? <==> |k| <= |s| && UpperCase(s[..|k|]) == k
    ensures TagNoCase(s, k).Incomplete? <==> |s| < |k| && UpperCase(s) == k[..|s|]
  {
    if |k| <= |s| {
      NoCaseMatch(s[..|k|], k);
      assert k[..|k|] == k;
    } else {
      NoCaseMatch(s, k);
    }
  }

  /** When the input spells keyword `i` of a well-ordered list, that
      keyword is the only alternative that is not an `Error`. */
  lemma {:induction false} OnlyMatch(s: seq<Byte>, kws: seq<seq<Byte>>, m: nat, i: nat, j: nat)
    requires WellOrdered(kws, m) && i < |kws| && j < |kws|
    requires |kws[i]| <= |s| && UpperCase(s[..|kws[i]|]) == kws[i]
    requires !TagNoCase(s, kws[j]).Error?
    ensures kws[j] == kws[i]
  {
    TagUpper(s, kws[j]);
  }

  /** When the input spells keyword `i`, in any mix of cases, `command_name`
      returns exactly those bytes and leaves the rest. */
  lemma CommandNameMatches(s: seq<Byte>, i: nat)
    requires i < |K.KEYWORDS|
    requires |K.KEYWORDS[i]| <= |s| && UpperCase(s[..|K.KEYWORDS[i]|]) == K.KEYWORDS[i]
    ensures CommandName(s) == Done(s[|K.KEYWORDS[i]|..], s[..|K.KEYWORDS[i]|])
  {
    KeywordFacts();
    var kws := K.KEYWORDS;
    AltTagsPicksFirst(s, kws);
    TagUpper(s, kws[i]);
    var j :| 0 <= j < |kws| && AltTags(s, kws) == TagNoCase(s, kws[j]);
    OnlyMatch(s, kws, 4, i, j);
  }

  /** What `command_name` returns when it succeeds: a keyword spelled in any
      mix of cases, with nothing else consumed. */
  lemma CommandNameDone(s: seq<Byte>)
    ensures var r := CommandName(s);
      r.Done? ==>
        exists i :: 0 <= i < |K.KEYWORDS| && |K.KEYWORDS[i]| <= |s| &&
          r == Done(s[|K.KEYWORDS[i]|..], s[..|K.KEYWORDS[i]|]) && UpperCase(r.value) == K.KEYWORDS[i]
  {
    KeywordShapes();
    AltTagsPicksFirst(s, K.KEYWORDS);
    if CommandName(s).Done? {
      var i :| 0 <= i < |K.KEYWORDS| && AltTags(s, K.KEYWORDS) == TagNoCase(s, K.KEYWORDS[i]);
      TagUpper(s, K.KEYWORDS[i]);
    }
  }

  /** Over a well-ordered keyword list, the `alt` of the tags is
      `Incomplete` only on a strict prefix of a keyword, and asks for the
      fewest bytes any keyword still needs. */
  lemma AltTagsIncomplete(s: seq<Byte>, kws: seq<seq<Byte>>, m: nat)
    requires 0 < |kws| && WellOrdered(kws, m)
    ensures var r := AltTags(s, kws);
      r.Incomplete? ==>
        |s| < 4 &&
        exists i :: 0 <= i < |kws| && |s| < |kws[i]| &&
          UpperCase(s) == kws[i][..|s|] && r == Incomplete(Size(|kws[i]| - |s|)) &&
          forall j :: 0 <= j < |kws| && TagNoCase(s, kws[j]).Incomplete? ==> |kws[i]| <= |kws[j]|
  {
    AltTagsPicksFirst(s, kws);
    if AltTags(s, kws).Incomplete? {
      var i :| 0 <= i < |kws| && AltTags(s, kws) == TagNoCase(s, kws[i]) &&
        forall j :: 0 <= j < i ==> TagNoCase(s, kws[j]).Error?;
      TagUpper(s, kws[i]);
      forall j | 0 <= j < |kws| && TagNoCase(s, kws[j]).Incomplete? ensures |kws[i]| <= |kws[j]| {
        assert i <= j;
      }
    }
  }

  /** `command_name` is `Incomplete` only on a strict prefix of a keyword,
      and asks for the fewest bytes any keyword still needs (the
      three-letter ones are tried first). */
  lemma CommandNameIncomplete(s: seq<Byte>)
    ensures var r := CommandName(s);
      r.Incomplete? ==>
        |s| < 4 &&
        exists i :: 0 <= i < |K.KEYWORDS| && |s| < |K.KEYWORDS[i]| &&
          UpperCase(s) == K.KEYWORDS[i][..|s|] && r == Incomplete(Size(|K.KEYWORDS[i]| - |s|)) &&
          forall j :: 0 <= j < |K.KEYWORDS| && TagNoCase(s, K.KEYWORDS[j]).Incomplete? ==>
            |K.KEYWORDS[i]| <= |K.KEYWORDS[j]|
  {
    KeywordFacts();
    AltTagsIncomplete(s, K.KEYWORDS, 4);
  }

  /** Every outcome of `command_name`: see the two lemmas above; `Error`
      exactly when no keyword fits, reporting the whole input. */
  lemma CommandNameOutcomes(s: seq<Byte>)
    ensures var r := CommandName(s);
      r.Done? ==>
        exists i :: 0 <= i < |K.KEYWORDS| && |K.KEYWORDS[i]| <= |s| &&
          r == Done(s[|K.KEYWORDS[i]|..], s[..|K.KEYWORDS[i]|]) && UpperCase(r.value) == K.KEYWORDS[i]
    ensures var r := CommandName(s);
      r.Incomplete? ==>
        |s| < 4 &&
        exists i :: 0 <= i < |K.KEYWORDS| && |s| < |K.KEYWORDS[i]| &&
          UpperCase(s) == K.KEYWORDS[i][..|s|] && r == Incomplete(Size(|K.KEYWORDS[i]| - |s|)) &&
          forall j :: 0 <= j < |K.KEYWORDS| && TagNoCase(s, K.KEYWORDS[j]).Incomplete? ==>
            |K.KEYWORDS[i]| <= |K.KEYWORDS[j]|
    ensures var r := CommandName(s);
      r.Error? <==> forall j :: 0 <= j < |K.KEYWORDS| ==> TagNoCase(s, K.KEYWORDS[j]).Error?
    ensures var r := CommandName(s);
      r.Error? ==> r.input == s
    ensures !CommandName(s).Panic?
  {
    CommandNameDone(s);
    CommandNameIncomplete(s);
    AltTagsPicksFirst(s, K.KEYWORDS);
  }

  /** `command_name` consumes the keyword it recognises. */
  lemma CommandNameProgress(s: seq<Byte>)
    ensures MakesProgress(CommandName(s), s)
  {
    CommandNameOutcomes(s);
    KeywordFacts();
  }

  // ---------------------------------------------------------------------
  // Arguments

  /** `is_char`: any of the 128 ASCII characters except CR and LF. */
  predicate IsChar(c: Byte) {
    c < 128 && c != CR && c != LF
  }

  /** `string`, which `username`, `password`, `account_information` and
      `pathname` also are: a non-empty run of `is_char` bytes. */
  function StringArg(s: seq<Byte>): (r: IResult<seq<Byte>>)
    ensures r.Done? ==> 0 < |r.value| && 0 < |r.rest| && r.value + r.rest == s && !IsChar(r.rest[0])
    ensures r.Done? ==> forall j :: 0 <= j < |r.value| ==> IsChar(r.value[j])
    ensures r.Incomplete? <==> forall j :: 0 <= j < |s| ==> IsChar(s[j])
    ensures r.Error? <==> 0 < |s| && !IsChar(s[0])
    ensures !r.Panic?
  {
    TakeWhile1(s, IsChar)
  }

  /** `is_pr_char`: `is_ascii_graphic`, codes 33 through 126. */
  predicate IsPrChar(c: Byte) {
    33 <= c <= 126
  }

  /** `marker`, a `pr_string`: a non-empty run of printable bytes. */
  function Marker(s: seq<Byte>): (r: IResult<seq<Byte>>)
    ensures r.Done? ==> 0 < |r.value| && 0 < |r.rest| && r.value + r.rest == s && !IsPrChar(r.rest[0])
    ensures r.Done? ==> forall j :: 0 <= j < |r.value| ==> IsPrChar(r.value[j])
    ensures r.Incomplete? <==> forall j :: 0 <= j < |s| ==> IsPrChar(s[j])
    ensures r.Error? <==> 0 < |s| && !IsPrChar(s[0])
    ensures !r.Panic?
  {
    TakeWhile1(s, IsPrChar)
  }

  /** `number` (and `byte_size`): nom's decimal `u8`. */
  function Number(s: seq<Byte>): (r: IResult<Byte>)
    ensures MakesProgress(r, s) && !r.Panic?
    ensures r.Incomplete? ==> r.needed == Size(1)
  {
    U8Consumes(s);
    U8(s)
  }

  /** `separated_pair(number, comma, number)`. */
  function NumberPair(s: seq<Byte>): (r: IResult<(Byte, Byte)>)
    ensures MakesProgress(r, s) && !r.Panic?
  {
    var a :- Number(s);
    var c :- Comma(a.rest);
    var b :- Number(c.rest);
    SuffixTransitive(c.rest, a.rest, s);
    SuffixTransitive(b.rest, c.rest, s);
    Done(b.rest, (a.value, b.value))
  }

  /** `host_number`: two pairs of numbers joined by a comma. */
  function HostNumber(s: seq<Byte>): (r: IResult<Ipv4Addr>)
    ensures MakesProgress(r, s) && !r.Panic?
  {
    var ab :- NumberPair(s);
    var c :- Comma(ab.rest);
    var cd :- NumberPair(c.rest);
    SuffixTransitive(c.rest, ab.rest, s);
    SuffixTransitive(cd.rest, c.rest, s);
    Done(cd.rest, Ipv4Addr(ab.value.0, ab.value.1, cd.value.0, cd.value.1))
  }

  /** `port_number`: two numbers, high byte first (`u16::from_be_bytes`). */
  function PortNumber(s: seq<Byte>): (r: IResult<U16>)
    ensures MakesProgress(r, s) && !r.Panic?
  {
    var p :- NumberPair(s);
    Done(p.rest, p.value.0 * 256 + p.value.1)
  }

  /** `host_port`: a host number, a comma and a port number. */
  function HostPort(s: seq<Byte>): (r: IResult<(Ipv4Addr, U16)>)
    ensures MakesProgress(r, s) && !r.Panic?
  {
    var h :- HostNumber(s);
    var c :- Comma(h.rest);
    var p :- PortNumber(c.rest);
    SuffixTransitive(c.rest, h.rest, s);
    SuffixTransitive(p.rest, c.rest, s);
    Done(p.rest, (h.value, p.value))
  }

  /** `form_code`: one of N, T, C in either case. */
  function FormCode(s: seq<Byte>): (r: IResult<FormatControl>)
    ensures r.Done? <==> 0 < |s| && ToUpper(s[0]) in {78, 84, 67}
    ensures r.Done? ==>
      r.rest == s[1..] &&
      r.value == (if ToUpper(s[0]) == 78 then NonPrint else if ToUpper(s[0]) == 84 then Telnet else Carriage)
    ensures r.Incomplete? <==> s == []
    ensures !r.Panic?
  {
    var code :- Alt(TagNoCase(s, [78]), Alt(TagNoCase(s, [84]), TagNoCase(s, [67])));
    var c := code.value;
    if c == [110] || c == [78] then Done(code.rest, NonPrint)
    else if c == [116] || c == [84] then Done(code.rest, Telnet)
    else if c == [99] || c == [67] then Done(code.rest, Carriage)
    else Panic
  }

  /** `preceded(space, form_code)`. */
  function SpacedFormCode(s: seq<Byte>): (r: IResult<FormatControl>)
    ensures MakesProgress(r, s) && !r.Panic?
  {
    var sp :- Space(s);
    FormCode(sp.rest)
  }

  /** The `alt` of the four `type_code` letters. */
  function TypeLetter(s: seq<Byte>): (r: IResult<seq<Byte>>)
    ensures r.Done? <==> 0 < |s| && ToUpper(s[0]) in {65, 69, 73, 76}
    ensures r.Done? ==> r.rest == s[1..] && r.value == [s[0]]
    ensures !r.Panic?
  {
    Alt(TagNoCase(s, [65]), Alt(TagNoCase(s, [69]), Alt(TagNoCase(s, [73]), TagNoCase(s, [76]))))
  }

  /** `opt(preceded(space, form_code))` after A or E. */
  function OptionalForm(s: seq<Byte>): (r: IResult<Option<FormatControl>>)
    ensures ConsumesPrefix(r, s) && !r.Panic?
    ensures r.Done? && r.value.None? ==> r.rest == s
  {
    Opt(SpacedFormCode(s), s)
  }

  /** `preceded(space, byte_size)` after L. */
  function SpacedByteSize(s: seq<Byte>): (r: IResult<Byte>)
    ensures MakesProgress(r, s) && !r.Panic?
  {
    var sp :- Space(s);
    Number(sp.rest)
  }

  /** `type_code`: A or E with an optional ` <form-code>`, I, or L with a
      mandatory ` <byte-size>`. */
  function TypeCode(s: seq<Byte>): (r: IResult<RepresentationTypeKind>)
    ensures MakesProgress(r, s) && !r.Panic?
    ensures r.Done? ==> 0 < |s| && ToUpper(s[0]) in {65, 69, 73, 76}
    ensures r.Done? ==>
      (ToUpper(s[0]) == 65 <==> r.value.Ascii?) && (ToUpper(s[0]) == 69 <==> r.value.Ebcdic?) &&
      (ToUpper(s[0]) == 73 <==> r.value.Image?) && (ToUpper(s[0]) == 76 <==> r.value.LocalByte?)
  {
    var code :- TypeLetter(s);
    var r := TypeArguments(code.value, code.rest);
    if r.Done? then SuffixTransitive(r.rest, code.rest, s); r else r
  }

  /** The `match` of `type_code` on the letter `c` it read, parsing what
      follows the letter from `i`. */
  function TypeArguments(c: seq<Byte>, i: seq<Byte>): (r: IResult<RepresentationTypeKind>)
    requires |c| == 1 && ToUpper(c[0]) in {65, 69, 73, 76}
    ensures ConsumesPrefix(r, i) && !r.Panic?
    ensures r.Done? ==>
      (ToUpper(c[0]) == 65 <==> r.value.Ascii?) && (ToUpper(c[0]) == 69 <==> r.value.Ebcdic?) &&
      (ToUpper(c[0]) == 73 <==> r.value.Image?) && (ToUpper(c[0]) == 76 <==> r.value.LocalByte?)
  {
    if c == [97] || c == [65] then
      var form :- OptionalForm(i);
      Done(form.rest, Ascii(form.value))
    else if c == [101] || c == [69] then
      var form :- OptionalForm(i);
      Done(form.rest, Ebcdic(form.value))
    else if c == [105] || c == [73] then
      Done(i, Image)
    else if c == [108] || c == [76] then
      var size :- SpacedByteSize(i);
      Done(size.rest, LocalByte(size.value))
    else Panic
  }

  /** `structure_code`: one of F, R, P in either case. */
  function StructureCode(s: seq<Byte>): (r: IResult<FileStructureKind>)
    ensures r.Done? <==> 0 < |s| && ToUpper(s[0]) in {70, 82, 80}
    ensures r.Done? ==>
      r.rest == s[1..] &&
      r.value == (if ToUpper(s[0]) == 70 then File else if ToUpper(s[0]) == 82 then Record else Page)
    ensures r.Incomplete? <==> s == []
    ensures !r.Panic?
  {
    var code :- Alt(TagNoCase(s, [70]), Alt(TagNoCase(s, [82]), TagNoCase(s, [80])));
    var c := code.value;
    if c == [102] || c == [70] then Done(code.rest, File)
    else if c == [114] || c == [82] then Done(code.rest, Record)
    else if c == [112] || c == [80] then Done(code.rest, Page)
    else Panic
  }

  /** `mode_code`: one of S, B, C in either case. */
  function ModeCode(s: seq<Byte>): (r: IResult<TransferModeKind>)
    ensures r.Done? <==> 0 < |s| && ToUpper(s[0]) in {83, 66, 67}
    ensures r.Done? ==>
      r.rest == s[1..] &&
      r.value == (if ToUpper(s[0]) == 83 then Stream else if ToUpper(s[0]) == 66 then Block else Compressed)
    ensures r.Incomplete? <==> s == []
    ensures !r.Panic?
  {
    var code :- Alt(TagNoCase(s, [83]), Alt(TagNoCase(s, [66]), TagNoCase(s, [67])));
    var c := code.value;
    if c == [115] || c == [83] then Done(code.rest, Stream)
    else if c == [98] || c == [66] then Done(code.rest, Block)
    else if c == [99] || c == [67] then Done(code.rest, Compressed)
    else Panic
  }

  /** `decimal_integer`: despite its name, nom's `be_i64`, eight raw bytes
      read as a big-endian two's complement number. */
  function DecimalInteger(s: seq<Byte>): (r: IResult<I64>)
    ensures r.Done? <==> 8 <= |s|
    ensures r.Done? ==> r.rest == s[8..] && r.value == FromBeBytes(s[..8])
    ensures r.Incomplete? ==> r.needed == Size(8 - |s|)
    ensures r.Done? || r.Incomplete?
  {
    BeI64(s)
  }

  /** `preceded(tuple((space, tag_no_case("R"), space)), decimal_integer)`. */
  function MaximumSize(s: seq<Byte>): (r: IResult<I64>)
    ensures MakesProgress(r, s) && !r.Panic?
  {
    var sp1 :- Space(s);
    var rr :- TagNoCase(sp1.rest, [82]);
    var sp2 :- Space(rr.rest);
    DecimalInteger(sp2.rest)
  }

  /** The ALLO argument: a reserve size, then optionally ` R ` and a maximum
      record or page size. */
  function AllocateArgs(s: seq<Byte>): (r: IResult<(I64, Option<I64>)>)
    ensures MakesProgress(r, s) && !r.Panic?
  {
    var reserve :- DecimalInteger(s);
    var maximum :- Opt(MaximumSize(reserve.rest), reserve.rest);
    Done(maximum.rest, (reserve.value, maximum.value))
  }

  // ---------------------------------------------------------------------
  // command

  /** The `parse!` forms: an argument-less command needs `\r\n` at once. */
  function Bare(i: seq<Byte>, c: Command): (r: IResult<Command>)
    ensures MakesProgress(r, i) && !r.Panic?
    ensures r.Done? <==> StartsWith(i, CRLF)
    ensures r.Done? ==> r == Done(i[2..], c)
  {
    var e :- Crlf(i);
    Done(e.rest, c)
  }

  /** `delimited(space, p, crlf)`: a mandatory argument. */
  function Delimited<T>(i: seq<Byte>, p: seq<Byte> -> IResult<T>): (r: IResult<T>)
    requires forall x :: ConsumesPrefix(p(x), x) && !p(x).Panic?
    ensures MakesProgress(r, i) && !r.Panic?
  {
    var sp :- Space(i);
    var v :- p(sp.rest);
    var e :- Crlf(v.rest);
    assert ConsumesPrefix(p(sp.rest), sp.rest) && sp.rest == i[1..];
    SuffixTransitive(v.rest, sp.rest, i);
    SuffixTransitive(e.rest, v.rest, i);
    Done(e.rest, v.value)
  }

  /** `opt(delimited(space, p, crlf))`: an optional argument; anything that
      is not a well-formed ` <arg>\r\n` (an `Error`) leaves the input as it
      was and yields `None`. */
  function Optional<T>(i: seq<Byte>, p: seq<Byte> -> IResult<T>): (r: IResult<Option<T>>)
    requires forall x :: ConsumesPrefix(p(x), x) && !p(x).Panic?
    ensures ConsumesPrefix(r, i) && !r.Panic?
  {
    Opt(Delimited(i, p), i)
  }

  /** `delimited(space, string, crlf)`, the argument of most commands. */
  function DelimitedString(i: seq<Byte>): (r: IResult<seq<Byte>>)
    ensures MakesProgress(r, i) && !r.Panic?
  {
    Delimited(i, StringArg)
  }

  /** `opt(delimited(space, string, crlf))`. */
  function OptionalString(i: seq<Byte>): (r: IResult<Option<seq<Byte>>>)
    ensures ConsumesPrefix(r, i) && !r.Panic?
  {
    Optional(i, StringArg)
  }

  /** The misspelled arm of the `match` on the keyword. */
  const SNMT: seq<Byte> := [83, 78, 77, 84]

  /** `name` has no arm among the FTP service commands of the `match`. */
  predicate NoServiceArm(name: seq<Byte>) {
    name != K.RETR && name != K.STOR && name != K.STOU && name != K.APPE && name != K.ALLO && name != K.REST && name != K.RNFR && name != K.RNTO && name != K.ABOR && name != K.DELE && name != K.RMD && name != K.MKD && name != K.PWD && name != K.LIST && name != K.NLST && name != K.SITE && name != K.SYST && name != K.STAT && name != K.HELP && name != K.NOOP
  }

  /** `name` has no arm among the transfer-parameter and service commands. */
  predicate NoTransferArm(name: seq<Byte>) {
    name != K.PORT && name != K.PASV && name != K.TYPE && name != K.STRU && name != K.MODE && NoServiceArm(name)
  }

  /** `name` has no arm in the `match` of `command`. */
  predicate Unmatched(name: seq<Byte>) {
    name != K.USER && name != K.PASS && name != K.ACCT && name != K.CWD && name != K.CDUP && name != SNMT && name != K.QUIT && name != K.REIN && NoTransferArm(name)
  }

  /** The `match` of `command` on the upper-cased keyword `name`, applied to
      the input `i` after it; a name without an arm is `unreachable!`. The
      arms are in source order, the access-control ones here and the rest
      in the two functions below. */
  function Dispatch(name: seq<Byte>, i: seq<Byte>): (r: IResult<Command>)
    ensures ConsumesPrefix(r, i)
    ensures r.Panic? ==> Unmatched(name)
  {
    if name == K.USER then var a :- DelimitedString(i); Done(a.rest, UserName(a.value))
    else if name == K.PASS then var a :- DelimitedString(i); Done(a.rest, Password(a.value))
    else if name == K.ACCT then var a :- DelimitedString(i); Done(a.rest, Account(a.value))
    else if name == K.CWD then var a :- DelimitedString(i); Done(a.rest, ChangeWorkingDirectory(a.value))
    else if name == K.CDUP then Bare(i, ChangeToParentDirectory)
    else if name == SNMT then var a :- DelimitedString(i); Done(a.rest, StructureMount(a.value))
    else if name == K.QUIT then Bare(i, Logout)
    else if name == K.REIN then Bare(i, Reinitialize)
    else DispatchTransfer(name, i)
  }

  /** The transfer-parameter arms of the `match`. */
  function DispatchTransfer(name: seq<Byte>, i: seq<Byte>): (r: IResult<Command>)
    ensures ConsumesPrefix(r, i)
    ensures r.Panic? ==> NoTransferArm(name)
  {
    if name == K.PORT then var a :- Delimited(i, HostPort); Done(a.rest, DataPort(a.value.0, a.value.1))
    else if name == K.PASV then Bare(i, Passive)
    else if name == K.TYPE then var a :- Delimited(i, TypeCode); Done(a.rest, RepresentationType(a.value))
    else if name == K.STRU then var a :- Delimited(i, StructureCode); Done(a.rest, FileStructure(a.value))
    else if name == K.MODE then var a :- Delimited(i, ModeCode); Done(a.rest, TransferMode(a.value))
    else DispatchService(name, i)
  }

  /** The FTP service arms of the `match`, and `unreachable!`. */
  function DispatchService(name: seq<Byte>, i: seq<Byte>): (r: IResult<Command>)
    ensures ConsumesPrefix(r, i)
    ensures r.Panic? ==> NoServiceArm(name)
  {
    if name == K.RETR then var a :- DelimitedString(i); Done(a.rest, Retrieve(a.value))
    else if name == K.STOR then var a :- DelimitedString(i); Done(a.rest, Store(a.value))
    else if name == K.STOU then Bare(i, StoreUnique)
    else if name == K.APPE then var a :- DelimitedString(i); Done(a.rest, Append(a.value))
    else if name == K.ALLO then var a :- Delimited(i, AllocateArgs); Done(a.rest, Allocate(a.value.0, a.value.1))
    else if name == K.REST then var a :- Delimited(i, Marker); Done(a.rest, Restart(a.value))
    else if name == K.RNFR then var a :- DelimitedString(i); Done(a.rest, RenameFrom(a.value))
    else if name == K.RNTO then var a :- DelimitedString(i); Done(a.rest, RenameTo(a.value))
    else if name == K.ABOR then Bare(i, Abort)
    else if name == K.DELE then var a :- DelimitedString(i); Done(a.rest, Delete(a.value))
    else if name == K.RMD then var a :- DelimitedString(i); Done(a.rest, RemoveDirectory(a.value))
    else if name == K.MKD then var a :- DelimitedString(i); Done(a.rest, MakeDirectory(a.value))
    else if name == K.PWD then Bare(i, PrintWorkingDirectory)
    else if name == K.LIST then var a :- OptionalString(i); Done(a.rest, List(a.value))
    else if name == K.NLST then var a :- OptionalString(i); Done(a.rest, NameList(a.value))
    else if name == K.SITE then var a :- DelimitedString(i); Done(a.rest, SiteParameters(a.value))
    else if name == K.SYST then Bare(i, System)
    else if name == K.STAT then var a :- OptionalString(i); Done(a.rest, Status(a.value))
    else if name == K.HELP then var a :- OptionalString(i); Done(a.rest, Help(a.value))
    else if name == K.NOOP then Bare(i, Noop)
    else Panic
  }

  /** `command`: a keyword, then what the `match` on its upper-cased
      spelling parses after it. */
  function ParseCommand(s: seq<Byte>): (r: IResult<Command>)
    ensures MakesProgress(r, s)
  {
    CommandNameProgress(s);
    var name :- CommandName(s);
    var r := Dispatch(UpperCase(name.value), name.rest);
    if r.Done? then SuffixTransitive(r.rest, name.rest, s); r else r
  }

  /** Every keyword but SMNT has an arm. */
  lemma ArmsCoverKeywords()
    ensures forall j :: 0 <= j < |K.KEYWORDS| && j != 25 ==> !Unmatched(K.KEYWORDS[j])
    ensures K.KEYWORDS[25] == K.SMNT && Unmatched(K.SMNT)
  {
  }

  /** The SMNT arm is spelled SNMT, so a command that starts with SMNT, in
      any case, reaches `unreachable!` whatever follows the keyword; no
      other input does. */
  lemma {:induction false} OnlySmntPanics(s: seq<Byte>)
    ensures ParseCommand(s).Panic? <==> 4 <= |s| && UpperCase(s[..4]) == K.SMNT
  {
    CommandNameOutcomes(s);
    ArmsCoverKeywords();
    if 4 <= |s| && UpperCase(s[..4]) == K.SMNT {
      CommandNameMatches(s, 25);
    }
    if ParseCommand(s).Panic? {
      var name := CommandName(s);
      var j :| 0 <= j < |K.KEYWORDS| && |K.KEYWORDS[j]| <= |s| &&
        name == Done(s[|K.KEYWORDS[j]|..], s[..|K.KEYWORDS[j]|]) && UpperCase(name.value) == K.KEYWORDS[j];
      assert Dispatch(K.KEYWORDS[j], name.rest).Panic?;
    }
  }
}

/** What the command parser of src/ftp/parser/command.rs makes of what the
    command serializer of src/ftp/serializer/command.rs writes: the same
    command for the verbs and arguments the two agree on, and for the rest
    exactly where they part. */
module CommandRoundTrip {
  import opened Prelude
  import opened Nom
  import opened Common
  import opened Messages
  import opened Serializeable
  import opened CommandSerializer
  import opened CommandParser
  import opened CommandArms
  import K = Keywords

  // ---------------------------------------------------------------------
  // The keyword

  /** An upper-case word is its own upper-casing. */
  lemma UpperCaseOfUpperWord(k: seq<Byte>)
    requires IsUpperWord(k)
    ensures UpperCase(k) == k
  {
  }

  /** The parser recognises the keyword the serializer writes and hands
      what follows it to that keyword's arm. */
  lemma ParseKeyword(c: Command, rest: seq<Byte>)
    ensures ParseCommand(Keyword(c) + rest) == Dispatch(Keyword(c), rest)
  {
    var kw := Keyword(c);
    var s := kw + rest;
    KeywordShapes();
    UpperCaseOfUpperWord(kw);
    assert s[..|kw|] == kw;
    CommandNameMatches(s, KeywordPosition(c));
    assert s[|kw|..] == rest;
  }

  /** A command with an argument is its keyword, a space, the argument
      and `\r\n`; the parser hands all but the keyword to the keyword's
      arm. */
  lemma ParseArgumentCommand(c: Command, t: seq<Byte>, kw: seq<Byte>, arg: seq<Byte>)
    requires !IsBare(c) && Keyword(c) == kw && EncodeArgument(c) == arg
    ensures ParseCommand(EncodeCommand(c) + t) == Dispatch(kw, [SP] + arg + CRLF + t)
  {
    var i := [SP] + arg + CRLF + t;
    assert EncodeCommand(c) + t == Keyword(c) + i;
    ParseKeyword(c, i);
  }

  // ---------------------------------------------------------------------
  // Reading the arguments back

  /** A byte string `string` reads back whole: not empty, `is_char` only. */
  predicate IsStringText(a: seq<Byte>) {
    0 < |a| && forall j :: 0 <= j < |a| ==> IsChar(a[j])
  }

  /** A restart marker `marker` reads back whole: not empty, printable only. */
  predicate IsMarkerText(a: seq<Byte>) {
    0 < |a| && forall j :: 0 <= j < |a| ==> IsPrChar(a[j])
  }

  /** `take_while1` stops at the first byte `p` rejects. */
  lemma TakeWhile1Reads(a: seq<Byte>, t: seq<Byte>, p: Byte -> bool)
    requires 0 < |a| && forall j :: 0 <= j < |a| ==> p(a[j])
    requires 0 < |t| && !p(t[0])
    ensures TakeWhile1(a + t, p) == Done(t, a)
  {
    var s := a + t;
    var r := TakeWhile1(s, p);
    assert !p(s[|a|]);
    assert p(s[0]);
    assert r.Done?;
    assert r.value == s[..|a|] == a;
  }

  /** `delimited(space, p, crlf)` reads ` <arg>\r\n` when `p` reads `<arg>`
      and stops in front of the `\r\n`. */
  lemma DelimitedReads<T>(a: seq<Byte>, t: seq<Byte>, p: seq<Byte> -> IResult<T>, v: T)
    requires forall x :: ConsumesPrefix(p(x), x) && !p(x).Panic?
    requires p(a + CRLF + t) == Done(CRLF + t, v)
    ensures Delimited([SP] + a + CRLF + t, p) == Done(t, v)
  {
    assert ([SP] + a + CRLF + t)[1..] == a + CRLF + t;
    assert (CRLF + t)[2..] == t;
  }

  lemma StringArgReads(a: seq<Byte>, t: seq<Byte>)
    requires IsStringText(a)
    ensures StringArg(a + CRLF + t) == Done(CRLF + t, a)
  {
    assert a + CRLF + t == a + (CRLF + t);
    TakeWhile1Reads(a, CRLF + t, IsChar);
  }

  /** `delimited(space, string, crlf)` reads back ` <string>\r\n`. */
  lemma DelimitedStringReads(a: seq<Byte>, t: seq<Byte>)
    requires IsStringText(a)
    ensures DelimitedString([SP] + a + CRLF + t) == Done(t, a)
  {
    StringArgReads(a, t);
    DelimitedReads(a, t, StringArg, a);
  }

  /** `delimited(space, marker, crlf)` reads back ` <marker>\r\n`. */
  lemma DelimitedMarkerReads(a: seq<Byte>, t: seq<Byte>)
    requires IsMarkerText(a)
    ensures Delimited([SP] + a + CRLF + t, Marker) == Done(t, a)
  {
    assert a + CRLF + t == a + (CRLF + t);
    TakeWhile1Reads(a, CRLF + t, IsPrChar);
    DelimitedReads(a, t, Marker, a);
  }

  /** An optional argument written as ` ` and `a` comes back with the space:
      `string` accepts it, so the parser sees ` ` + `a` after its own
      separator. */
  lemma OptionalStringSome(a: seq<Byte>, t: seq<Byte>)
    requires forall j :: 0 <= j < |a| ==> IsChar(a[j])
    ensures OptionalString([SP] + ([SP] + a) + CRLF + t) == Done(t, Some([SP] + a))
  {
    assert IsChar(([SP] + a)[0]);
    assert IsStringText([SP] + a);
    DelimitedStringReads([SP] + a, t);
  }

  /** A missing optional argument is written as a lone space before the
      `\r\n`; the parser's `opt` gives up on it and leaves it unread. */
  lemma OptionalStringNone(t: seq<Byte>)
    ensures OptionalString([SP] + CRLF + t) == Done([SP] + CRLF + t, None)
  {
    var i := [SP] + CRLF + t;
    assert i[1..] == CRLF + t;
    assert StringArg(CRLF + t).Error?;
  }

  /** `u8` reads back a number written in decimal. */
  lemma NumberReads(n: Byte, t: seq<Byte>)
    requires 0 < |t| && !IsDigit(t[0])
    ensures Number(EncodeU8(n) + t) == Done(t, n)
  {
    U8ReadsDecimal(n, t);
  }

  /** Two numbers with a comma between them. */
  lemma NumberPairReads(x: Byte, y: Byte, t: seq<Byte>)
    requires 0 < |t| && !IsDigit(t[0])
    ensures NumberPair(EncodeU8(x) + [COMMA] + EncodeU8(y) + t) == Done(t, (x, y))
  {
    var v := EncodeU8(y) + t;
    var u := [COMMA] + v;
    assert EncodeU8(x) + [COMMA] + EncodeU8(y) + t == EncodeU8(x) + u;
    NumberReads(x, u);
    assert u[1..] == v;
    assert Comma(u) == Done(v, COMMA);
    NumberReads(y, t);
  }

  /** `host_number` reads back four numbers joined by commas. */
  lemma HostNumberReads(address: Ipv4Addr, t: seq<Byte>)
    requires 0 < |t| && !IsDigit(t[0])
    ensures HostNumber(EncodeU8(address.a) + [COMMA] + EncodeU8(address.b) + [COMMA] +
      EncodeU8(address.c) + [COMMA] + EncodeU8(address.d) + t) == Done(t, address)
  {
    var cd := EncodeU8(address.c) + [COMMA] + EncodeU8(address.d) + t;
    var s1 := [COMMA] + cd;
    assert EncodeU8(address.a) + [COMMA] + EncodeU8(address.b) + [COMMA] +
      EncodeU8(address.c) + [COMMA] + EncodeU8(address.d) + t ==
      EncodeU8(address.a) + [COMMA] + EncodeU8(address.b) + s1;
    NumberPairReads(address.a, address.b, s1);
    assert s1[1..] == cd;
    NumberPairReads(address.c, address.d, t);
  }

  /** `port_number` reads back the high and the low byte of a port. */
  lemma PortNumberReads(port: U16, t: seq<Byte>)
    requires 0 < |t| && !IsDigit(t[0])
    ensures PortNumber(EncodeU8(port / 256) + [COMMA] + EncodeU8(port % 256) + t) == Done(t, port)
  {
    NumberPairReads(port / 256, port % 256, t);
  }

  /** `host_port` reads back the six fields `(Ipv4Addr, u16)` is written as. */
  lemma HostPortReads(address: Ipv4Addr, port: U16, t: seq<Byte>)
    requires 0 < |t| && !IsDigit(t[0])
    ensures HostPort(EncodeHostPort(address, port) + t) == Done(t, (address, port))
  {
    HostPortFields(address, port);
    var pt := EncodeU8(port / 256) + [COMMA] + EncodeU8(port % 256) + t;
    var s1 := [COMMA] + pt;
    assert EncodeHostPort(address, port) + t ==
      EncodeU8(address.a) + [COMMA] + EncodeU8(address.b) + [COMMA] +
      EncodeU8(address.c) + [COMMA] + EncodeU8(address.d) + s1;
    HostNumberReads(address, s1);
    assert s1[1..] == pt;
    PortNumberReads(port, t);
  }

  /** `structure_code` reads back the letter of `FileStructureKind`. */
  lemma StructureCodeReads(k: FileStructureKind, t: seq<Byte>)
    ensures StructureCode(EncodeFileStructure(k) + t) == Done(t, k)
  {
    assert (EncodeFileStructure(k) + t)[1..] == t;
  }

  /** `mode_code` reads back the letter of `TransferModeKind`. */
  lemma ModeCodeReads(k: TransferModeKind, t: seq<Byte>)
    ensures ModeCode(EncodeTransferMode(k) + t) == Done(t, k)
  {
    assert (EncodeTransferMode(k) + t)[1..] == t;
  }

  /** `form_code` reads back the letter of `FormatControl`. */
  lemma FormCodeReads(f: FormatControl, t: seq<Byte>)
    ensures FormCode(EncodeFormatControl(f) + t) == Done(t, f)
  {
    assert (EncodeFormatControl(f) + t)[1..] == t;
  }

  /** `type_code` reads A or E, in either case, followed by a space and a
      form code, as ASCII or EBCDIC with that form. */
  lemma TypeCodeReadsForm(letter: Byte, f: FormatControl, t: seq<Byte>)
    requires letter in {65, 97, 69, 101}
    ensures TypeCode([letter, SP] + EncodeFormatControl(f) + t) ==
      Done(t, if ToUpper(letter) == 65 then Ascii(Some(f)) else Ebcdic(Some(f)))
  {
    var v := [SP] + EncodeFormatControl(f) + t;
    var s := [letter] + v;
    assert [letter, SP] + EncodeFormatControl(f) + t == s;
    assert s[1..] == v;
    assert TypeLetter(s) == Done(v, [letter]);
    FormArgumentsRead(letter, f, t);
  }

  /** What follows A or E is read as an optional space and form code. */
  lemma FormArgumentsRead(letter: Byte, f: FormatControl, t: seq<Byte>)
    requires letter in {65, 97, 69, 101}
    ensures TypeArguments([letter], [SP] + EncodeFormatControl(f) + t) ==
      Done(t, if ToUpper(letter) == 65 then Ascii(Some(f)) else Ebcdic(Some(f)))
  {
    var u := EncodeFormatControl(f) + t;
    var v := [SP] + EncodeFormatControl(f) + t;
    assert v[1..] == u;
    FormCodeReads(f, t);
    assert OptionalForm(v) == Done(t, Some(f));
  }

  /** A space and a byte size read back as that size. */
  lemma SpacedByteSizeReads(size: Byte, t: seq<Byte>)
    requires 0 < |t| && !IsDigit(t[0])
    ensures SpacedByteSize([SP] + EncodeU8(size) + t) == Done(t, size)
  {
    var u := EncodeU8(size) + t;
    assert ([SP] + EncodeU8(size) + t)[1..] == u;
    NumberReads(size, t);
  }

  /** `type_code` reads L, in either case, followed by a space and a byte
      size, as the local byte type of that size. */
  lemma TypeCodeReadsByteSize(letter: Byte, size: Byte, t: seq<Byte>)
    requires letter in {76, 108}
    requires 0 < |t| && !IsDigit(t[0])
    ensures TypeCode([letter, SP] + EncodeU8(size) + t) == Done(t, LocalByte(size))
  {
    var v := [SP] + EncodeU8(size) + t;
    var s := [letter] + v;
    assert [letter, SP] + EncodeU8(size) + t == s;
    assert s[1..] == v;
    assert TypeLetter(s) == Done(v, [letter]);
    LocalByteArgumentsRead(letter, size, t);
  }

  /** What follows L is read as a space and a byte size. */
  lemma LocalByteArgumentsRead(letter: Byte, size: Byte, t: seq<Byte>)
    requires letter in {76, 108}
    requires 0 < |t| && !IsDigit(t[0])
    ensures TypeArguments([letter], [SP] + EncodeU8(size) + t) == Done(t, LocalByte(size))
  {
    SpacedByteSizeReads(size, t);
  }

  /** `type_code` reads back the three types the serializer writes as a
      lone letter. */
  lemma TypeCodeReads(k: RepresentationTypeKind, t: seq<Byte>)
    requires k.Image? || k == Ascii(None) || k == Ebcdic(None)
    ensures Delimited([SP] + EncodeRepresentationType(k) + CRLF + t, TypeCode) == Done(t, k)
  {
    LoneTypeLetterReads(k, t);
    TypeCodeDelimitedReads(EncodeRepresentationType(k), t, k);
  }

  /** A lone type letter followed by the line end reads back as its type. */
  lemma LoneTypeLetterReads(k: RepresentationTypeKind, t: seq<Byte>)
    requires k.Image? || k == Ascii(None) || k == Ebcdic(None)
    ensures TypeCode(EncodeRepresentationType(k) + CRLF + t) == Done(CRLF + t, k)
  {
    var c: Byte := if k.Image? then 73 else if k.Ascii? then 65 else 69;
    assert EncodeRepresentationType(k) == [c];
    var u := CRLF + t;
    var s := [c] + u;
    assert [c] + CRLF + t == s;
    assert s[1..] == u;
    assert TypeLetter(s) == Done(u, [c]);
    assert Space(u).Error?;
  }

  /** `DelimitedReads` for `type_code`. */
  lemma TypeCodeDelimitedReads(a: seq<Byte>, t: seq<Byte>, k: RepresentationTypeKind)
    requires TypeCode(a + CRLF + t) == Done(CRLF + t, k)
    ensures Delimited([SP] + a + CRLF + t, TypeCode) == Done(t, k)
  {
    DelimitedReads(a, t, TypeCode, k);
  }

  /** A type written with its sub-argument in front of the letter starts
      with a space or a digit, which no `type_code` letter matches. */
  lemma TypeCodeRejects(k: RepresentationTypeKind, t: seq<Byte>)
    requires !(k.Image? || k == Ascii(None) || k == Ebcdic(None))
    ensures Delimited([SP] + EncodeRepresentationType(k) + CRLF + t, TypeCode).Error?
  {
    var e := EncodeRepresentationType(k);
    var s := e + CRLF + t;
    assert ([SP] + e + CRLF + t)[1..] == s;
    assert s[0] == e[0];
    if k.LocalByte? {
      assert IsDigit(e[0]);
    } else {
      assert e[0] == SP;
    }
    assert TypeLetter(s).Error?;
  }

  /** ` R ` and eight raw bytes read back as the maximum size. */
  lemma MaximumSizeReads(y: I64, t: seq<Byte>)
    ensures MaximumSize([SP, 82, SP] + ToBeBytes(y) + t) == Done(t, y)
  {
    var s := [SP, 82, SP] + ToBeBytes(y) + t;
    assert s[1..] == [82, SP] + ToBeBytes(y) + t;
    assert s[1..][1..] == [SP] + ToBeBytes(y) + t;
    assert s[1..][1..][1..] == ToBeBytes(y) + t;
    BeI64ReadsBeBytes(y, t);
  }

  /** `be_i64` and the optional ` R <be_i64>` read back their binary form. */
  lemma AllocateArgsReads(reserve: I64, maximumSize: Option<I64>, t: seq<Byte>)
    ensures AllocateArgs(BinaryAllocation(reserve, maximumSize) + CRLF + t) == Done(CRLF + t, (reserve, maximumSize))
  {
    var m := MaximumBytes(maximumSize);
    var u := m + CRLF + t;
    assert BinaryAllocation(reserve, maximumSize) + CRLF + t == ToBeBytes(reserve) + u;
    BeI64ReadsBeBytes(reserve, u);
    OptionalMaximumReads(maximumSize, t);
  }

  /** The optional ` R <be_i64>` reads back the maximum size it holds. */
  lemma OptionalMaximumReads(maximumSize: Option<I64>, t: seq<Byte>)
    ensures Opt(MaximumSize(MaximumBytes(maximumSize) + CRLF + t), MaximumBytes(maximumSize) + CRLF + t) ==
      Done(CRLF + t, maximumSize)
  {
    if maximumSize.Some? {
      assert MaximumBytes(maximumSize) + CRLF + t == [SP, 82, SP] + ToBeBytes(maximumSize.value) + (CRLF + t);
      MaximumSizeReads(maximumSize.value, CRLF + t);
    } else {
      assert Space(CRLF + t).Error?;
    }
  }

  /** The ALLO argument as the parser expects it: eight raw bytes for the
      reserve, then optionally ` R ` and eight raw bytes for the maximum. */
  function BinaryAllocation(reserve: I64, maximumSize: Option<I64>): (r: seq<Byte>)
    ensures |r| == if maximumSize.Some? then 19 else 8
  {
    ToBeBytes(reserve) + MaximumBytes(maximumSize)
  }

  function MaximumBytes(maximumSize: Option<I64>): (r: seq<Byte>)
    ensures |r| == if maximumSize.Some? then 11 else 0
  {
    if maximumSize.Some? then [SP, 82, SP] + ToBeBytes(maximumSize.value) else []
  }

  // ---------------------------------------------------------------------
  // Round trips, variant by variant

  /** A command without an argument reads back as itself, and whatever
      follows its `\r\n` is left over. */
  lemma BareRoundTrip(c: Command, t: seq<Byte>)
    requires IsBare(c)
    ensures ParseCommand(EncodeCommand(c) + t) == Done(t, c)
  {
    var i := CRLF + t;
    assert EncodeCommand(c) + t == Keyword(c) + i;
    ParseKeyword(c, i);
    assert i[2..] == t;
    match c {
      case ChangeToParentDirectory => KeywordOfChangeToParentDirectory(); CdupArm(i);
      case Logout => KeywordOfLogout(); QuitArm(i);
      case Reinitialize => KeywordOfReinitialize(); ReinArm(i);
      case Passive => KeywordOfPassive(); PasvArm(i);
      case StoreUnique => KeywordOfStoreUnique(); StouArm(i);
      case Abort => KeywordOfAbort(); AborArm(i);
      case PrintWorkingDirectory => KeywordOfPrintWorkingDirectory(); PwdArm(i);
      case System => KeywordOfSystem(); SystArm(i);
      case Noop => KeywordOfNoop(); NoopArm(i);
    }
  }

  lemma UserNameRoundTrip(a: seq<Byte>, t: seq<Byte>)
    requires IsStringText(a)
    ensures ParseCommand(EncodeCommand(UserName(a)) + t) == Done(t, UserName(a))
  {
    KeywordOfUserName(a);
    ParseArgumentCommand(UserName(a), t, K.USER, a);
    DelimitedStringReads(a, t);
    UserArm([SP] + a + CRLF + t, t, a);
  }

  lemma PasswordRoundTrip(a: seq<Byte>, t: seq<Byte>)
    requires IsStringText(a)
    ensures ParseCommand(EncodeCommand(Password(a)) + t) == Done(t, Password(a))
  {
    KeywordOfPassword(a);
    ParseArgumentCommand(Password(a), t, K.PASS, a);
    DelimitedStringReads(a, t);
    PassArm([SP] + a + CRLF + t, t, a);
  }

  lemma AccountRoundTrip(a: seq<Byte>, t: seq<Byte>)
    requires IsStringText(a)
    ensures ParseCommand(EncodeCommand(Account(a)) + t) == Done(t, Account(a))
  {
    KeywordOfAccount(a);
    ParseArgumentCommand(Account(a), t, K.ACCT, a);
    DelimitedStringReads(a, t);
    AcctArm([SP] + a + CRLF + t, t, a);
  }

  lemma ChangeWorkingDirectoryRoundTrip(a: seq<Byte>, t: seq<Byte>)
    requires IsStringText(a)
    ensures ParseCommand(EncodeCommand(ChangeWorkingDirectory(a)) + t) == Done(t, ChangeWorkingDirectory(a))
  {
    KeywordOfChangeWorkingDirectory(a);
    ParseArgumentCommand(ChangeWorkingDirectory(a), t, K.CWD, a);
    DelimitedStringReads(a, t);
    CwdArm([SP] + a + CRLF + t, t, a);
  }

  lemma RetrieveRoundTrip(a: seq<Byte>, t: seq<Byte>)
    requires IsStringText(a)
    ensures ParseCommand(EncodeCommand(Retrieve(a)) + t) == Done(t, Retrieve(a))
  {
    KeywordOfRetrieve(a);
    ParseArgumentCommand(Retrieve(a), t, K.RETR, a);
    DelimitedStringReads(a, t);
    RetrArm([SP] + a + CRLF + t, t, a);
  }

  lemma StoreRoundTrip(a: seq<Byte>, t: seq<Byte>)
    requires IsStringText(a)
    ensures ParseCommand(EncodeCommand(Store(a)) + t) == Done(t, Store(a))
  {
    KeywordOfStore(a);
    ParseArgumentCommand(Store(a), t, K.STOR, a);
    DelimitedStringReads(a, t);
    StorArm([SP] + a + CRLF + t, t, a);
  }

  lemma AppendRoundTrip(a: seq<Byte>, t: seq<Byte>)
    requires IsStringText(a)
    ensures ParseCommand(EncodeCommand(Append(a)) + t) == Done(t, Append(a))
  {
    KeywordOfAppend(a);
    ParseArgumentCommand(Append(a), t, K.APPE, a);
    DelimitedStringReads(a, t);
    AppeArm([SP] + a + CRLF + t, t, a);
  }

  lemma RenameFromRoundTrip(a: seq<Byte>, t: seq<Byte>)
    requires IsStringText(a)
    ensures ParseCommand(EncodeCommand(RenameFrom(a)) + t) == Done(t, RenameFrom(a))
  {
    KeywordOfRenameFrom(a);
    ParseArgumentCommand(RenameFrom(a), t, K.RNFR, a);
    DelimitedStringReads(a, t);
    RnfrArm([SP] + a + CRLF + t, t, a);
  }

  lemma RenameToRoundTrip(a: seq<Byte>, t: seq<Byte>)
    requires IsStringText(a)
    ensures ParseCommand(EncodeCommand(RenameTo(a)) + t) == Done(t, RenameTo(a))
  {
    KeywordOfRenameTo(a);
    ParseArgumentCommand(RenameTo(a), t, K.RNTO, a);
    DelimitedStringReads(a, t);
    RntoArm([SP] + a + CRLF + t, t, a);
  }

  lemma DeleteRoundTrip(a: seq<Byte>, t: seq<Byte>)
    requires IsStringText(a)
    ensures ParseCommand(EncodeCommand(Delete(a)) + t) == Done(t, Delete(a))
  {
    KeywordOfDelete(a);
    ParseArgumentCommand(Delete(a), t, K.DELE, a);
    DelimitedStringReads(a, t);
    DeleArm([SP] + a + CRLF + t, t, a);
  }

  lemma RemoveDirectoryRoundTrip(a: seq<Byte>, t: seq<Byte>)
    requires IsStringText(a)
    ensures ParseCommand(EncodeCommand(RemoveDirectory(a)) + t) == Done(t, RemoveDirectory(a))
  {
    KeywordOfRemoveDirectory(a);
    ParseArgumentCommand(RemoveDirectory(a), t, K.RMD, a);
    DelimitedStringReads(a, t);
    RmdArm([SP] + a + CRLF + t, t, a);
  }

  lemma MakeDirectoryRoundTrip(a: seq<Byte>, t: seq<Byte>)
    requires IsStringText(a)
    ensures ParseCommand(EncodeCommand(MakeDirectory(a)) + t) == Done(t, MakeDirectory(a))
  {
    KeywordOfMakeDirectory(a);
    ParseArgumentCommand(MakeDirectory(a), t, K.MKD, a);
    DelimitedStringReads(a, t);
    MkdArm([SP] + a + CRLF + t, t, a);
  }

  lemma SiteParametersRoundTrip(a: seq<Byte>, t: seq<Byte>)
    requires IsStringText(a)
    ensures ParseCommand(EncodeCommand(SiteParameters(a)) + t) == Done(t, SiteParameters(a))
  {
    KeywordOfSiteParameters(a);
    ParseArgumentCommand(SiteParameters(a), t, K.SITE, a);
    DelimitedStringReads(a, t);
    SiteArm([SP] + a + CRLF + t, t, a);
  }

  lemma ListSomeRoundTrip(a: seq<Byte>, t: seq<Byte>)
    requires forall j :: 0 <= j < |a| ==> IsChar(a[j])
    ensures ParseCommand(EncodeCommand(List(Some(a))) + t) == Done(t, List(Some([SP] + a)))
  {
    KeywordOfList(Some(a));
    ParseArgumentCommand(List(Some(a)), t, K.LIST, [SP] + a);
    OptionalStringSome(a, t);
    ListArm([SP] + ([SP] + a) + CRLF + t, t, Some([SP] + a));
  }

  lemma ListNoneRoundTrip(t: seq<Byte>)
    ensures ParseCommand(EncodeCommand(List(None)) + t) == Done([SP] + CRLF + t, List(None))
  {
    var i := [SP] + CRLF + t;
    KeywordOfList(None);
    ParseArgumentCommand(List(None), t, K.LIST, []);
    assert [SP] + [] + CRLF + t == i;
    OptionalStringNone(t);
    ListArm(i, i, None);
  }

  lemma NameListSomeRoundTrip(a: seq<Byte>, t: seq<Byte>)
    requires forall j :: 0 <= j < |a| ==> IsChar(a[j])
    ensures ParseCommand(EncodeCommand(NameList(Some(a))) + t) == Done(t, NameList(Some([SP] + a)))
  {
    KeywordOfNameList(Some(a));
    ParseArgumentCommand(NameList(Some(a)), t, K.NLST, [SP] + a);
    OptionalStringSome(a, t);
    NlstArm([SP] + ([SP] + a) + CRLF + t, t, Some([SP] + a));
  }

  lemma NameListNoneRoundTrip(t: seq<Byte>)
    ensures ParseCommand(EncodeCommand(NameList(None)) + t) == Done([SP] + CRLF + t, NameList(None))
  {
    var i := [SP] + CRLF + t;
    KeywordOfNameList(None);
    ParseArgumentCommand(NameList(None), t, K.NLST, []);
    assert [SP] + [] + CRLF + t == i;
    OptionalStringNone(t);
    NlstArm(i, i, None);
  }

  lemma StatusSomeRoundTrip(a: seq<Byte>, t: seq<Byte>)
    requires forall j :: 0 <= j < |a| ==> IsChar(a[j])
    ensures ParseCommand(EncodeCommand(Status(Some(a))) + t) == Done(t, Status(Some([SP] + a)))
  {
    KeywordOfStatus(Some(a));
    ParseArgumentCommand(Status(Some(a)), t, K.STAT, [SP] + a);
    OptionalStringSome(a, t);
    StatArm([SP] + ([SP] + a) + CRLF + t, t, Some([SP] + a));
  }

  lemma StatusNoneRoundTrip(t: seq<Byte>)
    ensures ParseCommand(EncodeCommand(Status(None)) + t) == Done([SP] + CRLF + t, Status(None))
  {
    var i := [SP] + CRLF + t;
    KeywordOfStatus(None);
    ParseArgumentCommand(Status(None), t, K.STAT, []);
    assert [SP] + [] + CRLF + t == i;
    OptionalStringNone(t);
    StatArm(i, i, None);
  }

  lemma HelpSomeRoundTrip(a: seq<Byte>, t: seq<Byte>)
    requires forall j :: 0 <= j < |a| ==> IsChar(a[j])
    ensures ParseCommand(EncodeCommand(Help(Some(a))) + t) == Done(t, Help(Some([SP] + a)))
  {
    KeywordOfHelp(Some(a));
    ParseArgumentCommand(Help(Some(a)), t, K.HELP, [SP] + a);
    OptionalStringSome(a, t);
    HelpArm([SP] + ([SP] + a) + CRLF + t, t, Some([SP] + a));
  }

  lemma HelpNoneRoundTrip(t: seq<Byte>)
    ensures ParseCommand(EncodeCommand(Help(None)) + t) == Done([SP] + CRLF + t, Help(None))
  {
    var i := [SP] + CRLF + t;
    KeywordOfHelp(None);
    ParseArgumentCommand(Help(None), t, K.HELP, []);
    assert [SP] + [] + CRLF + t == i;
    OptionalStringNone(t);
    HelpArm(i, i, None);
  }

  /** REST reads its argument as a `marker`, which admits only printable
      bytes: a marker without spaces or control bytes reads back. */
  lemma RestartRoundTrip(m: seq<Byte>, t: seq<Byte>)
    requires IsMarkerText(m)
    ensures ParseCommand(EncodeCommand(Restart(m)) + t) == Done(t, Restart(m))
  {
    KeywordOfRestart(m);
    ParseArgumentCommand(Restart(m), t, K.REST, m);
    DelimitedMarkerReads(m, t);
    RestArm([SP] + m + CRLF + t, t, m);
  }

  /** The serializer writes SMNT, which the parser recognises as a keyword
      but has no arm for (the arm is spelled SNMT): every StructureMount
      command the serializer writes makes the parser panic. */
  lemma StructureMountPanics(p: seq<Byte>, t: seq<Byte>)
    ensures ParseCommand(EncodeCommand(StructureMount(p)) + t) == Panic
  {
    var s := EncodeCommand(StructureMount(p)) + t;
    KeywordOfStructureMount(p);
    assert s[..4] == K.SMNT;
    KeywordShapes();
    UpperCaseOfUpperWord(K.SMNT);
    OnlySmntPanics(s);
  }

  /** PORT reads back its address and port. */
  lemma DataPortRoundTrip(address: Ipv4Addr, port: U16, t: seq<Byte>)
    ensures ParseCommand(EncodeCommand(DataPort(address, port)) + t) == Done(t, DataPort(address, port))
  {
    var e := EncodeHostPort(address, port);
    KeywordOfDataPort(address, port);
    ParseArgumentCommand(DataPort(address, port), t, K.PORT, e);
    assert e + CRLF + t == e + (CRLF + t);
    HostPortReads(address, port, CRLF + t);
    DelimitedReads(e, t, HostPort, (address, port));
    PortArm([SP] + e + CRLF + t, t, address, port);
  }

  /** STRU reads back its structure. */
  lemma FileStructureRoundTrip(k: FileStructureKind, t: seq<Byte>)
    ensures ParseCommand(EncodeCommand(FileStructure(k)) + t) == Done(t, FileStructure(k))
  {
    var e := EncodeFileStructure(k);
    KeywordOfFileStructure(k);
    ParseArgumentCommand(FileStructure(k), t, K.STRU, e);
    assert e + CRLF + t == e + (CRLF + t);
    StructureCodeReads(k, CRLF + t);
    DelimitedReads(e, t, StructureCode, k);
    StruArm([SP] + e + CRLF + t, t, k);
  }

  /** MODE reads back its mode. */
  lemma TransferModeRoundTrip(k: TransferModeKind, t: seq<Byte>)
    ensures ParseCommand(EncodeCommand(TransferMode(k)) + t) == Done(t, TransferMode(k))
  {
    var e := EncodeTransferMode(k);
    KeywordOfTransferMode(k);
    ParseArgumentCommand(TransferMode(k), t, K.MODE, e);
    assert e + CRLF + t == e + (CRLF + t);
    ModeCodeReads(k, CRLF + t);
    DelimitedReads(e, t, ModeCode, k);
    ModeArm([SP] + e + CRLF + t, t, k);
  }

  /** TYPE reads back exactly when the type is written as a lone letter:
      image, and ASCII or EBCDIC without a format. A format or a byte size
      is written in front of the letter, and the parser rejects it. */
  lemma RepresentationTypeRoundTrip(k: RepresentationTypeKind, t: seq<Byte>)
    ensures k.Image? || k == Ascii(None) || k == Ebcdic(None) ==>
      ParseCommand(EncodeCommand(RepresentationType(k)) + t) == Done(t, RepresentationType(k))
    ensures !(k.Image? || k == Ascii(None) || k == Ebcdic(None)) ==>
      ParseCommand(EncodeCommand(RepresentationType(k)) + t).Error?
  {
    KeywordOfRepresentationType(k);
    ParseArgumentCommand(RepresentationType(k), t, K.TYPE, EncodeRepresentationType(k));
    TypeArm([SP] + EncodeRepresentationType(k) + CRLF + t);
    if k.Image? || k == Ascii(None) || k == Ebcdic(None) {
      TypeCodeReads(k, t);
    } else {
      TypeCodeRejects(k, t);
    }
  }

  /** ALLO is written in decimal but read as raw binary: when the command
      and what follows it are shorter than the eight bytes `be_i64` wants,
      the parser asks for the missing bytes; `ALLO 0\r\n` alone, for
      one, waits for five more. */
  lemma AllocateShortIsIncomplete(reserve: I64, maximumSize: Option<I64>, t: seq<Byte>)
    requires |EncodeArgument(Allocate(reserve, maximumSize))| + 2 + |t| < 8
    ensures ParseCommand(EncodeCommand(Allocate(reserve, maximumSize)) + t) ==
      Incomplete(Size(8 - (|EncodeArgument(Allocate(reserve, maximumSize))| + 2 + |t|)))
  {
    var c := Allocate(reserve, maximumSize);
    var e := EncodeArgument(c);
    var i := [SP] + e + CRLF + t;
    KeywordOfAllocate(reserve, maximumSize);
    ParseArgumentCommand(c, t, K.ALLO, e);
    assert |i| == 1 + (|e| + 2 + |t|);
    ShortAllocateArgs(i);
    AlloArm(i);
  }

  /** After the space, fewer than eight bytes leave `be_i64` short. */
  lemma ShortAllocateArgs(i: seq<Byte>)
    requires 1 <= |i| < 9 && i[0] == SP
    ensures Delimited(i, AllocateArgs) == Incomplete(Size(9 - |i|))
  {
    assert Space(i).rest == i[1..];
    assert DecimalInteger(i[1..]) == Incomplete(Size(9 - |i|));
  }

  /** What the parser does read as ALLO: the sizes as raw big-endian
      bytes. */
  lemma AllocateBinaryReads(reserve: I64, maximumSize: Option<I64>, t: seq<Byte>)
    ensures ParseCommand(K.ALLO + [SP] + BinaryAllocation(reserve, maximumSize) + CRLF + t) == Done(t, Allocate(reserve, maximumSize))
  {
    var c := Allocate(reserve, maximumSize);
    var b := BinaryAllocation(reserve, maximumSize);
    var i := [SP] + b + CRLF + t;
    KeywordOfAllocate(reserve, maximumSize);
    assert K.ALLO + [SP] + b + CRLF + t == Keyword(c) + i;
    ParseKeyword(c, i);
    AllocateArgsReads(reserve, maximumSize, t);
    DelimitedReads(b, t, AllocateArgs, (reserve, maximumSize));
    AlloArm(i);
  }

  // ---------------------------------------------------------------------
  // Round trips, by kind of argument

  /** A command with a string argument reads back as itself when the
      string is what `string` accepts: at least one byte, no CR, LF or
      byte above 127. SMNT and REST are not among them (see above). */
  lemma StringRoundTrip(c: Command, t: seq<Byte>)
    requires IsStringArgument(c) && !c.StructureMount? && !c.Restart?
    requires IsStringText(StringArgument(c))
    ensures ParseCommand(EncodeCommand(c) + t) == Done(t, c)
  {
    match c {
      case UserName(a) => UserNameRoundTrip(a, t);
      case Password(a) => PasswordRoundTrip(a, t);
      case Account(a) => AccountRoundTrip(a, t);
      case ChangeWorkingDirectory(a) => ChangeWorkingDirectoryRoundTrip(a, t);
      case Retrieve(a) => RetrieveRoundTrip(a, t);
      case Store(a) => StoreRoundTrip(a, t);
      case Append(a) => AppendRoundTrip(a, t);
      case RenameFrom(a) => RenameFromRoundTrip(a, t);
      case RenameTo(a) => RenameToRoundTrip(a, t);
      case Delete(a) => DeleteRoundTrip(a, t);
      case RemoveDirectory(a) => RemoveDirectoryRoundTrip(a, t);
      case MakeDirectory(a) => MakeDirectoryRoundTrip(a, t);
      case SiteParameters(a) => SiteParametersRoundTrip(a, t);
    }
  }

  /** The optional argument of LIST, NLST, STAT and HELP replaced by `o`. */
  function WithOptionalArgument(c: Command, o: Option<seq<Byte>>): (r: Command)
    requires IsOptionalArgument(c)
    ensures IsOptionalArgument(r) && VariantIndex(r) == VariantIndex(c) && OptionalArgument(r) == o
  {
    match c
    case List(_) => List(o)
    case NameList(_) => NameList(o)
    case Status(_) => Status(o)
    case Help(_) => Help(o)
  }

  /** A present optional argument is written after two spaces, one after
      the keyword and one from the `Option`; the parser takes only the
      first as the separator, so the argument reads back with a leading
      space. A missing one is written as a lone space before the `\r\n`,
      which the parser's `opt` does not take as part of the command: it
      reads the command and leaves ` \r\n` unread. */
  lemma OptionalRoundTrip(c: Command, t: seq<Byte>)
    requires IsOptionalArgument(c)
    requires OptionalArgument(c).Some? ==> forall j :: 0 <= j < |OptionalArgument(c).value| ==> IsChar(OptionalArgument(c).value[j])
    ensures OptionalArgument(c).Some? ==>
      ParseCommand(EncodeCommand(c) + t) == Done(t, WithOptionalArgument(c, Some([SP] + OptionalArgument(c).value)))
    ensures OptionalArgument(c).None? ==>
      ParseCommand(EncodeCommand(c) + t) == Done([SP] + CRLF + t, c)
  {
    match c {
      case List(o) => if o.Some? { ListSomeRoundTrip(o.value, t); } else { ListNoneRoundTrip(t); }
      case NameList(o) => if o.Some? { NameListSomeRoundTrip(o.value, t); } else { NameListNoneRoundTrip(t); }
      case Status(o) => if o.Some? { StatusSomeRoundTrip(o.value, t); } else { StatusNoneRoundTrip(t); }
      case Help(o) => if o.Some? { HelpSomeRoundTrip(o.value, t); } else { HelpNoneRoundTrip(t); }
    }
  }
}

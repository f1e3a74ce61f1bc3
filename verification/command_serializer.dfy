/** `CommandSerializer` of src/ftp/serializer/command.rs: writes a command
    as its upper-case keyword, for a command with an argument one space and
    the argument, then `\r\n`, and flushes once. */
module CommandSerializer {
  import opened Prelude
  import opened Messages
  import opened Io
  import opened Serializeable
  import K = Keywords

  /** The keyword the `serialize!` arm of each variant spells, as its
      position in the keyword list of the command parser. */
  function KeywordPosition(c: Command): (i: nat)
    ensures i < 33
  {
    match c
    case UserName(_) => 32  // USER
    case Password(_) => 15  // PASS
    case Account(_) => 5  // ACCT
    case ChangeWorkingDirectory(_) => 0  // CWD
    case ChangeToParentDirectory => 8  // CDUP
    case StructureMount(_) => 25  // SMNT
    case Reinitialize => 19  // REIN
    case Logout => 18  // QUIT
    case DataPort(_, _) => 17  // PORT
    case Passive => 16  // PASV
    case RepresentationType(_) => 31  // TYPE
    case FileStructure(_) => 29  // STRU
    case TransferMode(_) => 12  // MODE
    case Retrieve(_) => 21  // RETR
    case Store(_) => 27  // STOR
    case StoreUnique => 28  // STOU
    case Append(_) => 7  // APPE
    case Allocate(_, _) => 6  // ALLO
    case Restart(_) => 20  // REST
    case RenameFrom(_) => 22  // RNFR
    case RenameTo(_) => 23  // RNTO
    case Abort => 4  // ABOR
    case Delete(_) => 9  // DELE
    case RemoveDirectory(_) => 3  // RMD
    case MakeDirectory(_) => 1  // MKD
    case PrintWorkingDirectory => 2  // PWD
    case List(_) => 11  // LIST
    case NameList(_) => 13  // NLST
    case SiteParameters(_) => 24  // SITE
    case System => 30  // SYST
    case Status(_) => 26  // STAT
    case Help(_) => 10  // HELP
    case Noop => 14  // NOOP
  }

  /** The keyword the `serialize!` arm of each variant spells. */
  function Keyword(c: Command): (r: seq<Byte>)
    ensures 3 <= |r| <= 4
  {
    K.KeywordLengths();
    K.KEYWORDS[KeywordPosition(c)]
  }

  /** What comes after the keyword and the space of a command that has an
      argument. */
  function EncodeArgument(c: Command): (r: seq<Byte>)
    requires !IsBare(c)
  {
    if c.DataPort? then EncodeHostPort(c.address, c.port)
    else if c.RepresentationType? then EncodeRepresentationType(c.typeKind)
    else if c.FileStructure? then EncodeFileStructure(c.structureKind)
    else if c.TransferMode? then EncodeTransferMode(c.modeKind)
    else if c.Allocate? then
      EncodeI64(c.reserve) + (if c.maximumSize.Some? then [SP, 82, SP] + EncodeI64(c.maximumSize.value) else [])
    else if IsOptionalArgument(c) then EncodeOption(OptionalArgument(c), Verbatim)
    else StringArgument(c)
  }

  /** The bytes `serialize_command` writes. */
  function EncodeCommand(c: Command): (r: seq<Byte>)
    ensures StartsWith(r, Keyword(c)) && IsSuffix(CRLF, r)
    ensures |r| >= |Keyword(c)| + 2
    ensures IsBare(c) <==> |r| == |Keyword(c)| + 2
    ensures !IsBare(c) ==> r[|Keyword(c)|] == SP
  {
    Keyword(c) + (if IsBare(c) then [] else [SP] + EncodeArgument(c)) + CRLF
  }

  class CommandSerializer {
    const writer: Writer

    constructor (writer: Writer)
      ensures this.writer == writer
    {
      this.writer := writer;
    }

    /** The keyword alone (`serialize!` with one argument). */
    method WriteKeyword(keyword: seq<Byte>)
      modifies writer
      ensures writer.written == old(writer.written) + keyword && writer.flushes == old(writer.flushes)
    {
      WriteBytes(writer, keyword);
    }

    /** The keyword and the space in front of an argument. */
    method WriteKeywordSpace(keyword: seq<Byte>)
      modifies writer
      ensures writer.written == old(writer.written) + keyword + [SP] && writer.flushes == old(writer.flushes)
    {
      WriteBytes(writer, keyword);
      WriteBytes(writer, [SP]);
    }

    /** `serialize_command`: the arm of the variant, then `\r\n`. */
    method SerializeCommand(value: Command)
      modifies writer
      ensures writer.written == old(writer.written) + EncodeCommand(value)
      ensures writer.flushes == old(writer.flushes)
    {
      if IsBare(value) {
        WriteKeyword(Keyword(value));
      } else {
        WriteKeywordSpace(Keyword(value));
        WriteArgument(value);
      }
      WriteBytes(writer, CRLF);
    }

    /** The argument of each arm, by the impl of its type. */
    method WriteArgument(value: Command)
      requires !IsBare(value)
      modifies writer
      ensures writer.written == old(writer.written) + EncodeArgument(value)
      ensures writer.flushes == old(writer.flushes)
    {
      if value.DataPort? {
        WriteHostPort(writer, value.address, value.port);
      } else if value.RepresentationType? {
        WriteRepresentationType(writer, value.typeKind);
      } else if value.FileStructure? {
        WriteFileStructure(writer, value.structureKind);
      } else if value.TransferMode? {
        WriteTransferMode(writer, value.modeKind);
      } else if value.Allocate? {
        WriteI64(writer, value.reserve);
        if value.maximumSize.Some? {
          WriteBytes(writer, [SP, 82, SP]);
          WriteI64(writer, value.maximumSize.value);
        }
      } else if IsOptionalArgument(value) {
        WriteOptionalBytes(writer, OptionalArgument(value));
      } else {
        WriteBytes(writer, StringArgument(value));
      }
    }

    /** `serialize`: the command, then one flush. */
    method Serialize(value: Command)
      modifies writer
      ensures writer.written == old(writer.written) + EncodeCommand(value)
      ensures writer.flushes == old(writer.flushes) + 1
    {
      SerializeCommand(value);
      writer.Flush();
    }
  }

  /** A keyword of three or four bytes read as a big-endian number. */
  function WordValue(k: seq<Byte>): (v: nat)
    ensures |k| == 3 ==> v < 0x100_0000
  {
    if |k| == 3 then (k[0] as int * 0x100 + k[1]) * 0x100 + k[2]
    else if |k| == 4 then ((k[0] as int * 0x100 + k[1]) * 0x100 + k[2]) * 0x100 + k[3]
    else 0
  }

  /** Which variant a keyword's value belongs to. */
  function VariantOfValue(v: nat): (r: Option<nat>)
    ensures r.Some? ==> r.value < 33
  {
    if v == 1431520594 then Some(0)  // USER
    else if v == 1346458451 then Some(1)  // PASS
    else if v == 1094927188 then Some(2)  // ACCT
    else if v == 4413252 then Some(3)  // CWD
    else if v == 1128551760 then Some(4)  // CDUP
    else if v == 1397575252 then Some(5)  // SMNT
    else if v == 1380272462 then Some(6)  // REIN
    else if v == 1364543828 then Some(7)  // QUIT
    else if v == 1347375700 then Some(8)  // PORT
    else if v == 1346458454 then Some(9)  // PASV
    else if v == 1415139397 then Some(10)  // TYPE
    else if v == 1398035029 then Some(11)  // STRU
    else if v == 1297040453 then Some(12)  // MODE
    else if v == 1380275282 then Some(13)  // RETR
    else if v == 1398034258 then Some(14)  // STOR
    else if v == 1398034261 then Some(15)  // STOU
    else if v == 1095782469 then Some(16)  // APPE
    else if v == 1095519311 then Some(17)  // ALLO
    else if v == 1380275028 then Some(18)  // REST
    else if v == 1380861522 then Some(19)  // RNFR
    else if v == 1380865103 then Some(20)  // RNTO
    else if v == 1094864722 then Some(21)  // ABOR
    else if v == 1145392197 then Some(22)  // DELE
    else if v == 5393732 then Some(23)  // RMD
    else if v == 5065540 then Some(24)  // MKD
    else if v == 5265220 then Some(25)  // PWD
    else if v == 1279873876 then Some(26)  // LIST
    else if v == 1313624916 then Some(27)  // NLST
    else if v == 1397314629 then Some(28)  // SITE
    else if v == 1398362964 then Some(29)  // SYST
    else if v == 1398030676 then Some(30)  // STAT
    else if v == 1212501072 then Some(31)  // HELP
    else if v == 1313820496 then Some(32)  // NOOP
    else None
  }

  /** USER, PASS, ACCT, CWD, CDUP read back as their variants. */
  lemma ValuesFromUser()
    ensures |K.KEYWORDS| == 33
    ensures
      VariantOfValue(WordValue(K.KEYWORDS[32])) == Some(0) &&
      VariantOfValue(WordValue(K.KEYWORDS[15])) == Some(1) &&
      VariantOfValue(WordValue(K.KEYWORDS[5])) == Some(2) &&
      VariantOfValue(WordValue(K.KEYWORDS[0])) == Some(3) &&
      VariantOfValue(WordValue(K.KEYWORDS[8])) == Some(4)
  {
  }

  /** SMNT, REIN, QUIT, PORT, PASV read back as their variants. */
  lemma ValuesFromSmnt()
    ensures |K.KEYWORDS| == 33
    ensures
      VariantOfValue(WordValue(K.KEYWORDS[25])) == Some(5) &&
      VariantOfValue(WordValue(K.KEYWORDS[19])) == Some(6) &&
      VariantOfValue(WordValue(K.KEYWORDS[18])) == Some(7) &&
      VariantOfValue(WordValue(K.KEYWORDS[17])) == Some(8) &&
      VariantOfValue(WordValue(K.KEYWORDS[16])) == Some(9)
  {
  }

  /** TYPE, STRU, MODE, RETR, STOR read back as their variants. */
  lemma ValuesFromType()
    ensures |K.KEYWORDS| == 33
    ensures
      VariantOfValue(WordValue(K.KEYWORDS[31])) == Some(10) &&
      VariantOfValue(WordValue(K.KEYWORDS[29])) == Some(11) &&
      VariantOfValue(WordValue(K.KEYWORDS[12])) == Some(12) &&
      VariantOfValue(WordValue(K.KEYWORDS[21])) == Some(13) &&
      VariantOfValue(WordValue(K.KEYWORDS[27])) == Some(14)
  {
  }

  /** STOU, APPE, ALLO, REST, RNFR read back as their variants. */
  lemma ValuesFromStou()
    ensures |K.KEYWORDS| == 33
    ensures
      VariantOfValue(WordValue(K.KEYWORDS[28])) == Some(15) &&
      VariantOfValue(WordValue(K.KEYWORDS[7])) == Some(16) &&
      VariantOfValue(WordValue(K.KEYWORDS[6])) == Some(17) &&
      VariantOfValue(WordValue(K.KEYWORDS[20])) == Some(18) &&
      VariantOfValue(WordValue(K.KEYWORDS[22])) == Some(19)
  {
  }

  /** RNTO, ABOR, DELE, RMD, MKD read back as their variants. */
  lemma ValuesFromRnto()
    ensures |K.KEYWORDS| == 33
    ensures
      VariantOfValue(WordValue(K.KEYWORDS[23])) == Some(20) &&
      VariantOfValue(WordValue(K.KEYWORDS[4])) == Some(21) &&
      VariantOfValue(WordValue(K.KEYWORDS[9])) == Some(22) &&
      VariantOfValue(WordValue(K.KEYWORDS[3])) == Some(23) &&
      VariantOfValue(WordValue(K.KEYWORDS[1])) == Some(24)
  {
  }

  /** PWD, LIST, NLST, SITE read back as their variants. */
  lemma ValuesFromPwd()
    ensures |K.KEYWORDS| == 33
    ensures
      VariantOfValue(WordValue(K.KEYWORDS[2])) == Some(25) &&
      VariantOfValue(WordValue(K.KEYWORDS[11])) == Some(26) &&
      VariantOfValue(WordValue(K.KEYWORDS[13])) == Some(27) &&
      VariantOfValue(WordValue(K.KEYWORDS[24])) == Some(28)
  {
  }

  /** SYST, STAT, HELP, NOOP read back as their variants. */
  lemma ValuesFromSyst()
    ensures |K.KEYWORDS| == 33
    ensures
      VariantOfValue(WordValue(K.KEYWORDS[30])) == Some(29) &&
      VariantOfValue(WordValue(K.KEYWORDS[26])) == Some(30) &&
      VariantOfValue(WordValue(K.KEYWORDS[10])) == Some(31) &&
      VariantOfValue(WordValue(K.KEYWORDS[14])) == Some(32)
  {
  }

  /** Each variant's keyword reads back as that variant. */
  lemma KeywordIdentifiesVariant(c: Command)
    ensures VariantOfValue(WordValue(Keyword(c))) == Some(VariantIndex(c))
  {
    ValuesFromUser();
    ValuesFromSmnt();
    ValuesFromType();
    ValuesFromStou();
    ValuesFromRnto();
    ValuesFromPwd();
    ValuesFromSyst();
  }

  /** The map from variants to keywords is one-to-one. */
  lemma KeywordInjective(c: Command, d: Command)
    ensures Keyword(c) == Keyword(d) <==> VariantIndex(c) == VariantIndex(d)
  {
    KeywordIdentifiesVariant(c);
    KeywordIdentifiesVariant(d);
  }
}

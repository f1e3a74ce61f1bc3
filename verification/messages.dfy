/** The FTP messages of RFC 959: the 33 commands with their argument kinds,
    and replies (a 3-byte code and one or several text lines). The crate
    declares these twice, once in src/command.rs and src/reply.rs and once
    in src/ftp/command.rs and src/ftp/reply.rs; the two copies have the same
    variants in the same order and differ only in derived traits, so one
    datatype stands for both. */
module Messages {
  import opened Prelude

  datatype FormatControl = NonPrint | Telnet | Carriage

  datatype RepresentationTypeKind =
    | Ascii(form: Option<FormatControl>)
    | Ebcdic(form: Option<FormatControl>)
    | Image
    | LocalByte(byteSize: Byte)

  datatype FileStructureKind = File | Record | Page

  datatype TransferModeKind = Stream | Block | Compressed

  /** `std::net::Ipv4Addr`: four octets, most significant first. */
  datatype Ipv4Addr = Ipv4Addr(a: Byte, b: Byte, c: Byte, d: Byte)
  {
    function Octets(): (r: seq<Byte>)
      ensures |r| == 4 && r[0] == a && r[1] == b && r[2] == c && r[3] == d
    {
      [a, b, c, d]
    }
  }

  datatype Command =
    // Access control
    | UserName(username: seq<Byte>)
    | Password(password: seq<Byte>)
    | Account(account: seq<Byte>)
    | ChangeWorkingDirectory(pathname: seq<Byte>)
    | ChangeToParentDirectory
    | StructureMount(pathname: seq<Byte>)
    | Reinitialize
    | Logout
    // Transfer parameters
    | DataPort(address: Ipv4Addr, port: U16)
    | Passive
    | RepresentationType(typeKind: RepresentationTypeKind)
    | FileStructure(structureKind: FileStructureKind)
    | TransferMode(modeKind: TransferModeKind)
    // FTP service
    | Retrieve(pathname: seq<Byte>)
    | Store(pathname: seq<Byte>)
    | StoreUnique
    | Append(pathname: seq<Byte>)
    | Allocate(reserve: I64, maximumSize: Option<I64>)
    | Restart(marker: seq<Byte>)
    | RenameFrom(pathname: seq<Byte>)
    | RenameTo(pathname: seq<Byte>)
    | Abort
    | Delete(pathname: seq<Byte>)
    | RemoveDirectory(pathname: seq<Byte>)
    | MakeDirectory(pathname: seq<Byte>)
    | PrintWorkingDirectory
    | List(listPath: Option<seq<Byte>>)
    | NameList(listPath: Option<seq<Byte>>)
    | SiteParameters(parameters: seq<Byte>)
    | System
    | Status(listPath: Option<seq<Byte>>)
    | Help(topic: Option<seq<Byte>>)
    | Noop

  /** `#[default]` marks `Noop`. */
  const DEFAULT_COMMAND: Command := Noop

  /** The position of a command's variant in the declaration, which is also
      the first key of the derived ordering. */
  function VariantIndex(c: Command): (r: nat)
    ensures r < 33
    ensures r == 32 <==> c.Noop?
  {
    match c
    case UserName(_) => 0
    case Password(_) => 1
    case Account(_) => 2
    case ChangeWorkingDirectory(_) => 3
    case ChangeToParentDirectory => 4
    case StructureMount(_) => 5
    case Reinitialize => 6
    case Logout => 7
    case DataPort(_, _) => 8
    case Passive => 9
    case RepresentationType(_) => 10
    case FileStructure(_) => 11
    case TransferMode(_) => 12
    case Retrieve(_) => 13
    case Store(_) => 14
    case StoreUnique => 15
    case Append(_) => 16
    case Allocate(_, _) => 17
    case Restart(_) => 18
    case RenameFrom(_) => 19
    case RenameTo(_) => 20
    case Abort => 21
    case Delete(_) => 22
    case RemoveDirectory(_) => 23
    case MakeDirectory(_) => 24
    case PrintWorkingDirectory => 25
    case List(_) => 26
    case NameList(_) => 27
    case SiteParameters(_) => 28
    case System => 29
    case Status(_) => 30
    case Help(_) => 31
    case Noop => 32
  }

  /** The variants that carry no argument at all. */
  predicate IsBare(c: Command) {
    c.ChangeToParentDirectory? || c.Reinitialize? || c.Logout? || c.Passive? ||
    c.StoreUnique? || c.Abort? || c.PrintWorkingDirectory? || c.System? || c.Noop?
  }

  /** The variants whose single argument is a byte string. */
  predicate IsStringArgument(c: Command) {
    c.UserName? || c.Password? || c.Account? || c.ChangeWorkingDirectory? ||
    c.StructureMount? || c.Retrieve? || c.Store? || c.Append? || c.Restart? ||
    c.RenameFrom? || c.RenameTo? || c.Delete? || c.RemoveDirectory? ||
    c.MakeDirectory? || c.SiteParameters?
  }

  /** The variants whose argument is optional. */
  predicate IsOptionalArgument(c: Command) {
    c.List? || c.NameList? || c.Status? || c.Help?
  }

  /** The byte string a string-argument variant carries. */
  function StringArgument(c: Command): seq<Byte>
    requires IsStringArgument(c)
  {
    match c
    case UserName(s) => s
    case Password(s) => s
    case Account(s) => s
    case Restart(s) => s
    case SiteParameters(s) => s
    case _ => c.pathname
  }

  /** The optional argument of LIST, NLST, STAT and HELP. */
  function OptionalArgument(c: Command): Option<seq<Byte>>
    requires IsOptionalArgument(c)
  {
    if c.Help? then c.topic else c.listPath
  }

  /** A reply code is exactly three bytes; nothing requires them to be digits. */
  type Code = s: seq<Byte> | |s| == 3 witness [48, 48, 48]

  datatype Text =
    | SingleLine(line: seq<Byte>)
    | MultiLine(lines: seq<seq<Byte>>, lastLine: seq<Byte>)

  datatype Reply = Reply(code: Code, text: Text)
}

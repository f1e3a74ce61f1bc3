# libftp in Dafny

A model of the FTP control-channel codec of libftp, with proofs about it.
libftp turns the bytes of an FTP control connection into typed messages and
back again. It follows the grammar of RFC 959: the 33 commands a client
sends, and the numbered, one-line or multi-line replies a server answers
with.

The model covers these parts of the repository:

- **Messages** (`messages.dfy`, `keywords.dfy`). `Command` has one variant
  per RFC 959 command. The argument kinds are `RepresentationTypeKind`,
  `FormatControl`, `FileStructureKind`, `TransferModeKind` and `Ipv4Addr`.
  A `Reply` is a three-byte code plus a single-line or multi-line `Text`.
- **Streaming parser semantics** (`nom.dfy`). The nom 7 primitives the
  parsers are built from. Each result is `Done(rest, value)`,
  `Incomplete(needed)` or `Error(input)`; `Panic` stands for an
  `unreachable!`. Every primitive is given its streaming behaviour: it asks
  for more bytes rather than failing on a prefix that could still match.
- **Token parsers** (`common.dfy`): `comma`, `space` and the `tag`-based
  `crlf`. nom's own `crlf` is modelled too, because the earlier reply parser
  uses it.
- **Command parser** (`command_parser.dfy`, `command_arms.dfy`). It
  recognises the keyword without regard to case, then dispatches on the
  upper-cased keyword to one of the 33 `parse!` arms, and parses the
  argument grammars: host-port, type code, structure, mode, marker and ALLO
  sizes.
- **Reply parser**, both versions (`reply_parser.dfy`,
  `early_reply_parser.dfy`). A reply is a code, a separator and a text
  line. A hyphen starts a multi-line reply, which lasts until a line that
  starts with the same code and a space.
- **Serializers** (`serializeable.dfy`, `command_serializer.dfy`,
  `reply_serializer.dfy`). The `Serializeable` impls write each argument
  kind to a sink. The command and reply serializers are classes over a
  `Writer`: they append a message with `write_all` calls, then flush once.
- **Round trips** (`command_round_trip.dfy`, `reply_round_trip.dfy`). These
  relate each serializer to its parser.
- **Proxy** (`proxy.dfy`):
  - `parse_stream` fills a fixed 16 KiB array from a reader until a
    message parses;
  - `pipe` loops over it, hooking and forwarding each message.
- **Client** (`client.dfy`):
  - `read_reply` is the buffered read loop;
  - `connect` and `login` classify the reply by its code into the error
    enums.

Sockets appear as an `Io.Reader`, a `BufReader` over the chunks that
successive socket reads deliver, and an `Io.Writer`, the bytes written plus
a flush count.

Three behaviours of the code are modelled as written:

- The parser's `match` spells the structure-mount arm `SNMT`. Parsing
  `SMNT` therefore reaches the `unreachable!` arm: `OnlySmntPanics`,
  `StructureMountPanics`.
- `ALLO` arguments are parsed with `be_i64`, that is, eight raw big-endian
  bytes. The serializer writes them in decimal. The command therefore does
  not round-trip, and a short decimal form parses as `Incomplete`:
  `AllocateShortIsIncomplete`, `AllocateBinaryReads`.
- A reply code is any three bytes. Nothing checks that they are digits.

The main results:

- **Command round trips.** `ParseCommand` reads every command variant
  back from its encoding, with whatever bytes follow left untouched, except
  SMNT, ALLO and a TYPE with a sub-argument. The conditions on arguments
  are those of the parsers: a string argument is a non-empty run of bytes
  that `is_char` accepts (`IsStringText`: no CR, LF or byte above 127),
  and a REST marker is printable (`IsMarkerText`). The exceptions are
  stated exactly:
  - SMNT panics;
  - ALLO is decimal on one side and binary on the other;
  - a TYPE with a sub-argument does not parse, because the serializer puts
    the sub-argument before the letter;
  - the serializer writes a space before an optional argument, and the
    `Option` impl writes another. A present argument is therefore read
    back with a leading space. An absent one leaves ` \r\n` unread,
    because the optional arm does not read `\r\n` when there is no
    argument.
- **Reply round trip.** `ParseReply(EncodeReply(r) + t) == Done(t, r)`
  holds for every reply that meets two conditions:
  - `Transmissible(r)`: no line holds `\r\n`; a multi-line text has at
    least one line before the last; and no line after the first starts
    with the code and a space.
  - `NoCr(r.code)`: no byte of the code is `\r`.
  Conversely, every reply that reads back is `Transmissible`. Every reply
  the parser returns is exactly the encoding of what it read.
- **The two reply parsers are equal.** The early reply parser agrees with
  the current one on every input.
- **Proxy.** `pipe` cuts a prefix of the stream into whole messages, in
  order, and writes exactly the hooked messages' encodings, with one flush
  each. It finishes only where the stream ended (`Stopped`): either the
  reader is drained, or the buffer is full and the read into it returned
  nothing. Either way the bytes after the last message are an incomplete
  one. It aborts exactly on a parse error or a request beyond the buffer.
  With the identity hook, the replies written are the server's own bytes
  up to what is left. A server stream made of whole replies that each fit
  the buffer passes through entirely, byte for byte, and `pipe` then
  finishes (`RepliesDrained`). The proof rests on nom's `Needed::Size`
  being a true lower bound for the reply parser: fewer bytes than it asks
  for never complete a reply (`ParseReplyNeedsAtLeast`).
- **Client.** `read_reply` returns the reply whose encoding was taken off
  the stream, and leaves the bytes after it in the reader. On a parse
  error, the last chunk stays in the reader. On a stream that begins with
  a whole reply, it returns that reply and never an error. `connect` and
  `login` pass the same facts on for the reply they read. They return `Ok`
  exactly for 220 and 230, the named error exactly for its code, and
  `UnexpectedReply` otherwise.

## Model

| member | source | states |
|---|---|---|
| Prelude.UpperCase | src/ftp/parser/command.rs:19 | `to_ascii_uppercase` keeps the length and maps each byte by `ToUpper` |
| Prelude.Decimal | ftp/src/serializer/serializeable.rs:116-123 | `to_string` of an unsigned number is a non-empty run of decimal digits |
| Prelude.DecimalDenotes | ftp/src/serializer/serializeable.rs:116-123 | the digits written denote the number, with no leading zero except for 0 itself |
| Prelude.SignedDecimal | ftp/src/serializer/serializeable.rs:107-114 | `i64::to_string` is non-empty and starts with `-` exactly for negative values |
| Prelude.SignedDecimalDenotes | ftp/src/serializer/serializeable.rs:107-114 | the digits after any `-` are the decimal rendering of the magnitude: they denote it and have no leading zero unless the value is 0 |
| Prelude.CrlfTerminatedSnoc | ftp/src/serializer/reply.rs:25-28 | writing one more line with its `\r\n` extends the bytes written so far at the end |
| Nom.CompareFromSpec | src/ftp/parser/command.rs:122-162 | nom's compare reports a match exactly when every byte of the literal agrees, and a short input exactly when the input is shorter and agrees as far as it goes |
| Nom.Tag | src/parser/common.rs:16-18 | streaming `tag`: done exactly when the input starts with the literal, incomplete exactly on a strict prefix of it, asking for the missing count, an error otherwise |
| Nom.TagNoCase | src/ftp/parser/command.rs:122-162 | streaming `tag_no_case`: like `tag` with ASCII case ignored, handing back the input's own bytes |
| Nom.Opt | src/ftp/parser/command.rs:26-29 | `opt` turns an error into `None` with nothing consumed, and passes on incomplete |
| Nom.Char | src/parser/common.rs:3-9 | streaming `char`: one matching byte, incomplete on empty input asking for one byte |
| Nom.Take | ftp/src/parser/reply.rs:44-45 | streaming `take(n)`: the first n bytes, or incomplete asking for the missing count |
| Nom.FirstCrlf | ftp/src/parser/reply.rs:57-59 | the position found holds the first `\r\n` at or after the start |
| Nom.TakeUntilCrlf | ftp/src/parser/reply.rs:57-59 | streaming `take_until("\r\n")`: everything before the first `\r\n`, which stays in the input; with none, incomplete of unknown size |
| Nom.FirstRejected | src/ftp/parser/command.rs:179-182 | the position found holds the first byte the predicate rejects |
| Nom.TakeWhile1 | src/ftp/parser/command.rs:179-182 | streaming `take_while1`: a non-empty run of accepted bytes stopped by a rejected one; running to the end of the input is incomplete, a rejected first byte an error |
| Nom.U8ReadsDecimal | src/ftp/parser/command.rs:232-235 | streaming `u8` reads back the decimal text of a byte when a non-digit follows, and is incomplete at the end of the input |
| Nom.U8DigitsReadsDecimal | src/ftp/parser/command.rs:232-235 | the digit loop of `u8` consumes exactly the decimal text of a byte and accumulates its value |
| Nom.U8Consumes | src/ftp/parser/command.rs:232-235 | `u8` consumes a non-empty prefix or fails, never panics, and asks for one byte when incomplete |
| Nom.BigEndianBytesOf | src/ftp/parser/command.rs:317-320 | reading back big-endian bytes of a number gives the number |
| Nom.BeI64 | src/ftp/parser/command.rs:317-320 | streaming `be_i64`: exactly eight bytes, or incomplete asking for the missing count |
| Nom.BeI64ReadsBeBytes | src/ftp/parser/command.rs:317-320 | `be_i64` reads back what `i64::to_be_bytes` writes |
| Common.Comma | src/parser/common.rs:3-5 | `comma`: done exactly on a leading `,`, incomplete exactly on empty input, an error otherwise |
| Common.Space | src/parser/common.rs:7-9 | `space`: done exactly on a leading space, incomplete exactly on empty input, an error otherwise |
| Common.Crlf | src/parser/common.rs:11-18 | the `tag`-based `crlf` asks for two bytes on empty input and one after a lone `\r`; an error on any other byte |
| Common.NomCrlf | src/ftp/parser/reply.rs:4 | nom's `crlf` asks for two bytes on any strict prefix of `\r\n` |
| Messages.Ipv4Addr.Octets | ftp/src/serializer/serializeable.rs:19 | the four octets of an address, most significant first: `a`, `b`, `c`, `d` in that order |
| Messages.VariantIndex | src/command.rs:4-45 | variants are numbered in declaration order; `Noop`, the `#[default]`, is last |
| Keywords.KeywordLengths | src/ftp/parser/command.rs:122-162 | thirty-three keywords, the three-letter ones first |
| CommandParser.KeywordShapes | src/ftp/parser/command.rs:122-162 | every keyword the `alt` tries is upper-case letters, three letters for the first four and four for the rest |
| CommandParser.CwdMkdPrefixes | src/ftp/parser/command.rs:122-162 | no four-letter keyword starts with `CWD` or `MKD` |
| CommandParser.PwdRmdPrefixes | src/ftp/parser/command.rs:122-162 | no four-letter keyword starts with `PWD` or `RMD` |
| CommandParser.KeywordFacts | src/ftp/parser/command.rs:122-162 | the keyword list is ordered so that at most one alternative can match any input |
| CommandParser.AltTagsPicksFirst | src/ftp/parser/command.rs:122-162 | nested `alt` over the keyword tags fails exactly when every tag fails, reporting the whole input, and otherwise gives the first non-failing tag's result |
| CommandParser.OnlyMatch | src/ftp/parser/command.rs:122-162 | when the input starts with one keyword, no other keyword's tag can match it or be incomplete on it |
| CommandParser.CommandNameMatches | src/ftp/parser/command.rs:122-162 | input starting with a keyword in any case reads that keyword's bytes and leaves the rest |
| CommandParser.CommandNameDone | src/ftp/parser/command.rs:122-162 | when `command_name` succeeds it has read one keyword, in any mix of cases, and nothing else |
| CommandParser.CommandNameIncomplete | src/ftp/parser/command.rs:122-162 | `command_name` is incomplete only on a strict prefix of a keyword, and asks for the fewest bytes any keyword still needs |
| CommandParser.CommandNameOutcomes | src/ftp/parser/command.rs:122-162 | every outcome of `command_name`: success and incomplete as above, an error exactly when every keyword's tag fails, reporting the whole input, and never a panic |
| CommandParser.CommandNameProgress | src/ftp/parser/command.rs:122-162 | `command_name` consumes a non-empty prefix when it succeeds |
| CommandParser.StringArg | src/ftp/parser/command.rs:179-187 | `string`: a non-empty run of ASCII bytes other than `\r` and `\n`, stopped by one of them |
| CommandParser.Marker | src/ftp/parser/command.rs:189-202 | `marker`: a non-empty run of printable ASCII, stopped by any other byte |
| CommandParser.Number | src/ftp/parser/command.rs:232-235 | `number` consumes a non-empty prefix or fails, and asks for one byte when incomplete |
| CommandParser.NumberPair | src/ftp/parser/command.rs:226-230 | two numbers separated by a comma: consumes a non-empty prefix, never panics |
| CommandParser.HostNumber | src/ftp/parser/command.rs:215-224 | four comma-separated numbers: consumes a non-empty prefix, never panics |
| CommandParser.PortNumber | src/ftp/parser/command.rs:226-230 | two comma-separated numbers: consumes a non-empty prefix, never panics |
| CommandParser.HostPort | src/ftp/parser/command.rs:209-213 | host number, comma, port number: consumes a non-empty prefix, never panics |
| CommandParser.FormCode | src/ftp/parser/command.rs:237-250 | `form_code` succeeds exactly on a leading N, T or C in either case, and maps each letter to its variant |
| CommandParser.TypeCode | src/ftp/parser/command.rs:252-280 | `type_code` succeeds only on a leading A, E, I or L in either case, maps that letter to its variant, and never panics |
| CommandParser.StructureCode | src/ftp/parser/command.rs:282-295 | `structure_code` succeeds exactly on a leading F, R or P in either case, and maps each letter to its variant |
| CommandParser.ModeCode | src/ftp/parser/command.rs:297-310 | `mode_code` succeeds exactly on a leading S, B or C in either case, and maps each letter to its variant |
| CommandParser.DecimalInteger | src/ftp/parser/command.rs:317-320 | `decimal_integer` reads eight raw bytes as a big-endian `i64`, not decimal text |
| CommandParser.AllocateArgs | src/ftp/parser/command.rs:78-84 | the ALLO argument pair consumes a non-empty prefix and never panics |
| CommandParser.Bare | src/ftp/parser/command.rs:22-25 | the argument-less `parse!` succeeds exactly when `\r\n` follows, consuming just that |
| CommandParser.Delimited | src/ftp/parser/command.rs:30-33 | `delimited(space, p, crlf)` consumes a non-empty prefix and never panics when `p` does not |
| CommandParser.Optional | src/ftp/parser/command.rs:26-29 | `opt(delimited(space, p, crlf))` consumes a prefix and never panics when `p` does not |
| CommandParser.Dispatch | src/ftp/parser/command.rs:36-119 | the `match` on the keyword consumes a prefix, and panics only for a name no arm matches |
| CommandParser.ParseCommand | src/ftp/parser/command.rs:17-120 | `command` consumes a non-empty prefix of its input whenever it succeeds |
| CommandParser.ArmsCoverKeywords | src/ftp/parser/command.rs:36-119 | every keyword `command_name` can return has an arm, except SMNT, whose arm is spelled `SNMT` |
| CommandParser.OnlySmntPanics | src/ftp/parser/command.rs:36-119 | `command` panics exactly when the input starts with `SMNT` in any case |
| Serializeable.EncodeU8 | ftp/src/serializer/serializeable.rs:116-123 | a `u8` is written as one to three decimal digits |
| Serializeable.DecimalLength | ftp/src/serializer/serializeable.rs:116-123 | numbers below 1000 have at most three digits |
| Serializeable.Verbatim | ftp/src/serializer/serializeable.rs:98-105 | `[u8]` and `Vec<u8>` are written unchanged |
| Serializeable.EncodeI64 | ftp/src/serializer/serializeable.rs:107-114 | an `i64` is written as `SignedDecimal`: non-empty, starting with `-` exactly when negative; `SignedDecimalDenotes` gives the value its digits denote |
| Serializeable.EncodeOption | ftp/src/serializer/serializeable.rs:134-149 | `None` writes nothing, and `Some(v)` writes a space and then `v` |
| Serializeable.EncodeFormatControl | ftp/src/serializer/serializeable.rs:56-68 | a format control is one letter; `FormCodeReads` shows `form_code` reads it back as the same variant |
| Serializeable.EncodeFileStructure | ftp/src/serializer/serializeable.rs:70-82 | a file structure is one letter |
| Serializeable.EncodeTransferMode | ftp/src/serializer/serializeable.rs:84-96 | a transfer mode is one letter |
| Serializeable.EncodeRepresentationType | ftp/src/serializer/serializeable.rs:32-54 | a representation type ends in its letter A, E, I or L; what comes before the letter is the optional ` <form>` for A and E, nothing for I, and the byte size in decimal for L |
| Serializeable.CommaTerminated | ftp/src/serializer/serializeable.rs:19-22 | the octet loop writes nothing exactly when there are no octets |
| Serializeable.CommaTerminatedSnoc | ftp/src/serializer/serializeable.rs:19-22 | each turn of the octet loop appends one number and one comma |
| Serializeable.HostPortFields | ftp/src/serializer/serializeable.rs:11-30 | a host-port is six decimal fields joined by five commas, the port split into high and low byte, 11 to 23 bytes long |
| Serializeable.WriteBytes | ftp/src/serializer/serializeable.rs:98-105 | the sink receives the bytes, and is not flushed |
| Serializeable.WriteU8 | ftp/src/serializer/serializeable.rs:116-123 | the sink receives `EncodeU8`, and is not flushed |
| Serializeable.WriteI64 | ftp/src/serializer/serializeable.rs:107-114 | the sink receives `EncodeI64`, and is not flushed |
| Serializeable.WriteFormatControl | ftp/src/serializer/serializeable.rs:56-68 | the sink receives the format letter |
| Serializeable.WriteFileStructure | ftp/src/serializer/serializeable.rs:70-82 | the sink receives the structure letter |
| Serializeable.WriteTransferMode | ftp/src/serializer/serializeable.rs:84-96 | the sink receives the mode letter |
| Serializeable.WriteOptionalForm | ftp/src/serializer/serializeable.rs:134-149 | the sink receives `EncodeOption` of the format |
| Serializeable.WriteOptionalBytes | ftp/src/serializer/serializeable.rs:134-149 | the sink receives `EncodeOption` of the bytes |
| Serializeable.WriteRepresentationType | ftp/src/serializer/serializeable.rs:32-54 | the sink receives the sub-argument, then the letter |
| Serializeable.WriteHostPort | ftp/src/serializer/serializeable.rs:11-30 | the loop over the octets, then the port bytes, append exactly `EncodeHostPort` |
| CommandSerializer.EncodeCommand | src/ftp/serializer/command.rs:17-74 | a command is its keyword, then a space and its argument unless it has none, then `\r\n` |
| CommandSerializer.KeywordIdentifiesVariant | src/ftp/serializer/command.rs:31-71 | the keyword written determines the variant |
| CommandSerializer.KeywordInjective | src/ftp/serializer/command.rs:31-71 | two commands get the same keyword exactly when they are the same variant |
| CommandSerializer.CommandSerializer.constructor | src/ftp/serializer/command.rs:13-15 | the serializer wraps the given writer |
| CommandSerializer.CommandSerializer.WriteKeyword | src/ftp/serializer/command.rs:19-23 | the macro's first form appends the keyword |
| CommandSerializer.CommandSerializer.WriteKeywordSpace | src/ftp/serializer/command.rs:24-28 | the macro's second form appends the keyword and a space |
| CommandSerializer.CommandSerializer.SerializeCommand | src/ftp/serializer/command.rs:17-74 | `serialize_command` appends exactly `EncodeCommand` and does not flush |
| CommandSerializer.CommandSerializer.WriteArgument | src/ftp/serializer/command.rs:31-71 | each arm appends its argument's encoding, ALLO's optional size after ` R ` |
| CommandSerializer.CommandSerializer.Serialize | src/ftp/serializer/command.rs:77-82 | `serialize` appends `EncodeCommand` and flushes once |
| CommandRoundTrip.ParseKeyword | src/ftp/parser/command.rs:17-19 | parsing an encoded command first reads its keyword, then dispatches on it |
| CommandRoundTrip.TakeWhile1Reads | src/ftp/parser/command.rs:179-182 | `take_while1` reads a run of accepted bytes up to the first rejected one |
| CommandRoundTrip.DelimitedReads | src/ftp/parser/command.rs:30-33 | `delimited(space, p, crlf)` reads a value `p` reads between a space and `\r\n` |
| CommandRoundTrip.StringArgReads | src/ftp/parser/command.rs:179-182 | `string` reads back a non-empty run of `is_char` bytes followed by `\r\n` |
| CommandRoundTrip.DelimitedStringReads | src/ftp/parser/command.rs:30-33 | a string argument between a space and `\r\n` is read whole |
| CommandRoundTrip.DelimitedMarkerReads | src/ftp/parser/command.rs:189-202 | a printable marker between a space and `\r\n` is read whole |
| CommandRoundTrip.OptionalStringSome | src/ftp/parser/command.rs:26-29 | an optional argument written after two spaces reads back with one leading space |
| CommandRoundTrip.OptionalStringNone | src/ftp/parser/command.rs:26-29 | a space directly before `\r\n` is no argument, and nothing is consumed |
| CommandRoundTrip.NumberReads | src/ftp/parser/command.rs:232-235 | `number` reads back the decimal text of a byte |
| CommandRoundTrip.NumberPairReads | src/ftp/parser/command.rs:226-230 | two numbers joined by a comma are read back |
| CommandRoundTrip.HostNumberReads | src/ftp/parser/command.rs:215-224 | `host_number` reads back four encoded octets as the address |
| CommandRoundTrip.PortNumberReads | src/ftp/parser/command.rs:226-230 | `port_number` reads back the high and low byte as the port |
| CommandRoundTrip.HostPortReads | src/ftp/parser/command.rs:209-213 | `host_port` reads back what the `(Ipv4Addr, u16)` impl writes |
| CommandRoundTrip.FormCodeReads | src/ftp/parser/command.rs:237-250 | `form_code` reads back the letter of every format control as that format control, leaving the rest |
| CommandRoundTrip.StructureCodeReads | src/ftp/parser/command.rs:282-295 | `structure_code` reads back every file structure |
| CommandRoundTrip.ModeCodeReads | src/ftp/parser/command.rs:297-310 | `mode_code` reads back every transfer mode |
| CommandRoundTrip.TypeCodeReads | src/ftp/parser/command.rs:252-280 | image, and ASCII or EBCDIC without a format, are read back |
| CommandRoundTrip.TypeCodeReadsForm | src/ftp/parser/command.rs:252-280 | A or E in either case, a space and a form code are read as ASCII or EBCDIC with that form |
| CommandRoundTrip.TypeCodeReadsByteSize | src/ftp/parser/command.rs:252-280 | L in either case, a space and a decimal byte size are read as the local byte type of that size |
| CommandRoundTrip.TypeCodeRejects | src/ftp/parser/command.rs:252-280 | a representation type written with a sub-argument in front of its letter is a parse error |
| CommandRoundTrip.MaximumSizeReads | src/ftp/parser/command.rs:80-83 | ` R ` followed by eight big-endian bytes reads back the maximum size |
| CommandRoundTrip.AllocateArgsReads | src/ftp/parser/command.rs:78-84 | the ALLO argument pair reads back sizes written as eight-byte binary |
| CommandRoundTrip.BareRoundTrip | src/ftp/parser/command.rs:22-25 | every command without an argument is read back from its encoding, leaving what follows |
| CommandRoundTrip.StringRoundTrip | src/ftp/parser/command.rs:30-33 | every command with a string argument except SMNT and REST is read back when its argument is a non-empty run of `string` bytes |
| CommandRoundTrip.UserNameRoundTrip | src/ftp/parser/command.rs:38 | a USER command whose argument is a non-empty run of `string` bytes is read back from its encoding, and the bytes after it are left |
| CommandRoundTrip.PasswordRoundTrip | src/ftp/parser/command.rs:40 | a PASS command whose argument is a non-empty run of `string` bytes is read back from its encoding, and the bytes after it are left |
| CommandRoundTrip.AccountRoundTrip | src/ftp/parser/command.rs:42 | a ACCT command whose argument is a non-empty run of `string` bytes is read back from its encoding, and the bytes after it are left |
| CommandRoundTrip.ChangeWorkingDirectoryRoundTrip | src/ftp/parser/command.rs:44 | a CWD command whose argument is a non-empty run of `string` bytes is read back from its encoding, and the bytes after it are left |
| CommandRoundTrip.RetrieveRoundTrip | src/ftp/parser/command.rs:67 | a RETR command whose argument is a non-empty run of `string` bytes is read back from its encoding, and the bytes after it are left |
| CommandRoundTrip.StoreRoundTrip | src/ftp/parser/command.rs:69 | a STOR command whose argument is a non-empty run of `string` bytes is read back from its encoding, and the bytes after it are left |
| CommandRoundTrip.AppendRoundTrip | src/ftp/parser/command.rs:73 | a APPE command whose argument is a non-empty run of `string` bytes is read back from its encoding, and the bytes after it are left |
| CommandRoundTrip.RenameFromRoundTrip | src/ftp/parser/command.rs:89 | a RNFR command whose argument is a non-empty run of `string` bytes is read back from its encoding, and the bytes after it are left |
| CommandRoundTrip.RenameToRoundTrip | src/ftp/parser/command.rs:91 | a RNTO command whose argument is a non-empty run of `string` bytes is read back from its encoding, and the bytes after it are left |
| CommandRoundTrip.DeleteRoundTrip | src/ftp/parser/command.rs:95 | a DELE command whose argument is a non-empty run of `string` bytes is read back from its encoding, and the bytes after it are left |
| CommandRoundTrip.RemoveDirectoryRoundTrip | src/ftp/parser/command.rs:97 | a RMD command whose argument is a non-empty run of `string` bytes is read back from its encoding, and the bytes after it are left |
| CommandRoundTrip.MakeDirectoryRoundTrip | src/ftp/parser/command.rs:99 | a MKD command whose argument is a non-empty run of `string` bytes is read back from its encoding, and the bytes after it are left |
| CommandRoundTrip.SiteParametersRoundTrip | src/ftp/parser/command.rs:107 | a SITE command whose argument is a non-empty run of `string` bytes is read back from its encoding, and the bytes after it are left |
| CommandRoundTrip.ListSomeRoundTrip | src/ftp/parser/command.rs:103 | LIST with an argument reads back with that argument behind one space, because two spaces were written |
| CommandRoundTrip.ListNoneRoundTrip | src/ftp/parser/command.rs:103 | LIST without an argument reads back as such, leaving the space and `\r\n` the serializer wrote unread |
| CommandRoundTrip.NameListSomeRoundTrip | src/ftp/parser/command.rs:105 | NLST with an argument reads back with that argument behind one space, because two spaces were written |
| CommandRoundTrip.NameListNoneRoundTrip | src/ftp/parser/command.rs:105 | NLST without an argument reads back as such, leaving the space and `\r\n` the serializer wrote unread |
| CommandRoundTrip.StatusSomeRoundTrip | src/ftp/parser/command.rs:111 | STAT with an argument reads back with that argument behind one space, because two spaces were written |
| CommandRoundTrip.StatusNoneRoundTrip | src/ftp/parser/command.rs:111 | STAT without an argument reads back as such, leaving the space and `\r\n` the serializer wrote unread |
| CommandRoundTrip.HelpSomeRoundTrip | src/ftp/parser/command.rs:113 | HELP with an argument reads back with that argument behind one space, because two spaces were written |
| CommandRoundTrip.HelpNoneRoundTrip | src/ftp/parser/command.rs:113 | HELP without an argument reads back as such, leaving the space and `\r\n` the serializer wrote unread |
| CommandRoundTrip.RestartRoundTrip | src/ftp/parser/command.rs:87 | REST with a non-empty printable marker is read back |
| CommandRoundTrip.OptionalRoundTrip | src/ftp/parser/command.rs:26-29 | LIST, NLST, STAT and HELP read back with a leading space on a present argument, and with ` \r\n` unread when it is absent |
| CommandRoundTrip.StructureMountPanics | src/ftp/parser/command.rs:48 | an encoded SMNT makes the parser panic, whatever follows |
| CommandRoundTrip.DataPortRoundTrip | src/ftp/parser/command.rs:54-57 | every PORT command is read back from its encoding |
| CommandRoundTrip.FileStructureRoundTrip | src/ftp/parser/command.rs:63 | every STRU command is read back |
| CommandRoundTrip.TransferModeRoundTrip | src/ftp/parser/command.rs:65 | every MODE command is read back |
| CommandRoundTrip.RepresentationTypeRoundTrip | src/ftp/parser/command.rs:61 | TYPE reads back exactly for image and for ASCII or EBCDIC without a format, and is a parse error otherwise |
| CommandRoundTrip.AllocateShortIsIncomplete | src/ftp/parser/command.rs:76-85 | an ALLO command and what follows it, shorter than the eight bytes `be_i64` needs, is incomplete by the missing count |
| CommandRoundTrip.ShortAllocateArgs | src/ftp/parser/command.rs:317-320 | after the space, fewer than eight bytes leave `be_i64` short by the missing count |
| CommandRoundTrip.AllocateBinaryReads | src/ftp/parser/command.rs:76-85 | ALLO with its sizes as eight-byte binary, and ` R ` before the second, is read back |
| ReplyParser.ReplyCode | ftp/src/parser/reply.rs:44-55 | `code` takes any three bytes, or asks for the missing ones; the conversion to `[u8; 3]` cannot fail |
| ReplyParser.Hyphen | ftp/src/parser/reply.rs:61-63 | `hyphen`: done exactly on a leading `-`, incomplete exactly on empty input |
| ReplyParser.Separator | ftp/src/parser/reply.rs:14 | `alt((space, hyphen))` takes a leading space or hyphen, asks for one byte on empty input, and is an error otherwise |
| ReplyParser.TextLine | ftp/src/parser/reply.rs:57-59 | `text_line` is done exactly when the input holds `\r\n`, and returns the bytes before the first one and what follows it; otherwise incomplete of unknown size |
| ReplyParser.LastLine | ftp/src/parser/reply.rs:17 | the closing line is the code, a space and a text line; on four or more bytes not starting that way it is an error |
| ReplyParser.ClosingLineOnly | ftp/src/parser/reply.rs:16-17 | a closing line alone is a complete line sequence with no ordinary lines |
| ReplyParser.PrependLine | ftp/src/parser/reply.rs:16-17 | an ordinary line in front of a closed line sequence is again one |
| ReplyParser.MoreLines | ftp/src/parser/reply.rs:16-17 | `many_till` returns the ordinary lines and the closing line that exactly make up what it consumed, none of them holding `\r\n`, and never errs |
| ReplyParser.OrdinaryLine | ftp/src/parser/reply.rs:16-17 | the step past one ordinary line keeps that guarantee |
| ReplyParser.SingleLineFrame | ftp/src/parser/reply.rs:32-39 | a code, a space and a line are exactly the encoding of the single-line reply |
| ReplyParser.EncodeMultiLine | ftp/src/serializer/reply.rs:23-33 | the encoding of a multi-line reply splits into code, hyphen, first line and the rest |
| ReplyParser.MultiLineFrame | ftp/src/parser/reply.rs:19-31 | the first line put in front of the lines `many_till` found is exactly the encoding of the multi-line reply |
| ReplyParser.ParseReply | ftp/src/parser/reply.rs:13-42 | `reply` consumes exactly the encoding of the reply it returns, which is transmissible; it is an error exactly when the fourth byte is neither space nor hyphen; shorter inputs are incomplete by the missing count; it never panics |
| ReplySerializer.EncodeReply | ftp/src/serializer/reply.rs:16-37 | a reply is written as its code, a space for single-line or a hyphen for multi-line, and ends in `\r\n` |
| ReplySerializer.AppendEncodeReply | ftp/src/serializer/reply.rs:16-37 | the encoding appended to earlier output equals the writes in the order the serializer makes them |
| ReplySerializer.ReplySerializer.constructor | ftp/src/serializer/reply.rs:12-14 | the serializer wraps the given writer |
| ReplySerializer.ReplySerializer.SerializeReply | ftp/src/serializer/reply.rs:16-37 | `serialize_reply` appends exactly `EncodeReply` and does not flush |
| ReplySerializer.ReplySerializer.WriteLines | ftp/src/serializer/reply.rs:25-28 | the loop appends every line followed by `\r\n` |
| ReplySerializer.ReplySerializer.Serialize | ftp/src/serializer/reply.rs:40-45 | `serialize` appends `EncodeReply` and flushes once |
| ReplyRoundTrip.CrlfSplitUnique | ftp/src/parser/reply.rs:57-59 | bytes split at their first `\r\n` split one way only |
| ReplyRoundTrip.TextLineReads | ftp/src/parser/reply.rs:57-59 | `text_line` reads back a line without `\r\n` |
| ReplyRoundTrip.LastLineReads | ftp/src/parser/reply.rs:17 | the closing line is read back |
| ReplyRoundTrip.OrdinaryLineRejected | ftp/src/parser/reply.rs:17 | with a code free of `\r`, a line not starting with the code and a space is no closing line |
| ReplyRoundTrip.MoreLinesStep | ftp/src/parser/reply.rs:16-17 | when the closing line fails, `many_till` takes one text line and carries on |
| ReplyRoundTrip.MoreLinesRead | ftp/src/parser/reply.rs:16-17 | `many_till` reads back the written lines and closing line |
| ReplyRoundTrip.SingleLineRead | ftp/src/parser/reply.rs:32-39 | every single-line reply without `\r\n` in its line is read back |
| ReplyRoundTrip.MultiLineRead | ftp/src/parser/reply.rs:19-31 | every transmissible multi-line reply whose code holds no `\r` is read back |
| ReplyRoundTrip.ReplyRoundTrip | ftp/src/parser/reply.rs:13-42 | a reply that reads back from its encoding is transmissible, and a transmissible reply whose code holds no `\r` reads back |
| EarlyReplyParser.EarlyTextLine | src/ftp/parser/reply.rs:33-35 | `text_line` with nom's `crlf` returns the bytes before the first `\r\n` and what follows it |
| EarlyReplyParser.TextLinesAgree | src/ftp/parser/reply.rs:33-35 | the two `text_line`s agree on every input, because `take_until` leaves `\r\n` in front |
| EarlyReplyParser.LastLinesAgree | src/ftp/parser/reply.rs:17 | the two closing-line parsers agree on every input |
| EarlyReplyParser.MoreLinesAgree | src/ftp/parser/reply.rs:16-19 | the two `many_till` loops agree on every input |
| EarlyReplyParser.ParsersAgree | src/ftp/parser/reply.rs:13-27 | the earlier `reply` and the current one agree on every input |
| Io.Writer.constructor | ftp/src/serializer/reply.rs:12-14 | a fresh sink holds nothing and has not been flushed |
| Io.Writer.WriteAll | ftp/src/serializer/reply.rs:36 | `write_all` appends the bytes |
| Io.Writer.Flush | ftp/src/serializer/reply.rs:43 | `flush` counts one flush and changes no bytes |
| Io.Reader.constructor | client/src/client.rs:64-69 | a reader over the chunks its socket reads deliver, holding nothing yet |
| Io.Reader.FillBuf | client/src/client.rs:75-77 | `fill_buf` returns what is held, reading one chunk first if nothing is; empty exactly at the end of the stream |
| Io.Reader.Consume | client/src/client.rs:83 | `consume` drops that many held bytes |
| Io.Reader.Read | proxy/src/proxy.rs:117 | `read` takes at most `max` bytes off the stream, in order, and none only at its end or for `max` zero |
| Io.Reader.ReadExact | proxy/src/proxy.rs:111-113 | `read_exact` takes exactly `n` bytes when the stream has them, and otherwise fails having used it up |
| Proxy.CopyWithin | proxy/src/proxy.rs:101 | `copy_within` moves the rest of the parse to the front of the buffer and leaves the other bytes |
| Proxy.CopyInto | proxy/src/proxy.rs:111-113 | bytes read are stored after the ones already buffered |
| Proxy.ResetBuffer | proxy/src/proxy.rs:90-106 | after a message, the unparsed rest is at the front of the buffer and the index is its length |
| Proxy.ParseStream | proxy/src/proxy.rs:76-129 | `parse_stream` parses from what is buffered plus the bytes read; a message comes with nothing lost and its rest at the front of the buffer; the stream ends when a sized read runs short or an unsized read returns nothing; it panics exactly on a parse error or a request beyond the buffer |
| Proxy.HookedSnoc | proxy/src/proxy.rs:55-74 | one more message sent is the hook of one more message read |
| Proxy.ReadsSnoc | proxy/src/proxy.rs:55-74 | one more message parsed from a prefix of what is left extends the cut of the stream |
| Proxy.ReadsNext | proxy/src/proxy.rs:55-74 | one more message parsed extends the cut, and what is left shrinks |
| Proxy.ForwardedSnoc | proxy/src/proxy.rs:55-74 | the bytes forwarded grow by one more message's encoding |
| Proxy.Serialize | proxy/src/proxy.rs:65-67 | writing one more message appends its encoding and flushes once |
| Proxy.Pipe | proxy/src/proxy.rs:55-74 | `pipe` cuts a prefix of the stream into parsed messages in order and writes the hooked messages' encodings with one flush each. By `Stopped`, it finishes only where the stream ended: with an unsized request, the reader drained or the full buffer read as 0; with a sized one, fewer bytes left than requested. It aborts exactly on a parse error or a request beyond the buffer |
| Proxy.RepliesPassThrough | proxy/src/proxy.rs:33-40 | replies cut from a stream, encoded again, give back exactly the bytes they came from |
| Proxy.ForwardCommands | proxy/src/proxy.rs:25-32 | forwarding commands writes exactly the encodings of the commands read from the client, one flush each, and stops as `Stopped` says: finished only where the client's stream ended on an incomplete command, aborted exactly on a parse error or a request beyond the buffer |
| Proxy.ForwardReplies | proxy/src/proxy.rs:33-40 | forwarding replies writes the server's stream unchanged up to what is left. By `Stopped`, it finishes only where the stream ended on an incomplete reply, and aborts exactly on a parse error or a request beyond the buffer. On a stream of whole replies that each fit the buffer (`Forwardable`), it writes the stream whole and finishes |
| Proxy.FirstReplyRead | proxy/src/proxy.rs:33-40 | the first reply read from a stream of whole replies is the first of them, and it takes exactly its encoding off the stream |
| Proxy.WholeRepliesRead | proxy/src/proxy.rs:33-40 | the replies read from a stream of whole replies are the first of them, in order, and what is left is the encoding of the others |
| Proxy.WholeRepliesStep | proxy/src/proxy.rs:33-40 | reading one reply from a stream of whole replies takes the first, and the cut goes on over the others |
| Proxy.WholeReplyNotStopped | proxy/src/proxy.rs:76-129 | `parse_stream` neither ends the stream nor panics while what is left begins with a whole reply that fits the buffer |
| Proxy.RepliesDrained | proxy/src/proxy.rs:33-40 | a server stream made of whole transmissible replies, each fitting the buffer, is read entirely, reply by reply in order, and `pipe` finishes with nothing left |
| ReplyStreaming.ReplyPrefixParses | ftp/src/parser/reply.rs:13-42 | bytes beginning with a transmissible reply's encoding parse to that reply |
| ReplyStreaming.PrefixNotInvalid | ftp/src/parser/reply.rs:14 | no prefix of a stream that begins with a reply's encoding is a parse error |
| ReplyStreaming.PrefixParsesSame | ftp/src/parser/reply.rs:13-42 | a reply parsed from a prefix of a stream that begins with a whole transmissible reply is that reply |
| ReplyStreaming.TextLineExtends | ftp/src/parser/reply.rs:57-59 | a text line read from a buffer is read the same once more bytes arrive |
| ReplyStreaming.TagErrorExtends | ftp/src/parser/reply.rs:17 | once `tag(code)` fails on a buffer it fails on every extension |
| ReplyStreaming.LastLineErrorExtends | ftp/src/parser/reply.rs:17 | once a buffer cannot start the closing line, no extension can |
| ReplyStreaming.LastLineNeed | ftp/src/parser/reply.rs:17 | a sized request of the closing line covers at most the code and the space |
| ReplyStreaming.MoreLinesNeedsAtLeast | ftp/src/parser/reply.rs:17 | when `many_till` asks for `n` more bytes, no extension by fewer completes it |
| ReplyStreaming.SizeRequestAfterCode | ftp/src/parser/reply.rs:14-17 | past the code, a sized request comes only from the search for the closing line of a multi-line reply |
| ReplyStreaming.MultiLineDone | ftp/src/parser/reply.rs:15-17 | a multi-line reply is done only when the search for its closing line is |
| ReplyStreaming.ParseReplyNeedsAtLeast | ftp/src/parser/reply.rs:13-42 | when `reply` asks for `n` more bytes (`Needed::Size`), no extension by fewer bytes parses as a reply |
| ReplyStreaming.PrefixOfWholeReply | ftp/src/parser/reply.rs:13-42 | on a prefix of a stream that begins with a whole reply, `reply` never fails, is done once the whole reply is there, and asks for no more than would complete it |
| ReplyStreaming.NeedWithinReply | ftp/src/parser/reply.rs:13-42 | a prefix of a reply's encoding that asks for `n` more bytes lacks at least `n` of it |
| Client.CodeOf | client/src/client.rs:25-36 | a three-digit reply code as the client matches it |
| Client.ClassifyConnect | client/src/client.rs:25-36 | the connect result keeps the reply's text, as `Ok` or in the named error, or is `UnexpectedReply` |
| Client.ClassifyLogin | client/src/client.rs:46-61 | the login result keeps the reply's text, as `Ok` or in the named error, or is `UnexpectedReply` |
| Client.ConnectRefusal | client/src/client.rs:25-36 | connect is `Ok` exactly for 220, and each named error exactly for its code, 120 or 421 |
| Client.LoginRefusal | client/src/client.rs:46-61 | login is `Ok` exactly for 230, and each named error exactly for its code, 331, 332 or 530 |
| Client.ConnectUnexpected | client/src/client.rs:25-36 | connect reports `UnexpectedReply` exactly for codes other than 220, 120 and 421 |
| Client.LoginUnexpected | client/src/client.rs:46-61 | login reports `UnexpectedReply` exactly for codes other than 230, 331, 332 and 530 |
| Client.Client.constructor | client/src/client.rs:12-15 | a client over its reader and serializer |
| Client.Client.ReadReply | client/src/client.rs:71-94 | `ReadFrom`: the reply parsed from a prefix of the stream, transmissible; with a code free of `\r` exactly its encoding leaves the stream; a parse error carries its input, with every earlier chunk consumed and the last one still held; an ended stream leaves the loop stalled with everything consumed |
| Client.Client.ConsumeReply | client/src/client.rs:81-84 | consuming the part of the last chunk the reply took leaves exactly the bytes after the reply |
| Client.Client.Connect | client/src/client.rs:18-37 | `connect` reads the greeting as `read_reply` does (`ReadFrom`), and returns its classification, or the read error |
| Client.Client.Login | client/src/client.rs:39-62 | `login` writes and flushes one USER command, reads the answer as `read_reply` does (`ReadFrom`), and returns its classification, or the read error |
| Client.ConsumedWithinChunk | client/src/client.rs:81-84 | the subtraction in `read_reply` can neither wrap nor come to zero: a reply found after an incomplete parse ends inside the new chunk |
| Client.ReadFromWholeReply | client/src/client.rs:71-94 | on a stream that begins with a whole transmissible reply whose code holds no `\r`, `read_reply` (and so `connect` and `login`) returns exactly that reply, and the stream then holds what followed it |

## Left out

- Sockets, `TcpStream::connect`, `try_clone`, `tcp_stream_pair`,
  `read_write_pair`, and the threads, `spawn` and `join` of
  `proxy_connection`. They are OS calls. The model keeps the two `pipe`
  directions, each as its own method (`ForwardCommands`,
  `ForwardReplies`).
- The command-line programs and `main.rs` of the client and the proxy.
  They are argument handling and I/O only.
- I/O errors other than the end of the stream. A `Reader` or `Writer` in
  the model never fails. Therefore `ClientError::Connection`,
  `ClientError::Write`, `ClientWriteError::Io` (`WriteIo`) and
  `ClientReadError::Io` (`ReadIo`) are declared but never produced, and a failed `write_all` or `flush` in
  the serializers and in `pipe` is not modelled.
- `dbg!` output before the panic in `parse_stream`. It has no effect on
  the result.
- The derived `Debug`, `Clone`, `PartialEq`, `Ord` and `Hash` impls of the
  message types. Only the variant order is kept (`VariantIndex`).
- Proxy.Pipe: the hook is any function, not only the identity the proxy
  passes. The stop on `UnexpectedEof` is modelled as the result
  `Finished`, and the `panic!` as `Aborted`.
- Proxy.RepliesDrained: covers server streams of replies whose codes hold
  no `\r` and whose encodings each fit the 16 KiB buffer. A longer reply
  makes `parse_stream` panic. The same drain is not stated for the
  command direction.
- Proxy.ForwardCommands: `Stopped` bounds when forwarding stops, but no
  lemma says that a client stream of whole commands is drained.
- Client.Client.ReadReply: at the end of the stream, `fill_buf` keeps
  returning nothing and the source loops forever. The model leaves the
  loop and reports `Stalled`.
- Client.Client.ReadReply: that exactly the reply's encoding is taken from
  the stream is proved only for reply codes that hold no `\r`. With a `\r`
  in the code, an earlier line can look like the start of the closing
  line, and the round trip does not hold.
- Client.Client.Connect: the same `\r` condition applies to what is taken
  from the stream.
- Client.Client.Login: the same `\r` condition applies to what is taken
  from the stream.
- Io.Reader.ReadExact: when the stream ends early, the bytes read so far
  are not returned. `parse_stream` drops them anyway.
- CommandParser.HostPort: its own contract only says that it consumes a
  non-empty prefix and never panics. `HostPortReads` states what it reads
  back.
- CommandParser.NumberPair: its own contract only says that it consumes a
  non-empty prefix. `NumberPairReads` states what it reads back.
- CommandParser.HostNumber: its own contract only says that it consumes a
  non-empty prefix. `HostNumberReads` states what it reads back.
- CommandParser.PortNumber: its own contract only says that it consumes a
  non-empty prefix. `PortNumberReads` states what it reads back.
- CommandParser.AllocateArgs: its own contract only says that it consumes
  a non-empty prefix. `AllocateArgsReads` states what it reads back.
  `AllocateShortIsIncomplete` states the short case.
- CommandParser.Delimited: its own contract only says that it consumes a
  non-empty prefix and never panics. `DelimitedReads` states what it
  reads.
- CommandParser.Optional: its own contract only says that it consumes a
  prefix and never panics. `OptionalStringSome` and `OptionalStringNone`
  state what it reads.
- CommandParser.ParseCommand: its own contract only says that it consumes
  a prefix. The `*Arm` lemmas of `CommandArms` and the round-trip lemmas
  state what it reads.
- CommandRoundTrip.AllocateShortIsIncomplete: covers decimal ALLO
  arguments that, with what follows them, are shorter than eight bytes.
  Which command longer decimal text reads back as is not stated.
- The reply parser of ftp/src/parser/reply.rs imports `crlf` from its
  crate's `parser/common.rs`, which is not part of this model. The
  `tag`-based `crlf` of src/parser/common.rs stands in for it.
- The command parser of src/ftp/parser/command.rs imports `crlf` from
  `super::common` (line 12), but src/ftp/parser/common.rs defines only
  `comma` and `space`. The `tag`-based `crlf` of src/parser/common.rs
  stands in for it. On a lone trailing `\r` that `crlf` asks for 1 more
  byte, where nom's own streaming `crlf` would ask for 2. Which
  definition the crate really resolves is not part of this model.
- Client.Client.ConsumeReply: treats the `usize` subtraction
  `read_amount - unparsed.len()` of client/src/client.rs:82 as wrapping,
  as a release build does; a debug build panics there instead. The panic
  is not modelled. `ConsumedWithinChunk` shows that the subtraction
  cannot wrap when the buffer alone parsed as incomplete, as it has
  whenever `read_reply` reads a new chunk, and the reply code holds no
  `\r`. In that case the two builds agree.

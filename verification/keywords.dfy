/** The 33 RFC 959 command keywords, as upper-case ASCII bytes. The parser
    matches them without regard to case; the serializer writes them as they
    are spelled here. */
module Keywords {
  import opened Prelude

  const CWD: seq<Byte> := [67, 87, 68]
  const MKD: seq<Byte> := [77, 75, 68]
  const PWD: seq<Byte> := [80, 87, 68]
  const RMD: seq<Byte> := [82, 77, 68]
  const ABOR: seq<Byte> := [65, 66, 79, 82]
  const ACCT: seq<Byte> := [65, 67, 67, 84]
  const ALLO: seq<Byte> := [65, 76, 76, 79]
  const APPE: seq<Byte> := [65, 80, 80, 69]
  const CDUP: seq<Byte> := [67, 68, 85, 80]
  const DELE: seq<Byte> := [68, 69, 76, 69]
  const HELP: seq<Byte> := [72, 69, 76, 80]
  const LIST: seq<Byte> := [76, 73, 83, 84]
  const MODE: seq<Byte> := [77, 79, 68, 69]
  const NLST: seq<Byte> := [78, 76, 83, 84]
  const NOOP: seq<Byte> := [78, 79, 79, 80]
  const PASS: seq<Byte> := [80, 65, 83, 83]
  const PASV: seq<Byte> := [80, 65, 83, 86]
  const PORT: seq<Byte> := [80, 79, 82, 84]
  const QUIT: seq<Byte> := [81, 85, 73, 84]
  const REIN: seq<Byte> := [82, 69, 73, 78]
  const REST: seq<Byte> := [82, 69, 83, 84]
  const RETR: seq<Byte> := [82, 69, 84, 82]
  const RNFR: seq<Byte> := [82, 78, 70, 82]
  const RNTO: seq<Byte> := [82, 78, 84, 79]
  const SITE: seq<Byte> := [83, 73, 84, 69]
  const SMNT: seq<Byte> := [83, 77, 78, 84]
  const STAT: seq<Byte> := [83, 84, 65, 84]
  const STOR: seq<Byte> := [83, 84, 79, 82]
  const STOU: seq<Byte> := [83, 84, 79, 85]
  const STRU: seq<Byte> := [83, 84, 82, 85]
  const SYST: seq<Byte> := [83, 89, 83, 84]
  const TYPE: seq<Byte> := [84, 89, 80, 69]
  const USER: seq<Byte> := [85, 83, 69, 82]

  /** The keywords in the order in which the command parser tries them:
      the four three-letter ones first, then the rest alphabetically. */
  const KEYWORDS: seq<seq<Byte>> := [
    CWD, MKD, PWD, RMD, ABOR, ACCT, ALLO, APPE, CDUP, DELE, HELP,
    LIST, MODE, NLST, NOOP, PASS, PASV, PORT, QUIT, REIN, REST, RETR,
    RNFR, RNTO, SITE, SMNT, STAT, STOR, STOU, STRU, SYST, TYPE, USER
  ]

  /** Thirty-three keywords, the three-letter ones first. */
  lemma KeywordLengths()
    ensures |KEYWORDS| == 33
    ensures forall i :: 0 <= i < 33 ==> |KEYWORDS[i]| == if i < 4 then 3 else 4
  {
  }
}

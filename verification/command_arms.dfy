/** The arm of the `match` in `command` (src/ftp/parser/command.rs) that
    each keyword reaches, one lemma per keyword, and the keyword the
    serializer of src/ftp/serializer/command.rs spells for each variant.
    Each arm proof first establishes that the keyword differs from the
    names of the arms tried before its own. */
module CommandArms {
  import opened Prelude
  import opened Nom
  import opened Messages
  import opened CommandSerializer
  import opened CommandParser
  import K = Keywords

  /** USER takes a string. */
  lemma UserArm(i: seq<Byte>, t: seq<Byte>, a: seq<Byte>)
    requires DelimitedString(i) == Done(t, a)
    ensures Dispatch(K.USER, i) == Done(t, UserName(a))
  {
  }

  /** PASS takes a string. */
  lemma PassArm(i: seq<Byte>, t: seq<Byte>, a: seq<Byte>)
    requires DelimitedString(i) == Done(t, a)
    ensures Dispatch(K.PASS, i) == Done(t, Password(a))
  {
    assert K.PASS != K.USER;
  }

  /** ACCT takes a string. */
  lemma AcctArm(i: seq<Byte>, t: seq<Byte>, a: seq<Byte>)
    requires DelimitedString(i) == Done(t, a)
    ensures Dispatch(K.ACCT, i) == Done(t, Account(a))
  {
    assert K.ACCT != K.USER && K.ACCT != K.PASS;
  }

  /** CWD takes a string. */
  lemma CwdArm(i: seq<Byte>, t: seq<Byte>, a: seq<Byte>)
    requires DelimitedString(i) == Done(t, a)
    ensures Dispatch(K.CWD, i) == Done(t, ChangeWorkingDirectory(a))
  {
    assert K.CWD != K.USER && K.CWD != K.PASS && K.CWD != K.ACCT;
  }

  /** CDUP takes no argument. */
  lemma CdupArm(i: seq<Byte>)
    ensures Dispatch(K.CDUP, i) == Bare(i, ChangeToParentDirectory)
  {
    assert K.CDUP != K.USER && K.CDUP != K.PASS && K.CDUP != K.ACCT && K.CDUP != K.CWD;
  }

  /** QUIT takes no argument. */
  lemma QuitArm(i: seq<Byte>)
    ensures Dispatch(K.QUIT, i) == Bare(i, Logout)
  {
    assert K.QUIT != K.USER && K.QUIT != K.PASS && K.QUIT != K.ACCT && K.QUIT != K.CWD && K.QUIT != K.CDUP && K.QUIT != SNMT;
  }

  /** REIN takes no argument. */
  lemma ReinArm(i: seq<Byte>)
    ensures Dispatch(K.REIN, i) == Bare(i, Reinitialize)
  {
    assert K.REIN != K.USER && K.REIN != K.PASS && K.REIN != K.ACCT && K.REIN != K.CWD && K.REIN != K.CDUP && K.REIN != SNMT && K.REIN != K.QUIT;
  }

  /** PORT takes a host-port. */
  lemma PortArm(i: seq<Byte>, t: seq<Byte>, address: Ipv4Addr, port: U16)
    requires Delimited(i, HostPort) == Done(t, (address, port))
    ensures Dispatch(K.PORT, i) == Done(t, DataPort(address, port))
  {
    assert K.PORT != K.USER && K.PORT != K.PASS && K.PORT != K.ACCT && K.PORT != K.CWD && K.PORT != K.CDUP && K.PORT != SNMT && K.PORT != K.QUIT;
    assert K.PORT != K.REIN;
  }

  /** PASV takes no argument. */
  lemma PasvArm(i: seq<Byte>)
    ensures Dispatch(K.PASV, i) == Bare(i, Passive)
  {
    assert K.PASV != K.USER && K.PASV != K.PASS && K.PASV != K.ACCT && K.PASV != K.CWD && K.PASV != K.CDUP && K.PASV != SNMT && K.PASV != K.QUIT;
    assert K.PASV != K.REIN && K.PASV != K.PORT;
  }

  /** TYPE takes a type code. */
  lemma TypeArm(i: seq<Byte>)
    ensures Delimited(i, TypeCode).Done? ==> Dispatch(K.TYPE, i) == Done(Delimited(i, TypeCode).rest, RepresentationType(Delimited(i, TypeCode).value))
    ensures Delimited(i, TypeCode).Error? ==> Dispatch(K.TYPE, i) == Error(Delimited(i, TypeCode).input)
  {
    assert K.TYPE != K.USER && K.TYPE != K.PASS && K.TYPE != K.ACCT && K.TYPE != K.CWD && K.TYPE != K.CDUP && K.TYPE != SNMT && K.TYPE != K.QUIT;
    assert K.TYPE != K.REIN && K.TYPE != K.PORT && K.TYPE != K.PASV;
  }

  /** STRU takes a structure code. */
  lemma StruArm(i: seq<Byte>, t: seq<Byte>, k: FileStructureKind)
    requires Delimited(i, StructureCode) == Done(t, k)
    ensures Dispatch(K.STRU, i) == Done(t, FileStructure(k))
  {
    assert K.STRU != K.USER && K.STRU != K.PASS && K.STRU != K.ACCT && K.STRU != K.CWD && K.STRU != K.CDUP && K.STRU != SNMT && K.STRU != K.QUIT;
    assert K.STRU != K.REIN && K.STRU != K.PORT && K.STRU != K.PASV && K.STRU != K.TYPE;
  }

  /** MODE takes a mode code. */
  lemma ModeArm(i: seq<Byte>, t: seq<Byte>, k: TransferModeKind)
    requires Delimited(i, ModeCode) == Done(t, k)
    ensures Dispatch(K.MODE, i) == Done(t, TransferMode(k))
  {
    assert K.MODE != K.USER && K.MODE != K.PASS && K.MODE != K.ACCT && K.MODE != K.CWD && K.MODE != K.CDUP && K.MODE != SNMT && K.MODE != K.QUIT;
    assert K.MODE != K.REIN && K.MODE != K.PORT && K.MODE != K.PASV && K.MODE != K.TYPE && K.MODE != K.STRU;
  }

  /** RETR takes a string. */
  lemma RetrArm(i: seq<Byte>, t: seq<Byte>, a: seq<Byte>)
    requires DelimitedString(i) == Done(t, a)
    ensures Dispatch(K.RETR, i) == Done(t, Retrieve(a))
  {
    assert K.RETR != K.USER && K.RETR != K.PASS && K.RETR != K.ACCT && K.RETR != K.CWD && K.RETR != K.CDUP && K.RETR != SNMT && K.RETR != K.QUIT;
    assert K.RETR != K.REIN && K.RETR != K.PORT && K.RETR != K.PASV && K.RETR != K.TYPE && K.RETR != K.STRU && K.RETR != K.MODE;
  }

  /** STOR takes a string. */
  lemma StorArm(i: seq<Byte>, t: seq<Byte>, a: seq<Byte>)
    requires DelimitedString(i) == Done(t, a)
    ensures Dispatch(K.STOR, i) == Done(t, Store(a))
  {
    assert K.STOR != K.USER && K.STOR != K.PASS && K.STOR != K.ACCT && K.STOR != K.CWD && K.STOR != K.CDUP && K.STOR != SNMT && K.STOR != K.QUIT;
    assert K.STOR != K.REIN && K.STOR != K.PORT && K.STOR != K.PASV && K.STOR != K.TYPE && K.STOR != K.STRU && K.STOR != K.MODE && K.STOR != K.RETR;
  }

  /** STOU takes no argument. */
  lemma StouArm(i: seq<Byte>)
    ensures Dispatch(K.STOU, i) == Bare(i, StoreUnique)
  {
    assert K.STOU != K.USER && K.STOU != K.PASS && K.STOU != K.ACCT && K.STOU != K.CWD && K.STOU != K.CDUP && K.STOU != SNMT && K.STOU != K.QUIT;
    assert K.STOU != K.REIN && K.STOU != K.PORT && K.STOU != K.PASV && K.STOU != K.TYPE && K.STOU != K.STRU && K.STOU != K.MODE && K.STOU != K.RETR;
    assert K.STOU != K.STOR;
  }

  /** APPE takes a string. */
  lemma AppeArm(i: seq<Byte>, t: seq<Byte>, a: seq<Byte>)
    requires DelimitedString(i) == Done(t, a)
    ensures Dispatch(K.APPE, i) == Done(t, Append(a))
  {
    assert K.APPE != K.USER && K.APPE != K.PASS && K.APPE != K.ACCT && K.APPE != K.CWD && K.APPE != K.CDUP && K.APPE != SNMT && K.APPE != K.QUIT;
    assert K.APPE != K.REIN && K.APPE != K.PORT && K.APPE != K.PASV && K.APPE != K.TYPE && K.APPE != K.STRU && K.APPE != K.MODE && K.APPE != K.RETR;
    assert K.APPE != K.STOR && K.APPE != K.STOU;
  }

  /** ALLO takes a size and an optional maximum. */
  lemma AlloArm(i: seq<Byte>)
    ensures Delimited(i, AllocateArgs).Done? ==> Dispatch(K.ALLO, i) == Done(Delimited(i, AllocateArgs).rest, Allocate(Delimited(i, AllocateArgs).value.0, Delimited(i, AllocateArgs).value.1))
    ensures Delimited(i, AllocateArgs).Incomplete? ==> Dispatch(K.ALLO, i) == Incomplete(Delimited(i, AllocateArgs).needed)
  {
    assert K.ALLO != K.USER && K.ALLO != K.PASS && K.ALLO != K.ACCT && K.ALLO != K.CWD && K.ALLO != K.CDUP && K.ALLO != SNMT && K.ALLO != K.QUIT;
    assert K.ALLO != K.REIN && K.ALLO != K.PORT && K.ALLO != K.PASV && K.ALLO != K.TYPE && K.ALLO != K.STRU && K.ALLO != K.MODE && K.ALLO != K.RETR;
    assert K.ALLO != K.STOR && K.ALLO != K.STOU && K.ALLO != K.APPE;
  }

  /** REST takes a marker. */
  lemma RestArm(i: seq<Byte>, t: seq<Byte>, m: seq<Byte>)
    requires Delimited(i, Marker) == Done(t, m)
    ensures Dispatch(K.REST, i) == Done(t, Restart(m))
  {
    assert K.REST != K.USER && K.REST != K.PASS && K.REST != K.ACCT && K.REST != K.CWD && K.REST != K.CDUP && K.REST != SNMT && K.REST != K.QUIT;
    assert K.REST != K.REIN && K.REST != K.PORT && K.REST != K.PASV && K.REST != K.TYPE && K.REST != K.STRU && K.REST != K.MODE && K.REST != K.RETR;
    assert K.REST != K.STOR && K.REST != K.STOU && K.REST != K.APPE && K.REST != K.ALLO;
  }

  /** RNFR takes a string. */
  lemma RnfrArm(i: seq<Byte>, t: seq<Byte>, a: seq<Byte>)
    requires DelimitedString(i) == Done(t, a)
    ensures Dispatch(K.RNFR, i) == Done(t, RenameFrom(a))
  {
    assert K.RNFR != K.USER && K.RNFR != K.PASS && K.RNFR != K.ACCT && K.RNFR != K.CWD && K.RNFR != K.CDUP && K.RNFR != SNMT && K.RNFR != K.QUIT;
    assert K.RNFR != K.REIN && K.RNFR != K.PORT && K.RNFR != K.PASV && K.RNFR != K.TYPE && K.RNFR != K.STRU && K.RNFR != K.MODE && K.RNFR != K.RETR;
    assert K.RNFR != K.STOR && K.RNFR != K.STOU && K.RNFR != K.APPE && K.RNFR != K.ALLO && K.RNFR != K.REST;
  }

  /** RNTO takes a string. */
  lemma RntoArm(i: seq<Byte>, t: seq<Byte>, a: seq<Byte>)
    requires DelimitedString(i) == Done(t, a)
    ensures Dispatch(K.RNTO, i) == Done(t, RenameTo(a))
  {
    assert K.RNTO != K.USER && K.RNTO != K.PASS && K.RNTO != K.ACCT && K.RNTO != K.CWD && K.RNTO != K.CDUP && K.RNTO != SNMT && K.RNTO != K.QUIT;
    assert K.RNTO != K.REIN && K.RNTO != K.PORT && K.RNTO != K.PASV && K.RNTO != K.TYPE && K.RNTO != K.STRU && K.RNTO != K.MODE && K.RNTO != K.RETR;
    assert K.RNTO != K.STOR && K.RNTO != K.STOU && K.RNTO != K.APPE && K.RNTO != K.ALLO && K.RNTO != K.REST && K.RNTO != K.RNFR;
  }

  /** ABOR takes no argument. */
  lemma AborArm(i: seq<Byte>)
    ensures Dispatch(K.ABOR, i) == Bare(i, Abort)
  {
    assert K.ABOR != K.USER && K.ABOR != K.PASS && K.ABOR != K.ACCT && K.ABOR != K.CWD && K.ABOR != K.CDUP && K.ABOR != SNMT && K.ABOR != K.QUIT;
    assert K.ABOR != K.REIN && K.ABOR != K.PORT && K.ABOR != K.PASV && K.ABOR != K.TYPE && K.ABOR != K.STRU && K.ABOR != K.MODE && K.ABOR != K.RETR;
    assert K.ABOR != K.STOR && K.ABOR != K.STOU && K.ABOR != K.APPE && K.ABOR != K.ALLO && K.ABOR != K.REST && K.ABOR != K.RNFR && K.ABOR != K.RNTO;
  }

  /** DELE takes a string. */
  lemma DeleArm(i: seq<Byte>, t: seq<Byte>, a: seq<Byte>)
    requires DelimitedString(i) == Done(t, a)
    ensures Dispatch(K.DELE, i) == Done(t, Delete(a))
  {
    assert K.DELE != K.USER && K.DELE != K.PASS && K.DELE != K.ACCT && K.DELE != K.CWD && K.DELE != K.CDUP && K.DELE != SNMT && K.DELE != K.QUIT;
    assert K.DELE != K.REIN && K.DELE != K.PORT && K.DELE != K.PASV && K.DELE != K.TYPE && K.DELE != K.STRU && K.DELE != K.MODE && K.DELE != K.RETR;
    assert K.DELE != K.STOR && K.DELE != K.STOU && K.DELE != K.APPE && K.DELE != K.ALLO && K.DELE != K.REST && K.DELE != K.RNFR && K.DELE != K.RNTO;
    assert K.DELE != K.ABOR;
  }

  /** RMD takes a string. */
  lemma RmdArm(i: seq<Byte>, t: seq<Byte>, a: seq<Byte>)
    requires DelimitedString(i) == Done(t, a)
    ensures Dispatch(K.RMD, i) == Done(t, RemoveDirectory(a))
  {
    assert K.RMD != K.USER && K.RMD != K.PASS && K.RMD != K.ACCT && K.RMD != K.CWD && K.RMD != K.CDUP && K.RMD != SNMT && K.RMD != K.QUIT;
    assert K.RMD != K.REIN && K.RMD != K.PORT && K.RMD != K.PASV && K.RMD != K.TYPE && K.RMD != K.STRU && K.RMD != K.MODE && K.RMD != K.RETR;
    assert K.RMD != K.STOR && K.RMD != K.STOU && K.RMD != K.APPE && K.RMD != K.ALLO && K.RMD != K.REST && K.RMD != K.RNFR && K.RMD != K.RNTO;
    assert K.RMD != K.ABOR && K.RMD != K.DELE;
  }

  /** MKD takes a string. */
  lemma MkdArm(i: seq<Byte>, t: seq<Byte>, a: seq<Byte>)
    requires DelimitedString(i) == Done(t, a)
    ensures Dispatch(K.MKD, i) == Done(t, MakeDirectory(a))
  {
    assert K.MKD != K.USER && K.MKD != K.PASS && K.MKD != K.ACCT && K.MKD != K.CWD && K.MKD != K.CDUP && K.MKD != SNMT && K.MKD != K.QUIT;
    assert K.MKD != K.REIN && K.MKD != K.PORT && K.MKD != K.PASV && K.MKD != K.TYPE && K.MKD != K.STRU && K.MKD != K.MODE && K.MKD != K.RETR;
    assert K.MKD != K.STOR && K.MKD != K.STOU && K.MKD != K.APPE && K.MKD != K.ALLO && K.MKD != K.REST && K.MKD != K.RNFR && K.MKD != K.RNTO;
    assert K.MKD != K.ABOR && K.MKD != K.DELE && K.MKD != K.RMD;
  }

  /** PWD takes no argument. */
  lemma PwdArm(i: seq<Byte>)
    ensures Dispatch(K.PWD, i) == Bare(i, PrintWorkingDirectory)
  {
    assert K.PWD != K.USER && K.PWD != K.PASS && K.PWD != K.ACCT && K.PWD != K.CWD && K.PWD != K.CDUP && K.PWD != SNMT && K.PWD != K.QUIT;
    assert K.PWD != K.REIN && K.PWD != K.PORT && K.PWD != K.PASV && K.PWD != K.TYPE && K.PWD != K.STRU && K.PWD != K.MODE && K.PWD != K.RETR;
    assert K.PWD != K.STOR && K.PWD != K.STOU && K.PWD != K.APPE && K.PWD != K.ALLO && K.PWD != K.REST && K.PWD != K.RNFR && K.PWD != K.RNTO;
    assert K.PWD != K.ABOR && K.PWD != K.DELE && K.PWD != K.RMD && K.PWD != K.MKD;
  }

  /** LIST takes an optional string. */
  lemma ListArm(i: seq<Byte>, t: seq<Byte>, o: Option<seq<Byte>>)
    requires OptionalString(i) == Done(t, o)
    ensures Dispatch(K.LIST, i) == Done(t, List(o))
  {
    assert K.LIST != K.USER && K.LIST != K.PASS && K.LIST != K.ACCT && K.LIST != K.CWD && K.LIST != K.CDUP && K.LIST != SNMT && K.LIST != K.QUIT;
    assert K.LIST != K.REIN && K.LIST != K.PORT && K.LIST != K.PASV && K.LIST != K.TYPE && K.LIST != K.STRU && K.LIST != K.MODE && K.LIST != K.RETR;
    assert K.LIST != K.STOR && K.LIST != K.STOU && K.LIST != K.APPE && K.LIST != K.ALLO && K.LIST != K.REST && K.LIST != K.RNFR && K.LIST != K.RNTO;
    assert K.LIST != K.ABOR && K.LIST != K.DELE && K.LIST != K.RMD && K.LIST != K.MKD && K.LIST != K.PWD;
  }

  /** NLST takes an optional string. */
  lemma NlstArm(i: seq<Byte>, t: seq<Byte>, o: Option<seq<Byte>>)
    requires OptionalString(i) == Done(t, o)
    ensures Dispatch(K.NLST, i) == Done(t, NameList(o))
  {
    assert K.NLST != K.USER && K.NLST != K.PASS && K.NLST != K.ACCT && K.NLST != K.CWD && K.NLST != K.CDUP && K.NLST != SNMT && K.NLST != K.QUIT;
    assert K.NLST != K.REIN && K.NLST != K.PORT && K.NLST != K.PASV && K.NLST != K.TYPE && K.NLST != K.STRU && K.NLST != K.MODE && K.NLST != K.RETR;
    assert K.NLST != K.STOR && K.NLST != K.STOU && K.NLST != K.APPE && K.NLST != K.ALLO && K.NLST != K.REST && K.NLST != K.RNFR && K.NLST != K.RNTO;
    assert K.NLST != K.ABOR && K.NLST != K.DELE && K.NLST != K.RMD && K.NLST != K.MKD && K.NLST != K.PWD && K.NLST != K.LIST;
  }

  /** SITE takes a string. */
  lemma SiteArm(i: seq<Byte>, t: seq<Byte>, a: seq<Byte>)
    requires DelimitedString(i) == Done(t, a)
    ensures Dispatch(K.SITE, i) == Done(t, SiteParameters(a))
  {
    assert K.SITE != K.USER && K.SITE != K.PASS && K.SITE != K.ACCT && K.SITE != K.CWD && K.SITE != K.CDUP && K.SITE != SNMT && K.SITE != K.QUIT;
    assert K.SITE != K.REIN && K.SITE != K.PORT && K.SITE != K.PASV && K.SITE != K.TYPE && K.SITE != K.STRU && K.SITE != K.MODE && K.SITE != K.RETR;
    assert K.SITE != K.STOR && K.SITE != K.STOU && K.SITE != K.APPE && K.SITE != K.ALLO && K.SITE != K.REST && K.SITE != K.RNFR && K.SITE != K.RNTO;
    assert K.SITE != K.ABOR && K.SITE != K.DELE && K.SITE != K.RMD && K.SITE != K.MKD && K.SITE != K.PWD && K.SITE != K.LIST && K.SITE != K.NLST;
  }

  /** SYST takes no argument. */
  lemma SystArm(i: seq<Byte>)
    ensures Dispatch(K.SYST, i) == Bare(i, System)
  {
    assert K.SYST != K.USER && K.SYST != K.PASS && K.SYST != K.ACCT && K.SYST != K.CWD && K.SYST != K.CDUP && K.SYST != SNMT && K.SYST != K.QUIT;
    assert K.SYST != K.REIN && K.SYST != K.PORT && K.SYST != K.PASV && K.SYST != K.TYPE && K.SYST != K.STRU && K.SYST != K.MODE && K.SYST != K.RETR;
    assert K.SYST != K.STOR && K.SYST != K.STOU && K.SYST != K.APPE && K.SYST != K.ALLO && K.SYST != K.REST && K.SYST != K.RNFR && K.SYST != K.RNTO;
    assert K.SYST != K.ABOR && K.SYST != K.DELE && K.SYST != K.RMD && K.SYST != K.MKD && K.SYST != K.PWD && K.SYST != K.LIST && K.SYST != K.NLST;
    assert K.SYST != K.SITE;
  }

  /** STAT takes an optional string. */
  lemma StatArm(i: seq<Byte>, t: seq<Byte>, o: Option<seq<Byte>>)
    requires OptionalString(i) == Done(t, o)
    ensures Dispatch(K.STAT, i) == Done(t, Status(o))
  {
    assert K.STAT != K.USER && K.STAT != K.PASS && K.STAT != K.ACCT && K.STAT != K.CWD && K.STAT != K.CDUP && K.STAT != SNMT && K.STAT != K.QUIT;
    assert K.STAT != K.REIN && K.STAT != K.PORT && K.STAT != K.PASV && K.STAT != K.TYPE && K.STAT != K.STRU && K.STAT != K.MODE && K.STAT != K.RETR;
    assert K.STAT != K.STOR && K.STAT != K.STOU && K.STAT != K.APPE && K.STAT != K.ALLO && K.STAT != K.REST && K.STAT != K.RNFR && K.STAT != K.RNTO;
    assert K.STAT != K.ABOR && K.STAT != K.DELE && K.STAT != K.RMD && K.STAT != K.MKD && K.STAT != K.PWD && K.STAT != K.LIST && K.STAT != K.NLST;
    assert K.STAT != K.SITE && K.STAT != K.SYST;
  }

  /** HELP takes an optional string. */
  lemma HelpArm(i: seq<Byte>, t: seq<Byte>, o: Option<seq<Byte>>)
    requires OptionalString(i) == Done(t, o)
    ensures Dispatch(K.HELP, i) == Done(t, Help(o))
  {
    assert K.HELP != K.USER && K.HELP != K.PASS && K.HELP != K.ACCT && K.HELP != K.CWD && K.HELP != K.CDUP && K.HELP != SNMT && K.HELP != K.QUIT;
    assert K.HELP != K.REIN && K.HELP != K.PORT && K.HELP != K.PASV && K.HELP != K.TYPE && K.HELP != K.STRU && K.HELP != K.MODE && K.HELP != K.RETR;
    assert K.HELP != K.STOR && K.HELP != K.STOU && K.HELP != K.APPE && K.HELP != K.ALLO && K.HELP != K.REST && K.HELP != K.RNFR && K.HELP != K.RNTO;
    assert K.HELP != K.ABOR && K.HELP != K.DELE && K.HELP != K.RMD && K.HELP != K.MKD && K.HELP != K.PWD && K.HELP != K.LIST && K.HELP != K.NLST;
    assert K.HELP != K.SITE && K.HELP != K.SYST && K.HELP != K.STAT;
  }

  /** NOOP takes no argument. */
  lemma NoopArm(i: seq<Byte>)
    ensures Dispatch(K.NOOP, i) == Bare(i, Noop)
  {
    assert K.NOOP != K.USER && K.NOOP != K.PASS && K.NOOP != K.ACCT && K.NOOP != K.CWD && K.NOOP != K.CDUP && K.NOOP != SNMT && K.NOOP != K.QUIT;
    assert K.NOOP != K.REIN && K.NOOP != K.PORT && K.NOOP != K.PASV && K.NOOP != K.TYPE && K.NOOP != K.STRU && K.NOOP != K.MODE && K.NOOP != K.RETR;
    assert K.NOOP != K.STOR && K.NOOP != K.STOU && K.NOOP != K.APPE && K.NOOP != K.ALLO && K.NOOP != K.REST && K.NOOP != K.RNFR && K.NOOP != K.RNTO;
    assert K.NOOP != K.ABOR && K.NOOP != K.DELE && K.NOOP != K.RMD && K.NOOP != K.MKD && K.NOOP != K.PWD && K.NOOP != K.LIST && K.NOOP != K.NLST;
    assert K.NOOP != K.SITE && K.NOOP != K.SYST && K.NOOP != K.STAT && K.NOOP != K.HELP;
  }

  // The keyword the serializer spells for each variant.

  lemma KeywordOfUserName(a: seq<Byte>)
    ensures Keyword(UserName(a)) == K.USER
  {
  }

  lemma KeywordOfPassword(a: seq<Byte>)
    ensures Keyword(Password(a)) == K.PASS
  {
  }

  lemma KeywordOfAccount(a: seq<Byte>)
    ensures Keyword(Account(a)) == K.ACCT
  {
  }

  lemma KeywordOfChangeWorkingDirectory(a: seq<Byte>)
    ensures Keyword(ChangeWorkingDirectory(a)) == K.CWD
  {
  }

  lemma KeywordOfChangeToParentDirectory()
    ensures Keyword(ChangeToParentDirectory) == K.CDUP
  {
  }

  lemma KeywordOfStructureMount(a: seq<Byte>)
    ensures Keyword(StructureMount(a)) == K.SMNT
  {
  }

  lemma KeywordOfLogout()
    ensures Keyword(Logout) == K.QUIT
  {
  }

  lemma KeywordOfReinitialize()
    ensures Keyword(Reinitialize) == K.REIN
  {
  }

  lemma KeywordOfDataPort(address: Ipv4Addr, port: U16)
    ensures Keyword(DataPort(address, port)) == K.PORT
  {
  }

  lemma KeywordOfPassive()
    ensures Keyword(Passive) == K.PASV
  {
  }

  lemma KeywordOfRepresentationType(typeKind: RepresentationTypeKind)
    ensures Keyword(RepresentationType(typeKind)) == K.TYPE
  {
  }

  lemma KeywordOfFileStructure(structureKind: FileStructureKind)
    ensures Keyword(FileStructure(structureKind)) == K.STRU
  {
  }

  lemma KeywordOfTransferMode(modeKind: TransferModeKind)
    ensures Keyword(TransferMode(modeKind)) == K.MODE
  {
  }

  lemma KeywordOfRetrieve(a: seq<Byte>)
    ensures Keyword(Retrieve(a)) == K.RETR
  {
  }

  lemma KeywordOfStore(a: seq<Byte>)
    ensures Keyword(Store(a)) == K.STOR
  {
  }

  lemma KeywordOfStoreUnique()
    ensures Keyword(StoreUnique) == K.STOU
  {
  }

  lemma KeywordOfAppend(a: seq<Byte>)
    ensures Keyword(Append(a)) == K.APPE
  {
  }

  lemma KeywordOfAllocate(reserve: I64, maximumSize: Option<I64>)
    ensures Keyword(Allocate(reserve, maximumSize)) == K.ALLO
  {
  }

  lemma KeywordOfRestart(a: seq<Byte>)
    ensures Keyword(Restart(a)) == K.REST
  {
  }

  lemma KeywordOfRenameFrom(a: seq<Byte>)
    ensures Keyword(RenameFrom(a)) == K.RNFR
  {
  }

  lemma KeywordOfRenameTo(a: seq<Byte>)
    ensures Keyword(RenameTo(a)) == K.RNTO
  {
  }

  lemma KeywordOfAbort()
    ensures Keyword(Abort) == K.ABOR
  {
  }

  lemma KeywordOfDelete(a: seq<Byte>)
    ensures Keyword(Delete(a)) == K.DELE
  {
  }

  lemma KeywordOfRemoveDirectory(a: seq<Byte>)
    ensures Keyword(RemoveDirectory(a)) == K.RMD
  {
  }

  lemma KeywordOfMakeDirectory(a: seq<Byte>)
    ensures Keyword(MakeDirectory(a)) == K.MKD
  {
  }

  lemma KeywordOfPrintWorkingDirectory()
    ensures Keyword(PrintWorkingDirectory) == K.PWD
  {
  }

  lemma KeywordOfList(o: Option<seq<Byte>>)
    ensures Keyword(List(o)) == K.LIST
  {
  }

  lemma KeywordOfNameList(o: Option<seq<Byte>>)
    ensures Keyword(NameList(o)) == K.NLST
  {
  }

  lemma KeywordOfSiteParameters(a: seq<Byte>)
    ensures Keyword(SiteParameters(a)) == K.SITE
  {
  }

  lemma KeywordOfSystem()
    ensures Keyword(System) == K.SYST
  {
  }

  lemma KeywordOfStatus(o: Option<seq<Byte>>)
    ensures Keyword(Status(o)) == K.STAT
  {
  }

  lemma KeywordOfHelp(o: Option<seq<Byte>>)
    ensures Keyword(Help(o)) == K.HELP
  {
  }

  lemma KeywordOfNoop()
    ensures Keyword(Noop) == K.NOOP
  {
  }
}

/** The `Serializeable` impls of ftp/src/serializer/serializeable.rs: how
    each kind of command argument is written to a `Write` sink. Each
    encoding is a function; each impl is a method that appends it with
    `write_all` calls, in the order the source makes them. */
module Serializeable {
  import opened Prelude
  import opened Messages
  import opened Io

  // ---------------------------------------------------------------------
  // Encodings

  /** `u8`: its decimal text. */
  function EncodeU8(n: Byte): (r: seq<Byte>)
    ensures 1 <= |r| <= 3
    ensures forall i :: 0 <= i < |r| ==> IsDigit(r[i])
  {
    DecimalLength(n);
    Decimal(n)
  }

  /** Numbers below 1000 have at most three decimal digits. */
  lemma DecimalLength(n: nat)
    requires n < 1000
    ensures |Decimal(n)| <= 3
  {
    if n >= 10 {
      if n >= 100 {
        assert |Decimal(n / 10 / 10)| == 1;
      }
    }
  }

  /** `[u8]` and `Vec<u8>`: the bytes as they are. */
  function Verbatim(b: seq<Byte>): (r: seq<Byte>)
    ensures r == b
  {
    b
  }

  /** `i64`: its decimal text, with a `-` in front of a negative value. */
  function EncodeI64(x: I64): (r: seq<Byte>)
    ensures 1 <= |r|
    ensures x < 0 <==> r[0] == HYPHEN
  {
    SignedDecimal(x)
  }

  /** `Option<T>`: nothing for `None`, a space and the value for `Some`. */
  function EncodeOption<T>(o: Option<T>, encode: T -> seq<Byte>): (r: seq<Byte>)
    ensures o.None? <==> r == []
    ensures o.Some? ==> r[0] == SP && r[1..] == encode(o.value)
  {
    match o
    case None => []
    case Some(v) => [SP] + encode(v)
  }

  /** `FormatControl`: N, T or C. */
  function EncodeFormatControl(f: FormatControl): (r: seq<Byte>)
    ensures |r| == 1
  {
    match f
    case NonPrint => [78]
    case Telnet => [84]
    case Carriage => [67]
  }

  /** `FileStructureKind`: F, R or P. */
  function EncodeFileStructure(k: FileStructureKind): (r: seq<Byte>)
    ensures |r| == 1
  {
    match k
    case File => [70]
    case Record => [82]
    case Page => [80]
  }

  /** `TransferModeKind`: S, B or C. */
  function EncodeTransferMode(k: TransferModeKind): (r: seq<Byte>)
    ensures |r| == 1
  {
    match k
    case Stream => [83]
    case Block => [66]
    case Compressed => [67]
  }

  /** `RepresentationTypeKind`: the sub-argument is written first and the
      letter after it, so `Ascii(Some(NonPrint))` becomes ` NA` and
      `LocalByte(8)` becomes `8L`. */
  function EncodeRepresentationType(k: RepresentationTypeKind): (r: seq<Byte>)
    ensures 1 <= |r| && r[|r| - 1] == (match k case Ascii(_) => 65 case Ebcdic(_) => 69 case Image => 73 case LocalByte(_) => 76)
    ensures (k.Ascii? || k.Ebcdic?) ==> r[..|r| - 1] == EncodeOption(k.form, EncodeFormatControl)
    ensures k.Image? ==> |r| == 1
    ensures k.LocalByte? ==> r[..|r| - 1] == EncodeU8(k.byteSize)
  {
    match k
    case Ascii(form) => EncodeOption(form, EncodeFormatControl) + [65]
    case Ebcdic(form) => EncodeOption(form, EncodeFormatControl) + [69]
    case Image => [73]
    case LocalByte(size) => EncodeU8(size) + [76]
  }

  /** Each octet followed by a comma. */
  function CommaTerminated(octets: seq<Byte>): (r: seq<Byte>)
    ensures octets == [] <==> r == []
  {
    if octets == [] then [] else EncodeU8(octets[0]) + [COMMA] + CommaTerminated(octets[1..])
  }

  /** `CommaTerminated` grows at the end one octet at a time. */
  lemma {:induction false} CommaTerminatedSnoc(octets: seq<Byte>, o: Byte)
    ensures CommaTerminated(octets + [o]) == CommaTerminated(octets) + EncodeU8(o) + [COMMA]
  {
    if octets != [] {
      assert (octets + [o])[1..] == octets[1..] + [o];
      CommaTerminatedSnoc(octets[1..], o);
    }
  }

  /** `(Ipv4Addr, u16)`: the four octets, each followed by a comma, then
      the high and the low byte of the port with a comma between them. */
  function EncodeHostPort(address: Ipv4Addr, port: U16): (r: seq<Byte>)
  {
    CommaTerminated(address.Octets()) + EncodeU8(port / 256) + [COMMA] + EncodeU8(port % 256)
  }

  /** A host-port is six decimal fields separated by five commas. */
  lemma HostPortFields(address: Ipv4Addr, port: U16)
    ensures EncodeHostPort(address, port) ==
      EncodeU8(address.a) + [COMMA] + EncodeU8(address.b) + [COMMA] +
      EncodeU8(address.c) + [COMMA] + EncodeU8(address.d) + [COMMA] +
      EncodeU8(port / 256) + [COMMA] + EncodeU8(port % 256)
    ensures 11 <= |EncodeHostPort(address, port)| <= 23
  {
    var o := address.Octets();
    var ea, eb, ec, ed := EncodeU8(address.a), EncodeU8(address.b), EncodeU8(address.c), EncodeU8(address.d);
    var hi, lo := EncodeU8(port / 256), EncodeU8(port % 256);
    assert o[3..][1..] == [];
    var t3 := CommaTerminated(o[3..]);
    assert t3 == ed + [COMMA];
    assert o[2..][1..] == o[3..];
    var t2 := CommaTerminated(o[2..]);
    assert t2 == ec + [COMMA] + t3;
    assert o[1..][1..] == o[2..];
    var t1 := CommaTerminated(o[1..]);
    assert t1 == eb + [COMMA] + t2;
    assert CommaTerminated(o) == ea + [COMMA] + t1;
    FieldsRegroup(ea, eb, ec, ed, hi, lo, [COMMA]);
  }

  /** The regrouping `HostPortFields` needs, over plain sequences. */
  lemma FieldsRegroup(ea: seq<Byte>, eb: seq<Byte>, ec: seq<Byte>, ed: seq<Byte>,
                      hi: seq<Byte>, lo: seq<Byte>, comma: seq<Byte>)
    ensures ea + comma + (eb + comma + (ec + comma + (ed + comma))) + hi + comma + lo ==
      ea + comma + eb + comma + ec + comma + ed + comma + hi + comma + lo
  {
  }

  // ---------------------------------------------------------------------
  // The impls, writing to a sink

  /** `[u8]` and `Vec<u8>`: the bytes as they are. */
  method WriteBytes(w: Writer, bytes: seq<Byte>)
    modifies w
    ensures w.written == old(w.written) + bytes && w.flushes == old(w.flushes)
  {
    w.WriteAll(bytes);
  }

  method WriteU8(w: Writer, n: Byte)
    modifies w
    ensures w.written == old(w.written) + EncodeU8(n) && w.flushes == old(w.flushes)
  {
    WriteBytes(w, EncodeU8(n));
  }

  method WriteI64(w: Writer, x: I64)
    modifies w
    ensures w.written == old(w.written) + EncodeI64(x) && w.flushes == old(w.flushes)
  {
    WriteBytes(w, EncodeI64(x));
  }

  method WriteFormatControl(w: Writer, f: FormatControl)
    modifies w
    ensures w.written == old(w.written) + EncodeFormatControl(f) && w.flushes == old(w.flushes)
  {
    WriteBytes(w, EncodeFormatControl(f));
  }

  method WriteFileStructure(w: Writer, k: FileStructureKind)
    modifies w
    ensures w.written == old(w.written) + EncodeFileStructure(k) && w.flushes == old(w.flushes)
  {
    WriteBytes(w, EncodeFileStructure(k));
  }

  method WriteTransferMode(w: Writer, k: TransferModeKind)
    modifies w
    ensures w.written == old(w.written) + EncodeTransferMode(k) && w.flushes == old(w.flushes)
  {
    WriteBytes(w, EncodeTransferMode(k));
  }

  /** `Option<FormatControl>`. */
  method WriteOptionalForm(w: Writer, form: Option<FormatControl>)
    modifies w
    ensures w.written == old(w.written) + EncodeOption(form, EncodeFormatControl) && w.flushes == old(w.flushes)
  {
    if form.Some? {
      WriteBytes(w, [SP]);
      WriteFormatControl(w, form.value);
    }
  }

  /** `Option<Vec<u8>>`. */
  method WriteOptionalBytes(w: Writer, o: Option<seq<Byte>>)
    modifies w
    ensures w.written == old(w.written) + EncodeOption(o, Verbatim) && w.flushes == old(w.flushes)
  {
    if o.Some? {
      WriteBytes(w, [SP]);
      WriteBytes(w, o.value);
    }
  }

  /** The sub-argument first, then the letter. */
  method WriteRepresentationType(w: Writer, k: RepresentationTypeKind)
    modifies w
    ensures w.written == old(w.written) + EncodeRepresentationType(k) && w.flushes == old(w.flushes)
  {
    var letter: seq<Byte>;
    match k {
      case Ascii(form) =>
        WriteOptionalForm(w, form);
        letter := [65];
      case Ebcdic(form) =>
        WriteOptionalForm(w, form);
        letter := [69];
      case Image =>
        letter := [73];
      case LocalByte(size) =>
        WriteU8(w, size);
        letter := [76];
    }
    WriteBytes(w, letter);
  }

  /** The `for` loop over the octets, then the port. */
  method WriteHostPort(w: Writer, address: Ipv4Addr, port: U16)
    modifies w
    ensures w.written == old(w.written) + EncodeHostPort(address, port) && w.flushes == old(w.flushes)
  {
    var octets := address.Octets();
    for i := 0 to 4
      invariant w.written == old(w.written) + CommaTerminated(octets[..i])
      invariant w.flushes == old(w.flushes)
    {
      WriteU8(w, octets[i]);
      WriteBytes(w, [COMMA]);
      assert w.written == old(w.written) + (CommaTerminated(octets[..i]) + EncodeU8(octets[i]) + [COMMA]);
      assert octets[..i + 1] == octets[..i] + [octets[i]];
      CommaTerminatedSnoc(octets[..i], octets[i]);
    }
    assert octets[..4] == octets;
    var hi, lo := port / 256, port % 256;
    WriteU8(w, hi);
    WriteBytes(w, [COMMA]);
    WriteU8(w, lo);
    assert w.written == old(w.written) + (CommaTerminated(octets) + EncodeU8(hi) + [COMMA] + EncodeU8(lo));
  }
}

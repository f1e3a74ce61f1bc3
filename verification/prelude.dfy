/** Byte-level vocabulary shared by the whole codec: bytes, the fixed-width
    integers of the Rust types, ASCII classes, `Option`, and the decimal
    rendering that `to_string` performs on `u8` and `i64`. */
module Prelude {

  type Byte = x: int | 0 <= x < 0x100
  type U16 = x: int | 0 <= x < 0x1_0000
  type I64 = x: int | -0x8000_0000_0000_0000 <= x < 0x8000_0000_0000_0000

  datatype Option<+T> = None | Some(value: T)

  const CR: Byte := 13
  const LF: Byte := 10
  const SP: Byte := 32
  const COMMA: Byte := 44
  const HYPHEN: Byte := 45
  const CRLF: seq<Byte> := [13, 10]

  predicate IsDigit(c: Byte) { 48 <= c <= 57 }

  /** Rust `u8::to_ascii_lowercase`, used by nom's case-insensitive compare. */
  function ToLower(c: Byte): Byte { if 65 <= c <= 90 then c + 32 else c }

  /** Rust `u8::to_ascii_uppercase`. */
  function ToUpper(c: Byte): Byte { if 97 <= c <= 122 then c - 32 else c }

  /** Rust `<[u8]>::to_ascii_uppercase`. */
  function UpperCase(s: seq<Byte>): (r: seq<Byte>)
    ensures |r| == |s|
    ensures forall k :: 0 <= k < |r| ==> r[k] == ToUpper(s[k])
  {
    seq(|s|, i requires 0 <= i < |s| => ToUpper(s[i]))
  }

  /** `true` when `\r\n` starts at position `i` of `s`. */
  predicate CrlfAt(s: seq<Byte>, i: int) {
    0 <= i && i + 1 < |s| && s[i] == CR && s[i + 1] == LF
  }

  /** `s` holds the two bytes `\r\n` next to each other somewhere. */
  predicate ContainsCrlf(s: seq<Byte>) {
    exists i :: 0 <= i < |s| && CrlfAt(s, i)
  }

  predicate StartsWith(s: seq<Byte>, prefix: seq<Byte>) {
    |prefix| <= |s| && s[..|prefix|] == prefix
  }

  /** `rest` is what is left of `s` after a prefix was consumed. */
  predicate IsSuffix(rest: seq<Byte>, s: seq<Byte>) {
    |rest| <= |s| && s[|s| - |rest|..] == rest
  }

  lemma SuffixTransitive(a: seq<Byte>, b: seq<Byte>, c: seq<Byte>)
    requires IsSuffix(a, b) && IsSuffix(b, c)
    ensures IsSuffix(a, c)
  {
    assert c[|c| - |a|..] == c[|c| - |b|..][|b| - |a|..];
  }

  /** The lines one after the other, each followed by `\r\n`. */
  function CrlfTerminated(lines: seq<seq<Byte>>): (r: seq<Byte>)
    ensures |r| >= 2 * |lines|
  {
    if lines == [] then [] else lines[0] + CRLF + CrlfTerminated(lines[1..])
  }

  /** `CrlfTerminated` grows at the end one line at a time. */
  lemma {:induction false} CrlfTerminatedSnoc(lines: seq<seq<Byte>>, line: seq<Byte>)
    ensures CrlfTerminated(lines + [line]) == CrlfTerminated(lines) + line + CRLF
  {
    if lines != [] {
      assert (lines + [line])[1..] == lines[1..] + [line];
      CrlfTerminatedSnoc(lines[1..], line);
    }
  }

  /** The chunks one after the other. */
  function Flatten(chunks: seq<seq<Byte>>): seq<Byte>
  {
    if chunks == [] then [] else chunks[0] + Flatten(chunks[1..])
  }

  /** The decimal digits of `n`, most significant first, without leading
      zeros: what `to_string` produces for an unsigned integer. */
  function Decimal(n: nat): (r: seq<Byte>)
    ensures 1 <= |r|
    ensures forall i :: 0 <= i < |r| ==> IsDigit(r[i])
    decreases n
  {
    if n < 10 then [48 + n] else Decimal(n / 10) + [48 + n % 10]
  }

  /** The number a non-empty run of decimal digits denotes. */
  function DigitsValue(ds: seq<Byte>): nat
    requires forall i :: 0 <= i < |ds| ==> IsDigit(ds[i])
  {
    if ds == [] then 0
    else
      var last := ds[|ds| - 1];
      assert IsDigit(last);
      DigitsValue(ds[..|ds| - 1]) * 10 + (last - 48)
  }

  /** Decimal rendering denotes the number rendered, and has no leading zero. */
  lemma {:induction false} DecimalDenotes(n: nat)
    ensures DigitsValue(Decimal(n)) == n
    ensures Decimal(n)[0] == 48 ==> n == 0
    decreases n
  {
    if n >= 10 {
      DecimalDenotes(n / 10);
      var d := Decimal(n);
      assert d[..|d| - 1] == Decimal(n / 10);
    }
  }

  /** `i64::to_string`: a leading `-` for negative values. */
  function SignedDecimal(x: int): (r: seq<Byte>)
    ensures 1 <= |r|
    ensures x < 0 <==> r[0] == HYPHEN
  {
    if x < 0 then [HYPHEN] + Decimal(-x) else Decimal(x)
  }

  /** The digits after the sign are those of the magnitude of `x`: they
      denote it and start with a zero only when `x` is zero. */
  lemma SignedDecimalDenotes(x: int)
    ensures SignedDecimal(x)[if x < 0 then 1 else 0..] == Decimal(if x < 0 then -x else x)
    ensures DigitsValue(Decimal(if x < 0 then -x else x)) == (if x < 0 then -x else x)
    ensures SignedDecimal(x)[if x < 0 then 1 else 0] == 48 ==> x == 0
  {
    var m: nat := if x < 0 then -x else x;
    DecimalDenotes(m);
    if x < 0 {
      assert SignedDecimal(x) == [HYPHEN] + Decimal(m);
      assert SignedDecimal(x)[1..] == Decimal(m);
    }
  }
}

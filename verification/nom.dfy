/** The streaming semantics of the few nom 7 primitives the parsers are built
    from. A streaming parser is handed the bytes that have arrived so far and
    answers `Done` (a value and the unconsumed rest), `Incomplete` (the bytes
    so far may still become valid; `Size(n)` when at least `n` more are
    needed, `Unknown` when that cannot be told) or `Error` (no continuation
    can make the bytes valid). */
module Nom {
  import opened Prelude

  type Pos = n: nat | 0 < n witness 1

  /** nom `Needed`; `Size` carries a `NonZeroUsize`. */
  datatype Needed = Unknown | Size(n: Pos)

  /** The success half of an `IResult`, what `:-` binds. */
  datatype Parsed<T> = Parsed(rest: seq<Byte>, value: T)

  /** nom `IResult<&[u8], T>`. `Error` carries the input at which the failing
      parser was applied (the `input` field of nom's default error).
      `Panic` stands for the Rust code aborting the thread (`unreachable!`). */
  datatype IResult<T> =
    | Done(rest: seq<Byte>, value: T)
    | Incomplete(needed: Needed)
    | Error(input: seq<Byte>)
    | Panic
  {
    predicate IsFailure() { !Done? }

    function PropagateFailure<U>(): IResult<U>
      requires !Done?
    {
      match this
      case Incomplete(n) => Incomplete(n)
      case Error(i) => Error(i)
      case Panic => Panic
    }

    function Extract(): Parsed<T>
      requires Done?
    {
      Parsed(rest, value)
    }
  }

  /** The result consumed a prefix of `s` (nom hands back a sub-slice). */
  predicate ConsumesPrefix<T>(r: IResult<T>, s: seq<Byte>) {
    r.Done? ==> IsSuffix(r.rest, s)
  }

  /** The result consumed a non-empty prefix of `s`. */
  predicate MakesProgress<T>(r: IResult<T>, s: seq<Byte>) {
    r.Done? ==> IsSuffix(r.rest, s) && |r.rest| < |s|
  }

  // ---------------------------------------------------------------------
  // tag / tag_no_case

  datatype CompareResult = Matches | Short | Mismatch

  predicate SameByte(a: Byte, b: Byte, noCase: bool) {
    if noCase then ToLower(a) == ToLower(b) else a == b
  }

  /** nom `Compare::compare` (or `compare_no_case`) of the input `s` against
      the literal `t`, looking from position `k` on: a differing byte
      anywhere in the overlap is a mismatch, otherwise a shorter input is
      short. */
  function CompareFrom(s: seq<Byte>, t: seq<Byte>, noCase: bool, k: nat): CompareResult
    requires k <= |s| && k <= |t|
    decreases |t| - k
  {
    if k == |t| then Matches
    else if k == |s| then Short
    else if !SameByte(s[k], t[k], noCase) then Mismatch
    else CompareFrom(s, t, noCase, k + 1)
  }

  lemma {:induction false} CompareFromSpec(s: seq<Byte>, t: seq<Byte>, noCase: bool, k: nat)
    requires k <= |s| && k <= |t|
    ensures CompareFrom(s, t, noCase, k) == Matches <==>
      |t| <= |s| && forall j :: k <= j < |t| ==> SameByte(s[j], t[j], noCase)
    ensures CompareFrom(s, t, noCase, k) == Short <==>
      |s| < |t| && forall j :: k <= j < |s| ==> SameByte(s[j], t[j], noCase)
    decreases |t| - k
  {
    if k < |t| && k < |s| && SameByte(s[k], t[k], noCase) {
      CompareFromSpec(s, t, noCase, k + 1);
    }
  }

  function TagWith(s: seq<Byte>, t: seq<Byte>, noCase: bool): IResult<seq<Byte>> {
    CompareFromSpec(s, t, noCase, 0);
    match CompareFrom(s, t, noCase, 0)
    case Matches => Done(s[|t|..], s[..|t|])
    case Short => Incomplete(Size(|t| - |s|))
    case Mismatch => Error(s)
  }

  /** nom `bytes::streaming::tag`. */
  function Tag(s: seq<Byte>, t: seq<Byte>): (r: IResult<seq<Byte>>)
    ensures r.Done? <==> StartsWith(s, t)
    ensures r.Done? ==> r.rest == s[|t|..] && r.value == t
    ensures r.Incomplete? <==> |s| < |t| && s == t[..|s|]
    ensures r.Incomplete? ==> r.needed == Size(|t| - |s|)
    ensures r.Error? ==> r.input == s
    ensures !r.Panic?
  {
    CompareFromSpec(s, t, false, 0);
    TagWith(s, t, false)
  }

  /** nom `bytes::streaming::tag_no_case`: ASCII letters compare without
      regard to case; the matched input bytes are returned as they are. */
  function TagNoCase(s: seq<Byte>, t: seq<Byte>): (r: IResult<seq<Byte>>)
    ensures r.Done? <==> |t| <= |s| && forall j :: 0 <= j < |t| ==> ToLower(s[j]) == ToLower(t[j])
    ensures r.Done? ==> r.rest == s[|t|..] && r.value == s[..|t|]
    ensures r.Incomplete? <==> |s| < |t| && forall j :: 0 <= j < |s| ==> ToLower(s[j]) == ToLower(t[j])
    ensures r.Incomplete? ==> r.needed == Size(|t| - |s|)
    ensures r.Error? ==> r.input == s
    ensures !r.Panic?
  {
    CompareFromSpec(s, t, true, 0);
    TagWith(s, t, true)
  }

  // ---------------------------------------------------------------------
  // alt, opt

  /** nom `alt` of two alternatives: the second is tried only when the first
      is an `Error`; `Incomplete` is returned at once. */
  function Alt<T>(a: IResult<T>, b: IResult<T>): IResult<T> {
    if a.Error? then b else a
  }

  /** nom `opt` applied to the input `s`: an `Error` becomes `None` with the
      input left as it was. */
  function Opt<T>(r: IResult<T>, s: seq<Byte>): (o: IResult<Option<T>>)
    ensures r.Error? ==> o == Done(s, None)
    ensures r.Done? ==> o == Done(r.rest, Some(r.value))
    ensures r.Incomplete? ==> o == Incomplete(r.needed)
    ensures r.Panic? <==> o.Panic?
  {
    match r
    case Done(rest, v) => Done(rest, Some(v))
    case Error(_) => Done(s, None)
    case Incomplete(n) => Incomplete(n)
    case Panic => Panic
  }

  // ---------------------------------------------------------------------
  // char, take, take_until, take_while1

  /** nom `character::streaming::char`. */
  function Char(s: seq<Byte>, c: Byte): (r: IResult<Byte>)
    ensures r.Done? <==> 0 < |s| && s[0] == c
    ensures r.Done? ==> r.rest == s[1..] && r.value == c
    ensures r.Incomplete? <==> |s| == 0
    ensures r.Incomplete? ==> r.needed == Size(1)
    ensures r.Error? ==> r.input == s
    ensures !r.Panic?
  {
    if |s| == 0 then Incomplete(Size(1))
    else if s[0] == c then Done(s[1..], c)
    else Error(s)
  }

  /** nom `bytes::streaming::take(n)`. */
  function Take(s: seq<Byte>, n: nat): (r: IResult<seq<Byte>>)
    ensures r.Done? <==> n <= |s|
    ensures r.Done? ==> r.value == s[..n] && r.rest == s[n..]
    ensures r.Incomplete? ==> r.needed == Size(n - |s|)
    ensures r.Done? || r.Incomplete?
  {
    if |s| < n then Incomplete(Size(n - |s|)) else Done(s[n..], s[..n])
  }

  /** Position of the first `\r\n` at or after `from`, if any. */
  function FirstCrlf(s: seq<Byte>, from: nat): (r: Option<nat>)
    ensures r.Some? ==> from <= r.value && CrlfAt(s, r.value)
    ensures r.Some? ==> forall j :: from <= j < r.value ==> !CrlfAt(s, j)
    ensures r.None? ==> forall j :: from <= j ==> !CrlfAt(s, j)
    decreases |s| - from
  {
    if from + 1 >= |s| then None
    else if CrlfAt(s, from) then Some(from)
    else FirstCrlf(s, from + 1)
  }

  /** nom `bytes::streaming::take_until("\r\n")`: the bytes before the first
      `\r\n`, which is left in the input; without one, the size is unknown. */
  function TakeUntilCrlf(s: seq<Byte>): (r: IResult<seq<Byte>>)
    ensures r.Done? <==> ContainsCrlf(s)
    ensures r.Done? ==> r.value + r.rest == s && StartsWith(r.rest, CRLF) && !ContainsCrlf(r.value)
    ensures r.Incomplete? ==> r.needed == Unknown
    ensures r.Done? || r.Incomplete?
  {
    match FirstCrlf(s, 0)
    case None => Incomplete(Unknown)
    case Some(i) =>
      assert forall j :: 0 <= j < i ==> (CrlfAt(s[..i], j) ==> CrlfAt(s, j));
      assert s[i..][..2] == CRLF;
      Done(s[i..], s[..i])
  }

  /** Position of the first byte at or after `from` that `p` rejects, or
      `|s|` when there is none. */
  function FirstRejected(s: seq<Byte>, p: Byte -> bool, from: nat): (r: nat)
    requires from <= |s|
    ensures from <= r <= |s|
    ensures forall j :: from <= j < r ==> p(s[j])
    ensures r < |s| ==> !p(s[r])
    decreases |s| - from
  {
    if from == |s| || !p(s[from]) then from else FirstRejected(s, p, from + 1)
  }

  /** nom `bytes::streaming::take_while1(p)`: at least one byte satisfying
      `p`; running into the end of the input is `Incomplete(Size(1))`. */
  function TakeWhile1(s: seq<Byte>, p: Byte -> bool): (r: IResult<seq<Byte>>)
    ensures r.Done? ==> 0 < |r.value| && 0 < |r.rest| && r.value + r.rest == s
    ensures r.Done? ==> (forall j :: 0 <= j < |r.value| ==> p(r.value[j])) && !p(r.rest[0])
    ensures r.Incomplete? <==> forall j :: 0 <= j < |s| ==> p(s[j])
    ensures r.Incomplete? ==> r.needed == Size(1)
    ensures r.Error? <==> 0 < |s| && !p(s[0])
    ensures r.Error? ==> r.input == s
    ensures !r.Panic?
  {
    var i := FirstRejected(s, p, 0);
    if i == |s| then Incomplete(Size(1))
    else if i == 0 then Error(s)
    else
      assert s[..i] + s[i..] == s;
      Done(s[i..], s[..i])
  }

  // ---------------------------------------------------------------------
  // character::streaming::u8

  /** The digit loop of nom's `u8`: `started` is false before the first
      digit; a value above 255 is an error; running out of input while still
      reading digits is `Incomplete(Size(1))`. */
  function U8Digits(s: seq<Byte>, value: Byte, started: bool): IResult<Byte>
    decreases |s|
  {
    if |s| == 0 then Incomplete(Size(1))
    else if !IsDigit(s[0]) then (if started then Done(s, value) else Error(s))
    else if value * 10 + (s[0] - 48) > 255 then Error(s)
    else U8Digits(s[1..], value * 10 + (s[0] - 48), true)
  }

  /** nom `character::streaming::u8`; an error reports the whole input. */
  function U8(s: seq<Byte>): (r: IResult<Byte>)
    ensures r.Error? ==> r.input == s
  {
    if |s| == 0 then Incomplete(Size(1))
    else
      match U8Digits(s, 0, false)
      case Error(_) => Error(s)
      case other => other
  }

  /** `u8` reads back what decimal rendering wrote, and stops at the first
      byte that is not a digit. */
  lemma {:induction false} U8DigitsReadsDecimal(n: nat, t: seq<Byte>)
    requires n < 0x100
    ensures U8Digits(Decimal(n) + t, 0, false) == U8Digits(t, n, true)
    decreases n
  {
    if n >= 10 {
      var d: Byte := 48 + n % 10;
      assert Decimal(n) + t == Decimal(n / 10) + ([d] + t);
      U8DigitsReadsDecimal(n / 10, [d] + t);
      assert ([d] + t)[1..] == t;
    } else {
      assert (Decimal(n) + t)[1..] == t;
    }
  }

  lemma U8ReadsDecimal(n: Byte, t: seq<Byte>)
    requires t == [] || !IsDigit(t[0])
    ensures U8(Decimal(n) + t) == if t == [] then Incomplete(Size(1)) else Done(t, n)
  {
    U8DigitsReadsDecimal(n, t);
  }

  lemma {:induction false} U8DigitsConsumes(s: seq<Byte>, value: Byte, started: bool)
    ensures MakesProgress(U8Digits(s, value, started), s) || (started && U8Digits(s, value, started) == Done(s, value))
    ensures !U8Digits(s, value, started).Panic?
    ensures U8Digits(s, value, started).Incomplete? ==> U8Digits(s, value, started).needed == Size(1)
    decreases |s|
  {
    if |s| > 0 && IsDigit(s[0]) && value * 10 + (s[0] - 48) <= 255 {
      U8DigitsConsumes(s[1..], value * 10 + (s[0] - 48), true);
    }
  }

  lemma U8Consumes(s: seq<Byte>)
    ensures MakesProgress(U8(s), s) && !U8(s).Panic?
    ensures U8(s).Incomplete? ==> U8(s).needed == Size(1)
  {
    if |s| > 0 { U8DigitsConsumes(s, 0, false); }
  }

  // ---------------------------------------------------------------------
  // number::streaming::be_i64

  function Pow256(k: nat): nat {
    if k == 0 then 1 else 256 * Pow256(k - 1)
  }

  /** The unsigned number that bytes denote, most significant first. */
  function BigEndian(bs: seq<Byte>): (r: nat)
    ensures r < Pow256(|bs|)
  {
    if bs == [] then 0 else BigEndian(bs[..|bs| - 1]) * 256 + bs[|bs| - 1]
  }

  const TWO_63: nat := 0x8000_0000_0000_0000
  const TWO_64: nat := 0x1_0000_0000_0000_0000

  /** `i64::from_be_bytes`: two's complement reading of 8 bytes. */
  function FromBeBytes(bs: seq<Byte>): I64
    requires |bs| == 8
  {
    assert Pow256(8) == TWO_64;
    var u := BigEndian(bs);
    if u < TWO_63 then u else u - TWO_64
  }

  /** nom `number::streaming::be_i64`: exactly 8 raw bytes. */
  function BeI64(s: seq<Byte>): (r: IResult<I64>)
    ensures r.Done? <==> 8 <= |s|
    ensures r.Done? ==> r.rest == s[8..]
    ensures r.Incomplete? ==> r.needed == Size(8 - |s|)
    ensures r.Done? || r.Incomplete?
  {
    if |s| < 8 then Incomplete(Size(8 - |s|)) else Done(s[8..], FromBeBytes(s[..8]))
  }

  /** The `k` low-order bytes of `u`, most significant first. */
  function BytesOf(u: nat, k: nat): (r: seq<Byte>)
    ensures |r| == k
  {
    if k == 0 then [] else BytesOf(u / 256, k - 1) + [u % 256]
  }

  lemma {:induction false} BigEndianBytesOf(u: nat, k: nat)
    requires u < Pow256(k)
    ensures BigEndian(BytesOf(u, k)) == u
  {
    if k > 0 {
      BigEndianBytesOf(u / 256, k - 1);
      var bs := BytesOf(u, k);
      assert bs[..|bs| - 1] == BytesOf(u / 256, k - 1);
    }
  }

  /** `i64::to_be_bytes`. */
  function ToBeBytes(x: I64): (r: seq<Byte>)
    ensures |r| == 8
  {
    BytesOf(if x < 0 then x + TWO_64 else x, 8)
  }

  /** `be_i64` reads back the 8 bytes `to_be_bytes` writes. */
  lemma BeI64ReadsBeBytes(x: I64, t: seq<Byte>)
    ensures BeI64(ToBeBytes(x) + t) == Done(t, x)
  {
    assert Pow256(8) == TWO_64;
    BigEndianBytesOf(if x < 0 then x + TWO_64 else x, 8);
    assert (ToBeBytes(x) + t)[..8] == ToBeBytes(x);
    assert (ToBeBytes(x) + t)[8..] == t;
  }
}

/**
 The byte-level reading primitives the RPM header parser is built from:
 the parse result type with its three outcomes (Done, Error, Incomplete),
 big-endian integers, literal matching, raw byte runs and NUL-terminated
 byte strings. Each primitive consumes a prefix of its input and returns
 the remaining suffix.
 */
module Cursor {

  type byte = bv8
  type Bytes = seq<byte>

  type u8 = x: nat | x < 0x100
  type u16 = x: nat | x < 0x1_0000
  type u32 = x: nat | x < 0x1_0000_0000
  type u64 = x: nat | x < 0x1_0000_0000_0000_0000
  type i16 = x: int | -0x8000 <= x < 0x8000

  /** How many bytes a truncated parse wanted, counted from the start of the
      parse that reports it, or Unknown when the parser could not say. */
  datatype Needed = Unknown | Size(n: nat)

  /** The parser error kinds the header decoder can raise; Custom stands for
      every other kind of the parsing library, none of which these parsers raise. */
  datatype ErrorKind = Tag | MapRes | TakeUntil | ExprOpt | Count | Custom(code: nat)

  /** The outcome of one parse step. An Error carries the suffix of the input
      at which it was detected. */
  datatype IResult<+T> =
    | Done(rest: Bytes, value: T)
    | Error(kind: ErrorKind, at: Bytes)
    | Incomplete(needed: Needed)
  {
    predicate IsFailure() {
      !Done?
    }

    function PropagateFailure<U>(): IResult<U>
      requires !Done?
    {
      match this
      case Error(k, a) => Error(k, a)
      case Incomplete(n) => Incomplete(n)
    }

    function Extract(): (Bytes, T)
      requires Done?
    {
      (rest, value)
    }

    /** The outcome of this step when it runs after `consumed` bytes of an
        enclosing sequence of steps: a known byte count is re-based onto the
        start of that sequence, everything else is unchanged. */
    function After(consumed: nat): (r: IResult<T>)
      ensures r.Done? <==> Done?
      ensures Done? ==> r == this
      ensures Error? ==> r == this
      ensures Incomplete? && needed.Size? ==> r == Incomplete(Size(consumed + needed.n))
      ensures Incomplete? && needed.Unknown? ==> r == this
    {
      match this
      case Incomplete(Size(n)) => Incomplete(Size(consumed + n))
      case _ => this
    }
  }

  /** A byte sequence `rest` is what remains of `input` after some prefix of it was consumed. */
  predicate IsSuffix(rest: Bytes, input: Bytes) {
    |rest| <= |input| && rest == input[|input| - |rest|..]
  }

  lemma SuffixTransitive(a: Bytes, b: Bytes, c: Bytes)
    requires IsSuffix(a, b) && IsSuffix(b, c)
    ensures IsSuffix(a, c)
  {
  }

  lemma SuffixOfSuffix(s: Bytes, a: nat, b: nat)
    requires a + b <= |s|
    ensures s[a..][b..] == s[a + b..]
  {
  }

  lemma SliceOfSuffix(s: Bytes, a: nat, b: nat, c: nat)
    requires b <= c && a + c <= |s|
    ensures s[a..][b..c] == s[a + b..a + c]
  {
  }

  function Pow256(n: nat): (p: nat)
    ensures p > 0
  {
    if n == 0 then 1 else 256 * Pow256(n - 1)
  }

  /** The unsigned integer whose big-endian representation is `s`. */
  function BigEndian(s: Bytes): (v: nat)
    ensures v < Pow256(|s|)
  {
    if |s| == 0 then 0 else BigEndian(s[..|s| - 1]) * 256 + s[|s| - 1] as nat
  }

  /** The `width`-byte big-endian representation of `v`: the inverse of BigEndian. */
  function EncodeBigEndian(v: nat, width: nat): (s: Bytes)
    requires v < Pow256(width)
    ensures |s| == width
    ensures BigEndian(s) == v
  {
    if width == 0 then []
    else
      var low: byte := (v % 256) as byte;
      DivideByByte(v, Pow256(width - 1));
      var high := EncodeBigEndian(v / 256, width - 1);
      BigEndianAppend(high, low);
      high + [low]
  }

  lemma BigEndianAppend(high: Bytes, low: byte)
    ensures BigEndian(high + [low]) == BigEndian(high) * 256 + low as nat
  {
    assert (high + [low])[..|high|] == high;
  }

  lemma DivideByByte(v: nat, p: nat)
    requires v < 256 * p
    ensures v / 256 < p
    ensures v == (v / 256) * 256 + ((v % 256) as byte) as nat
  {
  }

  /** Reinterprets a 16-bit unsigned value as two's-complement signed. */
  function ToI16(u: u16): (x: i16)
    ensures x >= 0 <==> u < 0x8000
    ensures x % 0x1_0000 == u
  {
    if u < 0x8000 then u else u - 0x1_0000
  }

  lemma Pow256Values()
    ensures Pow256(1) == 0x100
    ensures Pow256(2) == 0x1_0000
    ensures Pow256(4) == 0x1_0000_0000
    ensures Pow256(8) == 0x1_0000_0000_0000_0000
  {
  }

  /** The 32-bit unsigned integer whose big-endian representation is `s`. */
  function U32Of(s: Bytes): (v: u32)
    requires |s| == 4
    ensures v == BigEndian(s)
  {
    Pow256Values();
    BigEndian(s)
  }

  /** The 16-bit signed integer whose two's-complement big-endian representation is `s`. */
  function I16Of(s: Bytes): (v: i16)
    requires |s| == 2
    ensures v == ToI16(BigEndian(s))
  {
    Pow256Values();
    ToI16(BigEndian(s))
  }

  /** Reads exactly `n` bytes; a shorter input needs `n`. */
  function Take(i: Bytes, n: nat): (r: IResult<Bytes>)
    ensures r.Done? <==> n <= |i|
    ensures r.Done? ==> r.value == i[..n] && r.rest == i[n..]
    ensures !r.Done? ==> r == Incomplete(Size(n))
  {
    if |i| < n then Incomplete(Size(n)) else Done(i[n..], i[..n])
  }

  /** The bytes of `i` that are present, up to the length of `literal`,
      disagree with it. */
  predicate ClashesWith(i: Bytes, literal: Bytes) {
    if |i| < |literal| then i != literal[..|i|] else i[..|literal|] != literal
  }

  /** Once the whole literal is present, a clash is a plain mismatch. */
  lemma ClashesWhenLong(i: Bytes, literal: Bytes)
    requires |literal| <= |i|
    ensures ClashesWith(i, literal) <==> i[..|literal|] != literal
  {
  }

  /** Matches a literal by comparing the bytes that are present: any
      disagreement is a Tag error at the input, even on an input shorter
      than the literal; a short input that agrees so far needs the
      literal's length. */
  function TagBytes(i: Bytes, literal: Bytes): (r: IResult<Bytes>)
    ensures r.Done? <==> |literal| <= |i| && i[..|literal|] == literal
    ensures r.Done? ==> r.rest == i[|literal|..] && r.value == literal
    ensures r.Error? <==> ClashesWith(i, literal)
    ensures r.Error? ==> r == Error(Tag, i)
    ensures r.Incomplete? <==> |i| < |literal| && i == literal[..|i|]
    ensures r.Incomplete? ==> r == Incomplete(Size(|literal|))
  {
    if |i| < |literal| then
      if i != literal[..|i|] then Error(Tag, i) else Incomplete(Size(|literal|))
    else if i[..|literal|] != literal then Error(Tag, i)
    else Done(i[|literal|..], literal)
  }

  /** Reads a `width`-byte big-endian unsigned integer. */
  function BeUint(i: Bytes, width: nat): (r: IResult<nat>)
    ensures r.Done? <==> width <= |i|
    ensures r.Done? ==> r.rest == i[width..] && r.value == BigEndian(i[..width])
    ensures r.Done? ==> r.value < Pow256(width)
    ensures !r.Done? ==> r == Incomplete(Size(width))
  {
    if |i| < width then Incomplete(Size(width)) else Done(i[width..], BigEndian(i[..width]))
  }

  function BeU8(i: Bytes): (r: IResult<u8>)
    ensures r.Done? <==> 1 <= |i|
    ensures r.Done? ==> r.rest == i[1..] && r.value == i[0] as nat
    ensures !r.Done? ==> r == Incomplete(Size(1))
  {
    var (rest, v) :- BeUint(i, 1);
    assert BigEndian(i[..1]) == i[0] as nat by {
      assert i[..1][..0] == [];
    }
    Done(rest, v)
  }

  function BeU32(i: Bytes): (r: IResult<u32>)
    ensures r.Done? <==> 4 <= |i|
    ensures r.Done? ==> r.rest == i[4..] && r.value == U32Of(i[..4])
    ensures !r.Done? ==> r == Incomplete(Size(4))
  {
    var (rest, v) :- BeUint(i, 4);
    Done(rest, U32Of(i[..4]))
  }

  function BeI16(i: Bytes): (r: IResult<i16>)
    ensures r.Done? <==> 2 <= |i|
    ensures r.Done? ==> r.rest == i[2..] && r.value == I16Of(i[..2])
    ensures !r.Done? ==> r == Incomplete(Size(2))
  {
    var (rest, v) :- BeUint(i, 2);
    Done(rest, I16Of(i[..2]))
  }

  /** The index of the first NUL byte of `s`, or `|s|` when there is none. */
  function NulIndex(s: Bytes): (k: nat)
    ensures k <= |s|
    ensures forall j :: 0 <= j < k ==> s[j] != 0
    ensures k < |s| ==> s[k] == 0
  {
    if |s| == 0 then 0
    else if s[0] == 0 then 0
    else 1 + NulIndex(s[1..])
  }

  /** The first NUL of `s` is at `k` when the bytes before `k` are not NUL. */
  lemma {:induction false} NulIndexAt(s: Bytes, k: nat)
    requires k < |s| && s[k] == 0
    requires forall j :: 0 <= j < k ==> s[j] != 0
    ensures NulIndex(s) == k
    decreases k
  {
    if k > 0 {
      NulIndexAt(s[1..], k - 1);
    }
  }

  /** Splits the input at its first NUL, which is NOT consumed: the remainder
      starts at the NUL. Empty input needs one byte; an input with no NUL
      anywhere is a TakeUntil error, however long it is. */
  function TakeUntilNul(i: Bytes): (r: IResult<Bytes>)
    ensures r.Done? <==> NulIndex(i) < |i|
    ensures r.Done? ==> r.value == i[..NulIndex(i)] && r.rest == i[NulIndex(i)..]
    ensures r.Error? <==> 0 < |i| && NulIndex(i) == |i|
    ensures r.Error? ==> r == Error(TakeUntil, i)
    ensures r.Incomplete? <==> |i| == 0
    ensures r.Incomplete? ==> r == Incomplete(Size(1))
  {
    if |i| < 1 then Incomplete(Size(1))
    else
      var k := NulIndex(i);
      if k < |i| then Done(i[k..], i[..k]) else Error(TakeUntil, i)
  }
}

/** Fixed-width JAUS integers on the wire: the `JAUS_TYPES` size table and
    the little-endian `struct` formats of `PACK_FORMAT_FROM_JAUS` and
    `UNPACK_FORMAT_FROM_JAUS`. Floating-point types are not part of this
    model. */
module Wire {
  import opened Results
  import opened Bits

  type byte = b: int | 0 <= b < 256

  /** The integer JAUS types the serializer knows. */
  datatype JausType =
    | Byte | ShortInteger | Integer | LongInteger
    | UnsignedByte | UnsignedShortInteger | UnsignedInteger | UnsignedLongInteger

  /** Why `struct.pack` / `struct.unpack` raised. */
  datatype StructError =
    | OutOfRange(value: int)        // struct.error: argument out of range
    | WrongBufferSize(size: nat)    // struct.error: unpack requires a buffer of N bytes

  /** `JAUS_TYPES`: the number of bytes a value of the type occupies. */
  function TypeSize(t: JausType): (n: nat)
    ensures n >= 1
  {
    match t
    case Byte => 1
    case ShortInteger => 2
    case Integer => 4
    case LongInteger => 8
    case UnsignedByte => 1
    case UnsignedShortInteger => 2
    case UnsignedInteger => 4
    case UnsignedLongInteger => 8
  }

  predicate Signed(t: JausType) {
    t.Byte? || t.ShortInteger? || t.Integer? || t.LongInteger?
  }

  function Pow256(n: nat): (r: nat)
    ensures r >= 1
  {
    if n == 0 then 1 else 256 * Pow256(n - 1)
  }

  /** The values a `width`-byte field of the given signedness can hold. */
  predicate FitsWidth(signed: bool, width: nat, v: int) {
    if signed then -(Pow256(width) / 2) <= v < Pow256(width) / 2
    else 0 <= v < Pow256(width)
  }

  predicate InRange(t: JausType, v: int) {
    FitsWidth(Signed(t), TypeSize(t), v)
  }

  /** The unsigned number a little-endian byte string denotes. */
  function FromLE(bs: seq<byte>): (r: nat)
    ensures r < Pow256(|bs|)
  {
    if |bs| == 0 then 0 else bs[0] + 256 * FromLE(bs[1..])
  }

  /** The `n` low bytes of `v` in two's complement, least significant first. */
  function ToLE(v: int, n: nat): (r: seq<byte>)
    ensures |r| == n
    decreases n
  {
    if n == 0 then [] else [v % 256] + ToLE(v / 256, n - 1)
  }

  /** `ToLE` keeps the residue of `v` modulo the width, which `FromLE` reads back. */
  lemma {:induction false} ToLEResidue(v: int, n: nat)
    ensures FromLE(ToLE(v, n)) == v % Pow256(n)
    decreases n
  {
    if n > 0 {
      var rest := ToLE(v / 256, n - 1);
      ToLEResidue(v / 256, n - 1);
      DivModNest(v, 256, Pow256(n - 1));
      assert ToLE(v, n)[1..] == rest;
    }
  }

  lemma {:induction false} ToLEFromLE(bs: seq<byte>)
    ensures ToLE(FromLE(bs), |bs|) == bs
  {
    if |bs| > 0 {
      var v := FromLE(bs);
      var rest := FromLE(bs[1..]);
      DivModUnique(v, 256, rest, bs[0]);
      ToLEFromLE(bs[1..]);
      assert ToLE(v, |bs|) == [bs[0]] + bs[1..];
    }
  }

  /** The value in the signed or unsigned range of `width` bytes that has
      the bit pattern `u`. */
  function Reinterpret(signed: bool, width: nat, u: nat): int {
    if signed && u >= Pow256(width) / 2 then u - Pow256(width) else u
  }

  lemma ReinterpretResidue(signed: bool, width: nat, u: nat)
    requires width >= 1 && u < Pow256(width)
    ensures FitsWidth(signed, width, Reinterpret(signed, width, u))
    ensures Reinterpret(signed, width, u) % Pow256(width) == u
  {
    var p := Pow256(width);
    var h := 128 * Pow256(width - 1);
    assert p == 2 * h;
    DivModUnique(p, 2, h, 0);
    var v := Reinterpret(signed, width, u);
    if signed && u >= h {
      assert v == p * -1 + u;
      DivModUnique(v, p, -1, u);
    } else {
      assert v == p * 0 + u;
      DivModUnique(v, p, 0, u);
    }
  }

  lemma ReinterpretFits(signed: bool, width: nat, v: int)
    requires FitsWidth(signed, width, v)
    ensures Reinterpret(signed, width, v % Pow256(width)) == v
  {
    var p := Pow256(width);
    if v < 0 {
      DivModUnique(v, p, -1, v + p);
    } else {
      DivModUnique(v, p, 0, v);
    }
  }

  /** `struct.pack(fmt, v)` for the type's format: exactly `TypeSize(t)`
      bytes, little-endian, two's complement; out-of-range values raise. */
  function Pack(t: JausType, v: int): (r: Result<seq<byte>, StructError>)
    ensures r.Success? <==> InRange(t, v)
    ensures r.Success? ==> |r.value| == TypeSize(t)
    ensures r.Failure? ==> r.error == OutOfRange(v)
  {
    if InRange(t, v) then Success(ToLE(v, TypeSize(t))) else Failure(OutOfRange(v))
  }

  /** The bytes `Pack` writes read back as the residue of the value. */
  lemma PackResidue(t: JausType, v: int)
    requires InRange(t, v)
    ensures FromLE(Pack(t, v).value) == v % Pow256(TypeSize(t))
  {
    ToLEResidue(v, TypeSize(t));
  }

  /** `struct.unpack(fmt, bs)`: the buffer must be exactly `TypeSize(t)`
      bytes; the result is the in-range value with that bit pattern. */
  function Unpack(t: JausType, bs: seq<byte>): (r: Result<int, StructError>)
    ensures r.Success? <==> |bs| == TypeSize(t)
    ensures r.Success? ==> InRange(t, r.value)
    ensures r.Success? ==> r.value % Pow256(TypeSize(t)) == FromLE(bs)
  {
    if |bs| != TypeSize(t) then Failure(WrongBufferSize(|bs|))
    else
      ReinterpretResidue(Signed(t), TypeSize(t), FromLE(bs));
      Success(Reinterpret(Signed(t), TypeSize(t), FromLE(bs)))
  }

  lemma PackThenUnpack(t: JausType, v: int)
    requires InRange(t, v)
    ensures Unpack(t, Pack(t, v).value) == Success(v)
  {
    PackResidue(t, v);
    ReinterpretFits(Signed(t), TypeSize(t), v);
  }

  lemma UnpackThenPack(t: JausType, bs: seq<byte>)
    requires |bs| == TypeSize(t)
    ensures Pack(t, Unpack(t, bs).value) == Success(bs)
  {
    var v := Unpack(t, bs).value;
    var u := FromLE(bs);
    ToLEFromLE(bs);
    DivModUnique(u, Pow256(|bs|), 0, u);
    ToLEDependsOnResidue(v, u, |bs|);
    assert Pack(t, v).value == ToLE(v, |bs|);
  }

  lemma {:induction false} ToLEDependsOnResidue(a: int, b: int, n: nat)
    requires a % Pow256(n) == b % Pow256(n)
    ensures ToLE(a, n) == ToLE(b, n)
    decreases n
  {
    if n > 0 {
      DivModNest(a, 256, Pow256(n - 1));
      DivModNest(b, 256, Pow256(n - 1));
      var p := Pow256(n - 1);
      assert a % 256 + 256 * ((a / 256) % p) == b % 256 + 256 * ((b / 256) % p);
      DivModUnique(a % Pow256(n), 256, (a / 256) % p, a % 256);
      DivModUnique(b % Pow256(n), 256, (b / 256) % p, b % 256);
      ToLEDependsOnResidue(a / 256, b / 256, n - 1);
    }
  }

  /** Python's `p[i:j]` for `0 <= i`: clipped to the end of `p`, empty when
      `j <= i`. */
  function Slice<T>(p: seq<T>, i: nat, j: nat): (r: seq<T>)
    ensures |r| <= j - i || (j < i && |r| == 0)
    ensures i + |r| <= |p| || |r| == 0
  {
    var hi := if j < |p| then j else |p|;
    if i >= hi then [] else p[i..hi]
  }

  /** The decoder's read of a typed word at `index`:
      `struct.unpack(fmt, payload[index:index+size])`. A short buffer raises. */
  function UnpackAt(t: JausType, payload: seq<byte>, index: nat): (r: Result<int, StructError>)
    ensures r.Success? <==> index + TypeSize(t) <= |payload|
    ensures r.Success? ==> Unpack(t, payload[index..index + TypeSize(t)]) == r
  {
    Unpack(t, Slice(payload, index, index + TypeSize(t)))
  }

  lemma UnpackAtPacked(t: JausType, v: int, before: seq<byte>, after: seq<byte>)
    requires InRange(t, v)
    ensures UnpackAt(t, before + Pack(t, v).value + after, |before|) == Success(v)
  {
    var bs := Pack(t, v).value;
    var p := before + bs + after;
    assert p[|before|..|before| + TypeSize(t)] == bs;
    PackThenUnpack(t, v);
  }

  // ---- As written: the `struct` format width of each type ----

  /** `struct.calcsize` of the format the source assigns to each type. With
      a `<` prefix, `l` and `L` are standard 4-byte codes, so 'long integer'
      and 'unsigned long integer' pack to 4 bytes although `JAUS_TYPES`
      gives them 8. */
  function FormatWidth(t: JausType): nat {
    match t
    case LongInteger => 4
    case UnsignedLongInteger => 4
    case _ => TypeSize(t)
  }

  /** `struct.pack` with the source's format: `FormatWidth(t)` bytes. */
  function PackAsWritten(t: JausType, v: int): (r: Result<seq<byte>, StructError>)
    ensures r.Success? <==> FitsWidth(Signed(t), FormatWidth(t), v)
    ensures r.Success? ==> |r.value| == FormatWidth(t)
  {
    if FitsWidth(Signed(t), FormatWidth(t), v) then Success(ToLE(v, FormatWidth(t)))
    else Failure(OutOfRange(v))
  }

  /** The decoder's read as written: it slices `TypeSize(t)` bytes but
      `struct.unpack` demands exactly `FormatWidth(t)`. */
  function UnpackAtAsWritten(t: JausType, payload: seq<byte>, index: nat): (r: Result<int, StructError>)
    ensures r.Success? ==> |Slice(payload, index, index + TypeSize(t))| == FormatWidth(t)
  {
    var s := Slice(payload, index, index + TypeSize(t));
    if |s| != FormatWidth(t) then Failure(WrongBufferSize(|s|))
    else Success(Reinterpret(Signed(t), FormatWidth(t), FromLE(s)))
  }

  /** As written, a 'long integer' 1 followed by a one-byte field cannot be
      read back: the encoder wrote 4 bytes, the decoder slices 5 and
      `struct.unpack('<l', ...)` rejects them. */
  lemma LongIntegerAsWrittenFails()
    ensures PackAsWritten(LongInteger, 1).Success?
    ensures |PackAsWritten(LongInteger, 1).value| != TypeSize(LongInteger)
    ensures UnpackAtAsWritten(LongInteger, PackAsWritten(LongInteger, 1).value + [7], 0).Failure?
  {
    var bs := PackAsWritten(LongInteger, 1).value;
    assert |Slice(bs + [7], 0, 8)| == 5;
  }

  /** As written, 'long integer' rejects values beyond 32 bits, although
      the JAUS type is 8 bytes wide. */
  lemma LongIntegerAsWrittenRange()
    ensures PackAsWritten(LongInteger, 0x1_0000_0000).Failure?
    ensures Pack(LongInteger, 0x1_0000_0000).Success?
  {
  }
}

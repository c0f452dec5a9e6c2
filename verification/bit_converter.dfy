/**
 * MyBitConverter: integer <-> byte conversions that honour a global
 * "operations are little-endian" flag on top of the machine's own
 * BitConverter, which is little-endian. The flag (`AreOperationsLittleEndian`)
 * is passed to every operation as `littleEndian`.
 *
 * The six integer overloads of each operation differ only in the width and
 * signedness of the type, so they share one definition indexed by `IntKind`.
 */
module BitConverter {

  import opened DotNet
  import opened Maths

  datatype IntKind = Int16 | UInt16 | Int32 | UInt32 | Int64 | UInt64

  /** Number of bytes of the type; `GetAndReverseBytes` uses the same widths. */
  function Size(k: IntKind): nat
  {
    match k
    case Int16 | UInt16 => 2
    case Int32 | UInt32 => 4
    case Int64 | UInt64 => 8
  }

  predicate IsSigned(k: IntKind)
  {
    k == Int16 || k == Int32 || k == Int64
  }

  /** 256 to the power n. */
  function Modulus(n: nat): (m: nat)
    ensures m >= 1
  {
    if n == 0 then 1 else 256 * Modulus(n - 1)
  }

  /** Number of distinct values of the type. */
  function Span(k: IntKind): (m: nat)
    ensures m == Modulus(Size(k))
  {
    assert Modulus(2) == 0x1_0000;
    assert Modulus(4) == 0x1_0000_0000 by { assert Modulus(3) == 0x100_0000; }
    assert Modulus(8) == 0x1_0000_0000_0000_0000 by {
      assert Modulus(4) == 0x1_0000_0000 by { assert Modulus(3) == 0x100_0000; }
      assert Modulus(6) == 0x1_0000_0000_0000 by { assert Modulus(5) == 0x100_0000_0000; }
    }
    match k
    case Int16 | UInt16 => 0x1_0000
    case Int32 | UInt32 => 0x1_0000_0000
    case Int64 | UInt64 => 0x1_0000_0000_0000_0000
  }

  /** The values of the C# type (short, ushort, int, uint, long, ulong). */
  predicate InRange(k: IntKind, v: int)
  {
    if IsSigned(k) then -(Span(k) / 2) <= v < Span(k) / 2 else 0 <= v < Span(k)
  }

  /** Two's-complement bit pattern of a value, as an unsigned number. */
  function ToUnsigned(k: IntKind, v: int): (u: nat)
    requires InRange(k, v)
    ensures u < Span(k)
  {
    if v < 0 then v + Span(k) else v
  }

  /** The value of the type whose bit pattern is `u`. */
  function FromUnsigned(k: IntKind, u: nat): (v: int)
    requires u < Span(k)
    ensures InRange(k, v)
  {
    if IsSigned(k) && u >= Span(k) / 2 then u - Span(k) else u
  }

  lemma UnsignedRoundTrip(k: IntKind, v: int, u: nat)
    requires InRange(k, v) && u < Span(k)
    ensures FromUnsigned(k, ToUnsigned(k, v)) == v
    ensures ToUnsigned(k, FromUnsigned(k, u)) == u
  {
  }

  function Reverse<T>(s: seq<T>): (r: seq<T>)
    ensures |r| == |s|
    ensures forall i :: 0 <= i < |s| ==> r[i] == s[|s| - 1 - i]
  {
    if |s| == 0 then [] else Reverse(s[1..]) + [s[0]]
  }

  lemma ReverseReverse<T>(s: seq<T>)
    ensures Reverse(Reverse(s)) == s
  {
    assert Reverse(Reverse(s)) == s by {
      forall i | 0 <= i < |s|
        ensures Reverse(Reverse(s))[i] == s[i]
      {
      }
    }
  }

  /** The n low-order bytes of u, least significant first. */
  function LittleEndian(u: nat, n: nat): (bs: seq<byte>)
    ensures |bs| == n
  {
    if n == 0 then [] else [(u % 256) as byte] + LittleEndian(u / 256, n - 1)
  }

  /** Reads bytes as an unsigned number, least significant first. */
  function FromLittleEndian(bs: seq<byte>): nat
  {
    if |bs| == 0 then 0 else bs[0] as nat + 256 * FromLittleEndian(bs[1..])
  }

  /** Reads bytes as an unsigned number, most significant first. */
  function FromBigEndian(bs: seq<byte>): nat
  {
    if |bs| == 0 then 0 else 256 * FromBigEndian(bs[..|bs| - 1]) + bs[|bs| - 1] as nat
  }

  lemma {:induction false} LittleEndianRoundTrip(u: nat, n: nat)
    requires u < Modulus(n)
    ensures FromLittleEndian(LittleEndian(u, n)) == u
  {
    if n > 0 {
      assert u / 256 < Modulus(n - 1);
      LittleEndianRoundTrip(u / 256, n - 1);
      assert LittleEndian(u, n)[1..] == LittleEndian(u / 256, n - 1);
    }
  }

  lemma {:induction false} FromLittleEndianBound(bs: seq<byte>)
    ensures FromLittleEndian(bs) < Modulus(|bs|)
  {
    if |bs| > 0 {
      FromLittleEndianBound(bs[1..]);
      assert FromLittleEndian(bs[1..]) + 1 <= Modulus(|bs| - 1);
      assert 256 * (FromLittleEndian(bs[1..]) + 1) <= 256 * Modulus(|bs| - 1);
    }
  }

  lemma {:induction false} LittleEndianOfValue(bs: seq<byte>)
    ensures LittleEndian(FromLittleEndian(bs), |bs|) == bs
  {
    if |bs| > 0 {
      var u := FromLittleEndian(bs);
      assert u % 256 == bs[0] as int && u / 256 == FromLittleEndian(bs[1..]);
      LittleEndianOfValue(bs[1..]);
    }
  }

  /** Reading reversed bytes most significant first is reading them least significant first. */
  lemma {:induction false} BigEndianOfReverse(bs: seq<byte>)
    ensures FromBigEndian(Reverse(bs)) == FromLittleEndian(bs)
  {
    if |bs| > 0 {
      var r := Reverse(bs);
      assert r[..|r| - 1] == Reverse(bs[1..]);
      BigEndianOfReverse(bs[1..]);
    }
  }

  /** `BitConverter.GetBytes` of the machine: little-endian two's complement. */
  function MachineBytes(k: IntKind, v: int): (bs: seq<byte>)
    requires InRange(k, v)
    ensures |bs| == Size(k)
  {
    LittleEndian(ToUnsigned(k, v), Size(k))
  }

  /**
   * `BitConverter.ToInt16/32/64` and `ToUInt16/32/64` of the machine: a start
   * index outside the array is an ArgumentOutOfRangeException, one too close
   * to the end for the width an ArgumentException.
   */
  function MachineDecode(k: IntKind, source: seq<byte>, startIndex: int): (r: Result<int>)
    ensures r.Ok? <==> 0 <= startIndex && startIndex + Size(k) <= |source|
    ensures r.Ok? ==> InRange(k, r.value)
  {
    if startIndex < 0 || startIndex >= |source| then Throws(ArgumentOutOfRange)
    else if startIndex > |source| - Size(k) then Throws(Argument)
    else
      var field := source[startIndex..startIndex + Size(k)];
      FromLittleEndianBound(field);
      Ok(FromUnsigned(k, FromLittleEndian(field)))
  }

  /** The machine decoder reads back what the machine encoder wrote, wherever it sits. */
  lemma MachineDecodeAt(k: IntKind, v: int, source: seq<byte>, startIndex: int)
    requires InRange(k, v)
    requires 0 <= startIndex && startIndex + Size(k) <= |source|
    requires source[startIndex..startIndex + Size(k)] == MachineBytes(k, v)
    ensures MachineDecode(k, source, startIndex) == Ok(v)
  {
    LittleEndianRoundTrip(ToUnsigned(k, v), Size(k));
    UnsignedRoundTrip(k, v, 0);
  }

  /** The bytes `GetBytes` returns for the flag: 2, 4 or 8 of them. */
  function Encode(k: IntKind, v: int, littleEndian: bool): (bs: seq<byte>)
    requires InRange(k, v)
    ensures |bs| == Size(k)
    ensures |bs| == (if k in {Int16, UInt16} then 2 else if k in {Int32, UInt32} then 4 else 8)
  {
    if littleEndian then MachineBytes(k, v) else Reverse(MachineBytes(k, v))
  }

  /**
   * GetAndReverseBytes: the n bytes from `position`, reversed. `Array.Copy`
   * throws ArgumentOutOfRangeException for a negative position and
   * ArgumentException when fewer than n bytes follow it.
   */
  function ReversedSlice(source: seq<byte>, position: int, n: nat): (r: Result<seq<byte>>)
    ensures r.Ok? <==> 0 <= position && position + n <= |source|
    ensures position < 0 ==> r == Throws(ArgumentOutOfRange)
    ensures 0 <= position && position + n > |source| ==> r == Throws(Argument)
    ensures r.Ok? ==> |r.value| == n
    ensures r.Ok? ==> forall i :: 0 <= i < n ==> r.value[i] == source[position + n - 1 - i]
  {
    if position < 0 then Throws(ArgumentOutOfRange)
    else if position + n > |source| then Throws(Argument)
    else Ok(Reverse(source[position..position + n]))
  }

  /** The value `ToInt16/32/64` or `ToUInt16/32/64` returns for the flag. */
  function Decode(k: IntKind, source: seq<byte>, startIndex: int, littleEndian: bool): (r: Result<int>)
    ensures r.Throws? <==> startIndex < 0 || startIndex + Size(k) > |source|
    ensures r.Ok? ==> InRange(k, r.value)
  {
    if littleEndian then MachineDecode(k, source, startIndex)
    else
      match ReversedSlice(source, startIndex, Size(k))
      case Throws(e) => Throws(e)
      case Ok(bytes) => MachineDecode(k, bytes, 0)
  }

  /**
   * What a successful decode means: the Size(k) bytes at startIndex read as a
   * two's-complement number, least significant byte first when the flag is
   * set and most significant byte first otherwise.
   */
  lemma DecodeValue(k: IntKind, source: seq<byte>, startIndex: int, littleEndian: bool)
    requires 0 <= startIndex && startIndex + Size(k) <= |source|
    ensures var field := source[startIndex..startIndex + Size(k)];
      var u := if littleEndian then FromLittleEndian(field) else FromBigEndian(field);
      u < Span(k) && Decode(k, source, startIndex, littleEndian) == Ok(FromUnsigned(k, u))
  {
    var field := source[startIndex..startIndex + Size(k)];
    FromLittleEndianBound(field);
    if !littleEndian {
      var bytes := ReversedSlice(source, startIndex, Size(k)).value;
      assert bytes == Reverse(field);
      assert bytes[0..Size(k)] == bytes;
      BigEndianIsReversed(field);
    }
  }

  lemma BigEndianIsReversed(bs: seq<byte>)
    ensures FromBigEndian(bs) == FromLittleEndian(Reverse(bs))
    ensures FromBigEndian(bs) < Modulus(|bs|)
  {
    BigEndianOfReverse(Reverse(bs));
    ReverseReverse(bs);
    FromLittleEndianBound(Reverse(bs));
  }

  /**
   * With the flag set GetBytes is the little-endian two's-complement encoding;
   * without it, the big-endian one, whose byte 0 is the most significant.
   */
  lemma EncodeValue(k: IntKind, v: int, littleEndian: bool)
    requires InRange(k, v)
    ensures littleEndian ==> FromLittleEndian(Encode(k, v, littleEndian)) == ToUnsigned(k, v)
    ensures !littleEndian ==> FromBigEndian(Encode(k, v, littleEndian)) == ToUnsigned(k, v)
    ensures !littleEndian ==> Encode(k, v, littleEndian)[0] as int == ToUnsigned(k, v) / Modulus(Size(k) - 1)
  {
    var bs := MachineBytes(k, v);
    LittleEndianRoundTrip(ToUnsigned(k, v), Size(k));
    BigEndianOfReverse(bs);
    if !littleEndian {
      LastByteIsTop(ToUnsigned(k, v), Size(k));
    }
  }

  lemma {:induction false} LastByteIsTop(u: nat, n: nat)
    requires n >= 1 && u < Modulus(n)
    ensures LittleEndian(u, n)[n - 1] as int == u / Modulus(n - 1)
  {
    if n > 1 {
      assert u / 256 < Modulus(n - 1);
      LastByteIsTop(u / 256, n - 1);
      assert LittleEndian(u, n)[n - 1] == LittleEndian(u / 256, n - 1)[n - 2];
      DivDiv(u, Modulus(n - 2));
    }
  }

  lemma DivDiv(u: nat, m: nat)
    requires m >= 1
    ensures u / 256 / m == u / (256 * m)
  {
    var a, r1 := u / 256, u % 256;
    var q, r2 := a / m, a % m;
    assert u == 256 * a + r1;
    assert a == m * q + r2;
    var d := 256 * m;
    var r := 256 * r2 + r1;
    assert 256 * a == 256 * (m * q) + 256 * r2;
    assert 256 * (m * q) == d * q;
    assert u == d * q + r;
    assert r < d by {
      assert r2 + 1 <= m;
      assert 256 * (r2 + 1) <= 256 * m;
    }
    DivUnique(u, d, q, r);
  }

  /** Big-endian bytes are exactly the little-endian bytes reversed. */
  lemma BigEndianIsReversedLittleEndian(k: IntKind, v: int)
    requires InRange(k, v)
    ensures Encode(k, v, false) == Reverse(Encode(k, v, true))
    ensures Encode(k, v, true) == Reverse(Encode(k, v, false))
  {
    ReverseReverse(MachineBytes(k, v));
  }

  /** To*(GetBytes(v), 0) == v when both calls see the same flag. */
  lemma EncodeDecodeRoundTrip(k: IntKind, v: int, littleEndian: bool)
    requires InRange(k, v)
    ensures Decode(k, Encode(k, v, littleEndian), 0, littleEndian) == Ok(v)
  {
    var bs := Encode(k, v, littleEndian);
    EncodeValue(k, v, littleEndian);
    DecodeValue(k, bs, 0, littleEndian);
    assert bs[0..Size(k)] == bs;
    UnsignedRoundTrip(k, v, 0);
  }

  /** GetBytes(To*(bs, 0)) == bs for any Size(k) bytes and either flag. */
  lemma DecodeEncodeRoundTrip(k: IntKind, bs: seq<byte>, littleEndian: bool)
    requires |bs| == Size(k)
    ensures Decode(k, bs, 0, littleEndian).Ok?
    ensures Encode(k, Decode(k, bs, 0, littleEndian).value, littleEndian) == bs
  {
    DecodeValue(k, bs, 0, littleEndian);
    assert bs[0..Size(k)] == bs;
    if littleEndian {
      MachineBytesOfPattern(k, bs);
    } else {
      BigEndianIsReversed(bs);
      MachineBytesOfPattern(k, Reverse(bs));
      ReverseReverse(bs);
    }
  }

  /** The machine encoding of the value whose little-endian pattern is bs is bs. */
  lemma MachineBytesOfPattern(k: IntKind, bs: seq<byte>)
    requires |bs| == Size(k)
    ensures FromLittleEndian(bs) < Span(k)
    ensures MachineBytes(k, FromUnsigned(k, FromLittleEndian(bs))) == bs
  {
    FromLittleEndianBound(bs);
    UnsignedRoundTrip(k, 0, FromLittleEndian(bs));
    LittleEndianOfValue(bs);
  }

  /** Array.Reverse. */
  method ReverseInPlace<T>(a: array<T>)
    modifies a
    ensures a[..] == Reverse(old(a[..]))
  {
    var i := 0;
    while i < a.Length / 2
      invariant 0 <= i <= a.Length / 2
      invariant forall j :: 0 <= j < i ==> a[j] == old(a[a.Length - 1 - j]) && a[a.Length - 1 - j] == old(a[j])
      invariant forall j :: i <= j < a.Length - i ==> a[j] == old(a[j])
    {
      a[i], a[a.Length - 1 - i] := a[a.Length - 1 - i], a[i];
      i := i + 1;
    }
  }

  /** GetBytes(short/int/long/ushort/uint/ulong). */
  method GetBytes(k: IntKind, value: int, littleEndian: bool) returns (bytes: array<byte>)
    requires InRange(k, value)
    ensures fresh(bytes) && bytes[..] == Encode(k, value, littleEndian)
  {
    var machine := MachineBytes(k, value);
    bytes := new byte[|machine|](i requires 0 <= i < |machine| => machine[i]);
    assert bytes[..] == machine;
    if !littleEndian {
      ReverseInPlace(bytes);
    }
  }

  /** GetAndReverseBytes: a fresh array; the source is left as it was. */
  method GetAndReverseBytes(k: IntKind, source: array<byte>, position: int) returns (r: Result<array<byte>>)
    ensures r.Throws? <==> ReversedSlice(source[..], position, Size(k)).Throws?
    ensures r.Throws? ==> r.error == ReversedSlice(source[..], position, Size(k)).error
    ensures r.Ok? ==> fresh(r.value) && r.value[..] == ReversedSlice(source[..], position, Size(k)).value
  {
    var numBytes := Size(k);
    var bytes := new byte[numBytes];
    if position < 0 {
      return Throws(ArgumentOutOfRange);
    }
    if source.Length - position < numBytes {
      return Throws(Argument);
    }
    var i := 0;
    while i < numBytes
      invariant 0 <= i <= numBytes
      invariant bytes[..i] == source[position..position + i]
    {
      bytes[i] := source[position + i];
      i := i + 1;
    }
    ghost var copied := bytes[..];
    assert copied == source[..][position..position + numBytes];
    ReverseInPlace(bytes);
    assert ReversedSlice(source[..], position, numBytes) == Ok(Reverse(copied));
    return Ok(bytes);
  }

  /** ToInt16/32/64 and ToUInt16/32/64. */
  method ToInteger(k: IntKind, source: array<byte>, startIndex: int, littleEndian: bool) returns (r: Result<int>)
    ensures r == Decode(k, source[..], startIndex, littleEndian)
  {
    if !littleEndian {
      var bytes := GetAndReverseBytes(k, source, startIndex);
      if bytes.Throws? {
        return Throws(bytes.error);
      }
      r := MachineDecode(k, bytes.value[..], 0);
    } else {
      r := MachineDecode(k, source[..], startIndex);
    }
  }

  /** A C# `char`: one UTF-16 code unit. */
  newtype CodeUnit = x: int | 0 <= x < 0x1_0000

  /** GetBytes(bool): one byte, 1 for true; the flag plays no part. */
  function BoolBytes(value: bool): (bs: seq<byte>)
    ensures |bs| == 1 && (bs[0] != 0 <==> value)
  {
    if value then [1] else [0]
  }

  /** ToBoolean: any non-zero byte is true; the flag plays no part. */
  function ToBoolean(source: seq<byte>, startIndex: int): (r: Result<bool>)
    ensures r.Ok? <==> 0 <= startIndex < |source|
    ensures r.Ok? ==> (r.value <==> source[startIndex] != 0)
  {
    if startIndex < 0 || startIndex > |source| - 1 then Throws(ArgumentOutOfRange)
    else Ok(source[startIndex] != 0)
  }

  /** GetBytes(char): always the machine's little-endian order. */
  function CharBytes(value: CodeUnit): seq<byte>
  {
    MachineBytes(UInt16, value as int)
  }

  /** ToChar: always the machine's little-endian order. */
  function ToChar(source: seq<byte>, startIndex: int): (r: Result<CodeUnit>)
    ensures r.Ok? <==> 0 <= startIndex && startIndex + 2 <= |source|
    ensures r.Ok? ==> r.value as int == FromLittleEndian(source[startIndex..startIndex + 2])
  {
    match MachineDecode(UInt16, source, startIndex)
    case Throws(e) => Throws(e)
    case Ok(u) =>
      FromLittleEndianBound(source[startIndex..startIndex + 2]);
      Ok(u as CodeUnit)
  }

  lemma BoolRoundTrip(value: bool)
    ensures ToBoolean(BoolBytes(value), 0) == Ok(value)
  {
  }

  /**
   * The char conversions ignore the flag: their bytes are the little-endian
   * encoding even when the flag asks for big-endian, and they read back.
   */
  lemma CharIgnoresFlag(value: CodeUnit, littleEndian: bool)
    ensures CharBytes(value) == Encode(UInt16, value as int, true)
    ensures ToChar(CharBytes(value), 0) == Ok(value)
  {
    EncodeDecodeRoundTrip(UInt16, value as int, true);
  }
}

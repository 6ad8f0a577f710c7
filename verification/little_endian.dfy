/** Little-endian byte encoding of unsigned and two's-complement integers, as
    the `byteorder` crate's `LittleEndian` readers and writers perform it. */
module LittleEndian {

  type byte = x: int | 0 <= x < 0x100
  type u16 = x: int | 0 <= x < 0x1_0000
  type u32 = x: int | 0 <= x < 0x1_0000_0000
  type i16 = x: int | -0x8000 <= x < 0x8000
  type i32 = x: int | -0x8000_0000 <= x < 0x8000_0000

  /** The bounds of `i16` and `i32` above, as named constants. */
  const I16Min := -0x8000
  const I16Max := 0x7FFF
  const I32Min := -0x8000_0000
  const I32Max := 0x7FFF_FFFF

  /** 256 to the power n: one more than the largest value n bytes can hold. */
  function Pow256(n: nat): (r: int)
    ensures r > 0
  {
    if n == 0 then 1 else 256 * Pow256(n - 1)
  }

  /** The n bytes of x, least significant first. */
  function Encode(x: nat, n: nat): (r: seq<byte>)
    requires x < Pow256(n)
    ensures |r| == n
    decreases n
  {
    if n == 0 then [] else [x % 256] + Encode(x / 256, n - 1)
  }

  /** The unsigned value of the bytes s, least significant first. */
  function Decode(s: seq<byte>): (r: nat)
    ensures r < Pow256(|s|)
  {
    if |s| == 0 then 0 else s[0] + 256 * Decode(s[1..])
  }

  /** Reading back what was written yields the value written. */
  lemma {:induction false} DecodeEncode(x: nat, n: nat)
    requires x < Pow256(n)
    ensures Decode(Encode(x, n)) == x
    decreases n
  {
    if n > 0 {
      DecodeEncode(x / 256, n - 1);
      assert Encode(x, n)[1..] == Encode(x / 256, n - 1);
    }
  }

  /** Writing back what was read yields the bytes read: the encoding is a
      bijection between values below Pow256(n) and n-byte sequences. */
  lemma {:induction false} EncodeDecode(s: seq<byte>)
    ensures Encode(Decode(s), |s|) == s
  {
    if |s| > 0 {
      EncodeDecode(s[1..]);
      var d := Decode(s[1..]);
      assert (s[0] + 256 * d) % 256 == s[0];
      assert (s[0] + 256 * d) / 256 == d;
    }
  }

  /** Two byte sequences of equal length with the same value are equal. */
  lemma DecodeInjective(a: seq<byte>, b: seq<byte>)
    requires |a| == |b| && Decode(a) == Decode(b)
    ensures a == b
  {
    EncodeDecode(a);
    EncodeDecode(b);
  }

  /** `write_u16::<LittleEndian>`: two bytes that read back as x. */
  function U16Bytes(x: u16): (r: seq<byte>)
    ensures |r| == 2 && Decode(r) == x
  {
    DecodeEncode(x, 2);
    Encode(x, 2)
  }

  /** `write_u32::<LittleEndian>`: four bytes that read back as x. */
  function U32Bytes(x: u32): (r: seq<byte>)
    ensures |r| == 4 && Decode(r) == x
  {
    DecodeEncode(x, 4);
    Encode(x, 4)
  }

  /** `read_u32::<LittleEndian>` on at least four bytes: the first byte is
      the least significant. */
  function ReadU32(s: seq<byte>): (r: u32)
    requires |s| >= 4
    ensures r == s[0] as int + 0x100 * (s[1] as int) + 0x1_0000 * (s[2] as int) + 0x100_0000 * (s[3] as int)
  {
    DecodeFour(s);
    Decode(s[..4])
  }

  /** The value of four bytes, spelled out. */
  lemma DecodeFour(s: seq<byte>)
    requires |s| >= 4
    ensures Decode(s[..4]) == s[0] as int + 0x100 * (s[1] as int) + 0x1_0000 * (s[2] as int) + 0x100_0000 * (s[3] as int)
  {
    var t := s[..4];
    assert t[1..][1..][1..][1..] == [];
    assert Decode(t[1..][1..][1..]) == s[3];
    assert Decode(t[1..][1..]) == s[2] as int + 0x100 * (s[3] as int);
    assert Decode(t[1..]) == s[1] as int + 0x100 * (s[2] as int + 0x100 * (s[3] as int));
  }

  /** The value of two bytes, spelled out. */
  lemma DecodeTwo(s: seq<byte>)
    requires |s| >= 2
    ensures Decode(s[..2]) == s[0] as int + 0x100 * (s[1] as int)
  {
    var t := s[..2];
    assert t[1..][1..] == [];
    assert Decode(t[1..]) == s[1];
  }

  /** The two's-complement bit pattern of v as an unsigned n-byte value. */
  function ToUnsigned(v: int, n: nat): (u: nat)
    requires -Pow256(n) / 2 <= v < Pow256(n) / 2
    ensures u < Pow256(n)
  {
    if v < 0 then v + Pow256(n) else v
  }

  /** The signed value of an unsigned n-byte two's-complement pattern. */
  function ToSigned(u: nat, n: nat): (v: int)
    requires n > 0 && u < Pow256(n)
    ensures -Pow256(n) / 2 <= v < Pow256(n) / 2
  {
    if u >= Pow256(n) / 2 then u - Pow256(n) else u
  }

  /** `write_i16::<LittleEndian>`: two bytes whose unsigned value is v
      modulo 2^16. */
  function I16Bytes(v: i16): (r: seq<byte>)
    ensures |r| == 2 && Decode(r) % 0x1_0000 == v % 0x1_0000
  {
    DecodeEncode(ToUnsigned(v, 2), 2);
    Encode(ToUnsigned(v, 2), 2)
  }

  /** `write_i32::<LittleEndian>`: four bytes whose unsigned value is v
      modulo 2^32. */
  function I32Bytes(v: i32): (r: seq<byte>)
    ensures |r| == 4 && Decode(r) % 0x1_0000_0000 == v % 0x1_0000_0000
  {
    DecodeEncode(ToUnsigned(v, 4), 4);
    Encode(ToUnsigned(v, 4), 4)
  }

  /** `read_i16::<LittleEndian>` on at least two bytes: the low byte first,
      the sign taken from the top bit of the high byte. */
  function ReadI16(s: seq<byte>): (r: i16)
    requires |s| >= 2
    ensures r == s[0] as int + 0x100 * (s[1] as int) - (if s[1] >= 0x80 then 0x1_0000 else 0)
  {
    DecodeTwo(s);
    ToSigned(Decode(s[..2]), 2)
  }

  /** `read_i32::<LittleEndian>` on at least four bytes: the low byte first,
      the sign taken from the top bit of the last byte. */
  function ReadI32(s: seq<byte>): (r: i32)
    requires |s| >= 4
    ensures r == s[0] as int + 0x100 * (s[1] as int) + 0x1_0000 * (s[2] as int) + 0x100_0000 * (s[3] as int)
      - (if s[3] >= 0x80 then 0x1_0000_0000 else 0)
  {
    DecodeFour(s);
    ToSigned(Decode(s[..4]), 4)
  }

  /** The four bytes of a u32, spelled out least significant first. */
  lemma U32BytesLayout(x: u32)
    ensures U32Bytes(x) == [x % 0x100, x / 0x100 % 0x100, x / 0x1_0000 % 0x100, x / 0x100_0000]
  {
    var e := U32Bytes(x);
    assert e[1..] == Encode(x / 256, 3);
    assert e[2..] == Encode(x / 256 / 256, 2);
    assert e[3..] == Encode(x / 256 / 256 / 256, 1);
    assert x / 256 / 256 == x / 0x1_0000;
    assert x / 256 / 256 / 256 == x / 0x100_0000;
  }

  /** 256 (d + p e) == 256 d + (256 p) e */
  lemma Distribute(d: int, p: int, e: int)
    ensures 256 * (d + p * e) == 256 * d + (256 * p) * e
  {
  }

  /** The value of a concatenation: the second part counts |a| bytes up. */
  lemma {:induction false} DecodeAppend(a: seq<byte>, b: seq<byte>)
    ensures Decode(a + b) == Decode(a) + Pow256(|a|) * Decode(b)
  {
    if |a| > 0 {
      DecodeAppend(a[1..], b);
      assert (a + b)[1..] == a[1..] + b;
      var d, e, p := Decode(a[1..]), Decode(b), Pow256(|a| - 1);
      assert Decode(a + b) == a[0] + 256 * (d + p * e);
      assert Pow256(|a|) == 256 * p;
      Distribute(d, p, e);
    } else {
      assert a + b == b;
    }
  }

  /** A u32 is written as its low half followed by its high half, so a
      reader of two u16 values at the same offset gets the two halves. */
  lemma U32Halves(x: u32)
    ensures U32Bytes(x) == U16Bytes(x % 0x1_0000) + U16Bytes(x / 0x1_0000)
  {
    var lo, hi := U16Bytes(x % 0x1_0000), U16Bytes(x / 0x1_0000);
    DecodeAppend(lo, hi);
    DecodeEncode(x % 0x1_0000, 2);
    DecodeEncode(x / 0x1_0000, 2);
    EncodeDecode(lo + hi);
  }

  /** Reading a value back from the front of what was written for it, with
      anything after it, yields that value. */
  lemma ReadU32Written(x: u32, rest: seq<byte>)
    ensures ReadU32(U32Bytes(x) + rest) == x
  {
    DecodeEncode(x, 4);
    assert (U32Bytes(x) + rest)[..4] == U32Bytes(x);
  }

  lemma ReadI16Written(v: i16, rest: seq<byte>)
    ensures ReadI16(I16Bytes(v) + rest) == v
  {
    DecodeEncode(ToUnsigned(v, 2), 2);
    assert (I16Bytes(v) + rest)[..2] == I16Bytes(v);
  }

  lemma ReadI32Written(v: i32, rest: seq<byte>)
    ensures ReadI32(I32Bytes(v) + rest) == v
  {
    DecodeEncode(ToUnsigned(v, 4), 4);
    assert (I32Bytes(v) + rest)[..4] == I32Bytes(v);
  }

  /** Writing back a value read from the front of a buffer reproduces the
      bytes it was read from. */
  lemma WriteU32Read(s: seq<byte>)
    requires |s| >= 4
    ensures U32Bytes(ReadU32(s)) == s[..4]
  {
    EncodeDecode(s[..4]);
  }

  lemma WriteI16Read(s: seq<byte>)
    requires |s| >= 2
    ensures I16Bytes(ReadI16(s)) == s[..2]
  {
    EncodeDecode(s[..2]);
  }

  lemma WriteI32Read(s: seq<byte>)
    requires |s| >= 4
    ensures I32Bytes(ReadI32(s)) == s[..4]
  {
    EncodeDecode(s[..4]);
  }

  // -----------------------------------------------------------------------
  // Records of fixed-width fields

  /** Total width of a list of field widths. */
  function Sum(widths: seq<nat>): nat
  {
    if |widths| == 0 then 0 else widths[0] + Sum(widths[1..])
  }

  /** Whether each value fits the width of its field. */
  predicate Fits(vals: seq<nat>, widths: seq<nat>)
  {
    |vals| == |widths| && forall i :: 0 <= i < |vals| ==> vals[i] < Pow256(widths[i])
  }

  /** The values written little-endian one after the other, each in the
      width of its field. */
  function EncodeFields(vals: seq<nat>, widths: seq<nat>): (r: seq<byte>)
    requires Fits(vals, widths)
    ensures |r| == Sum(widths)
  {
    if |vals| == 0 then []
    else
      assert Fits(vals[1..], widths[1..]) by {
        assert forall i :: 1 <= i < |vals| ==> vals[1..][i - 1] == vals[i] && widths[1..][i - 1] == widths[i];
      }
      Encode(vals[0], widths[0]) + EncodeFields(vals[1..], widths[1..])
  }

  /** Reads fields of the given widths through a cursor that starts at the
      front of s and advances past each field it reads. */
  function DecodeFields(s: seq<byte>, widths: seq<nat>): (r: seq<nat>)
    requires |s| >= Sum(widths)
    ensures |r| == |widths|
  {
    if |widths| == 0 then []
    else [Decode(s[..widths[0]])] + DecodeFields(s[widths[0]..], widths[1..])
  }

  /** Every field read fits its width. */
  lemma {:induction false} DecodeFieldsFit(s: seq<byte>, widths: seq<nat>)
    requires |s| >= Sum(widths)
    ensures Fits(DecodeFields(s, widths), widths)
  {
    if |widths| > 0 {
      var r := DecodeFields(s, widths);
      DecodeFieldsFit(s[widths[0]..], widths[1..]);
      assert forall i :: 1 <= i < |r| ==> r[i] == r[1..][i - 1] && widths[i] == widths[1..][i - 1];
    }
  }

  /** Reading fields back from the front of what was written for them, with
      anything after it, yields the values written. */
  lemma {:induction false} DecodeFieldsWritten(vals: seq<nat>, widths: seq<nat>, rest: seq<byte>)
    requires Fits(vals, widths)
    ensures DecodeFields(EncodeFields(vals, widths) + rest, widths) == vals
  {
    if |vals| > 0 {
      assert Fits(vals[1..], widths[1..]) by {
        assert forall i :: 1 <= i < |vals| ==> vals[1..][i - 1] == vals[i] && widths[1..][i - 1] == widths[i];
      }
      var head := Encode(vals[0], widths[0]);
      var tail := EncodeFields(vals[1..], widths[1..]);
      var s := EncodeFields(vals, widths) + rest;
      assert s == head + (tail + rest);
      assert s[..widths[0]] == head;
      assert s[widths[0]..] == tail + rest;
      DecodeEncode(vals[0], widths[0]);
      DecodeFieldsWritten(vals[1..], widths[1..], rest);
    }
  }

  /** Writing back the fields read from the front of a buffer reproduces the
      bytes they were read from. */
  lemma {:induction false} EncodeFieldsRead(s: seq<byte>, widths: seq<nat>)
    requires |s| >= Sum(widths)
    ensures Fits(DecodeFields(s, widths), widths)
    ensures EncodeFields(DecodeFields(s, widths), widths) == s[..Sum(widths)]
  {
    DecodeFieldsFit(s, widths);
    if |widths| > 0 {
      var w, n := widths[0], Sum(widths[1..]);
      var r := DecodeFields(s, widths);
      DecodeFieldsFit(s, widths);
      DecodeFieldsFit(s[w..], widths[1..]);
      assert r[0] == Decode(s[..w]) && r[1..] == DecodeFields(s[w..], widths[1..]);
      assert EncodeFields(r, widths) == Encode(r[0], w) + EncodeFields(r[1..], widths[1..]);
      EncodeFieldsRead(s[w..], widths[1..]);
      EncodeDecode(s[..w]);
      assert s[..w + n] == s[..w] + s[w..][..n];
    }
  }

  /** Equal-width field records encode alike only if they are equal. */
  lemma EncodeFieldsInjective(a: seq<nat>, b: seq<nat>, widths: seq<nat>)
    requires Fits(a, widths) && Fits(b, widths)
    requires EncodeFields(a, widths) == EncodeFields(b, widths)
    ensures a == b
  {
    DecodeFieldsWritten(a, widths, []);
    DecodeFieldsWritten(b, widths, []);
    assert EncodeFields(a, widths) + [] == EncodeFields(a, widths);
  }

  /** A record of seven fields is the seven fields written one after the
      other. */
  lemma EncodeSevenFields(v: seq<nat>, w: seq<nat>)
    requires |v| == 7 && Fits(v, w)
    ensures EncodeFields(v, w) == Encode(v[0], w[0]) + Encode(v[1], w[1]) + Encode(v[2], w[2])
      + Encode(v[3], w[3]) + Encode(v[4], w[4]) + Encode(v[5], w[5]) + Encode(v[6], w[6])
  {
    var e6 := Encode(v[6], w[6]);
    var e56 := Encode(v[5], w[5]) + e6;
    var e46 := Encode(v[4], w[4]) + e56;
    var e36 := Encode(v[3], w[3]) + e46;
    var e26 := Encode(v[2], w[2]) + e36;
    var e16 := Encode(v[1], w[1]) + e26;
    EncodeFieldsCons(v[6..], w[6..]);
    assert EncodeFields(v[6..], w[6..]) == e6 by {
      assert v[6..][1..] == [] && w[6..][1..] == [];
    }
    EncodeFieldsCons(v[5..], w[5..]);
    assert v[5..][1..] == v[6..] && w[5..][1..] == w[6..];
    EncodeFieldsCons(v[4..], w[4..]);
    assert v[4..][1..] == v[5..] && w[4..][1..] == w[5..];
    EncodeFieldsCons(v[3..], w[3..]);
    assert v[3..][1..] == v[4..] && w[3..][1..] == w[4..];
    EncodeFieldsCons(v[2..], w[2..]);
    assert v[2..][1..] == v[3..] && w[2..][1..] == w[3..];
    EncodeFieldsCons(v[1..], w[1..]);
    assert v[1..][1..] == v[2..] && w[1..][1..] == w[2..];
    EncodeFieldsCons(v, w);
    assert EncodeFields(v, w) == Encode(v[0], w[0]) + e16;
    RightToLeft(Encode(v[0], w[0]), Encode(v[1], w[1]), Encode(v[2], w[2]), Encode(v[3], w[3]),
      Encode(v[4], w[4]), Encode(v[5], w[5]), e6);
  }

  /** Re-association of a concatenation of seven parts. */
  lemma RightToLeft<T>(a: seq<T>, b: seq<T>, c: seq<T>, d: seq<T>, e: seq<T>, f: seq<T>, g: seq<T>)
    ensures a + (b + (c + (d + (e + (f + g))))) == a + b + c + d + e + f + g
  {
  }

  /** Writing a record is writing its first field and then the rest. */
  lemma EncodeFieldsCons(vals: seq<nat>, widths: seq<nat>)
    requires Fits(vals, widths) && |vals| > 0
    ensures Fits(vals[1..], widths[1..])
    ensures EncodeFields(vals, widths) == Encode(vals[0], widths[0]) + EncodeFields(vals[1..], widths[1..])
  {
    assert forall i :: 1 <= i < |vals| ==> vals[1..][i - 1] == vals[i] && widths[1..][i - 1] == widths[i];
  }
}

/** The byte-level primitives of the BSON codec: packing a cstring and an int32
    into a caller's buffer, the 64-bit integer emulation over two 32-bit halves,
    and UTF-8 transcoding of strings of 16-bit code units. */
module Helper {
  import opened JsNumber

  datatype Option<T> = None | Some(value: T)

  const CR: CodeUnit := 0x0D
  const LF: CodeUnit := 0x0A

  /** `b[i]` as the bitwise operators see it: JavaScript reads `undefined` past
      the end of a typed array, and `undefined | x`, `undefined & m` and
      `undefined << k` all treat it as 0. */
  function At(b: seq<byte>, i: int): byte {
    if 0 <= i < |b| then b[i] else 0
  }

  /** `b.slice(k)`, empty once `k` passes the end. */
  function Drop(b: seq<byte>, k: nat): (r: seq<byte>)
    ensures k <= |b| ==> |r| == |b| - k
    ensures k >= |b| ==> r == []
  {
    if k <= |b| then b[k..] else []
  }

  /** The unsigned little-endian value of the four bytes at `off`. */
  function Unsigned32At(b: seq<byte>, off: int): (u: int)
    ensures 0 <= u < TWO_PWR_32
  {
    At(b, off) + At(b, off + 1) * 0x100 + At(b, off + 2) * 0x1_0000 + At(b, off + 3) * 0x100_0000
  }

  /** The unsigned little-endian value of the eight bytes at `off`. */
  function Unsigned64At(b: seq<byte>, off: int): (u: int)
    ensures 0 <= u < TWO_PWR_64
  {
    Unsigned32At(b, off) + Unsigned32At(b, off + 4) * TWO_PWR_32
  }

  // ---------------------------------------------------------------------------
  // Buffer packing

  lemma SameWordSameBytes(x: int, y: int)
    requires ToUint32(x) == ToUint32(y)
    ensures Int32Bytes(x) == Int32Bytes(y)
  {
  }

  /** The bytes a BSON int32 field holds for `v`: `v` mod 2^32, least
      significant byte first. Read back little-endian they are the unsigned
      32-bit value of `v`, and as a signed word ToInt32(v). */
  function Int32Bytes(v: int): (r: seq<byte>)
    ensures |r| == 4
    ensures Unsigned32At(r, 0) == ToUint32(v)
    ensures ToInt32(Unsigned32At(r, 0)) == ToInt32(v)
  {
    var u := ToUint32(v);
    WordBytes(u);
    [u % 0x100, u / 0x100 % 0x100, u / 0x1_0000 % 0x100, u / 0x100_0000 % 0x100]
  }

  /** The four byte fields of a 32-bit word add back up to it. */
  lemma WordBytes(u: int)
    requires 0 <= u < TWO_PWR_32
    ensures u % 0x100 + (u / 0x100 % 0x100) * 0x100 + (u / 0x1_0000 % 0x100) * 0x1_0000
      + (u / 0x100_0000 % 0x100) * 0x100_0000 == u
  {
    var b0, q0 := u % 0x100, u / 0x100;
    var b1, q1 := q0 % 0x100, q0 / 0x100;
    var b2, b3 := q1 % 0x100, q1 / 0x100;
    DivModOf(u, 0x1_0000, q1, b1 * 0x100 + b0);
    DivModOf(u, 0x100_0000, b3, b2 * 0x1_0000 + b1 * 0x100 + b0);
    DivModOf(b3, 0x100, 0, b3);
  }

  lemma Int32BytesExamples()
    ensures Int32Bytes(1) == [0x01, 0x00, 0x00, 0x00]
    ensures Int32Bytes(-1) == [0xFF, 0xFF, 0xFF, 0xFF]
    ensures Int32Bytes(0x1_0000_0001) == Int32Bytes(1)
  {
  }

  /** `int32(size, buffer, offset)`: writes the four bytes of `size` at
      `offset` and returns 4. */
  method Int32(size: int, buffer: array<byte>, offset: nat) returns (n: nat)
    requires offset + 4 <= buffer.Length
    modifies buffer
    ensures n == 4
    ensures buffer[offset..offset + 4] == Int32Bytes(size)
    ensures forall k :: 0 <= k < buffer.Length && !(offset <= k < offset + 4) ==> buffer[k] == old(buffer[k])
  {
    var u := ToUint32(size);
    var o := offset;
    buffer[o] := u % 0x100;                // (size) & 0xff
    o := o + 1;
    buffer[o] := u / 0x100 % 0x100;        // (size >>> 8) & 0xff
    o := o + 1;
    buffer[o] := u / 0x1_0000 % 0x100;     // (size >>> 16) & 0xff
    o := o + 1;
    buffer[o] := u / 0x100_0000 % 0x100;   // (size >>> 24) & 0xff
    n := 4;
  }

  /** `cstring(name, buffer, offset)`: writes the UTF-8 bytes of `name` and a
      terminating zero at `offset`, and returns how many bytes it wrote. */
  method CString(name: seq<CodeUnit>, buffer: array<byte>, offset: nat) returns (n: nat)
    requires offset + EncodedLength(name) + 1 <= buffer.Length
    modifies buffer
    ensures n == EncodedLength(name) + 1
    ensures buffer[offset..offset + n] == EncodeString(name) + [0]
    ensures forall k :: 0 <= k < buffer.Length && !(offset <= k < offset + n) ==> buffer[k] == old(buffer[k])
  {
    var cstring := Str2Bin(name);
    var clen := cstring.Length;
    // buffer.set(cstring, offset)
    forall k | offset <= k < offset + clen {
      buffer[k] := cstring[k - offset];
    }
    buffer[offset + clen] := 0;
    clen := clen + 1;
    n := clen;
    assert buffer[offset..offset + n] == cstring[..] + [0];
  }

  // ---------------------------------------------------------------------------
  // 64-bit integers over two 32-bit halves

  /** Two four-byte words side by side read back as the first word below the
      second. */
  lemma ConcatWords(a: seq<byte>, b: seq<byte>)
    requires |a| == 4 && |b| == 4
    ensures Unsigned64At(a + b, 0) == Unsigned32At(a, 0) + Unsigned32At(b, 0) * TWO_PWR_32
  {
    var c := a + b;
    assert At(c, 0) == At(a, 0) && At(c, 1) == At(a, 1) && At(c, 2) == At(a, 2) && At(c, 3) == At(a, 3);
    assert At(c, 4) == At(b, 0) && At(c, 5) == At(b, 1) && At(c, 6) == At(b, 2) && At(c, 7) == At(b, 3);
  }

  /** The BSON int64 layout of `v`: the low and then the high 32-bit word of
      v mod 2^64 (its 64-bit two's complement), each laid out as int32 lays
      out a value. Read back little-endian the eight bytes are v mod 2^64. */
  function LongBytes(v: int): (r: seq<byte>)
    ensures |r| == 8
    ensures Unsigned64At(r, 0) == v % TWO_PWR_64
  {
    var u := v % TWO_PWR_64;
    var lo, hi := Int32Bytes(u % TWO_PWR_32), Int32Bytes(u / TWO_PWR_32);
    ConcatWords(lo, hi);
    lo + hi
  }

  /** The byte fields of the low word are the low four byte fields of `u`. */
  lemma LowWordFields(u: int)
    requires 0 <= u
    ensures var lo := u % TWO_PWR_32;
      && lo % 0x100 == u % 0x100
      && lo / 0x100 % 0x100 == u / 0x100 % 0x100
      && lo / 0x1_0000 % 0x100 == u / 0x1_0000 % 0x100
      && lo / 0x100_0000 % 0x100 == u / 0x100_0000 % 0x100
  {
    var q, r := u / TWO_PWR_32, u % TWO_PWR_32;
    var r1, r2, r3 := r / 0x100, r / 0x1_0000, r / 0x100_0000;
    DivModOf(u, 0x100, q * 0x100_0000 + r1, r % 0x100);
    DivModOf(q * 0x100_0000 + r1, 0x100, q * 0x1_0000 + r1 / 0x100, r1 % 0x100);
    DivModOf(u, 0x1_0000, q * 0x1_0000 + r2, r % 0x1_0000);
    DivModOf(q * 0x1_0000 + r2, 0x100, q * 0x100 + r2 / 0x100, r2 % 0x100);
    DivModOf(u, 0x100_0000, q * 0x100 + r3, r % 0x100_0000);
    DivModOf(q * 0x100 + r3, 0x100, q + r3 / 0x100, r3 % 0x100);
  }

  /** The byte fields of the high word are the high four byte fields of `u`. */
  lemma HighWordFields(u: int)
    requires 0 <= u
    ensures var hi := u / TWO_PWR_32;
      && hi / 0x100 == u / 0x100_0000_0000
      && hi / 0x1_0000 == u / 0x1_0000_0000_0000
      && hi / 0x100_0000 == u / 0x100_0000_0000_0000
  {
    var q, r := u / TWO_PWR_32, u % TWO_PWR_32;
    DivModOf(u, 0x100_0000_0000, q / 0x100, q % 0x100 * TWO_PWR_32 + r);
    DivModOf(u, 0x1_0000_0000_0000, q / 0x1_0000, q % 0x1_0000 * TWO_PWR_32 + r);
    DivModOf(u, 0x100_0000_0000_0000, q / 0x100_0000, q % 0x100_0000 * TWO_PWR_32 + r);
  }

  /** Byte i of the layout is (v mod 2^64) / 256^i mod 256. */
  lemma LongBytesFields(v: int)
    ensures var u := v % TWO_PWR_64;
      LongBytes(v) ==
        [u % 0x100, u / 0x100 % 0x100, u / 0x1_0000 % 0x100, u / 0x100_0000 % 0x100,
         u / 0x1_0000_0000 % 0x100, u / 0x100_0000_0000 % 0x100,
         u / 0x1_0000_0000_0000 % 0x100, u / 0x100_0000_0000_0000 % 0x100]
  {
    var u := v % TWO_PWR_64;
    LowWordFields(u);
    HighWordFields(u);
  }

  lemma LongBytesFromHalves(v: int, lo: int, hi: int)
    requires ToUint32(lo) == v % TWO_PWR_64 % TWO_PWR_32
    requires ToUint32(hi) == v % TWO_PWR_64 / TWO_PWR_32
    ensures LongBytes(v) == Int32Bytes(lo) + Int32Bytes(hi)
  {
    SameWordSameBytes(lo, v % TWO_PWR_64 % TWO_PWR_32);
    SameWordSameBytes(hi, v % TWO_PWR_64 / TWO_PWR_32);
  }

  /** The halves number2long computes for a non-negative value are its low and
      high words. */
  lemma NonNegativeHalves(value: int, lo: int, hi: int)
    requires 0 <= value <= MAX_SAFE_INTEGER
    requires lo == ToInt32(TruncRem(value, TWO_PWR_32))
    requires hi == ToInt32(TruncDiv(value, TWO_PWR_32))
    ensures ToUint32(lo) == value % TWO_PWR_64 % TWO_PWR_32
    ensures ToUint32(hi) == value % TWO_PWR_64 / TWO_PWR_32
  {
    DivModOf(value, TWO_PWR_64, 0, value);
  }

  /** `~r` plus one, taken back to 32 bits, is the 32-bit negation of `r`: zero
      exactly when `r` is. */
  lemma LowNegation(r: int)
    requires 0 <= r < TWO_PWR_32
    ensures var lo := ToInt32(BitNot32(ToInt32(r)) + 1);
      && (lo == 0 <==> r == 0)
      && ToUint32(lo) == if r == 0 then 0 else TWO_PWR_32 - r
  {
    var notLo := BitNot32(ToInt32(r));
    assert ToUint32(notLo) == TWO_PWR_32 - 1 - r;
    Uint32OfInt32(notLo);
    var lo := ToInt32(notLo + 1);
    if r == 0 {
      assert notLo == -1;
    } else {
      DivModOf(notLo + 1, TWO_PWR_32, if notLo + 1 >= 0 then 0 else -1, TWO_PWR_32 - r);
    }
  }

  /** The quotient and remainder by 2^32 that number2long computes for the
      magnitude of a negative safe integer. */
  lemma MagnitudeWords(value: int) returns (q: int, r: int)
    requires -MAX_SAFE_INTEGER <= value < 0
    ensures 0 <= r < TWO_PWR_32 && 0 <= q < TWO_PWR_31 && -value == q * TWO_PWR_32 + r
    ensures TruncRem(-value, TWO_PWR_32) == r && TruncDiv(-value, TWO_PWR_32) == q
  {
    q, r := -value / TWO_PWR_32, -value % TWO_PWR_32;
  }

  /** The halves number2long computes for a negative value: complementing the
      halves of the magnitude and adding one to the low half, with a carry
      into the high half when the low half wraps to zero, gives the low and
      high words of value mod 2^64. */
  lemma NegativeHalves(value: int, notLo: int, notHi: int)
    requires -MAX_SAFE_INTEGER <= value < 0
    requires notLo == BitNot32(ToInt32(TruncRem(-value, TWO_PWR_32)))
    requires notHi == BitNot32(ToInt32(TruncDiv(-value, TWO_PWR_32)))
    ensures var lo := ToInt32(notLo + 1);
      && ToUint32(lo) == value % TWO_PWR_64 % TWO_PWR_32
      && ToUint32(if lo == 0 then notHi + 1 else notHi) == value % TWO_PWR_64 / TWO_PWR_32
  {
    var q, r := MagnitudeWords(value);
    assert notHi == -q - 1;
    LowNegation(r);
    DivModOf(value, TWO_PWR_64, -1, TWO_PWR_64 + value);
    if r == 0 {
      DivModOf(TWO_PWR_64 + value, TWO_PWR_32, TWO_PWR_32 - q, 0);
      DivModOf(-q, TWO_PWR_32, -1, TWO_PWR_32 - q);
    } else {
      DivModOf(TWO_PWR_64 + value, TWO_PWR_32, TWO_PWR_32 - q - 1, TWO_PWR_32 - r);
      DivModOf(-q - 1, TWO_PWR_32, -1, TWO_PWR_32 - q - 1);
    }
  }

  /** The two 32-bit halves number2long computes for an integer `value`
      (the `lo`, `hi` of its first branch), seen as unsigned words: the low and
      high words of `value` mod 2^64. */
  method Halves(value: int) returns (lo: int, hi: int)
    requires IsSafeInteger(value)
    ensures ToUint32(lo) == value % TWO_PWR_64 % TWO_PWR_32
    ensures ToUint32(hi) == value % TWO_PWR_64 / TWO_PWR_32
  {
    lo := ToInt32(TruncRem(value, TWO_PWR_32));
    hi := ToInt32(TruncDiv(value, TWO_PWR_32));
    if value < 0 {
      lo := BitNot32(ToInt32(TruncRem(-value, TWO_PWR_32)));
      hi := BitNot32(ToInt32(TruncDiv(-value, TWO_PWR_32)));
      NegativeHalves(value, lo, hi);
      lo := ToInt32(lo + 1);   // (lo + 1) & 0xffffffff
      if lo == 0 {
        hi := hi + 1;
      }
    } else {
      NonNegativeHalves(value, lo, hi);
    }
  }

  /** `number2long(value)` for an integer `value`: a fresh 8-byte buffer holding
      `value` as a little-endian 64-bit two's complement integer. */
  method Number2Long(value: int) returns (buf: array<byte>)
    requires IsSafeInteger(value)
    ensures fresh(buf)
    ensures buf[..] == LongBytes(value)
  {
    buf := new byte[8](_ => 0);
    var lo, hi := Halves(value);
    var l, h := ToUint32(lo), ToUint32(hi);   // what `>>>` and `& 0xff` see
    buf[0] := l % 0x100;
    buf[1] := l / 0x100 % 0x100;
    buf[2] := l / 0x1_0000 % 0x100;
    buf[3] := l / 0x100_0000 % 0x100;
    buf[4] := h % 0x100;
    buf[5] := h / 0x100 % 0x100;
    buf[6] := h / 0x1_0000 % 0x100;
    buf[7] := h / 0x100_0000 % 0x100;
    assert buf[..] == Int32Bytes(l) + Int32Bytes(h);
    LongBytesFromHalves(value, l, h);
  }

  /** One 32-bit word as long2number reads it:
      `b[o] | b[o+1] << 8 | b[o+2] << 16 | b[o+3] << 24`, a signed int32
      (the byte fields are disjoint, so the ORs add them). */
  function Word32At(b: seq<byte>, off: int): (w: int)
    ensures -TWO_PWR_31 <= w < TWO_PWR_31
    ensures ToUint32(w) == Unsigned32At(b, off)
  {
    ToInt32(At(b, off) + At(b, off + 1) * 0x100 + At(b, off + 2) * 0x1_0000 + At(b, off + 3) * 0x100_0000)
  }

  /** `hi * 2^32 + unsigned(lo)` for two signed words is a signed 64-bit
      integer whose residue mod 2^64 puts the high word's pattern above the
      low word's. */
  lemma CombineWords(lo: int, hi: int)
    requires -TWO_PWR_31 <= lo < TWO_PWR_31 && -TWO_PWR_31 <= hi < TWO_PWR_31
    ensures var r := hi * TWO_PWR_32 + (if lo >= 0 then lo else TWO_PWR_32 + lo);
      && -TWO_PWR_63 <= r < TWO_PWR_63
      && r % TWO_PWR_64 == ToUint32(lo) + ToUint32(hi) * TWO_PWR_32
  {
    Uint32OfInt32(lo);
    Uint32OfInt32(hi);
    var r := hi * TWO_PWR_32 + (if lo >= 0 then lo else TWO_PWR_32 + lo);
    DivModOf(r, TWO_PWR_64, if hi >= 0 then 0 else -1, ToUint32(lo) + ToUint32(hi) * TWO_PWR_32);
  }

  /** `long2number(buffer, offset)`: the signed 64-bit little-endian integer at
      `offset`, computed as `hi * 2^32 + unsigned(lo)`. */
  function Long2Number(buffer: seq<byte>, offset: nat): (r: int)
    ensures -TWO_PWR_63 <= r < TWO_PWR_63
    ensures r % TWO_PWR_64 == Unsigned64At(buffer, offset)
  {
    var lo := Word32At(buffer, offset);
    var hi := Word32At(buffer, offset + 4);
    CombineWords(lo, hi);
    hi * TWO_PWR_32 + (if lo >= 0 then lo else TWO_PWR_32 + lo)
  }

  /** long2number reads nothing but the eight bytes at `offset`. */
  lemma Long2NumberReadsWindow(buffer: seq<byte>, other: seq<byte>, offset: nat)
    requires offset + 8 <= |buffer| && offset + 8 <= |other|
    requires buffer[offset..offset + 8] == other[offset..offset + 8]
    ensures Long2Number(buffer, offset) == Long2Number(other, offset)
  {
    forall k | offset <= k < offset + 8
      ensures At(buffer, k) == At(other, k)
    {
      assert buffer[k] == buffer[offset..offset + 8][k - offset];
      assert other[k] == other[offset..offset + 8][k - offset];
    }
    assert Word32At(buffer, offset) == Word32At(other, offset);
    assert Word32At(buffer, offset + 4) == Word32At(other, offset + 4);
  }

  /** Two signed 64-bit integers with the same residue mod 2^64 are equal. */
  lemma SameResidue64(a: int, b: int)
    requires -TWO_PWR_63 <= a < TWO_PWR_63 && -TWO_PWR_63 <= b < TWO_PWR_63
    requires a % TWO_PWR_64 == b % TWO_PWR_64
    ensures a == b
  {
    DivModOf(a, TWO_PWR_64, if a >= 0 then 0 else -1, if a >= 0 then a else a + TWO_PWR_64);
    DivModOf(b, TWO_PWR_64, if b >= 0 then 0 else -1, if b >= 0 then b else b + TWO_PWR_64);
  }

  /** Every signed 64-bit integer survives its own byte layout. */
  lemma LongRoundTrip(v: int)
    requires -TWO_PWR_63 <= v < TWO_PWR_63
    ensures Long2Number(LongBytes(v), 0) == v
  {
    SameResidue64(Long2Number(LongBytes(v), 0), v);
  }

  /** number2long followed by long2number returns the integer it was given. */
  method Number2LongThenLong2Number(value: int) returns (decoded: int)
    requires IsSafeInteger(value)
    ensures decoded == value
  {
    var buf := Number2Long(value);
    decoded := Long2Number(buf[..], 0);
    LongRoundTrip(value);
  }

  // ---------------------------------------------------------------------------
  // UTF-8 over 16-bit code units

  /** No `"\r\n"` anywhere in `s`. */
  predicate NoCrlf(s: seq<CodeUnit>) {
    forall i :: 0 <= i < |s| - 1 ==> !(s[i] == CR && s[i + 1] == LF)
  }

  /** `s.replace(/\r\n/g, '\n')`: scans left to right and rewrites every
      `"\r\n"` it meets as `"\n"`. */
  function NormalizeNewlines(s: seq<CodeUnit>): (r: seq<CodeUnit>)
    ensures |r| <= |s|
  {
    if |s| >= 2 && s[0] == CR && s[1] == LF then [LF] + NormalizeNewlines(s[2..])
    else if s == [] then []
    else [s[0]] + NormalizeNewlines(s[1..])
  }

  lemma AppendAssoc<T>(x: seq<T>, y: seq<T>, z: seq<T>)
    ensures x + (y + z) == (x + y) + z
  {
  }

  /** The rewrite distributes over a concatenation that does not split a
      `"\r\n"`. */
  lemma {:induction false} NormalizeAppend(a: seq<CodeUnit>, b: seq<CodeUnit>)
    requires a == [] || b == [] || !(a[|a| - 1] == CR && b[0] == LF)
    ensures NormalizeNewlines(a + b) == NormalizeNewlines(a) + NormalizeNewlines(b)
  {
    var ab := a + b;
    if a == [] {
      assert ab == b;
    } else if |a| >= 2 && a[0] == CR && a[1] == LF {
      assert ab[2..] == a[2..] + b;
      NormalizeAppend(a[2..], b);
      AppendAssoc([LF], NormalizeNewlines(a[2..]), NormalizeNewlines(b));
    } else {
      assert ab[1..] == a[1..] + b;
      assert NormalizeNewlines(ab) == [a[0]] + NormalizeNewlines(ab[1..]) by {
        assert ab[0] == a[0];
        if |a| == 1 {
          assert b != [] ==> ab[1] == b[0];
        } else {
          assert ab[1] == a[1];
        }
      }
      NormalizeAppend(a[1..], b);
      AppendAssoc([a[0]], NormalizeNewlines(a[1..]), NormalizeNewlines(b));
    }
  }

  /** Every `"\r\n"` becomes `"\n"`, wherever it stands. */
  lemma NormalizeCrlf(a: seq<CodeUnit>, b: seq<CodeUnit>)
    ensures NormalizeNewlines(a + [CR, LF] + b) == NormalizeNewlines(a) + [LF] + NormalizeNewlines(b)
  {
    NormalizeAppend(a + [CR, LF], b);
    NormalizeAppend(a, [CR, LF]);
    assert NormalizeNewlines([CR, LF]) == [LF] by {
      assert [CR, LF][2..] == [];
    }
  }

  /** A string without `"\r\n"` is left as it is. */
  lemma {:induction false} NormalizeIdentity(s: seq<CodeUnit>)
    requires NoCrlf(s)
    ensures NormalizeNewlines(s) == s
  {
    if s != [] {
      assert !(|s| >= 2 && s[0] == CR && s[1] == LF);
      assert NoCrlf(s[1..]) by {
        forall i | 0 <= i < |s[1..]| - 1
          ensures !(s[1..][i] == CR && s[1..][i + 1] == LF)
        {
          assert s[1..][i] == s[i + 1] && s[1..][i + 1] == s[i + 2];
        }
      }
      NormalizeIdentity(s[1..]);
    }
  }

  /** The rewrite is a single pass: `"\r\r\n"` becomes `"\r\n"`, which a second
      pass would rewrite again. */
  lemma NormalizeSinglePass()
    ensures NormalizeNewlines([CR, CR, LF]) == [CR, LF]
    ensures NormalizeNewlines(NormalizeNewlines([CR, CR, LF])) == [LF]
  {
    assert [CR, CR, LF][1..] == [CR, LF];
    assert [CR, LF][2..] == [];
  }

  /** How many bytes str2bin spends on one code unit. */
  function UnitLength(c: CodeUnit): nat {
    if c < 0x80 then 1 else if c < 0x800 then 2 else 3
  }

  /** The bit fields str2bin cuts a code unit into add back up to it. */
  lemma UnitFields(c: CodeUnit)
    ensures c / 0x1000 == c / 0x40 / 0x40
    ensures c == c / 0x1000 * 0x1000 + c / 0x40 % 0x40 * 0x40 + c % 0x40
  {
    DivModOf(c, 0x1000, c / 0x40 / 0x40, c / 0x40 % 0x40 * 0x40 + c % 0x40);
  }

  /** The bytes str2bin emits for one code unit. The bit fields are disjoint,
      so `(c >>> 6) | 192` is `0xC0 + c / 64`, `(c & 63) | 128` is
      `0x80 + c % 64`, and so on. */
  function EncodeUnit(c: CodeUnit): (r: seq<byte>)
    ensures |r| == UnitLength(c)
    ensures c < 0x80 ==> r == [c]
    ensures 0x80 <= c < 0x800 ==>
      && 0xC0 <= r[0] < 0xE0 && 0x80 <= r[1] < 0xC0
      && (r[0] as int - 0xC0) * 0x40 + (r[1] as int - 0x80) == c
    ensures 0x800 <= c ==>
      && 0xE0 <= r[0] < 0xF0 && 0x80 <= r[1] < 0xC0 && 0x80 <= r[2] < 0xC0
      && (r[0] as int - 0xE0) * 0x1000 + (r[1] as int - 0x80) * 0x40 + (r[2] as int - 0x80) == c
  {
    UnitFields(c);
    if c < 0x80 then [c]
    else if c < 0x800 then [0xC0 + c / 0x40, 0x80 + c % 0x40]
    else [0xE0 + c / 0x1000, 0x80 + c / 0x40 % 0x40, 0x80 + c % 0x40]
  }

  /** The three-case UTF-8 encoding of each code unit in turn. */
  function Utf8Encode(s: seq<CodeUnit>): seq<byte> {
    if s == [] then [] else EncodeUnit(s[0]) + Utf8Encode(s[1..])
  }

  /** The sum of the per-unit lengths. */
  function Utf8Length(s: seq<CodeUnit>): nat {
    if s == [] then 0 else UnitLength(s[0]) + Utf8Length(s[1..])
  }

  /** What str2bin returns for `s`: the per-unit lengths of the normalised
      string add up to its length, and a string without `"\r\n"` is encoded
      as it stands. */
  function EncodeString(s: seq<CodeUnit>): (r: seq<byte>)
    ensures |r| == Utf8Length(NormalizeNewlines(s))
    ensures NoCrlf(s) ==> r == Utf8Encode(s)
  {
    var t := NormalizeNewlines(s);
    Utf8EncodeLength(t);
    assert NoCrlf(s) ==> t == s by {
      if NoCrlf(s) {
        NormalizeIdentity(s);
      }
    }
    Utf8Encode(t)
  }

  lemma {:induction false} Utf8EncodeAppend(a: seq<CodeUnit>, b: seq<CodeUnit>)
    ensures Utf8Encode(a + b) == Utf8Encode(a) + Utf8Encode(b)
  {
    if a == [] {
      assert a + b == b;
    } else {
      assert (a + b)[1..] == a[1..] + b;
      Utf8EncodeAppend(a[1..], b);
    }
  }

  lemma {:induction false} Utf8EncodeLength(s: seq<CodeUnit>)
    ensures |Utf8Encode(s)| == Utf8Length(s)
  {
    if s != [] {
      Utf8EncodeLength(s[1..]);
    }
  }

  /** Encoding one more code unit appends its bytes. */
  lemma EncodePrefix(s: seq<CodeUnit>, i: nat)
    requires i < |s|
    ensures Utf8Encode(s[..i + 1]) == Utf8Encode(s[..i]) + EncodeUnit(s[i])
  {
    assert s[..i + 1] == s[..i] + [s[i]];
    assert Utf8Encode([s[i]]) == EncodeUnit(s[i]);
    Utf8EncodeAppend(s[..i], [s[i]]);
  }

  /** The byte length of str2bin's output, computed without building it: what
      cstring writes before its terminator. */
  function EncodedLength(s: seq<CodeUnit>): (n: nat)
    ensures n == |EncodeString(s)|
  {
    Utf8Length(NormalizeNewlines(s))
  }

  /** `str2bin(str)`: a fresh byte array holding the UTF-8 encoding of `str`
      after `"\r\n"` is rewritten as `"\n"`. */
  method Str2Bin(str: seq<CodeUnit>) returns (out: array<byte>)
    ensures fresh(out)
    ensures out[..] == EncodeString(str)
  {
    var s := NormalizeNewlines(str);
    var bin: seq<byte> := [];   // the JavaScript array; its length is the source's `p`
    var i := 0;
    while i < |s|
      invariant 0 <= i <= |s|
      invariant bin == Utf8Encode(s[..i])
    {
      var c := s[i];
      ghost var before := bin;
      if c < 128 {
        bin := bin + [c];
      } else if c < 2048 {
        bin := bin + [c / 64 + 192];
        bin := bin + [c % 64 + 128];
      } else {
        bin := bin + [c / 4096 + 224];
        bin := bin + [c / 64 % 64 + 128];
        bin := bin + [c % 64 + 128];
      }
      assert bin == before + EncodeUnit(c);
      EncodePrefix(s, i);
      i := i + 1;
    }
    assert s[..i] == s;
    out := new byte[|bin|](k requires 0 <= k < |bin| => bin[k]);
    assert out[..] == bin;
  }

  /** How many bytes bin2str takes for a sequence whose lead byte is `c`:
      one below 128, two for 192..223, three for anything else. */
  function SequenceLength(c: byte): nat {
    if c < 0x80 then 1 else if 0xBF < c < 0xE0 then 2 else 3
  }

  /** The lead byte classes: ASCII takes one byte, 0xC0..0xDF two, and every
      other byte three, a stray continuation byte (0x80..0xBF) and a four-byte
      lead (0xF0..0xFF) included. */
  lemma SequenceLengthClasses(c: byte)
    ensures SequenceLength(c) == 1 <==> c < 0x80
    ensures SequenceLength(c) == 2 <==> 0xC0 <= c < 0xE0
    ensures SequenceLength(c) == 3 <==> 0x80 <= c < 0xC0 || 0xE0 <= c
  {
  }

  /** The code unit bin2str builds from a lead byte `c` and the two bytes
      after it (`(c & 31) << 6 | (c2 & 63)` and so on; the bit fields are
      disjoint, so the ORs add them). */
  function DecodeUnit(c: byte, c2: byte, c3: byte): CodeUnit {
    if c < 0x80 then c
    else if 0xBF < c < 0xE0 then (c % 0x20) * 0x40 + c2 % 0x40
    else (c % 0x10) * 0x1000 + (c2 % 0x40) * 0x40 + c3 % 0x40
  }

  /** The bit fields of a decoded unit are the payload bits of its bytes: the
      low 5 (two-byte sequence) or 4 (three-byte sequence) bits of the lead
      byte, then the low 6 bits of each continuation byte. */
  lemma DecodeUnitFields(c: byte, c2: byte, c3: byte)
    ensures var r := DecodeUnit(c, c2, c3);
      && (c < 0x80 ==> r == c)
      && (0xC0 <= c < 0xE0 ==> r < 0x800 && r / 0x40 == c % 0x20 && r % 0x40 == c2 % 0x40)
      && (!(c < 0x80) && !(0xC0 <= c < 0xE0) ==>
            r / 0x1000 == c % 0x10 && r / 0x40 % 0x40 == c2 % 0x40 && r % 0x40 == c3 % 0x40)
  {
    var mid := (c % 0x10) * 0x40 + c2 % 0x40;
    DivModOf((c % 0x20) * 0x40 + c2 % 0x40, 0x40, c % 0x20, c2 % 0x40);
    DivModOf(mid * 0x40 + c3 % 0x40, 0x1000, c % 0x10, (c2 % 0x40) * 0x40 + c3 % 0x40);
    DivModOf(mid * 0x40 + c3 % 0x40, 0x40, mid, c3 % 0x40);
    DivModOf(mid, 0x40, c % 0x10, c2 % 0x40);
  }

  /** The inverse transform, one sequence at a time; a byte past the end
      reads 0. */
  function Utf8Decode(b: seq<byte>): (s: seq<CodeUnit>)
    ensures |s| <= |b|
    decreases |b|
  {
    if b == [] then []
    else [DecodeUnit(b[0], At(b, 1), At(b, 2))] + Utf8Decode(Drop(b, SequenceLength(b[0])))
  }

  /** The sequence at `i` decodes to one code unit built from `b[i]`,
      `b[i + 1]` and `b[i + 2]`, and decoding goes on after it. */
  lemma DecodeStep(b: seq<byte>, i: nat)
    requires i < |b|
    ensures Utf8Decode(Drop(b, i)) ==
      [DecodeUnit(b[i], At(b, i + 1), At(b, i + 2))] + Utf8Decode(Drop(b, i + SequenceLength(b[i])))
  {
    DropAt(b, i, 1);
    DropAt(b, i, 2);
    DropAt(b, i, SequenceLength(b[i]));
  }

  /** One iteration of bin2str: appending the unit decoded at `i` to what is
      decoded so far keeps the loop's invariant. */
  lemma DecodeAdvance(b: seq<byte>, done: seq<CodeUnit>, i: nat)
    requires i < |b|
    requires done + Utf8Decode(Drop(b, i)) == Utf8Decode(b)
    ensures done + [DecodeUnit(b[i], At(b, i + 1), At(b, i + 2))] + Utf8Decode(Drop(b, i + SequenceLength(b[i]))) == Utf8Decode(b)
  {
    DecodeStep(b, i);
  }

  lemma DropAt(b: seq<byte>, i: nat, j: nat)
    ensures At(Drop(b, i), j) == At(b, i + j)
    ensures Drop(Drop(b, i), j) == Drop(b, i + j)
  {
  }

  /** bin2str's lead-byte test and bit arithmetic recover a code unit from
      the bytes str2bin emits for it. */
  lemma DecodeUnitOfEncodeUnit(c: CodeUnit)
    ensures var e := EncodeUnit(c);
      && SequenceLength(e[0]) == |e|
      && DecodeUnit(e[0], At(e, 1), At(e, 2)) == c
  {
    var e := EncodeUnit(c);
    UnitFields(c);
    if 0x80 <= c < 0x800 {
      DivModOf(e[0], 0x20, 6, c / 0x40);
      DivModOf(e[1], 0x40, 2, c % 0x40);
    } else if 0x800 <= c {
      DivModOf(e[0], 0x10, 14, c / 0x1000);
      DivModOf(e[1], 0x40, 2, c / 0x40 % 0x40);
      DivModOf(e[2], 0x40, 2, c % 0x40);
    }
  }

  lemma DecodeEncodeUnit(c: CodeUnit, rest: seq<byte>)
    ensures Utf8Decode(EncodeUnit(c) + rest) == [c] + Utf8Decode(rest)
  {
    var e := EncodeUnit(c);
    var b := e + rest;
    DecodeUnitOfEncodeUnit(c);
    assert Drop(b, |e|) == rest;
    assert b[0] == e[0];
    assert At(b, 1) == At(e, 1) || |e| < 2;
    assert At(b, 2) == At(e, 2) || |e| < 3;
    assert DecodeUnit(b[0], At(b, 1), At(b, 2)) == c;
  }

  /** bin2str undoes the three-case encoding of any code units, lone
      surrogates included. */
  lemma {:induction false} DecodeEncode(s: seq<CodeUnit>)
    ensures Utf8Decode(Utf8Encode(s)) == s
  {
    if s != [] {
      DecodeEncodeUnit(s[0], Utf8Encode(s[1..]));
      DecodeEncode(s[1..]);
    }
  }

  /** bin2str(str2bin(s)) is `s` with every `"\r\n"` rewritten, and `s` itself
      when it holds no `"\r\n"`. */
  lemma StringRoundTrip(s: seq<CodeUnit>)
    ensures Utf8Decode(EncodeString(s)) == NormalizeNewlines(s)
    ensures NoCrlf(s) ==> Utf8Decode(EncodeString(s)) == s
  {
    DecodeEncode(NormalizeNewlines(s));
    if NoCrlf(s) {
      NormalizeIdentity(s);
    }
  }

  /** `bin2str(bin)`: decodes `bin` one sequence at a time. */
  method Bin2Str(bin: array<byte>) returns (str: seq<CodeUnit>)
    ensures str == Utf8Decode(bin[..])
  {
    ghost var b := bin[..];
    str := [];
    var len, i := bin.Length, 0;
    while i < len
      invariant 0 <= i <= len + 2
      invariant str + Utf8Decode(Drop(b, i)) == Utf8Decode(b)
    {
      var c: int := bin[i];
      var unit: int;
      ghost var i0 := i;
      if c < 128 {
        unit := c;
        i := i + 1;
      } else if c > 191 && c < 224 {
        var c2: int := if i + 1 < len then bin[i + 1] else 0;   // undefined & 63 is 0
        assert c2 == At(b, i + 1);
        unit := (c % 32) * 64 + c2 % 64;
        i := i + 2;
      } else {
        var c2: int := if i + 1 < len then bin[i + 1] else 0;
        var c3: int := if i + 2 < len then bin[i + 2] else 0;
        assert c2 == At(b, i + 1) && c3 == At(b, i + 2);
        unit := (c % 16) * 4096 + (c2 % 64) * 64 + c3 % 64;
        i := i + 3;
      }
      assert unit == DecodeUnit(b[i0], At(b, i0 + 1), At(b, i0 + 2));
      assert i == i0 + SequenceLength(b[i0]);
      DecodeAdvance(b, str, i0);
      str := str + [unit as CodeUnit];
    }
  }

  /** str2bin followed by bin2str gives back the string, `"\r\n"` rewritten. */
  method Str2BinThenBin2Str(s: seq<CodeUnit>) returns (t: seq<CodeUnit>)
    ensures t == NormalizeNewlines(s)
    ensures NoCrlf(s) ==> t == s
  {
    var bin := Str2Bin(s);
    t := Bin2Str(bin);
    StringRoundTrip(s);
  }

  // ---------------------------------------------------------------------------
  // strlen

  predicate IsHighSurrogate(c: CodeUnit) {
    0xD800 <= c < 0xDC00
  }

  predicate IsLowSurrogate(c: CodeUnit) {
    0xDC00 <= c < 0xE000
  }

  predicate IsSurrogate(c: CodeUnit) {
    0xD800 <= c < 0xE000
  }

  /** The code unit at `i` is not a lone surrogate: a high surrogate is
      followed by a low one, and a low surrogate follows a high one. */
  predicate PairedAt(s: seq<CodeUnit>, i: nat)
    requires i < |s|
  {
    && (IsHighSurrogate(s[i]) ==> i + 1 < |s| && IsLowSurrogate(s[i + 1]))
    && (IsLowSurrogate(s[i]) ==> 0 < i && IsHighSurrogate(s[i - 1]))
  }

  /** Well-formed UTF-16: no lone surrogates. */
  predicate IsWellFormedUtf16(s: seq<CodeUnit>) {
    forall i :: 0 <= i < |s| ==> PairedAt(s, i)
  }

  /** `strlen(str)`, the number of `%XX` escapes and plain characters in
      `encodeURI(str)`: the UTF-8 length of the code points of `str`, where a
      surrogate pair is one code point of four bytes. encodeURI throws a
      URIError on a lone surrogate; that is `None` here. */
  function Strlen(s: seq<CodeUnit>): (r: Option<nat>)
    ensures r.Some? ==> |s| <= r.value <= 3 * |s|
  {
    if s == [] then Some(0)
    else if |s| >= 2 && IsHighSurrogate(s[0]) && IsLowSurrogate(s[1]) then
      match Strlen(s[2..])
      case Some(n) => Some(4 + n)
      case None => None
    else if IsSurrogate(s[0]) then None
    else
      match Strlen(s[1..])
      case Some(n) => Some(UnitLength(s[0]) + n)
      case None => None
  }

  /** strlen fails exactly on strings that are not well-formed UTF-16. */
  lemma {:induction false} StrlenDefined(s: seq<CodeUnit>)
    ensures Strlen(s).Some? <==> IsWellFormedUtf16(s)
  {
    if s == [] {
    } else if |s| >= 2 && IsHighSurrogate(s[0]) && IsLowSurrogate(s[1]) {
      StrlenDefined(s[2..]);
      WellFormedTail(s, 2);
    } else if IsSurrogate(s[0]) {
      assert !PairedAt(s, 0);
    } else {
      StrlenDefined(s[1..]);
      WellFormedTail(s, 1);
    }
  }

  /** Cutting `s` after its first code point (one unit that is no surrogate,
      or a surrogate pair) leaves a well-formed suffix exactly when `s` is
      well formed. */
  lemma WellFormedTail(s: seq<CodeUnit>, k: nat)
    requires 0 < k <= 2 && k <= |s|
    requires k == 1 ==> !IsSurrogate(s[0])
    requires k == 2 ==> IsHighSurrogate(s[0]) && IsLowSurrogate(s[1])
    ensures IsWellFormedUtf16(s) <==> IsWellFormedUtf16(s[k..])
  {
    var t := s[k..];
    if IsWellFormedUtf16(s) {
      forall i | 0 <= i < |t|
        ensures PairedAt(t, i)
      {
        assert PairedAt(s, i + k);
        assert t[i] == s[i + k];
        assert i + 1 < |t| ==> t[i + 1] == s[i + k + 1];
        assert 0 < i ==> t[i - 1] == s[i + k - 1];
        assert i == 0 ==> !IsHighSurrogate(s[k - 1]);
      }
    }
    if IsWellFormedUtf16(t) {
      forall i | 0 <= i < |s|
        ensures PairedAt(s, i)
      {
        if i >= k {
          assert PairedAt(t, i - k);
          assert s[i] == t[i - k];
          assert i + 1 < |s| ==> s[i + 1] == t[i - k + 1];
          assert i > k ==> s[i - 1] == t[i - k - 1];
        }
      }
    }
  }

  /** On a string without surrogates strlen is the sum of the per-unit lengths. */
  lemma {:induction false} StrlenWithoutSurrogates(s: seq<CodeUnit>)
    requires forall i :: 0 <= i < |s| ==> !IsSurrogate(s[i])
    ensures Strlen(s) == Some(Utf8Length(s))
  {
    if s != [] {
      assert !IsSurrogate(s[0]);
      StrlenWithoutSurrogates(s[1..]);
    }
  }

  /** strlen agrees with the length of str2bin's output when the string holds
      neither surrogates nor `"\r\n"`. */
  lemma StrlenAgreesWithStr2Bin(s: seq<CodeUnit>)
    requires forall i :: 0 <= i < |s| ==> !IsSurrogate(s[i])
    requires NoCrlf(s)
    ensures Strlen(s) == Some(|EncodeString(s)|)
  {
    StrlenWithoutSurrogates(s);
    NormalizeIdentity(s);
  }

  /** Outside those conditions the two lengths differ: `"\r\n"` counts 2 for
      strlen and 1 for str2bin, a surrogate pair 4 and 6. */
  lemma StrlenDisagreesWithStr2Bin()
    ensures Strlen([CR, LF]) == Some(2) && |EncodeString([CR, LF])| == 1
    ensures Strlen([0xD83D, 0xDE00]) == Some(4) && |EncodeString([0xD83D, 0xDE00])| == 6
  {
    assert [CR, LF][2..] == [];
    assert Strlen([CR, LF][1..]) == Some(1) by {
      assert [CR, LF][1..] == [LF];
      assert [LF][1..] == [];
    }
    var pair: seq<CodeUnit> := [0xD83D, 0xDE00];
    assert pair[2..] == [];
    assert NormalizeNewlines(pair) == pair by {
      assert pair[1..] == [0xDE00];
      assert pair[1..][1..] == [];
    }
    Utf8EncodeLength(pair);
    assert pair[1..] == [0xDE00];
  }
}

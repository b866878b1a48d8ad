/** Bytes as the C code sees them: fixed-width little-endian integers and bit addressing. */
module Bytes {
  type byte = b: nat | b < 256

  const TWO_32: nat := 0x1_0000_0000
  const UINT64_RANGE: nat := 0x1_0000_0000_0000_0000

  /** 256 to the power `width`: the number of values a `width`-byte unsigned integer holds. */
  function Range(width: nat): (r: nat)
    ensures r > 0
  {
    if width == 0 then 1 else 256 * Range(width - 1)
  }

  /** The memory image of an unsigned integer on a little-endian machine. */
  function LittleEndian(n: nat, width: nat): (r: seq<byte>)
    ensures |r| == width
  {
    if width == 0 then [] else [n % 256] + LittleEndian(n / 256, width - 1)
  }

  function FromLittleEndian(s: seq<byte>): (r: nat)
    ensures r < Range(|s|)
  {
    if s == [] then 0 else s[0] + 256 * FromLittleEndian(s[1..])
  }

  lemma {:induction false} LittleEndianRoundTrip(n: nat, width: nat)
    requires n < Range(width)
    ensures FromLittleEndian(LittleEndian(n, width)) == n
  {
    if width > 0 {
      var s := LittleEndian(n, width);
      assert n / 256 < Range(width - 1);
      LittleEndianRoundTrip(n / 256, width - 1);
      assert s[1..] == LittleEndian(n / 256, width - 1);
    }
  }

  // memset
  function Repeat(b: byte, times: nat): (r: seq<byte>)
    ensures |r| == times && forall i :: 0 <= i < times ==> r[i] == b
  {
    if times == 0 then [] else [b] + Repeat(b, times - 1)
  }

  function Pow2(n: nat): (r: nat)
    ensures r > 0
  {
    if n == 0 then 1 else 2 * Pow2(n - 1)
  }

  // Bit k of b, least significant first: b & (1 << k) is not zero.
  predicate BitOf(b: nat, k: nat) {
    if k == 0 then b % 2 == 1 else BitOf(b / 2, k - 1)
  }

  // b | (1 << k) on a word of `width` bits.
  function SetBit(b: nat, k: nat, width: nat): (r: nat)
    requires k < width && b < Pow2(width)
    ensures r < Pow2(width)
  {
    if k == 0 then b / 2 * 2 + 1 else 2 * SetBit(b / 2, k - 1, width - 1) + b % 2
  }

  lemma ByteWidth()
    ensures Pow2(8) == 256
  {
    assert Pow2(4) == 16;
  }

  // b | (1 << k) on a byte.
  function SetByteBit(b: byte, k: nat): byte
    requires k < 8
  {
    ByteWidth();
    SetBit(b, k, 8)
  }

  // The exclusive or of the low `width` bits.
  function XorBits(a: nat, b: nat, width: nat): (r: nat)
    ensures r < Pow2(width)
  {
    if width == 0 then 0 else (a + b) % 2 + 2 * XorBits(a / 2, b / 2, width - 1)
  }

  // The exclusive or of two bytes.
  function Xor(a: byte, b: byte): byte {
    ByteWidth();
    XorBits(a, b, 8)
  }

  lemma XorStep(a: nat, b: nat, width: nat)
    requires width > 0
    ensures XorBits(a, b, width) == (a + b) % 2 + 2 * XorBits(a / 2, b / 2, width - 1)
    ensures XorBits(a, b, width) % 2 == (a + b) % 2 && XorBits(a, b, width) / 2 == XorBits(a / 2, b / 2, width - 1)
  {
  }

  lemma {:induction false} XorCommutes(a: nat, b: nat, width: nat)
    ensures XorBits(a, b, width) == XorBits(b, a, width)
  {
    if width > 0 {
      XorCommutes(a / 2, b / 2, width - 1);
    }
  }

  lemma LowBits(a: nat, b: nat, c: nat, x: nat, y: nat)
    requires x % 2 == (a + b) % 2 && y % 2 == (b + c) % 2
    ensures (x + c) % 2 == (a + y) % 2 && (a + x) % 2 == b % 2
  {
  }

  lemma {:induction false} XorCancels(a: nat, b: nat, width: nat)
    requires b < Pow2(width)
    ensures XorBits(a, XorBits(a, b, width), width) == b
  {
    if width > 0 {
      var x := XorBits(a, b, width);
      XorStep(a, b, width);
      LowBits(a, b, 0, x, b);
      XorCancels(a / 2, b / 2, width - 1);
    }
  }

  lemma {:induction false} XorAssociates(a: nat, b: nat, c: nat, width: nat)
    ensures XorBits(XorBits(a, b, width), c, width) == XorBits(a, XorBits(b, c, width), width)
  {
    if width > 0 {
      var x, y := XorBits(a, b, width), XorBits(b, c, width);
      XorStep(a, b, width);
      XorStep(b, c, width);
      LowBits(a, b, c, x, y);
      XorAssociates(a / 2, b / 2, c / 2, width - 1);
      XorStep(x, c, width);
      XorStep(a, y, width);
    }
  }

  lemma XorLaws(a: byte, b: byte, c: byte)
    ensures Xor(a, b) == Xor(b, a) && Xor(a, Xor(a, b)) == b && Xor(Xor(a, b), c) == Xor(a, Xor(b, c))
  {
    ByteWidth();
    XorCommutes(a, b, 8);
    XorCancels(a, b, 8);
    XorAssociates(a, b, c, 8);
  }

  predicate BitAt(data: seq<byte>, pos: nat)
    requires pos / 8 < |data|
  {
    BitOf(data[pos / 8], pos % 8)
  }

  function Bits(data: seq<byte>): (r: seq<bool>)
    ensures |r| == 8 * |data|
  {
    seq(8 * |data|, i requires 0 <= i < 8 * |data| => BitAt(data, i))
  }

  function Zeros(n: nat): (r: seq<bool>)
    ensures |r| == n
  {
    seq(n, i => false)
  }

  // BYTE_BOUNDARY: the least multiple of 8 that is not below n.
  function ByteBoundary(n: nat): nat {
    (n + 7) / 8 * 8
  }

  // Where the section behind a section of len bits at pos starts.
  function NextSection(pos: nat, len: nat): nat {
    ByteBoundary(pos + len)
  }

  // The number of zero bits from n to the byte boundary.
  function Pad(n: nat): (r: nat)
    ensures r < 8
  {
    ByteBoundary(n) - n
  }

  lemma {:induction false} SetBitOf(b: nat, k: nat, j: nat, width: nat)
    requires k < width && b < Pow2(width)
    ensures BitOf(SetBit(b, k, width), j) == (j == k || BitOf(b, j))
  {
    if k > 0 && j > 0 {
      SetBitOf(b / 2, k - 1, j - 1, width - 1);
      assert SetBit(b, k, width) / 2 == SetBit(b / 2, k - 1, width - 1);
    }
  }

  lemma {:induction false} ZeroHasNoBits(k: nat)
    ensures !BitOf(0, k)
  {
    if k > 0 {
      ZeroHasNoBits(k - 1);
    }
  }

  // The buffer after SET_BIT(data, pos).
  function WithBit(data: seq<byte>, pos: nat): (r: seq<byte>)
    requires pos / 8 < |data|
    ensures |r| == |data|
  {
    data[pos / 8 := SetByteBit(data[pos / 8], pos % 8)]
  }

  lemma WithBitAt(data: seq<byte>, pos: nat, i: nat)
    requires pos < 8 * |data| && i < 8 * |data|
    ensures BitAt(WithBit(data, pos), i) == (i == pos || BitAt(data, i))
  {
    ByteWidth();
    SetBitOf(data[pos / 8], pos % 8, i % 8, 8);
  }

  // SET_BIT on the first of a run of zero bits.
  lemma SetFirstZero(data: seq<byte>, written: seq<bool>, zeros: nat)
    requires Bits(data) == written + Zeros(zeros) && zeros > 0
    ensures |written| < 8 * |data|
    ensures Bits(WithBit(data, |written|)) == written + [true] + Zeros(zeros - 1)
  {
    var pos := |written|;
    assert |Bits(data)| == pos + zeros;
    forall i | 0 <= i < 8 * |data|
      ensures Bits(WithBit(data, pos))[i] == (written + [true] + Zeros(zeros - 1))[i]
    {
      WithBitAt(data, pos, i);
      assert Bits(data)[i] == (written + Zeros(zeros))[i];
    }
  }

  lemma BitsOfZeros(data: seq<byte>)
    requires forall i :: 0 <= i < |data| ==> data[i] == 0
    ensures Bits(data) == Zeros(8 * |data|)
  {
    forall i | 0 <= i < 8 * |data|
      ensures !Bits(data)[i]
    {
      ZeroHasNoBits(i % 8);
    }
  }

  lemma BitsConcat(a: seq<byte>, b: seq<byte>)
    ensures Bits(a + b) == Bits(a) + Bits(b)
  {
    forall i | 0 <= i < 8 * |a + b|
      ensures Bits(a + b)[i] == (Bits(a) + Bits(b))[i]
    {
      if i >= 8 * |a| {
        assert (i - 8 * |a|) / 8 == i / 8 - |a| && (i - 8 * |a|) % 8 == i % 8;
      }
    }
  }

  // The exclusive or of all bytes.
  function Parity(s: seq<byte>): byte {
    if s == [] then 0 else Xor(Parity(s[..|s| - 1]), s[|s| - 1])
  }

  lemma ParityAppend(s: seq<byte>, b: byte)
    ensures Parity(s + [b]) == Xor(Parity(s), b)
  {
    assert (s + [b])[..|s|] == s;
  }

  function Padded(bits: seq<bool>): (r: seq<bool>)
    ensures |r| == ByteBoundary(|bits|)
  {
    bits + Zeros(Pad(|bits|))
  }

  // A file made of a head and two bit sections, each padded to a byte boundary.
  ghost predicate Framed(out: seq<byte>, head: seq<byte>, keys: seq<bool>, text: seq<bool>) {
    |out| >= |head| && out[..|head|] == head && Bits(out[|head|..]) == Padded(keys) + Padded(text)
  }

  // The bits w stand at bit position pos.
  ghost predicate BitsAt(data: seq<byte>, pos: nat, w: seq<bool>) {
    pos + |w| <= 8 * |data| && Bits(data)[pos..pos + |w|] == w
  }

  lemma BitOfRun(data: seq<byte>, pos: nat, w: seq<bool>, i: nat)
    requires BitsAt(data, pos, w) && i < |w|
    ensures pos + i < 8 * |data| && BitAt(data, pos + i) == w[i]
  {
    assert BitAt(data, pos + i) == Bits(data)[pos + i] == Bits(data)[pos..pos + |w|][i];
  }

  lemma SliceOfConcat(a: seq<bool>, b: seq<bool>, from: nat, len: nat)
    requires from + len <= |b|
    ensures (a + b)[|a| + from..|a| + from + len] == b[from..from + len]
  {
  }

  lemma FramedBits(out: seq<byte>, head: seq<byte>, keys: seq<bool>, text: seq<bool>, keyPos: nat, textPos: nat)
    requires Framed(out, head, keys, text)
    requires keyPos == 8 * |head| && textPos == NextSection(keyPos, |keys|)
    ensures 8 * |out| == textPos + ByteBoundary(|text|)
    ensures BitsAt(out, keyPos, keys) && BitsAt(out, textPos, text)
  {
    var body := Bits(out[|head|..]);
    var keyBytes := ByteBoundary(|keys|);
    assert out == head + out[|head|..];
    BitsConcat(head, out[|head|..]);
    assert textPos == keyPos + keyBytes;
    assert body[0..|keys|] == keys;
    assert body[keyBytes..keyBytes + |text|] == text;
    SliceOfConcat(Bits(head), body, 0, |keys|);
    SliceOfConcat(Bits(head), body, keyBytes, |text|);
  }

  lemma SplitHead(out: seq<byte>, head: seq<byte>, table: seq<byte>)
    requires |head + table| <= |out| && out[..|head + table|] == head + table
    ensures out == head + (table + out[|head + table|..])
  {
    assert out == out[..|head + table|] + out[|head + table|..];
  }

  // The bytes as a C string: up to the first NUL.
  function CString(s: seq<byte>): (r: seq<byte>)
    ensures |r| <= |s| && 0 !in r
    ensures forall i :: 0 <= i < |r| ==> r[i] == s[i]
    ensures |r| < |s| ==> s[|r|] == 0
  {
    if s == [] || s[0] == 0 then [] else [s[0]] + CString(s[1..])
  }

  lemma {:induction false} WholeCString(s: seq<byte>)
    requires forall i :: 0 <= i < |s| ==> s[i] != 0
    ensures CString(s) == s
  {
    if s != [] {
      WholeCString(s[1..]);
    }
  }

  lemma {:induction false} CStringStops(s: seq<byte>, n: nat)
    requires n < |s| && s[n] == 0
    ensures CString(s) == CString(s[..n])
  {
    if n > 0 && s[0] != 0 {
      CStringStops(s[1..], n - 1);
      assert s[..n][1..] == s[1..][..n - 1];
    }
  }

  function CountLeading(s: seq<byte>, b: byte): (n: nat)
    ensures n <= |s|
    ensures forall i :: 0 <= i < n ==> s[i] == b
    ensures n < |s| ==> s[n] != b
  {
    if s == [] || s[0] != b then 0 else 1 + CountLeading(s[1..], b)
  }
}

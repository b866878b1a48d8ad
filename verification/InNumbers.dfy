/** Bits, machine words and decimal digits in numbers: what each byte and each place is worth. */
module InNumbers {
  import opened Bytes
  import opened Decimal

  // ---- Bits of a byte

  lemma SmallerProduct(p: nat, q: nat, d: nat)
    requires p < q
    ensures p * d + d <= q * d
  {
    var more := q - p - 1;
    assert q * d == (p + 1 + more) * d == p * d + d + more * d;
  }

  lemma DivMod(n: nat, d: nat) returns (q: nat, r: nat)
    requires d > 0
    ensures n == q * d + r && r < d && q == n / d && r == n % d
  {
    q, r := n / d, n % d;
  }

  lemma QuotientIs(n: nat, d: nat, q: nat, r: nat)
    requires n == q * d + r && r < d
    ensures n / d == q
  {
    var p, m := DivMod(n, d);
    if p < q {
      SmallerProduct(p, q, d);
    } else if q < p {
      SmallerProduct(q, p, d);
    }
  }

  // Dividing by c and then by d.
  lemma DivideTwice(n: nat, c: nat, d: nat)
    requires c > 0 && d > 0
    ensures c * d > 0 && n / (c * d) == n / c / d
  {
    var m, s := DivMod(n, c);
    var q, r := DivMod(m, d);
    SmallerProduct(r, d, c);
    assert c * d > 0 && m * c == q * (c * d) + r * c;
    QuotientIs(n, c * d, q, r * c + s);
  }

  lemma {:induction false} BitByPower(b: nat, k: nat)
    ensures BitOf(b, k) <==> b / Pow2(k) % 2 == 1
  {
    if k > 0 {
      BitByPower(b / 2, k - 1);
      DivideTwice(b, 2, Pow2(k - 1));
    }
  }

  lemma Powers(k: nat)
    requires k < 8
    ensures Pow2(k) == [1, 2, 4, 8, 16, 32, 64, 128][k]
  {
    assert Pow2(4) == 16;
  }

  // Bit k of a byte is its binary digit of that weight.
  lemma BitInNumbers(b: byte, k: nat)
    requires k < 8
    ensures BitOf(b, k) <==> b / [1, 2, 4, 8, 16, 32, 64, 128][k] % 2 == 1
  {
    BitByPower(b, k);
    Powers(k);
  }

  // Setting a bit adds its weight, unless the bit is set.
  lemma {:induction false} SetBitByPower(b: nat, k: nat, width: nat)
    requires k < width && b < Pow2(width)
    ensures SetBit(b, k, width) == if BitOf(b, k) then b else b + Pow2(k)
  {
    if k > 0 {
      SetBitByPower(b / 2, k - 1, width - 1);
    }
  }

  lemma SetBitInNumbers(b: byte, k: nat)
    requires k < 8
    ensures var weight := [1, 2, 4, 8, 16, 32, 64, 128][k];
            SetByteBit(b, k) == if b / weight % 2 == 1 then b else b + weight
  {
    ByteWidth();
    SetBitByPower(b, k, 8);
    BitInNumbers(b, k);
    Powers(k);
  }

  lemma FirstDigit(b: nat)
    ensures b == (if BitOf(b, 0) then 1 else 0) + 2 * (b / 2)
    ensures forall k :: k >= 1 ==> BitOf(b, k) == BitOf(b / 2, k - 1)
  {
  }

  lemma FourDigits(b: nat) returns (c: nat)
    ensures b == (if BitOf(b, 0) then 1 else 0) + (if BitOf(b, 1) then 2 else 0) + (if BitOf(b, 2) then 4 else 0)
               + (if BitOf(b, 3) then 8 else 0) + 16 * c
    ensures forall k :: k >= 4 ==> BitOf(b, k) == BitOf(c, k - 4)
  {
    var c1 := b / 2;
    var c2 := c1 / 2;
    var c3 := c2 / 2;
    c := c3 / 2;
    FirstDigit(b);
    FirstDigit(c1);
    FirstDigit(c2);
    FirstDigit(c3);
  }

  lemma ByteIsSum(b: byte)
    ensures b == (if BitOf(b, 0) then 1 else 0) + (if BitOf(b, 1) then 2 else 0) + (if BitOf(b, 2) then 4 else 0)
               + (if BitOf(b, 3) then 8 else 0) + (if BitOf(b, 4) then 16 else 0) + (if BitOf(b, 5) then 32 else 0)
               + (if BitOf(b, 6) then 64 else 0) + (if BitOf(b, 7) then 128 else 0)
  {
    var c := FourDigits(b);
    var rest := FourDigits(c);
    assert rest == 0;
  }

  // The place of a bit: eight to a byte, the one of least weight first.
  lemma BitAtInNumbers(data: seq<byte>, pos: nat)
    requires pos < 8 * |data|
    ensures Bits(data)[pos] <==> data[pos / 8] / [1, 2, 4, 8, 16, 32, 64, 128][pos % 8] % 2 == 1
  {
    BitInNumbers(data[pos / 8], pos % 8);
  }

  // A byte is the sum of the weights of its bits.
  lemma ByteOfBits(data: seq<byte>, i: nat)
    requires i < |data|
    ensures var b := Bits(data)[8 * i..8 * i + 8];
            data[i] == (if b[0] then 1 else 0) + (if b[1] then 2 else 0) + (if b[2] then 4 else 0) + (if b[3] then 8 else 0)
                     + (if b[4] then 16 else 0) + (if b[5] then 32 else 0) + (if b[6] then 64 else 0) + (if b[7] then 128 else 0)
  {
    var b := Bits(data)[8 * i..8 * i + 8];
    forall k | 0 <= k < 8
      ensures b[k] == BitOf(data[i], k)
    {
      assert (8 * i + k) / 8 == i && (8 * i + k) % 8 == k;
    }
    ByteIsSum(data[i]);
  }

  // ---- The exclusive or

  lemma {:induction false} XorDigit(a: nat, b: nat, k: nat, width: nat)
    requires k < width
    ensures BitOf(XorBits(a, b, width), k) <==> BitOf(a, k) != BitOf(b, k)
  {
    XorStep(a, b, width);
    if k > 0 {
      XorDigit(a / 2, b / 2, k - 1, width - 1);
    }
  }

  // Digit by digit, the exclusive or is 1 where the digits differ.
  lemma XorInNumbers(a: byte, b: byte, k: nat)
    requires k < 8
    ensures var weight := [1, 2, 4, 8, 16, 32, 64, 128][k];
            Xor(a, b) / weight % 2 == if a / weight % 2 == b / weight % 2 then 0 else 1
  {
    XorDigit(a, b, k, 8);
    BitInNumbers(a, k);
    BitInNumbers(b, k);
    BitInNumbers(Xor(a, b), k);
  }

  // A digit of the parity of a text changes with every byte that has the digit.
  lemma ParityInNumbers(s: seq<byte>, b: byte, k: nat)
    requires k < 8
    ensures Parity([]) == 0
    ensures var weight := [1, 2, 4, 8, 16, 32, 64, 128][k];
            Parity(s + [b]) / weight % 2 == if Parity(s) / weight % 2 == b / weight % 2 then 0 else 1
  {
    ParityAppend(s, b);
    XorInNumbers(Parity(s), b, k);
  }

  // ---- Machine words

  // The value of the bytes of a word: the first one counts least.
  lemma WordInNumbers(s: seq<byte>)
    ensures |s| == 2 ==> FromLittleEndian(s) == s[0] as int + 256 * s[1] as int
    ensures |s| == 4 ==> FromLittleEndian(s) == s[0] as int + 256 * s[1] as int + 65536 * s[2] as int + 16777216 * s[3] as int
  {
    assert forall t: seq<byte> :: |t| == 0 ==> FromLittleEndian(t) == 0;
    assert |s| > 1 ==> s[1..][1..] == s[2..];
    assert |s| > 2 ==> s[2..][1..] == s[3..];
    assert |s| > 3 ==> s[3..][1..] == s[4..];
  }

  // Byte i of a word, which is worth 256 times the one in front of it.
  lemma {:induction false} WordByte(n: nat, width: nat, i: nat)
    requires i < width
    ensures Range(0) == 1 && Range(i + 1) == 256 * Range(i) && LittleEndian(n, width)[i] == n / Range(i) % 256
  {
    if i > 0 {
      WordByte(n / 256, width - 1, i - 1);
      DivideTwice(n, 256, Range(i - 1));
    }
  }

  // ---- Decimal digits

  // The last digit is worth one, each other ten times the one behind it.
  lemma {:induction false} DigitAt(n: nat, k: nat)
    requires k < |Digits(n)|
    ensures Digits(n)[|Digits(n)| - 1 - k] as int == 48 + n / Power10(k) % 10
  {
    if n >= 10 && k > 0 {
      DigitAt(n / 10, k - 1);
      DivideTwice(n, 10, Power10(k - 1));
    }
  }

  // There are no zeros in front.
  lemma {:induction false} NumberOfDigits(n: nat)
    ensures n < Power10(|Digits(n)|) && (n > 0 ==> Power10(|Digits(n)| - 1) <= n) && (n == 0 ==> |Digits(n)| == 1)
  {
    if n >= 10 {
      NumberOfDigits(n / 10);
    }
  }

  // The value of a string of digits.
  lemma {:induction false} ValueAt(s: seq<byte>, k: nat)
    requires AllDigits(s) && k < |s|
    ensures s[|s| - 1 - k] as int == 48 + Value(s) / Power10(k) % 10 && Value(s) < Power10(|s|)
  {
    var n := |s| - 1;
    ValueBound(s);
    if k > 0 {
      ValueAt(s[..n], k - 1);
      DivideTwice(Value(s), 10, Power10(k - 1));
      assert Value(s) / 10 == Value(s[..n]);
    }
  }

  lemma {:induction false} ValueBound(s: seq<byte>)
    requires AllDigits(s)
    ensures Value(s) < Power10(|s|)
  {
    if s != [] {
      ValueBound(s[..|s| - 1]);
    }
  }
}

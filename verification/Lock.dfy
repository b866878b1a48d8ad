/** The answer to a hub's $Lock message. */
module Lock {
  import opened Bytes
  import opened InNumbers

  // The two halves of a byte exchanged.
  function NibbleSwap(b: byte): byte {
    b % 16 * 16 + b / 16
  }

  // Byte c of the key, for a lock of at least three bytes.
  function KeyAt(lock: seq<byte>, basekey: byte, c: nat): byte
    requires c < |lock| && |lock| >= 3
  {
    if c == 0 then NibbleSwap(Xor(Xor(Xor(lock[0], basekey), lock[|lock| - 1]), lock[|lock| - 2]))
    else NibbleSwap(Xor(lock[c], lock[c - 1]))
  }

  function KeyOf(lock: seq<byte>, basekey: byte): (key: seq<byte>)
    requires |lock| >= 3
    ensures |key| == |lock|
  {
    seq(|lock|, c requires 0 <= c < |lock| => KeyAt(lock, basekey, c))
  }

  lemma HalfOfJoined(a: nat, p: nat, h: nat, l: nat)
    requires a == 2 * p * h + l
    ensures a / 2 == p * h + l / 2 && a % 2 == l % 2
  {
    assert 2 * p * h == 2 * (p * h);
  }

  lemma SameParity(a: nat, b: nat, l: nat, m: nat)
    requires a % 2 == l % 2 && b % 2 == m % 2
    ensures (a + b) % 2 == (l + m) % 2
  {
  }

  // The low bits of an exclusive or come from the low bits.
  lemma {:induction false} LowBitsOnly(a: nat, b: nat, h: nat, l: nat, k: nat, m: nat, width: nat)
    requires a == Pow2(width) * h + l && b == Pow2(width) * k + m
    ensures XorBits(a, b, width) == XorBits(l, m, width)
  {
    if width > 0 {
      HalfOfJoined(a, Pow2(width - 1), h, l);
      HalfOfJoined(b, Pow2(width - 1), k, m);
      SameParity(a, b, l, m);
      LowBitsOnly(a / 2, b / 2, h, l / 2, k, m / 2, width - 1);
    }
  }

  function Half(a: nat, times: nat): nat {
    if times == 0 then a else Half(a / 2, times - 1)
  }

  // The high bits come from the high bits.
  lemma {:induction false} HighBits(a: nat, b: nat, low: nat, high: nat)
    ensures XorBits(a, b, low + high) == XorBits(a, b, low) + Pow2(low) * XorBits(Half(a, low), Half(b, low), high)
  {
    if low > 0 {
      HighBits(a / 2, b / 2, low - 1, high);
      Doubled(Pow2(low - 1), XorBits(Half(a, low), Half(b, low), high));
    }
  }

  lemma Doubled(p: nat, x: nat)
    ensures 2 * (p * x) == 2 * p * x
  {
  }

  lemma SixteenHalves(h: nat, l: nat)
    requires l < 16
    ensures Half(16 * h + l, 4) == h
  {
    var a := 16 * h + l;
    assert Half(a, 4) == Half(a / 2, 3) == Half(a / 2 / 2, 2) == Half(a / 2 / 2 / 2, 1) == Half(a / 2 / 2 / 2 / 2, 0);
  }

  // The exclusive or half by half.
  lemma XorHalves(ah: nat, al: nat, bh: nat, bl: nat)
    requires ah < 16 && al < 16 && bh < 16 && bl < 16
    ensures XorBits(16 * ah + al, 16 * bh + bl, 8) == XorBits(al, bl, 4) + 16 * XorBits(ah, bh, 4)
  {
    assert Pow2(4) == 16;
    HighBits(16 * ah + al, 16 * bh + bl, 4, 4);
    LowBitsOnly(16 * ah + al, 16 * bh + bl, ah, al, bh, bl, 4);
    SixteenHalves(ah, al);
    SixteenHalves(bh, bl);
  }

  lemma Halves(b: byte) returns (h: nat, l: nat)
    ensures h < 16 && l < 16 && b == 16 * h + l && NibbleSwap(b) == 16 * l + h
  {
    h, l := b / 16, b % 16;
  }

  lemma Joined(h: nat, l: nat)
    requires h < 16 && l < 16
    ensures 16 * h + l < 256 && NibbleSwap(16 * h + l) == 16 * l + h
  {
  }

  lemma SwapTwice(b: byte)
    ensures NibbleSwap(NibbleSwap(b)) == b
  {
    var h, l := Halves(b);
    Joined(l, h);
  }

  lemma XorJoined(ah: nat, al: nat, bh: nat, bl: nat) returns (h: nat, l: nat)
    requires ah < 16 && al < 16 && bh < 16 && bl < 16
    ensures h < 16 && l < 16 && h == XorBits(ah, bh, 4) && l == XorBits(al, bl, 4)
    ensures Xor(16 * ah + al, 16 * bh + bl) == 16 * h + l
  {
    h, l := XorBits(ah, bh, 4), XorBits(al, bl, 4);
    assert Pow2(4) == 16;
    XorHalves(ah, al, bh, bl);
  }

  lemma SwapXor(a: byte, b: byte)
    ensures NibbleSwap(Xor(a, b)) == Xor(NibbleSwap(a), NibbleSwap(b))
  {
    var ah, al := Halves(a);
    var bh, bl := Halves(b);
    var h, l := XorJoined(ah, al, bh, bl);
    var l', h' := XorJoined(al, ah, bl, bh);
    Joined(h, l);
  }

  // Byte c of the lock, given the byte in front of it and the key.
  lemma Undo(a: byte, b: byte, k: byte)
    ensures k == NibbleSwap(Xor(a, b)) <==> a == Xor(b, NibbleSwap(k))
  {
    SwapTwice(k);
    SwapTwice(Xor(a, b));
    XorLaws(b, a, 0);
    XorLaws(b, NibbleSwap(k), 0);
  }

  // The first byte, given the last key byte, which holds the last two lock bytes a and b.
  lemma UndoFirst(l0: byte, base: byte, a: byte, b: byte, k0: byte, last: byte)
    requires last == NibbleSwap(Xor(a, b))
    ensures k0 == NibbleSwap(Xor(Xor(Xor(l0, base), a), b)) <==> l0 == Xor(base, NibbleSwap(Xor(last, k0)))
  {
    var m, ab := Xor(l0, base), Xor(a, b);
    XorLaws(m, a, b);
    XorLaws(ab, m, 0);
    SwapXor(m, ab);
    XorLaws(last, k0, 0);
    XorLaws(last, NibbleSwap(m), 0);
    SwapTwice(m);
    SwapTwice(Xor(last, k0));
    XorLaws(base, l0, 0);
    XorLaws(base, m, 0);
    XorLaws(base, NibbleSwap(Xor(last, k0)), 0);
  }

  // ---- The key determines the lock

  lemma KeyByte(lock: seq<byte>, basekey: byte, c: nat)
    requires |lock| >= 3 && c < |lock|
    ensures KeyOf(lock, basekey)[c] == KeyAt(lock, basekey, c)
  {
  }

  // Different locks have different keys.
  lemma KeyIsInjective(a: seq<byte>, b: seq<byte>, basekey: byte)
    requires |a| >= 3 && |b| >= 3 && KeyOf(a, basekey) == KeyOf(b, basekey)
    ensures a == b
  {
    var key, n := KeyOf(a, basekey), |KeyOf(a, basekey)|;
    FirstOfLock(a, basekey);
    FirstOfLock(b, basekey);
    SamePrefix(a, b, basekey, n);
    assert a[..n] == a && b[..n] == b;
  }

  lemma FirstOfLock(lock: seq<byte>, basekey: byte)
    requires |lock| >= 3
    ensures var key := KeyOf(lock, basekey); lock[0] == Xor(basekey, NibbleSwap(Xor(key[|key| - 1], key[0])))
  {
    var n, key := |lock|, KeyOf(lock, basekey);
    KeyByte(lock, basekey, 0);
    KeyByte(lock, basekey, n - 1);
    UndoFirst(lock[0], basekey, lock[n - 1], lock[n - 2], key[0], key[n - 1]);
  }

  lemma NextOfLock(lock: seq<byte>, basekey: byte, c: nat)
    requires |lock| >= 3 && 1 <= c < |lock|
    ensures lock[c] == Xor(lock[c - 1], NibbleSwap(KeyOf(lock, basekey)[c]))
  {
    KeyByte(lock, basekey, c);
    Undo(lock[c], lock[c - 1], KeyOf(lock, basekey)[c]);
  }

  lemma {:induction false} SamePrefix(a: seq<byte>, b: seq<byte>, basekey: byte, n: nat)
    requires 3 <= |a| == |b| && KeyOf(a, basekey) == KeyOf(b, basekey) && a[0] == b[0] && 1 <= n <= |a|
    ensures a[..n] == b[..n]
  {
    if n > 1 {
      SamePrefix(a, b, basekey, n - 1);
      assert a[n - 2] == a[..n - 1][n - 2] == b[..n - 1][n - 2] == b[n - 2];
      NextOfLock(a, basekey, n - 1);
      NextOfLock(b, basekey, n - 1);
      assert a[..n] == a[..n - 1] + [a[n - 1]];
      assert b[..n] == b[..n - 1] + [b[n - 1]];
    }
  }

  // ---- Every string is a key

  predicate Follows(key: seq<byte>, lock: seq<byte>, c: nat)
    requires 1 <= c < |lock| <= |key|
  {
    lock[c] == Xor(lock[c - 1], NibbleSwap(key[c]))
  }

  // The bytes of a lock that starts with first, one after the other.
  lemma {:induction false} Unwind(key: seq<byte>, first: byte, n: nat) returns (lock: seq<byte>)
    requires 1 <= n <= |key|
    ensures |lock| == n && lock[0] == first
    ensures forall c {:trigger Follows(key, lock, c)} :: 1 <= c < n ==> Follows(key, lock, c)
  {
    if n == 1 {
      lock := [first];
    } else {
      var front := Unwind(key, first, n - 1);
      lock := front + [Xor(front[n - 2], NibbleSwap(key[n - 1]))];
      forall c | 1 <= c < n
        ensures Follows(key, lock, c)
      {
        if c < n - 1 {
          assert Follows(key, front, c);
          assert lock[c] == front[c] && lock[c - 1] == front[c - 1];
        } else {
          assert lock[c - 1] == front[n - 2];
        }
      }
    }
  }

  lemma FirstKeyByte(key: seq<byte>, lock: seq<byte>, basekey: byte)
    requires 3 <= |lock| == |key| && lock[0] == Xor(basekey, NibbleSwap(Xor(key[|key| - 1], key[0])))
    requires Follows(key, lock, |key| - 1)
    ensures KeyAt(lock, basekey, 0) == key[0]
  {
    var n := |key|;
    Undo(lock[n - 1], lock[n - 2], key[n - 1]);
    UndoFirst(lock[0], basekey, lock[n - 1], lock[n - 2], key[0], key[n - 1]);
  }

  lemma KeyIsOnto(key: seq<byte>, basekey: byte) returns (lock: seq<byte>)
    requires |key| >= 3
    ensures |lock| == |key| && KeyOf(lock, basekey) == key
  {
    var n := |key|;
    lock := Unwind(key, Xor(basekey, NibbleSwap(Xor(key[n - 1], key[0]))), n);
    assert Follows(key, lock, n - 1);
    FirstKeyByte(key, lock, basekey);
    forall c | 1 <= c < n
      ensures KeyAt(lock, basekey, c) == key[c]
    {
      assert Follows(key, lock, c);
      Undo(lock[c], lock[c - 1], key[c]);
    }
  }

  // ---- The escaped form

  predicate Reserved(k: byte) {
    k == 0 || k == 5 || k == 36 || k == 96 || k == 124 || k == 126
  }

  // "/%DCNddd%/" for a reserved byte.
  function KeyCode(k: byte): (r: seq<byte>)
    ensures |r| == if Reserved(k) then 10 else 1
  {
    if Reserved(k) then [47, 37, 68, 67, 78, 48 + k / 100, 48 + k / 10 % 10, 48 + k % 10, 37, 47] else [k]
  }

  function EscapedKey(key: seq<byte>): seq<byte> {
    if key == [] then [] else EscapedKey(key[..|key| - 1]) + KeyCode(key[|key| - 1])
  }

  lemma KeyCodeIsSafe(k: byte)
    ensures forall i :: 0 <= i < |KeyCode(k)| ==> !Reserved(KeyCode(k)[i])
  {
    if Reserved(k) {
      assert 48 + k / 100 == if k >= 100 then 49 else 48;
    }
  }

  lemma {:induction false} EscapedKeyIsSafe(key: seq<byte>)
    ensures forall i :: 0 <= i < |EscapedKey(key)| ==> !Reserved(EscapedKey(key)[i])
  {
    if key != [] {
      EscapedKeyIsSafe(key[..|key| - 1]);
      KeyCodeIsSafe(key[|key| - 1]);
    }
  }

  lemma {:induction false} LengthOfPrefix(key: seq<byte>, n: nat)
    requires n <= |key|
    ensures |EscapedKey(key[..n])| <= |EscapedKey(key)|
    decreases |key| - n
  {
    if n < |key| {
      assert key[..n + 1][..n] == key[..n];
      LengthOfPrefix(key, n + 1);
    } else {
      assert key[..n] == key;
    }
  }

  // The loop that fills the key.
  method FillKey(lock: seq<byte>, basekey: byte) returns (key: array<byte>)
    requires |lock| >= 3
    ensures fresh(key) && key[..] == KeyOf(lock, basekey)
  {
    var n := |lock|;
    key := new byte[n];
    key[0] := Xor(lock[0], basekey);
    key[0] := NibbleSwap(key[0]);
    for c := 1 to n
      invariant key[0] == NibbleSwap(Xor(lock[0], basekey))
      invariant forall i :: 1 <= i < c ==> key[i] == KeyAt(lock, basekey, i)
    {
      key[c] := Xor(lock[c], lock[c - 1]);
      key[c] := NibbleSwap(key[c]);
    }
    key[0] := Xor(key[0], key[n - 1]);
    SwapXor(Xor(lock[0], basekey), Xor(lock[n - 1], lock[n - 2]));
    XorLaws(Xor(lock[0], basekey), lock[n - 1], lock[n - 2]);
  }

  // The sizing pass: one more than the escaped key, for the NUL.
  method MeasureKey(key: array<byte>) returns (d: nat)
    ensures d == |EscapedKey(key[..])| + 1
  {
    d := 1;
    for c := 0 to key.Length
      invariant d == |EscapedKey(key[..c])| + 1
    {
      assert key[..c + 1][..c] == key[..c];
      d := d + if Reserved(key[c]) then 10 else 1;
    }
    assert key[..key.Length] == key[..];
  }

  method WriteCode(outkey: array<byte>, d: nat, k: byte) returns (end: nat)
    requires d + |KeyCode(k)| <= outkey.Length
    modifies outkey
    ensures end == d + |KeyCode(k)| && outkey[..end] == old(outkey[..d]) + KeyCode(k)
  {
    var code := KeyCode(k);
    forall i | 0 <= i < |code| {
      outkey[d + i] := code[i];
    }
    end := d + |code|;
  }

  // The writing pass fills the buffer of the size that was measured.
  method WriteKey(key: seq<byte>, size: nat) returns (outkey: array<byte>)
    requires size == |EscapedKey(key)| + 1
    ensures outkey[..] == EscapedKey(key) + [0]
  {
    outkey := new byte[size];
    var d := 0;
    for c := 0 to |key|
      invariant outkey.Length == size && fresh(outkey)
      invariant d == |EscapedKey(key[..c])| < size && outkey[..d] == EscapedKey(key[..c])
    {
      assert key[..c + 1][..c] == key[..c];
      LengthOfPrefix(key, c + 1);
      d := WriteCode(outkey, d, key[c]);
    }
    assert key[..|key|] == key;
    outkey[d] := 0;
  }

  // The base key has 32 bits, of which the low eight count.
  method DecodeLock(lock: seq<byte>, basekey: nat) returns (outkey: array<byte>)
    requires basekey < TWO_32
    ensures |lock| < 3 ==> outkey[..] == [0]
    ensures |lock| >= 3 ==> outkey[..] == EscapedKey(KeyOf(lock, basekey % 256)) + [0]
  {
    if |lock| < 3 {
      outkey := new byte[1];
      outkey[0] := 0;
    } else {
      var key := FillKey(lock, basekey % 256);
      var size := MeasureKey(key);
      outkey := WriteKey(key[..], size);
    }
  }

  // ---- The answer, digit by digit

  // The digits of two numbers joined.
  lemma {:induction false} JoinedDigits(b: nat, h: nat, l: nat, k: nat, width: nat)
    requires b == Pow2(width) * h + l && l < Pow2(width)
    ensures BitOf(b, k) == if k < width then BitOf(l, k) else BitOf(h, k - width)
  {
    if width > 0 {
      HalfOfJoined(b, Pow2(width - 1), h, l);
      if k > 0 {
        JoinedDigits(b / 2, h, l / 2, k - 1, width - 1);
      }
    }
  }

  // Exchanging the nibbles moves every binary digit by four places.
  lemma SwapMovesDigits(b: byte, j: nat)
    requires j < 8
    ensures BitOf(NibbleSwap(b), if j < 4 then j + 4 else j - 4) == BitOf(b, j)
  {
    var h, l := Halves(b);
    assert Pow2(4) == 16;
    JoinedDigits(b, h, l, j, 4);
    JoinedDigits(NibbleSwap(b), l, h, if j < 4 then j + 4 else j - 4, 4);
  }

  lemma XorDiffers(a: byte, b: byte, j: nat)
    requires j < 8
    ensures BitOf(Xor(a, b), j) == (BitOf(a, j) != BitOf(b, j))
  {
    XorDigit(a, b, j, 8);
  }

  // Each byte of the key has the binary digits in which two neighbours of the lock differ, moved by
  // four places.
  lemma KeyDigits(lock: seq<byte>, basekey: byte, c: nat, j: nat)
    requires |lock| >= 3 && 1 <= c < |lock| && j < 8
    ensures BitOf(KeyOf(lock, basekey)[c], if j < 4 then j + 4 else j - 4) == (BitOf(lock[c], j) != BitOf(lock[c - 1], j))
  {
    KeyByte(lock, basekey, c);
    SwapMovesDigits(Xor(lock[c], lock[c - 1]), j);
    XorDiffers(lock[c], lock[c - 1], j);
  }

  // The first byte has those that the first and the last two bytes of the lock and the base key
  // together have an odd number of times.
  lemma FirstKeyDigits(lock: seq<byte>, basekey: byte, j: nat)
    requires |lock| >= 3 && j < 8
    ensures BitOf(KeyOf(lock, basekey)[0], if j < 4 then j + 4 else j - 4)
         == (((BitOf(lock[0], j) != BitOf(basekey, j)) != BitOf(lock[|lock| - 1], j)) != BitOf(lock[|lock| - 2], j))
  {
    var a, b, c, d := lock[0], basekey, lock[|lock| - 1], lock[|lock| - 2];
    KeyByte(lock, basekey, 0);
    SwapMovesDigits(Xor(Xor(Xor(a, b), c), d), j);
    XorDiffers(a, b, j);
    XorDiffers(Xor(a, b), c, j);
    XorDiffers(Xor(Xor(a, b), c), d, j);
  }

  // The escaped key, byte by byte: 0, 5, 36, 96, 124 and 126 are written "/%DCN000%/" to "/%DCN126%/",
  // with their three decimal digits, every other byte as it is.
  lemma EscapedKeyInBytes(key: seq<byte>, k: byte)
    ensures EscapedKey([]) == [] && EscapedKey(key + [k]) == EscapedKey(key) + EscapedKey([k])
    ensures k in {0, 5, 36, 96, 124, 126} ==>
      exists a, b, c: byte :: EscapedKey([k]) == [47, 37, 68, 67, 78, a, b, c, 37, 47]
                              && 48 <= a <= 57 && 48 <= b <= 57 && 48 <= c <= 57
                              && k as int == 100 * (a as int - 48) + 10 * (b as int - 48) + (c as int - 48)
    ensures k !in {0, 5, 36, 96, 124, 126} ==> EscapedKey([k]) == [k]
  {
    assert (key + [k])[..|key|] == key && [k][..0] == [];
    if Reserved(k) {
      var a, b, c: byte := 48 + k / 100, 48 + k / 10 % 10, 48 + k % 10;
      assert EscapedKey([k]) == [47, 37, 68, 67, 78, a, b, c, 37, 47];
    }
  }
}

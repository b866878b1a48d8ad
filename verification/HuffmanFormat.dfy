/** The format of a compressed file, byte by byte: what huffman_encode writes, and what
    huffman_decode makes of any data. */
module HuffmanFormat {
  import opened Bytes
  import opened InNumbers
  import opened PrefixCodes
  import opened HuffmanTree
  import opened HuffmanMerge
  import opened HuffmanCode
  import opened HuffmanEncode
  import opened HuffmanRoundTrip

  // ---- The symbols of a text

  lemma {:induction false} AlphabetIncreases(counts: seq<nat>, n: nat)
    requires |counts| == ALPHABET && n <= ALPHABET
    ensures forall b :: b in Alphabet(counts, n) <==> 0 <= b < n && counts[b] > 0
    ensures forall i, j :: 0 <= i < j < |Alphabet(counts, n)| ==> Alphabet(counts, n)[i] < Alphabet(counts, n)[j]
    ensures |Alphabet(counts, n)| <= n
  {
    if n > 0 {
      AlphabetIncreases(counts, n - 1);
      var front, all := Alphabet(counts, n - 1), Alphabet(counts, n);
      forall i, j | 0 <= i < j < |all|
        ensures all[i] < all[j]
      {
        assert front[i] in front;
      }
    }
  }

  lemma {:induction false} OccursOnlyIn(s: seq<byte>, b: byte)
    ensures Counts(s)[b] > 0 <==> b in s
  {
    if s != [] {
      var n := |s| - 1;
      OccursOnlyIn(s[..n], b);
      CountStep(s[..n], s[n]);
      assert s == s[..n] + [s[n]];
    }
  }

  lemma SymbolsOf(s: seq<byte>, symbols: seq<byte>)
    requires symbols == Alphabet(Counts(s), ALPHABET)
    ensures forall b :: b in symbols <==> b in s
    ensures forall i, j :: 0 <= i < j < |symbols| ==> symbols[i] < symbols[j]
    ensures |symbols| <= 256
  {
    AlphabetIncreases(Counts(s), ALPHABET);
    forall b: byte
      ensures b in symbols <==> b in s
    {
      OccursOnlyIn(s, b);
    }
  }

  lemma {:induction false} TableAt(codes: seq<Code>, symbols: seq<byte>, i: nat)
    requires FitsWord(codes) && i < |symbols|
    ensures LeafTable(codes, symbols)[2 * i] == symbols[i] && LeafTable(codes, symbols)[2 * i + 1] == |codes[symbols[i]]|
  {
    var n := |symbols| - 1;
    if i < n {
      TableAt(codes, symbols[..n], i);
    }
  }

  // ---- A section of bits

  lemma SectionBits(data: seq<byte>, start: nat, bits: seq<bool>, more: seq<bool>, next: nat)
    requires start <= |data| && Bits(data[start..]) == Padded(bits) + more && next == start + (|bits| + 7) / 8
    ensures next <= |data| && |Bits(data[start..next])| == ByteBoundary(|bits|)
    ensures forall k :: 0 <= k < 8 * (next - start) ==> (Bits(data[start..next])[k] <==> k < |bits| && bits[k])
  {
    var tail, part := data[start..], data[start..next];
    assert |Bits(tail)| == |Padded(bits)| + |more|;
    assert tail == part + data[next..];
    BitsConcat(part, data[next..]);
    forall k | 0 <= k < 8 * (next - start)
      ensures Bits(part)[k] <==> k < |bits| && bits[k]
    {
      assert Bits(part)[k] == Bits(tail)[k] == Padded(bits)[k];
    }
  }

  lemma SkipSection(data: seq<byte>, start: nat, bits: seq<bool>, more: seq<bool>, next: nat)
    requires start <= |data| && Bits(data[start..]) == Padded(bits) + more && next == start + (|bits| + 7) / 8
    ensures next <= |data| && Bits(data[next..]) == more
  {
    var tail, len := data[start..], next - start;
    assert |Bits(tail)| == |Padded(bits)| + |more|;
    assert tail == tail[..len] + data[next..];
    BitsConcat(tail[..len], data[next..]);
    assert |Bits(tail[..len])| == |Padded(bits)|;
    assert Bits(data[next..]) == (Bits(tail[..len]) + Bits(data[next..]))[8 * len..];
  }

  // ---- What huffman_encode writes

  lemma SizeField(out: seq<byte>, size: nat)
    requires |out| >= 9 && out[5..9] == LittleEndian(size, 4) && size < TWO_32
    ensures size == out[5] as int + 256 * out[6] as int + 65536 * out[7] as int + 16777216 * out[8] as int
  {
    var field := out[5..9];
    FieldValues(size, 0);
    WordInNumbers(field);
    assert field[0] == out[5] && field[1] == out[6] && field[2] == out[7] && field[3] == out[8];
  }

  lemma CountField(out: seq<byte>, count: nat)
    requires |out| >= 11 && out[9..11] == LittleEndian(count, 2) && count < 65536
    ensures count == out[9] as int + 256 * out[10] as int
  {
    var field := out[9..11];
    FieldValues(0, count);
    WordInNumbers(field);
    assert field[0] == out[9] && field[1] == out[10];
  }

  lemma HeaderBytes(out: seq<byte>, size: seq<byte>, count: seq<byte>, parity: byte)
    requires |out| >= 11 && |size| == 4 && |count| == 2 && out[..11] == [0x48, 0x45, 0x33, 0x0D, parity] + size + count
    ensures out[..4] == [72, 69, 51, 13] && out[4] == parity && out[5..9] == size && out[9..11] == count
  {
    var head := [0x48, 0x45, 0x33, 0x0D, parity] + size + count;
    assert out[..4] == head[..4] && out[5..9] == out[..11][5..9] == head[5..9] && out[9..11] == out[..11][9..11] == head[9..11];
    assert out[4] == out[..11][4];
  }

  // The header: the magic bytes, the parity, the size in four bytes and the number of leaves in two.
  lemma EncodedHeader(out: seq<byte>, s: seq<byte>, codes: seq<Code>, symbols: seq<byte>)
    requires Compresses(out, s, codes) && |s| < TWO_32 && symbols == Alphabet(Counts(s), ALPHABET)
    ensures |out| >= 11 && out[..4] == [72, 69, 51, 13] && out[4] == Parity(s)
    ensures |s| == out[5] as int + 256 * out[6] as int + 65536 * out[7] as int + 16777216 * out[8] as int
    ensures |symbols| == out[9] as int + 256 * out[10] as int
  {
    SymbolsOf(s, symbols);
    var head, table := Header(s, |symbols|), LeafTable(codes, symbols);
    assert out[..11] == out[..|head + table|][..11] == head;
    HeaderBytes(out, LittleEndian(|s|, 4), LittleEndian(|symbols|, 2), Parity(s));
    SizeField(out, |s|);
    CountField(out, |symbols|);
  }

  // The leaf table: the symbols in increasing order, each with the length of its code word.
  lemma EncodedTable(out: seq<byte>, s: seq<byte>, codes: seq<Code>, symbols: seq<byte>)
    requires Compresses(out, s, codes) && symbols == Alphabet(Counts(s), ALPHABET)
    ensures |out| >= 11 + 2 * |symbols|
    ensures forall i :: 0 <= i < |symbols| ==> out[11 + 2 * i] == symbols[i] && out[12 + 2 * i] == |codes[symbols[i]]|
  {
    var head, table := Header(s, |symbols|), LeafTable(codes, symbols);
    assert out[11..11 + |table|] == out[..|head + table|][11..] == table;
    forall i | 0 <= i < |symbols|
      ensures out[11 + 2 * i] == symbols[i] && out[12 + 2 * i] == |codes[symbols[i]]|
    {
      TableAt(codes, symbols, i);
      Behind(out, table, 11, 2 * i);
    }
  }

  lemma Behind(out: seq<byte>, part: seq<byte>, start: nat, i: nat)
    requires start + |part| <= |out| && out[start..start + |part|] == part && i + 1 < |part|
    ensures out[start + i] == part[i] && out[start + 1 + i] == part[i + 1]
  {
    assert part[i] == out[start..start + |part|][i] && part[i + 1] == out[start..start + |part|][i + 1];
  }

  // The whole file of a text: header, leaf table, the code words of the symbols and the code words
  // of the text. The first bit of a byte is the one of weight 1, and each section is filled up with
  // zero bits.
  lemma EncodedFile(out: seq<byte>, s: seq<byte>, codes: seq<Code>)
    returns (symbols: seq<byte>, keyStart: nat, textStart: nat)
    requires Compresses(out, s, codes) && |s| < TWO_32
    ensures forall b :: b in symbols <==> b in s
    ensures forall i, j :: 0 <= i < j < |symbols| ==> symbols[i] < symbols[j]
    ensures |out| >= 11 && out[..4] == [72, 69, 51, 13] && out[4] == Parity(s)
    ensures |s| == out[5] as int + 256 * out[6] as int + 65536 * out[7] as int + 16777216 * out[8] as int
    ensures |symbols| == out[9] as int + 256 * out[10] as int
    ensures keyStart == 11 + 2 * |symbols| <= |out|
    ensures forall i :: 0 <= i < |symbols| ==> out[11 + 2 * i] == symbols[i] && out[12 + 2 * i] == |codes[symbols[i]]|
    ensures var keys, text := Concat(codes, symbols), Concat(codes, s);
            && textStart == keyStart + (|keys| + 7) / 8
            && |out| == textStart + (|text| + 7) / 8
            && (forall k :: 0 <= k < 8 * (textStart - keyStart) ==> (Bits(out[keyStart..textStart])[k] <==> k < |keys| && keys[k]))
            && forall k :: 0 <= k < 8 * (|out| - textStart) ==> (Bits(out[textStart..])[k] <==> k < |text| && text[k])
  {
    symbols := Alphabet(Counts(s), ALPHABET);
    SymbolsOf(s, symbols);
    EncodedHeader(out, s, codes, symbols);
    EncodedTable(out, s, codes, symbols);
    var keys, text := Concat(codes, symbols), Concat(codes, s);
    keyStart := 11 + 2 * |symbols|;
    textStart := keyStart + (|keys| + 7) / 8;
    SectionBits(out, keyStart, keys, Padded(text), textStart);
    SkipSection(out, keyStart, keys, Padded(text), textStart);
    assert Padded(text) == Padded(text) + [];
    assert |Bits(out[textStart..])| == |Padded(text)|;
    SectionBits(out, textStart, text, [], |out|);
    assert out[textStart..|out|] == out[textStart..];
  }

  // No prefix code for the bytes of the text makes its second section shorter.
  lemma ShortestText(s: seq<byte>, codes: seq<Code>, other: seq<Code>)
    requires |codes| == |other| == ALPHABET && Minimal(Counts(s), codes)
    requires forall a, b: byte :: a in s && b in s && a != b ==> !(other[a] <= other[b])
    ensures |Concat(codes, s)| <= |Concat(other, s)|
  {
    forall v, w | 0 <= v < w < ALPHABET && Counts(s)[v] > 0 && Counts(s)[w] > 0
      ensures !Comparable(other[v], other[w])
    {
      OccursOnlyIn(s, v);
      OccursOnlyIn(s, w);
    }
    ConcatLength(codes, s);
    ConcatLength(other, s);
  }

  // The code words stand one behind the other, in the order of the text.
  lemma ConcatInOrder(codes: seq<Code>, s: seq<byte>, b: byte)
    requires |codes| == ALPHABET
    ensures Concat(codes, []) == [] && Concat(codes, s + [b]) == Concat(codes, s) + codes[b]
  {
    ConcatAppend(codes, s, b);
  }

  // ---- Which code words the program chooses: two symbols

  ghost predicate Pair(counts: seq<nat>, a: nat, b: nat) {
    && |counts| == ALPHABET && a < b < ALPHABET && 0 < counts[a] && 0 < counts[b] && counts[a] + counts[b] < TWO_31
    && forall v :: 0 <= v < ALPHABET && v != a && v != b ==> counts[v] == 0
  }

  lemma {:induction false} PairLeaves(counts: seq<nat>, a: nat, b: nat, n: nat)
    requires Pair(counts, a, b) && n <= ALPHABET
    ensures LeafList(counts, n) == if n <= a then [] else if n <= b then [Leaf(counts[a], a)]
                                   else Inserted([Leaf(counts[a], a)], Leaf(counts[b], b))
  {
    if n > 0 {
      PairLeaves(counts, a, b, n - 1);
    }
  }

  lemma PairPaths(left: EncodeNode, right: EncodeNode, count: nat)
    requires left.Leaf? && right.Leaf? && left.value != right.value && left.value < ALPHABET && right.value < ALPHABET
    ensures var codes := TreeCode(Branch(count, left, right)); codes[left.value] == [false] && codes[right.value] == [true]
  {
    var t := Branch(count, left, right);
    assert PathTo(left, left.value) == [] && PathTo(right, right.value) == [];
    assert left.value in Symbols(t) && right.value in Symbols(t) && right.value !in Symbols(left);
  }

  // The byte that occurs less often, or the greater one of two that occur equally often, is on the
  // left and gets the bit 0.
  lemma CodesOfPair(counts: seq<nat>, a: nat, b: nat)
    requires Pair(counts, a, b)
    ensures SomeOccur(counts)
    ensures var codes := TreeCode(TreeFor(counts));
            codes[a] == [counts[a] >= counts[b]] && codes[b] == [counts[a] < counts[b]]
  {
    var x, y, n := Leaf(counts[a], a), Leaf(counts[b], b), ALPHABET;
    PairLeaves(counts, a, b, n);
    CompareOrdersByCount(y, x);
    var f := if counts[a] < counts[b] then [x, y] else [y, x];
    PositionIs([x], y, if counts[a] < counts[b] then 1 else 0);
    assert LeafList(counts, n) == f;
    PairTree(f);
    PairPaths(f[0], f[1], f[0].count + f[1].count);
  }

  lemma PairTree(f: seq<EncodeNode>)
    requires |f| == 2
    ensures MergeTree(f) == Branch(f[0].count + f[1].count, f[0], f[1])
  {
    assert f[2..] == [] && MergeOnce(f) == [Joined(f)];
  }
}

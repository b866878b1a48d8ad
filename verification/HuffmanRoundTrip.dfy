/** huffman_decode undoes huffman_encode. */
module HuffmanRoundTrip {
  import opened Bytes
  import opened PrefixCodes
  import opened HuffmanTree
  import opened HuffmanCode
  import opened HuffmanEncode
  import opened HuffmanDecode

  function CodeOf(codes: seq<Code>, b: byte): Code
    requires |codes| == ALPHABET
  {
    codes[b]
  }

  // ---- The leaf table

  function CodeLeaves(codes: seq<Code>, symbols: seq<byte>): (r: seq<LeafNode>)
    requires |codes| == ALPHABET
  {
    if symbols == [] then []
    else [LeafNode(symbols[0], |CodeOf(codes, symbols[0])|)] + CodeLeaves(codes, symbols[1..])
  }

  lemma {:induction false} LeavesAppend(table: seq<byte>, chr: byte, len: byte)
    requires |table| % 2 == 0
    ensures Leaves(table + [chr, len]) == Leaves(table) + [LeafNode(chr, len)]
  {
    if table == [] {
      assert table + [chr, len] == [chr, len];
      assert [chr, len][2..] == [];
    } else {
      assert (table + [chr, len])[2..] == table[2..] + [chr, len];
      LeavesAppend(table[2..], chr, len);
    }
  }

  lemma {:induction false} CodeLeavesAppend(codes: seq<Code>, symbols: seq<byte>, b: byte)
    requires |codes| == ALPHABET
    ensures CodeLeaves(codes, symbols + [b]) == CodeLeaves(codes, symbols) + [LeafNode(b, |CodeOf(codes, b)|)]
  {
    if symbols == [] {
      assert symbols + [b] == [b] && [b][1..] == [];
    } else {
      assert (symbols + [b])[1..] == symbols[1..] + [b];
      CodeLeavesAppend(codes, symbols[1..], b);
    }
  }

  lemma {:induction false} TableHoldsLeaves(codes: seq<Code>, symbols: seq<byte>)
    requires FitsWord(codes)
    ensures Leaves(LeafTable(codes, symbols)) == CodeLeaves(codes, symbols)
  {
    if symbols != [] {
      var rest, b := symbols[..|symbols| - 1], symbols[|symbols| - 1];
      assert symbols == rest + [b];
      TableHoldsLeaves(codes, rest);
      LeavesAppend(LeafTable(codes, rest), b, |CodeOf(codes, b)|);
      CodeLeavesAppend(codes, rest, b);
    }
  }

  lemma {:induction false} LeavesMeasureKeys(codes: seq<Code>, symbols: seq<byte>)
    requires |codes| == ALPHABET
    ensures TotalLength(CodeLeaves(codes, symbols)) == |Concat(codes, symbols)|
  {
    if symbols != [] {
      LeavesMeasureKeys(codes, symbols[1..]);
    }
  }

  ghost predicate OnlyUses(s: seq<byte>, symbols: seq<byte>) {
    forall b {:trigger b in s} :: b in s ==> b in symbols
  }

  // ---- The rebuilt trie is the code

  ghost predicate Distinguishes(codes: seq<Code>, symbols: seq<byte>)
    requires |codes| == ALPHABET
  {
    forall b, c :: b in symbols && c in symbols && b != c ==> !Comparable(CodeOf(codes, b), CodeOf(codes, c))
  }

  // The trie has the prefixes of the code words of these symbols, and a value exactly at their ends.
  ghost predicate Rebuilds(trie: Trie, codes: seq<Code>, symbols: seq<byte>)
    requires |codes| == ALPHABET
  {
    && (forall b :: b in symbols ==> CodeOf(codes, b) in trie.chars && trie.chars[CodeOf(codes, b)] == b)
    && (forall p :: p in trie.chars ==> exists b :: b in symbols && CodeOf(codes, b) == p)
    && (forall b, i :: b in symbols && 0 <= i <= |CodeOf(codes, b)| ==> CodeOf(codes, b)[..i] in trie.paths)
  }

  lemma AddLeafRebuilds(trie: Trie, codes: seq<Code>, done: seq<byte>, b: byte)
    requires |codes| == ALPHABET && Rebuilds(trie, codes, done) && Distinguishes(codes, done + [b])
    ensures Rebuilds(AddLeaf(trie, CodeOf(codes, b), b), codes, done + [b])
  {
    var code := CodeOf(codes, b);
    var r := AddLeaf(trie, code, b);
    forall c | c in done + [b]
      ensures CodeOf(codes, c) in r.chars && r.chars[CodeOf(codes, c)] == c
    {
      assert c != b ==> c in done;
      assert b in done + [b];
      assert c != b ==> !Comparable(CodeOf(codes, c), code);
    }
    forall c, i | c in done + [b] && 0 <= i <= |CodeOf(codes, c)|
      ensures CodeOf(codes, c)[..i] in r.paths
    {
      assert c != b ==> c in done;
      assert code[..if i <= |code| then i else 0] in Prefixes(code);
    }
    forall p | p in r.chars
      ensures exists c :: c in done + [b] && CodeOf(codes, c) == p
    {
      if p == code {
        assert b in done + [b];
      } else {
        var c :| c in done && CodeOf(codes, c) == p;
        assert c in done + [b];
      }
    }
  }

  lemma {:induction false} ReadTrieRebuilds(bits: seq<bool>, pos: nat, codes: seq<Code>,
                                            done: seq<byte>, symbols: seq<byte>, trie: Trie)
    requires |codes| == ALPHABET && Rebuilds(trie, codes, done) && Distinguishes(codes, done + symbols)
    requires var keys := Concat(codes, symbols); pos + |keys| <= |bits| && bits[pos..pos + |keys|] == keys
    ensures TotalLength(CodeLeaves(codes, symbols)) == |Concat(codes, symbols)|
    ensures Rebuilds(ReadTrie(bits, pos, CodeLeaves(codes, symbols), trie), codes, done + symbols)
    decreases symbols
  {
    LeavesMeasureKeys(codes, symbols);
    if symbols == [] {
      assert done + symbols == done;
    } else {
      var b, rest := symbols[0], symbols[1..];
      var code := CodeOf(codes, b);
      var next := pos + |code|;
      SliceOfTwo(bits, pos, code, Concat(codes, rest));
      assert done + symbols == done + [b] + rest;
      assert Distinguishes(codes, done + [b]);
      AddLeafRebuilds(trie, codes, done, b);
      ReadTrieRebuilds(bits, next, codes, done + [b], rest, AddLeaf(trie, code, b));
      ReadTrieNext(bits, pos, CodeLeaves(codes, symbols), trie, LeafNode(b, |code|), CodeLeaves(codes, rest), next);
    }
  }

  // ---- Walking the trie along a code word

  lemma PositionsDoNotWrap(pos: nat, size: nat)
    requires pos < 8 * size < TWO_32
    ensures pos / 8 < size && (pos + 1) % TWO_32 == pos + 1 && ByteBoundary(pos) % TWO_32 / 8 <= size
  {
    assert ByteBoundary(pos) <= 8 * size;
  }

  lemma WalkStep(data: seq<byte>, trie: Trie, pos: nat, path: Code, bit: bool)
    requires Usable(trie)
    requires path in trie.paths && path !in trie.chars && path + [bit] in trie.paths
    requires pos < 8 * |data| < TWO_32 && BitAt(data, pos) == bit
    ensures WalkFrom(data, trie, pos, path) == WalkFrom(data, trie, pos + 1, path + [bit])
  {
    PositionsDoNotWrap(pos, |data|);
  }

  lemma InnerNodeHasNoValue(trie: Trie, codes: seq<Code>, symbols: seq<byte>, b: byte, i: nat)
    requires |codes| == ALPHABET && Rebuilds(trie, codes, symbols) && Distinguishes(codes, symbols)
    requires b in symbols && i < |CodeOf(codes, b)|
    ensures CodeOf(codes, b)[..i] !in trie.chars
  {
    var code := CodeOf(codes, b);
    if code[..i] in trie.chars {
      var c :| c in symbols && CodeOf(codes, c) == code[..i];
      assert Comparable(CodeOf(codes, c), code);
      assert false;
    }
  }

  // The code words are found at the end of a walk without values.
  lemma CodeIsWalked(trie: Trie, codes: seq<Code>, symbols: seq<byte>, b: byte)
    requires |codes| == ALPHABET && Rebuilds(trie, codes, symbols) && Distinguishes(codes, symbols) && b in symbols
    ensures var code := CodeOf(codes, b); Walked(trie, code) && code in trie.chars && trie.chars[code] == b
  {
    var code := CodeOf(codes, b);
    forall i | 0 <= i < |code|
      ensures code[..i] !in trie.chars
    {
      InnerNodeHasNoValue(trie, codes, symbols, b, i);
    }
  }

  lemma {:induction false} WalkFindsSymbol(data: seq<byte>, trie: Trie, code: Code, b: byte, pos: nat, i: nat, at: nat)
    requires Usable(trie) && Walked(trie, code) && code in trie.chars && trie.chars[code] == b
    requires i <= |code| && at == pos + i
    requires 8 * |data| < TWO_32 && BitsAt(data, pos, code)
    ensures WalkFrom(data, trie, at, code[..i]) == Found(b, pos + |code|)
    decreases |code| - i
  {
    if i == |code| {
      assert code[..i] == code;
    } else {
      BitOfRun(data, pos, code, i);
      assert code[..i + 1] == code[..i] + [code[i]];
      WalkFindsSymbol(data, trie, code, b, pos, i + 1, at + 1);
      WalkStep(data, trie, at, code[..i], code[i]);
    }
  }

  ghost predicate ReadsAt(data: seq<byte>, trie: Trie, codes: seq<Code>, b: byte, pos: nat)
    requires |codes| == ALPHABET
    requires Usable(trie)
  {
    BitsAt(data, pos, CodeOf(codes, b)) ==> WalkFrom(data, trie, pos, []) == Found(b, pos + |CodeOf(codes, b)|)
  }

  // Wherever the code word of a symbol stands in the data, the walk from the root finds the symbol.
  ghost predicate Reads(data: seq<byte>, trie: Trie, codes: seq<Code>, symbols: seq<byte>)
    requires |codes| == ALPHABET
    requires Usable(trie)
  {
    forall b: byte, pos: nat {:trigger ReadsAt(data, trie, codes, b, pos)} ::
      b in symbols ==> ReadsAt(data, trie, codes, b, pos)
  }

  lemma TrieReads(data: seq<byte>, trie: Trie, codes: seq<Code>, symbols: seq<byte>)
    requires |codes| == ALPHABET && Rebuilds(trie, codes, symbols) && Distinguishes(codes, symbols)
    requires Usable(trie) && 8 * |data| < TWO_32
    ensures Reads(data, trie, codes, symbols)
  {
    forall b: byte, pos: nat | b in symbols
      ensures ReadsAt(data, trie, codes, b, pos)
    {
      if BitsAt(data, pos, CodeOf(codes, b)) {
        CodeIsWalked(trie, codes, symbols, b);
        WalkFindsSymbol(data, trie, CodeOf(codes, b), b, pos, 0, pos);
        assert CodeOf(codes, b)[..0] == [];
      }
    }
  }

  lemma SliceOfTwo(bits: seq<bool>, pos: nat, a: seq<bool>, b: seq<bool>)
    requires pos + |a + b| <= |bits| && bits[pos..pos + |a + b|] == a + b
    ensures bits[pos..pos + |a|] == a
    ensures bits[pos + |a|..pos + |a| + |b|] == b
  {
    var slice := bits[pos..pos + |a + b|];
    assert bits[pos..pos + |a|] == slice[..|a|];
    assert bits[pos + |a|..pos + |a| + |b|] == slice[|a|..];
  }

  // Walking again and again from pos finds the symbols of s, with their code words in between.
  ghost predicate Spells(data: seq<byte>, trie: Trie, codes: seq<Code>, pos: nat, s: seq<byte>)
    requires |codes| == ALPHABET && Usable(trie)
    decreases s
  {
    s == [] || var next := pos + |CodeOf(codes, s[0])|;
               WalkFrom(data, trie, pos, []) == Found(s[0], next) && Spells(data, trie, codes, next, s[1..])
  }

  lemma {:induction false} TextSpells(data: seq<byte>, trie: Trie,
                                      codes: seq<Code>, symbols: seq<byte>, pos: nat, s: seq<byte>)
    requires |codes| == ALPHABET && Usable(trie)
    requires Reads(data, trie, codes, symbols) && BitsAt(data, pos, Concat(codes, s))
    requires OnlyUses(s, symbols)
    ensures Spells(data, trie, codes, pos, s)
    decreases s
  {
    if s != [] {
      var code := CodeOf(codes, s[0]);
      SliceOfTwo(Bits(data), pos, code, Concat(codes, s[1..]));
      assert s[0] in s && forall b :: b in s[1..] ==> b in s;
      assert ReadsAt(data, trie, codes, s[0], pos);
      TextSpells(data, trie, codes, symbols, pos + |code|, s[1..]);
    }
  }

  lemma {:induction false} SpelledDecodes(data: seq<byte>, trie: Trie, codes: seq<Code>,
                                          pos: nat, s: seq<byte>, sofar: seq<byte>)
    requires |codes| == ALPHABET && Usable(trie) && Spells(data, trie, codes, pos, s)
    ensures DecodeText(data, trie, pos, |s|, sofar) == Decoded(sofar + s)
    decreases s
  {
    if s == [] {
      assert sofar + s == sofar;
    } else {
      SpelledDecodes(data, trie, codes, pos + |CodeOf(codes, s[0])|, s[1..], sofar + [s[0]]);
      assert sofar + [s[0]] + s[1..] == sofar + s;
    }
  }

  // ---- The whole file

  lemma {:induction false} AlphabetMembers(counts: seq<nat>, n: nat)
    requires |counts| == ALPHABET && n <= ALPHABET
    ensures forall v :: 0 <= v < n && counts[v] > 0 ==> v in Alphabet(counts, n)
    ensures forall b :: b in Alphabet(counts, n) ==> counts[b] > 0
  {
    if n > 0 {
      AlphabetMembers(counts, n - 1);
    }
  }

  lemma PrefixFreeDistinguishes(counts: seq<nat>, codes: seq<Code>)
    requires |counts| == |codes| == ALPHABET && PrefixFreeOn(counts, codes)
    ensures Distinguishes(codes, Alphabet(counts, ALPHABET))
  {
    var symbols := Alphabet(counts, ALPHABET);
    AlphabetMembers(counts, ALPHABET);
    forall b, c | b in symbols && c in symbols && b != c
      ensures !Comparable(CodeOf(codes, b), CodeOf(codes, c))
    {
    }
  }

  lemma TextUsesAlphabet(s: seq<byte>)
    ensures OnlyUses(s, Alphabet(Counts(s), ALPHABET))
  {
    AlphabetMembers(Counts(s), ALPHABET);
    forall b | b in s
      ensures b in Alphabet(Counts(s), ALPHABET)
    {
      var i :| 0 <= i < |s| && s[i] == b;
      Occurs(s, i);
    }
  }

  lemma {:induction false} ConcatBound(codes: seq<Code>, s: seq<byte>)
    requires FitsWord(codes)
    ensures |Concat(codes, s)| <= 32 * |s|
  {
    if s != [] {
      ConcatBound(codes, s[1..]);
    }
  }

  lemma HeaderFields(parity: byte, size: seq<byte>, count: seq<byte>, rest: seq<byte>)
    requires |size| == 4 && |count| == 2
    ensures var out := [0x48, 0x45, 0x33, 0x0D, parity] + size + count + rest;
            HasMagic(out) && out[4] == parity && out[5..9] == size && out[9..11] == count && out[11..] == rest
  {
  }

  lemma FieldValues(size: nat, count: nat)
    requires size < TWO_32 && count < 0x1_0000
    ensures FromLittleEndian(LittleEndian(size, 4)) == size
    ensures FromLittleEndian(LittleEndian(count, 2)) == count
  {
    assert Range(1) == 256 && Range(2) == 0x1_0000 && Range(3) == 0x100_0000 && Range(4) == TWO_32;
    LittleEndianRoundTrip(size, 4);
    LittleEndianRoundTrip(count, 2);
  }

  function PreambleFor(size: nat, symbols: seq<byte>, codes: seq<Code>): Preamble
    requires |codes| == ALPHABET
  {
    var leaves, keyPos := CodeLeaves(codes, symbols), 8 * (11 + |symbols| * 2);
    Good(size, keyPos, NextSection(keyPos, TotalLength(leaves)), leaves)
  }

  lemma ReadsPreamble(out: seq<byte>, size: nat, count: nat, leaves: seq<LeafNode>)
    requires HasMagic(out) && FromLittleEndian(out[5..9]) == size && FromLittleEndian(out[9..11]) == count
    requires |out| >= 11 + count * 2 && Leaves(out[11..11 + count * 2]) == leaves
    requires |out| >= 11 + count * 2 + ByteBoundary(TotalLength(leaves)) / 8
    ensures var keyPos := 8 * (11 + count * 2);
            ReadPreamble(out) == Good(size, keyPos, NextSection(keyPos, TotalLength(leaves)), leaves)
  {
  }

  lemma PreambleOf(out: seq<byte>, parity: byte, size: nat, symbols: seq<byte>, codes: seq<Code>, body: seq<byte>)
    requires FitsWord(codes) && size < TWO_32 && |symbols| < 0x1_0000
    requires out == [0x48, 0x45, 0x33, 0x0D, parity] + LittleEndian(size, 4) + LittleEndian(|symbols|, 2)
                    + (LeafTable(codes, symbols) + body)
    requires 8 * |body| >= ByteBoundary(|Concat(codes, symbols)|)
    ensures ReadPreamble(out) == PreambleFor(size, symbols, codes)
    ensures |out| >= 11 && out[4] == parity
  {
    var table := LeafTable(codes, symbols);
    HeaderFields(parity, LittleEndian(size, 4), LittleEndian(|symbols|, 2), table + body);
    FieldValues(size, |symbols|);
    assert out[11..11 + |symbols| * 2] == out[11..][..|table|] == table;
    TableHoldsLeaves(codes, symbols);
    LeavesMeasureKeys(codes, symbols);
    ReadsPreamble(out, size, |symbols|, CodeLeaves(codes, symbols));
  }

  lemma PreambleOfLayout(out: seq<byte>, s: seq<byte>, codes: seq<Code>)
    requires FitsWord(codes) && Layout(out, s, codes) && |s| < TWO_32
    ensures var symbols := Alphabet(Counts(s), ALPHABET);
            && ReadPreamble(out) == PreambleFor(|s|, symbols, codes)
            && |out| >= 11 && out[4] == Parity(s)
  {
    var symbols := Alphabet(Counts(s), ALPHABET);
    var head, table := Header(s, |symbols|), LeafTable(codes, symbols);
    var body := out[|head + table|..];
    AlphabetSize(Counts(s), ALPHABET);
    assert 8 * |body| >= ByteBoundary(|Concat(codes, symbols)|) by {
      assert |Bits(body)| == |Padded(Concat(codes, symbols)) + Padded(Concat(codes, s))|;
    }
    SplitHead(out, head, table);
    PreambleOf(out, Parity(s), |s|, symbols, codes, body);
  }

  lemma TrieOfLayout(out: seq<byte>, symbols: seq<byte>, codes: seq<Code>, p: Preamble)
    requires |codes| == ALPHABET && Distinguishes(codes, symbols)
    requires Sound(p, out) && p.leaves == CodeLeaves(codes, symbols)
    requires BitsAt(out, p.keyPos, Concat(codes, symbols))
    ensures Rebuilds(TrieOf(out, p), codes, symbols)
  {
    assert [] + symbols == symbols;
    assert Rebuilds(EMPTY_TRIE, codes, []);
    ReadTrieRebuilds(Bits(out), p.keyPos, codes, [], symbols, EMPTY_TRIE);
  }

  // Once the preamble is read, the two bit sections decode to the text.
  lemma SectionsDecode(out: seq<byte>, p: Preamble, s: seq<byte>,
                       symbols: seq<byte>, codes: seq<Code>)
    requires |codes| == ALPHABET && Distinguishes(codes, symbols) && 8 * |out| < TWO_32
    requires Sound(p, out) && p.size == |s| && p.leaves == CodeLeaves(codes, symbols)
    requires BitsAt(out, p.keyPos, Concat(codes, symbols)) && BitsAt(out, p.textPos, Concat(codes, s))
    requires OnlyUses(s, symbols)
    ensures DecodeSections(out, p) == Decoded(s)
  {
    var trie := TrieOf(out, p);
    TrieOfLayout(out, symbols, codes, p);
    TrieReads(out, trie, codes, symbols);
    TextSpells(out, trie, codes, symbols, p.textPos, s);
    SpelledDecodes(out, trie, codes, p.textPos, s, []);
    assert [] + s == s;
  }

  lemma FrameDecodes(out: seq<byte>, p: Preamble, s: seq<byte>,
                     symbols: seq<byte>, codes: seq<Code>, head: seq<byte>)
    requires |codes| == ALPHABET && Distinguishes(codes, symbols) && 8 * |out| < TWO_32
    requires Framed(out, head, Concat(codes, symbols), Concat(codes, s)) && |head| == 11 + 2 * |symbols|
    requires Sound(p, out) && p == PreambleFor(|s|, symbols, codes)
    requires OnlyUses(s, symbols)
    ensures DecodeSections(out, p) == Decoded(s)
  {
    LeavesMeasureKeys(codes, symbols);
    assert p.keyPos == 8 * |head| && TotalLength(p.leaves) == |Concat(codes, symbols)|;
    FramedBits(out, head, Concat(codes, symbols), Concat(codes, s), p.keyPos, p.textPos);
    SectionsDecode(out, p, s, symbols, codes);
  }

  // Whatever was compressed, decoding the file succeeds, reads only inside the file, and returns
  // exactly the text, as long as its bits can be counted in 32 bits; the stored parity matches.
  lemma CodecRoundTrip(out: seq<byte>, s: seq<byte>, codes: seq<Code>)
    requires Compresses(out, s, codes) && |s| < TWO_32 && 8 * |out| < TWO_32
    ensures DecodeSpec(out) == Decoded(s)
    ensures |out| >= 11 && out[4] == Parity(s)
  {
    var symbols := Alphabet(Counts(s), ALPHABET);
    var head := Header(s, |symbols|) + LeafTable(codes, symbols);
    PreambleOfLayout(out, s, codes);
    PrefixFreeDistinguishes(Counts(s), codes);
    TextUsesAlphabet(s);
    FrameDecodes(out, ReadPreamble(out), s, symbols, codes, head);
  }

  // ---- The size of the file

  // The code every byte is written in: its own eight bits.
  function PlainCode(v: nat): (code: Code)
    ensures |code| == 8
  {
    seq(8, i requires 0 <= i < 8 => BitOf(v, i))
  }

  function PlainCodes(): (codes: seq<Code>)
    ensures |codes| == ALPHABET && forall v :: 0 <= v < ALPHABET ==> codes[v] == PlainCode(v)
  {
    seq(ALPHABET, v requires 0 <= v < ALPHABET => PlainCode(v))
  }

  lemma {:induction false} SameBits(v: nat, w: nat, k: nat)
    requires v < Pow2(k) && w < Pow2(k) && forall i :: 0 <= i < k ==> BitOf(v, i) == BitOf(w, i)
    ensures v == w
  {
    if k > 0 {
      forall i | 0 <= i < k - 1
        ensures BitOf(v / 2, i) == BitOf(w / 2, i)
      {
        assert BitOf(v, i + 1) == BitOf(w, i + 1);
      }
      assert BitOf(v, 0) == BitOf(w, 0);
      SameBits(v / 2, w / 2, k - 1);
    }
  }

  lemma PlainCodesArePrefixFree(counts: seq<nat>)
    requires |counts| == ALPHABET
    ensures PrefixFreeOn(counts, PlainCodes())
  {
    ByteWidth();
    forall v, w | 0 <= v < w < ALPHABET && counts[v] > 0 && counts[w] > 0
      ensures !Comparable(PlainCodes()[v], PlainCodes()[w])
    {
      if PlainCode(v) == PlainCode(w) {
        forall i | 0 <= i < 8
          ensures BitOf(v, i) == BitOf(w, i)
        {
          assert PlainCode(v)[i] == PlainCode(w)[i];
        }
        SameBits(v, w, 8);
      }
    }
  }

  lemma {:induction false} EightTimes(counts: seq<nat>, lens: seq<nat>, n: nat)
    requires |counts| == |lens| == ALPHABET && n <= ALPHABET && forall v :: 0 <= v < ALPHABET ==> lens[v] == 8
    ensures SymbolSum(counts, lens, n) == 8 * SymbolSum(counts, HuffmanMerge.Ones(), n)
  {
    if n > 0 {
      EightTimes(counts, lens, n - 1);
    }
  }

  // The compressed text is never longer than the text.
  lemma NeverLonger(s: seq<byte>, codes: seq<Code>)
    requires |codes| == ALPHABET && Minimal(Counts(s), codes)
    ensures |Concat(codes, s)| <= 8 * |s|
  {
    PlainCodesArePrefixFree(Counts(s));
    EightTimes(Counts(s), Lengths(PlainCodes()), ALPHABET);
    TotalCount(s);
    ConcatLength(codes, s);
  }

  // The sizes of a file with a head of so many bytes and two sections of so many bits.
  lemma SectionsFit(out: nat, head: nat, keys: nat, text: nat, size: nat)
    requires head <= 523 && keys <= 8192 && text <= 8 * size
    requires 8 * out == NextSection(8 * head, keys) + ByteBoundary(text)
    ensures out <= size + OVERHEAD
  {
  }

  lemma TablesSize(counts: seq<nat>, codes: seq<Code>, symbols: seq<byte>, n: nat)
    requires |counts| == ALPHABET && FitsWord(codes) && n <= ALPHABET && symbols == Alphabet(counts, n)
    ensures |LeafTable(codes, symbols)| <= 512 && |Concat(codes, symbols)| <= 8192
  {
    AlphabetSize(counts, n);
    ConcatBound(codes, symbols);
  }

  // So the file is at most the header and the tables longer.
  lemma FileSize(out: seq<byte>, s: seq<byte>, codes: seq<Code>)
    requires Compresses(out, s, codes) && Minimal(Counts(s), codes)
    ensures |out| <= |s| + OVERHEAD
  {
    var symbols := Alphabet(Counts(s), ALPHABET);
    var head, keys, text := Header(s, |symbols|) + LeafTable(codes, symbols), Concat(codes, symbols), Concat(codes, s);
    TablesSize(Counts(s), codes, symbols, ALPHABET);
    NeverLonger(s, codes);
    FramedBits(out, head, keys, text, 8 * |head|, NextSection(8 * |head|, |keys|));
    SectionsFit(|out|, |head|, |keys|, |text|, |s|);
  }

  // Header, leaf table and code table together have at most so many bytes.
  const OVERHEAD: nat := 1547

  // ---- The two functions composed

  // An encodable text whose file has less than 2^32 bits.
  ghost predicate RoundTrips(s: seq<byte>) {
    Encodable(Counts(s)) && |s| + OVERHEAD < 0x2000_0000
  }

  lemma ShortTextsRoundTrip(s: seq<byte>)
    requires |s| < CODEC_LIMIT
    ensures RoundTrips(s)
  {
    ShortTextsEncodable(s);
  }

  method EncodeThenDecode(s: seq<byte>) returns (result: Outcome, parityMatches: bool)
    requires RoundTrips(s)
    ensures result == Decoded(s) && parityMatches
  {
    var out;
    ghost var codes;
    out, codes := Encode(s);
    FileSize(out, s, codes);
    CodecRoundTrip(out, s, codes);
    result, parityMatches := Decode(out);
  }
}

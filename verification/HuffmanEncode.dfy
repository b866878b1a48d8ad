/** huffman_encode: counting, the tree, the code words and the packed bit stream. */
module HuffmanEncode {
  import opened Bytes
  import opened PrefixCodes
  import opened HuffmanTree
  import opened HuffmanMerge
  import opened HuffmanDepth
  import opened HuffmanDeepest
  import opened HuffmanCode

  datatype BitsNode = BitsNode(data: nat, bitcount: nat)

  // What make_huffman_bits stores for the code word: 32 bits of value, 8 bits of length.
  function Stored(code: Code): BitsNode {
    BitsNode(Word(code) % TWO_32, |code| % 256)
  }

  lemma StoredStep(path: Code, bit: bool)
    ensures Stored(path + [bit]).data == (2 * Stored(path).data + if bit then 1 else 0) % TWO_32
  {
    assert (path + [bit])[..|path|] == path;
  }

  // Every leaf below node, reached from the root along path, has its code word stored.
  ghost predicate StoresLeaves(bitnodes: seq<BitsNode>, node: EncodeNode, path: Code) {
    forall p, v: nat | LeafAt(node, p, v) :: v < |bitnodes| && bitnodes[v] == Stored(path + p)
  }

  lemma BranchStored(bitnodes: seq<BitsNode>, before: seq<BitsNode>, node: EncodeNode, path: Code)
    requires node.Branch? && |bitnodes| == |before| && forall v :: Symbols(node)[v] <= 1
    requires StoresLeaves(before, node.left, path + [false]) && StoresLeaves(bitnodes, node.right, path + [true])
    requires forall v | 0 <= v < |bitnodes| && v !in Symbols(node.right) :: bitnodes[v] == before[v]
    ensures StoresLeaves(bitnodes, node, path)
  {
    forall p, v: nat | LeafAt(node, p, v)
      ensures v < |bitnodes| && bitnodes[v] == Stored(path + p)
    {
      if p[0] {
        RightStored(bitnodes, node, path, p, v);
      } else {
        LeftOnly(node, p[1..], v);
        LeftStored(before, node, path, p, v);
      }
    }
  }

  lemma LeftStored(bitnodes: seq<BitsNode>, node: EncodeNode, path: Code, p: Code, v: nat)
    requires node.Branch? && StoresLeaves(bitnodes, node.left, path + [false]) && LeafAt(node, p, v) && !p[0]
    ensures v < |bitnodes| && bitnodes[v] == Stored(path + p)
  {
    assert LeafAt(node.left, p[1..], v);
    assert path + p == path + [false] + p[1..];
  }

  lemma RightStored(bitnodes: seq<BitsNode>, node: EncodeNode, path: Code, p: Code, v: nat)
    requires node.Branch? && StoresLeaves(bitnodes, node.right, path + [true]) && LeafAt(node, p, v) && p[0]
    ensures v < |bitnodes| && bitnodes[v] == Stored(path + p)
  {
    assert LeafAt(node.right, p[1..], v);
    assert path + p == path + [true] + p[1..];
  }

  // A symbol that occurs once, on the left, does not occur on the right.
  lemma LeftOnly(node: EncodeNode, p: Code, v: nat)
    requires node.Branch? && LeafAt(node.left, p, v) && Symbols(node)[v] <= 1
    ensures v !in Symbols(node.right)
  {
    LeafHasSymbol(node.left, p, v);
    assert Symbols(node)[v] == Symbols(node.left)[v] + Symbols(node.right)[v];
  }

  // Symbols that occur once occur in one half only.
  lemma SymbolsOfHalves(node: EncodeNode)
    requires node.Branch? && forall v :: Symbols(node)[v] <= 1
    ensures forall v :: Symbols(node.left)[v] <= 1
    ensures forall v :: Symbols(node.right)[v] <= 1
    ensures forall v :: v !in Symbols(node) ==> v !in Symbols(node.left) && v !in Symbols(node.right)
  {
    forall v
      ensures Symbols(node.left)[v] <= 1 && Symbols(node.right)[v] <= 1
    {
      assert Symbols(node)[v] == Symbols(node.left)[v] + Symbols(node.right)[v];
    }
  }

  method MakeHuffmanBits(bitnodes: array<BitsNode>, node: EncodeNode, bitcount: nat, data: nat, ghost path: Code)
    requires bitnodes.Length == ALPHABET && WellFormed(node)
    requires forall v :: Symbols(node)[v] <= 1
    requires bitcount == |path| && data == Stored(path).data
    modifies bitnodes
    ensures StoresLeaves(bitnodes[..], node, path)
    ensures forall v | 0 <= v < ALPHABET && v !in Symbols(node) :: bitnodes[v] == old(bitnodes[v])
    decreases node
  {
    match node
    case Branch(_, left, right) =>
      StoredStep(path, false);
      StoredStep(path, true);
      SymbolsOfHalves(node);
      MakeHuffmanBits(bitnodes, left, bitcount + 1, data * 2 % TWO_32, path + [false]);
      ghost var before := bitnodes[..];
      MakeHuffmanBits(bitnodes, right, bitcount + 1, (data * 2 + 1) % TWO_32, path + [true]);
      BranchStored(bitnodes[..], before, node, path);
    case Leaf(_, value) =>
      bitnodes[value] := BitsNode(data, bitcount % 256);
      assert path + [] == path;
  }

  method AddBits(data: array<byte>, bitPos: nat, bits: nat, bitcount: nat,
                 ghost written: seq<bool>, ghost code: Code, ghost zeros: nat)
    returns (newPos: nat)
    requires bitcount == |code| <= 32 && bits == Word(code)
    requires Bits(data[..]) == written + Zeros(zeros) && |written| == bitPos && bitcount <= zeros
    modifies data
    ensures newPos == bitPos + bitcount
    ensures Bits(data[..]) == written + code + Zeros(zeros - bitcount)
  {
    newPos := bitPos;
    assert written + code[..0] + Zeros(zeros) == written + Zeros(zeros);
    for c := 0 to bitcount
      invariant newPos == bitPos + c
      invariant Bits(data[..]) == written + code[..c] + Zeros(zeros - c)
    {
      ghost var before := written + code[..c];
      BitOfWord(code, c);
      assert code[..c + 1] == code[..c] + [code[c]];
      if ShiftRight(bits, bitcount - c - 1) % 2 == 1 {
        SetFirstZero(data[..], before, zeros - c);
        ghost var oldData := data[..];
        data[newPos / 8] := SetByteBit(data[newPos / 8], newPos % 8);
        assert data[..] == WithBit(oldData, newPos);
        assert before + [true] == written + code[..c + 1];
      } else {
        assert Zeros(zeros - c) == [false] + Zeros(zeros - c - 1);
        assert before + ([false] + Zeros(zeros - c - 1)) == written + code[..c + 1] + Zeros(zeros - c - 1);
      }
      newPos := newPos + 1;
    }
    assert code[..bitcount] == code;
  }

  method CountBytes(data: seq<byte>) returns (counts: array<nat>)
    ensures fresh(counts) && counts[..] == Counts(data)
  {
    counts := new nat[ALPHABET](_ => 0);
    assert counts[..] == Counts(data[..0]);
    for c := 0 to |data|
      invariant counts.Length == ALPHABET
      invariant counts[..] == Counts(data[..c])
    {
      CountStep(data[..c], data[c]);
      assert data[..c + 1] == data[..c] + [data[c]];
      var v := data[c];
      counts[v] := counts[v] + 1;
    }
    assert data[..|data|] == data;
  }

  method ComputeParity(data: seq<byte>) returns (parity: byte)
    ensures parity == Parity(data)
  {
    parity := 0;
    for c := 0 to |data|
      invariant parity == Parity(data[..c])
    {
      assert data[..c + 1][..c] == data[..c];
      parity := Xor(parity, data[c]);
    }
    assert data[..|data|] == data;
  }

  // ---- The packed sections

  ghost predicate Holds(bitnodes: seq<BitsNode>, counts: seq<nat>, codes: seq<Code>)
    requires |counts| == ALPHABET && FitsWord(codes)
  {
    && |bitnodes| == ALPHABET
    && forall v :: 0 <= v < ALPHABET && counts[v] != 0 ==> bitnodes[v] == BitsNode(Word(codes[v]), |codes[v]|)
  }

  lemma {:induction false} AlphabetBound(counts: seq<nat>, codes: seq<Code>, m: nat, n: nat)
    requires |counts| == ALPHABET && FitsWord(codes) && m <= n <= ALPHABET
    ensures |Concat(codes, Alphabet(counts, m))| <= |Concat(codes, Alphabet(counts, n))|
  {
    if m < n {
      AlphabetBound(counts, codes, m, n - 1);
      if counts[n - 1] != 0 {
        ConcatAppend(codes, Alphabet(counts, n - 1), n - 1);
      } else {
        assert Alphabet(counts, n) == Alphabet(counts, n - 1);
      }
    }
  }

  // The code words of the symbols below c, then that of c if it occurs.
  lemma AlphabetStep(counts: seq<nat>, codes: seq<Code>, c: nat, n: nat)
    requires |counts| == ALPHABET && FitsWord(codes) && c < n <= ALPHABET
    ensures Concat(codes, Alphabet(counts, c + 1)) == Concat(codes, Alphabet(counts, c)) + if counts[c] != 0 then codes[c] else []
    ensures |Concat(codes, Alphabet(counts, c + 1))| <= |Concat(codes, Alphabet(counts, n))|
  {
    AlphabetBound(counts, codes, c + 1, n);
    if counts[c] != 0 {
      ConcatAppend(codes, Alphabet(counts, c), c);
    } else {
      assert Alphabet(counts, c + 1) == Alphabet(counts, c);
    }
  }

  method PackAlphabet(bitdata: array<byte>, counts: seq<nat>, bitnodes: seq<BitsNode>, ghost codes: seq<Code>, ghost keys: seq<bool>)
    returns (bitPos: nat)
    requires |counts| == ALPHABET && FitsWord(codes) && Holds(bitnodes, counts, codes)
    requires keys == Concat(codes, Alphabet(counts, ALPHABET)) && |keys| <= 8 * bitdata.Length
    requires Bits(bitdata[..]) == Zeros(8 * bitdata.Length)
    modifies bitdata
    ensures bitPos == |keys| && Bits(bitdata[..]) == keys + Zeros(8 * bitdata.Length - |keys|)
  {
    bitPos := 0;
    ghost var total := 8 * bitdata.Length;
    ghost var written: seq<bool> := [];
    assert Zeros(total) == [] + Zeros(total - 0);
    for c := 0 to ALPHABET
      invariant written == Concat(codes, Alphabet(counts, c)) && bitPos == |written| <= total
      invariant Bits(bitdata[..]) == written + Zeros(total - bitPos)
    {
      AlphabetStep(counts, codes, c, ALPHABET);
      if counts[c] != 0 {
        bitPos := AddBits(bitdata, bitPos, bitnodes[c].data, bitnodes[c].bitcount, written, codes[c], total - bitPos);
        written := written + codes[c];
      }
    }
  }

  lemma ConcatPrefixLength(codes: seq<Code>, data: seq<byte>, n: nat)
    requires |codes| == ALPHABET && n <= |data|
    ensures |Concat(codes, data[..n])| <= |Concat(codes, data)|
    decreases |data| - n
  {
    if n < |data| {
      assert data[..n + 1] == data[..n] + [data[n]];
      ConcatAppend(codes, data[..n], data[n]);
      ConcatPrefixLength(codes, data, n + 1);
    } else {
      assert data[..n] == data;
    }
  }

  method PackText(bitdata: array<byte>, start: nat, data: seq<byte>, bitnodes: seq<BitsNode>,
                  ghost written: seq<bool>, ghost codes: seq<Code>, ghost zeros: nat)
    requires FitsWord(codes) && Holds(bitnodes, Counts(data), codes)
    requires start == |written| && Bits(bitdata[..]) == written + Zeros(zeros)
    requires |Concat(codes, data)| <= zeros
    modifies bitdata
    ensures Bits(bitdata[..]) == written + Concat(codes, data) + Zeros(zeros - |Concat(codes, data)|)
  {
    var bitPos := start;
    assert written + Concat(codes, data[..0]) == written;
    for c := 0 to |data|
      invariant bitPos == |written| + |Concat(codes, data[..c])|
      invariant |Concat(codes, data[..c])| <= zeros
      invariant Bits(bitdata[..]) == written + Concat(codes, data[..c]) + Zeros(zeros - |Concat(codes, data[..c])|)
    {
      var ch := data[c];
      assert data[..c + 1] == data[..c] + [data[c]];
      ConcatAppend(codes, data[..c], data[c]);
      ConcatPrefixLength(codes, data, c + 1);
      Occurs(data, c);
      assert bitnodes[ch] == BitsNode(Word(codes[ch]), |codes[ch]|);
      ghost var before := written + Concat(codes, data[..c]);
      bitPos := AddBits(bitdata, bitPos, bitnodes[ch].data, bitnodes[ch].bitcount, before, codes[ch],
                        zeros - |Concat(codes, data[..c])|);
      assert before + codes[ch] == written + Concat(codes, data[..c + 1]);
    }
    assert data[..|data|] == data;
  }

  lemma {:induction false} Occurs(data: seq<byte>, c: nat)
    requires c < |data|
    ensures Counts(data)[data[c]] > 0
    decreases |data|
  {
    if c < |data| - 1 {
      Occurs(data[..|data| - 1], c);
    }
  }

  // ---- Which texts can be encoded

  // uint8_t times uint32_t, a 32-bit product.
  function Product32(bitcount: nat, count: nat): nat {
    bitcount * count % TWO_32
  }

  // Every code word fits the 32 bits of its field, and no product of length and count wraps around.
  ghost predicate Encodable(counts: seq<nat>)
    requires |counts| == ALPHABET
  {
    SomeOccur(counts) ==>
      && Depth(TreeFor(counts)) <= 32
      && forall v :: 0 <= v < ALPHABET ==> |TreeCode(TreeFor(counts))[v]| * counts[v] < TWO_32
  }

  // The sum of the products as the program computes them.
  function WrappedSum(counts: seq<nat>, lens: seq<nat>, n: nat): nat
    requires |counts| == |lens| == ALPHABET && n <= ALPHABET
  {
    if n == 0 then 0 else WrappedSum(counts, lens, n - 1) + Product32(lens[n - 1], counts[n - 1])
  }

  lemma {:induction false} WrappedSumIs(counts: seq<nat>, lens: seq<nat>, n: nat)
    requires |counts| == |lens| == ALPHABET && n <= ALPHABET
    ensures WrappedSum(counts, lens, n) <= SymbolSum(counts, lens, n)
    ensures WrappedSum(counts, lens, n) == SymbolSum(counts, lens, n)
            <==> forall v :: 0 <= v < n ==> lens[v] * counts[v] < TWO_32
  {
    if n > 0 {
      WrappedSumIs(counts, lens, n - 1);
      var product := lens[n - 1] * counts[n - 1];
      assert counts[n - 1] * lens[n - 1] == product;
      assert product % TWO_32 <= product && (product % TWO_32 == product <==> product < TWO_32);
    }
  }

  lemma BitsAreCounted(counts: seq<nat>, codes: seq<Code>)
    requires |counts| == |codes| == ALPHABET
    ensures WrappedSum(counts, Lengths(codes), ALPHABET) == CodeCost(counts, codes)
            <==> forall v :: 0 <= v < ALPHABET ==> |codes[v]| * counts[v] < TWO_32
  {
    var lens, n := Lengths(codes), ALPHABET;
    WrappedSumIs(counts, lens, n);
    assert forall v :: 0 <= v < n ==> lens[v] == |codes[v]|;
  }

  lemma WordsFit(counts: seq<nat>, root: EncodeNode)
    requires |counts| == ALPHABET && SomeOccur(counts) && root == TreeFor(counts)
    ensures FitsWord(TreeCode(root)) <==> Depth(root) <= 32
  {
    TreeForCovers(counts);
    SymbolsOnce(root, counts);
    TreeCodeFitsExactly(root);
  }

  // For any counts: the code words fit their fields and the bits are counted right if and only if
  // the text is encodable.
  lemma EncodableExactly(counts: seq<nat>, codes: seq<Code>)
    requires |counts| == ALPHABET && SomeOccur(counts) && codes == TreeCode(TreeFor(counts))
    ensures Encodable(counts) <==>
              FitsWord(codes) && WrappedSum(counts, Lengths(codes), ALPHABET) == CodeCost(counts, codes)
  {
    WordsFit(counts, TreeFor(counts));
    BitsAreCounted(counts, codes);
  }

  lemma NoProductOverflow(bitcount: nat, count: nat)
    requires bitcount <= 32 && count < CODEC_LIMIT
    ensures bitcount * count < TWO_32
  {
    assert bitcount * count <= 32 * count;
  }

  lemma BelowLimit(counts: seq<nat>, n: nat)
    requires |counts| == ALPHABET && n == ALPHABET && SymbolSum(counts, Ones(), n) < CODEC_LIMIT
    ensures Encodable(counts)
  {
    if SomeOccur(counts) {
      var codes := TreeCode(TreeFor(counts));
      TreeForDepth(counts);
      WordsFit(counts, TreeFor(counts));
      CountBelowSum(counts, n);
      forall v | 0 <= v < ALPHABET
        ensures |codes[v]| * counts[v] < TWO_32
      {
        NoProductOverflow(|codes[v]|, counts[v]);
      }
    }
  }

  // Every text below the limit is encodable.
  lemma ShortTextsEncodable(s: seq<byte>)
    requires |s| < CODEC_LIMIT
    ensures Encodable(Counts(s))
  {
    TotalCount(s);
    BelowLimit(Counts(s), ALPHABET);
  }

  lemma TextOf(counts: seq<nat>, n: nat) returns (s: seq<byte>)
    requires |counts| == ALPHABET && n == ALPHABET
    ensures Counts(s) == counts && |s| == SymbolSum(counts, Ones(), ALPHABET)
  {
    s := TextWith(counts, n);
    TextWithCounts(counts, n);
    TotalCount(s);
  }

  // Every depth is reached by a text of the least size.
  lemma DeepText(depth: nat) returns (s: seq<byte>)
    requires 3 <= depth <= ALPHABET - 2 && LeastWeight(depth) < TWO_31
    ensures |s| == LeastWeight(depth) && SomeOccur(Counts(s)) && Depth(TreeFor(Counts(s))) == depth
  {
    var counts := seq(ALPHABET, v requires 0 <= v < ALPHABET => if v < depth + 2 then DeepCount(v) else 0);
    DepthIsReached(counts, depth);
    s := TextOf(counts, ALPHABET);
  }

  // The limit is sharp: there is a text of that size with a code word of 33 bits.
  lemma LimitIsSharp() returns (s: seq<byte>)
    ensures |s| == CODEC_LIMIT && !Encodable(Counts(s))
  {
    LeastWeight33();
    s := DeepText(33);
  }

  // ---- huffman_encode

  lemma CodeOfBuiltTree(root: EncodeNode, counts: seq<nat>)
    requires |counts| == ALPHABET && SomeOccur(counts) && root == TreeFor(counts) && Encodable(counts)
    ensures FitsWord(TreeCode(root)) && PrefixFreeOn(counts, TreeCode(root))
    ensures SymbolSum(counts, Ones(), ALPHABET) < TWO_31 ==> Minimal(counts, TreeCode(root))
    ensures forall v :: 0 <= v < ALPHABET ==> |TreeCode(root)[v]| * counts[v] < TWO_32
  {
    WordsFit(counts, root);
    TreeForCovers(counts);
    TreeCodeIsPrefixFree(root, counts);
    if SymbolSum(counts, Ones(), ALPHABET) < TWO_31 {
      TreeForIsOptimal(counts);
      TreeCodeCost(root, counts);
    }
  }

  lemma StoredExactly(code: Code)
    requires |code| <= 32
    ensures Stored(code) == BitsNode(Word(code), |code|)
  {
    WordFits32(code);
  }

  lemma StoredCodes(root: EncodeNode, counts: seq<nat>, bitnodes: seq<BitsNode>)
    requires |counts| == |bitnodes| == ALPHABET && Symbols(root) == Present(counts, ALPHABET)
    requires FitsWord(TreeCode(root))
    requires StoresLeaves(bitnodes, root, [])
    ensures Holds(bitnodes, counts, TreeCode(root))
  {
    forall v | 0 <= v < ALPHABET && counts[v] != 0
      ensures bitnodes[v] == BitsNode(Word(TreeCode(root)[v]), |TreeCode(root)[v]|)
    {
      PresentCount(counts, ALPHABET, v);
      PathReachesLeaf(root, v);
      var p := PathTo(root, v);
      assert [] + p == p == TreeCode(root)[v];
      StoredExactly(p);
    }
  }

  lemma SymbolsOnce(root: EncodeNode, counts: seq<nat>)
    requires |counts| == ALPHABET && Symbols(root) == Present(counts, ALPHABET)
    ensures forall v :: Symbols(root)[v] <= 1
  {
    forall v: nat
      ensures Symbols(root)[v] <= 1
    {
      PresentCount(counts, ALPHABET, v);
    }
  }

  // memset and make_huffman_bits: the code word of every symbol that occurs.
  method StoreCodes(root: EncodeNode, ghost counts: seq<nat>) returns (bitnodes: seq<BitsNode>)
    requires |counts| == ALPHABET && WellFormed(root) && Symbols(root) == Present(counts, ALPHABET)
    requires FitsWord(TreeCode(root))
    ensures Holds(bitnodes, counts, TreeCode(root))
  {
    var nodes := new BitsNode[ALPHABET](_ => BitsNode(0, 0));
    SymbolsOnce(root, counts);
    MakeHuffmanBits(nodes, root, 0, 0, []);
    bitnodes := nodes[..];
    StoredCodes(root, counts, bitnodes);
  }

  // The tree for this text and its code words.
  method CodeText(counts: seq<nat>, ghost data: seq<byte>)
    returns (bitnodes: seq<BitsNode>, distinct: nat, ghost codes: seq<Code>)
    requires counts == Counts(data) && 0 < |data| < TWO_32 && Encodable(counts)
    ensures FitsWord(codes) && Holds(bitnodes, counts, codes)
    ensures PrefixFreeOn(counts, codes) && (|data| < TWO_31 ==> Minimal(counts, codes))
    ensures forall v :: 0 <= v < ALPHABET ==> |codes[v]| * counts[v] < TWO_32
    ensures distinct == |Present(counts, ALPHABET)| && SomeOccur(counts) && codes == TreeCode(TreeFor(counts))
  {
    TotalCount(data);
    var root;
    root, distinct := BuildTree(counts);
    codes := TreeCode(root);
    CodeOfBuiltTree(root, counts);
    bitnodes := StoreCodes(root, counts);
  }

  // The leaf table and both bit totals after the symbols below c.
  ghost predicate Tables(out: seq<byte>, bits: nat, keybits: nat, head: seq<byte>,
                         counts: seq<nat>, codes: seq<Code>, c: nat)
    requires |counts| == ALPHABET && FitsWord(codes) && c <= ALPHABET
  {
    && out == head + LeafTable(codes, Alphabet(counts, c))
    && bits == SymbolSum(counts, Lengths(codes), c)
    && keybits == |Concat(codes, Alphabet(counts, c))|
  }

  lemma TableStep(out: seq<byte>, bits: nat, keybits: nat, head: seq<byte>,
                  counts: seq<nat>, codes: seq<Code>, c: nat)
    requires |counts| == ALPHABET && FitsWord(codes) && c < ALPHABET && |codes[c]| * counts[c] < TWO_32
    requires Tables(out, bits, keybits, head, counts, codes, c)
    ensures var len := |codes[c]|;
            if counts[c] == 0 then Tables(out, bits, keybits, head, counts, codes, c + 1)
            else Tables(out + [c, len], bits + Product32(len, counts[c]), keybits + len,
                        head, counts, codes, c + 1)
  {
    var symbols, len := Alphabet(counts, c), |codes[c]|;
    if counts[c] == 0 {
      assert Alphabet(counts, c + 1) == symbols;
      assert counts[c] * len == 0;
    } else {
      ConcatAppend(codes, symbols, c);
      assert (symbols + [c])[..|symbols|] == symbols;
      var table := LeafTable(codes, symbols);
      assert (head + table) + [c, len] == head + (table + [c, len]);
    }
  }

  method WriteTables(counts: seq<nat>, bitnodes: seq<BitsNode>, head: seq<byte>, ghost codes: seq<Code>)
    returns (out: seq<byte>, bits: nat, keybits: nat)
    requires |counts| == ALPHABET && FitsWord(codes) && Holds(bitnodes, counts, codes)
    requires forall v :: 0 <= v < ALPHABET ==> |codes[v]| * counts[v] < TWO_32
    ensures Tables(out, bits, keybits, head, counts, codes, ALPHABET)
  {
    out, bits, keybits := head, 0, 0;
    assert head + [] == head;
    for c := 0 to ALPHABET
      invariant Tables(out, bits, keybits, head, counts, codes, c)
    {
      TableStep(out, bits, keybits, head, counts, codes, c);
      if counts[c] != 0 {
        out := out + [c, bitnodes[c].bitcount];
        bits := bits + Product32(bitnodes[c].bitcount, counts[c]);
        keybits := keybits + bitnodes[c].bitcount;
      }
    }
  }

  ghost predicate Compresses(out: seq<byte>, data: seq<byte>, codes: seq<Code>) {
    && FitsWord(codes)
    && PrefixFreeOn(Counts(data), codes)
    && Layout(out, data, codes)
  }

  // calloc(1, size)
  method ZeroBuffer(size: nat) returns (buffer: array<byte>)
    ensures fresh(buffer) && buffer.Length == size && Bits(buffer[..]) == Zeros(8 * size)
  {
    buffer := new byte[size](_ => 0);
    BitsOfZeros(buffer[..]);
  }

  lemma PadSplit(bits: seq<bool>, zeros: nat)
    requires zeros >= Pad(|bits|)
    ensures bits + Zeros(zeros) == Padded(bits) + Zeros(zeros - Pad(|bits|))
  {
  }

  // The two bit sections, each padded with zero bits to a byte boundary.
  method PackBits(data: seq<byte>, counts: seq<nat>, bitnodes: seq<BitsNode>, bits: nat, keybits: nat,
                  ghost codes: seq<Code>)
    returns (body: seq<byte>)
    requires counts == Counts(data) && FitsWord(codes) && Holds(bitnodes, counts, codes)
    requires bits == |Concat(codes, data)| && keybits == |Concat(codes, Alphabet(counts, ALPHABET))|
    ensures Bits(body) == Padded(Concat(codes, Alphabet(counts, ALPHABET))) + Padded(Concat(codes, data))
  {
    ghost var keys, text := Concat(codes, Alphabet(counts, ALPHABET)), Concat(codes, data);
    var size := ByteBoundary(bits) + ByteBoundary(keybits);
    var bitdata := ZeroBuffer(size / 8);
    var bitPos := PackAlphabet(bitdata, counts, bitnodes, codes, keys);
    bitPos := ByteBoundary(bitPos);
    PadSplit(keys, size - |keys|);
    PackText(bitdata, bitPos, data, bitnodes, Padded(keys), codes, size - bitPos);
    assert Padded(keys) + text + Zeros(Pad(|text|)) == Padded(keys) + Padded(text);
    body := bitdata[..];
  }

  // For every encodable text, empty and single-symbol texts included.
  method Encode(data: seq<byte>) returns (out: seq<byte>, ghost codes: seq<Code>)
    requires |data| < TWO_32 && Encodable(Counts(data))
    ensures Compresses(out, data, codes)
    ensures |data| < TWO_31 ==> Minimal(Counts(data), codes)
    ensures data != [] ==> SomeOccur(Counts(data)) && codes == TreeCode(TreeFor(Counts(data)))
  {
    if |data| == 0 {
      codes := seq(ALPHABET, _ => []);
      out := [0x48, 0x45, 0x33, 0x0D, 0, 0, 0, 0, 0, 0, 0];
      EmptyLayout(out, codes);
      return;
    }
    var countArray := CountBytes(data);
    var counts := countArray[..];
    var bitnodes, distinct;
    bitnodes, distinct, codes := CodeText(counts, data);
    var parity := ComputeParity(data);
    var head := [0x48, 0x45, 0x33, 0x0D, parity] + LittleEndian(|data|, 4) + LittleEndian(distinct, 2);
    AlphabetSize(counts, ALPHABET);
    ConcatLength(codes, data);
    var bits, keybits;
    out, bits, keybits := WriteTables(counts, bitnodes, head, codes);
    var body := PackBits(data, counts, bitnodes, bits, keybits, codes);
    LayoutOf(out, body, data, codes);
    out := out + body;
  }

  lemma LayoutOf(head: seq<byte>, body: seq<byte>, data: seq<byte>, codes: seq<Code>)
    requires FitsWord(codes)
    requires var symbols := Alphabet(Counts(data), ALPHABET);
             && head == Header(data, |symbols|) + LeafTable(codes, symbols)
             && Bits(body) == Padded(Concat(codes, symbols)) + Padded(Concat(codes, data))
    ensures Layout(head + body, data, codes)
  {
    assert (head + body)[..|head|] == head && (head + body)[|head|..] == body;
  }

  lemma {:induction false} AlphabetSize(counts: seq<nat>, n: nat)
    requires |counts| == ALPHABET && n <= ALPHABET
    ensures |Alphabet(counts, n)| == |Present(counts, n)| <= n
  {
    if n > 0 {
      AlphabetSize(counts, n - 1);
    }
  }

  lemma EmptyLayout(out: seq<byte>, codes: seq<Code>)
    requires codes == seq(ALPHABET, _ => [])
    requires out == [0x48, 0x45, 0x33, 0x0D, 0, 0, 0, 0, 0, 0, 0]
    ensures Compresses(out, [], codes) && Minimal(Counts([]), codes)
  {
    var counts := Counts([]);
    NoSymbols(ALPHABET);
    SymbolSumOfNothing(Lengths(codes), ALPHABET);
    assert Header([], 0) == out;
    assert out[..11] == out && out[11..] == [];
    assert Bits([]) == Padded([]) + Padded([]);
  }

  lemma {:induction false} NoSymbols(n: nat)
    requires n <= ALPHABET
    ensures Alphabet(Counts([]), n) == []
  {
    if n > 0 {
      NoSymbols(n - 1);
    }
  }
}

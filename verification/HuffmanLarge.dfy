/** From 2^31 bytes on the list of leaves can be out of order and the tree far from optimal. */
module HuffmanLarge {
  import opened Bytes
  import opened PrefixCodes
  import opened HuffmanTree
  import opened HuffmanMerge

  // Three symbols, one of them more than 2^31 times.
  ghost predicate Lopsided(counts: seq<nat>) {
    && |counts| == ALPHABET && counts[0] == TWO_31 + 2 && counts[1] == 1 && counts[2] == 1
    && forall v :: 3 <= v < ALPHABET ==> counts[v] == 0
  }

  const HEAVY: EncodeNode := Leaf(TWO_31 + 2, 0)
  const FIRST: EncodeNode := Leaf(1, 1)
  const SECOND: EncodeNode := Leaf(1, 2)
  const HEAVY_PAIR: EncodeNode := Branch(TWO_31 + 3, HEAVY, SECOND)
  const LOPSIDED_TREE: EncodeNode := Branch(TWO_31 + 4, HEAVY_PAIR, FIRST)

  lemma {:induction false} NoMoreLeaves(counts: seq<nat>, n: nat)
    requires Lopsided(counts) && 3 <= n <= ALPHABET
    ensures LeafList(counts, n) == LeafList(counts, 3)
    ensures forall lens: seq<nat> :: |lens| == ALPHABET ==> SymbolSum(counts, lens, n) == SymbolSum(counts, lens, 3)
  {
    if n > 3 {
      NoMoreLeaves(counts, n - 1);
      assert forall lens: seq<nat> :: |lens| == ALPHABET ==> counts[n - 1] * lens[n - 1] == 0;
    }
  }

  // The two light symbols are put behind the heavy one.
  lemma ThreeLeaves(counts: seq<nat>)
    requires Lopsided(counts)
    ensures LeafList(counts, 3) == [HEAVY, SECOND, FIRST]
  {
    assert LeafList(counts, 0) == [];
    PositionIs([], HEAVY, 0);
    assert LeafList(counts, 1) == [HEAVY];
    PositionIs([HEAVY], FIRST, 1);
    assert LeafList(counts, 2) == [HEAVY, FIRST];
    PositionIs([HEAVY, FIRST], SECOND, 1);
  }

  // So the heavy symbol is merged first.
  lemma LopsidedTree()
    ensures MergeTree([HEAVY, SECOND, FIRST]) == LOPSIDED_TREE && Cost(LOPSIDED_TREE) == 2 * TWO_31 + 7
  {
    var f, g, h := [HEAVY, SECOND, FIRST], [HEAVY_PAIR, FIRST], [LOPSIDED_TREE];
    assert f[2..] == [FIRST] && Joined(f) == HEAVY_PAIR;
    PositionIs([FIRST], HEAVY_PAIR, 0);
    assert InsertAt([FIRST], 0, HEAVY_PAIR) == g;
    assert MergeTree(f) == MergeTree(g);
    assert g[2..] == [] && Joined(g) == LOPSIDED_TREE;
    assert InsertAt([], 0, LOPSIDED_TREE) == h;
    assert MergeTree(g) == MergeTree(h);
    assert Cost(HEAVY_PAIR) == TWO_31 + 3;
  }

  // One bit for the heavy symbol, two for the others.
  function ShortCodes(): (codes: seq<Code>)
    ensures |codes| == ALPHABET && codes[0] == [true] && codes[1] == [false, true] && codes[2] == [false, false]
  {
    seq(ALPHABET, v => if v == 0 then [true] else if v == 1 then [false, true] else [false, false])
  }

  lemma ShortCodesCost(counts: seq<nat>)
    requires Lopsided(counts)
    ensures PrefixFreeOn(counts, ShortCodes()) && CodeCost(counts, ShortCodes()) == TWO_31 + 6
  {
    var lens, n := Lengths(ShortCodes()), ALPHABET;
    assert lens[0] == 1 && lens[1] == 2 && lens[2] == 2;
    NoMoreLeaves(counts, n);
    assert SymbolSum(counts, lens, 1) == TWO_31 + 2;
    assert SymbolSum(counts, lens, 2) == TWO_31 + 4;
    forall v, w | 0 <= v < w < ALPHABET && counts[v] > 0 && counts[w] > 0
      ensures !Comparable(ShortCodes()[v], ShortCodes()[w])
    {
      assert v < 2 && w < 3;
      assert v == 0 ==> ShortCodes()[v][0] != ShortCodes()[w][0];
      assert v == 1 ==> ShortCodes()[v][1] != ShortCodes()[w][1];
    }
  }

  lemma LopsidedTotal(counts: seq<nat>, n: nat)
    requires Lopsided(counts) && 3 <= n <= ALPHABET
    ensures SymbolSum(counts, Ones(), n) == TWO_31 + 4
  {
    NoMoreLeaves(counts, n);
    assert SymbolSum(counts, Ones(), 1) == TWO_31 + 2;
    assert SymbolSum(counts, Ones(), 2) == TWO_31 + 3;
  }

  lemma LopsidedLeaves(counts: seq<nat>, n: nat)
    requires Lopsided(counts) && 3 <= n <= ALPHABET
    ensures var leaves := LeafList(counts, n);
            leaves != [] && !Sorted(leaves) && MergeTree(leaves) == LOPSIDED_TREE
  {
    NoMoreLeaves(counts, n);
    ThreeLeaves(counts);
    LopsidedTree();
    var leaves := LeafList(counts, n);
    assert leaves[0].count > leaves[1].count;
  }

  // The bound on the size is needed: a text of 32-bit size whose tree costs nearly twice as much as
  // another prefix code, because the list of leaves is not sorted.
  lemma LargeTextsLoseOptimality() returns (counts: seq<nat>)
    ensures |counts| == ALPHABET && SymbolSum(counts, Ones(), ALPHABET) == TWO_31 + 4 < TWO_32
    ensures SomeOccur(counts) && !Sorted(LeafList(counts, ALPHABET))
    ensures PrefixFreeOn(counts, ShortCodes()) && CodeCost(counts, ShortCodes()) + TWO_31 < Cost(TreeFor(counts))
  {
    counts := seq(ALPHABET, v => if v == 0 then TWO_31 + 2 else if v < 3 then 1 else 0);
    LopsidedTotal(counts, ALPHABET);
    LopsidedLeaves(counts, ALPHABET);
    LopsidedTree();
    ShortCodesCost(counts);
  }
}

/** The merge loop of the encoder and the invariant that makes its result optimal. */
module HuffmanMerge {
  import opened Bytes
  import opened PrefixCodes
  import opened HuffmanTree

  const TWO_31: nat := 0x8000_0000

  // ---- compare_encode_node

  // The value of a 32-bit unsigned difference read as a signed int.
  function Int32(x: int): int {
    (x + TWO_31) % TWO_32 - TWO_31
  }

  function CompareEncodeNode(a: EncodeNode, b: EncodeNode): int {
    if a.count != b.count then Int32(a.count - b.count)
    else if a.Leaf? then -1
    else 1
  }

  lemma CompareOrdersByCount(a: EncodeNode, b: EncodeNode)
    requires a.count < TWO_31 && b.count < TWO_31
    ensures CompareEncodeNode(a, b) <= 0 ==> a.count <= b.count
    ensures CompareEncodeNode(a, b) > 0 ==> b.count <= a.count
  {
    var d := a.count - b.count;
    if d < 0 {
      assert (d + TWO_31) % TWO_32 == d + TWO_31;
    }
  }

  // On any two different 32-bit counts the comparison tells the smaller one exactly when the
  // difference fits a signed int.
  lemma CompareOrdersExactly(a: EncodeNode, b: EncodeNode)
    requires a.count < TWO_32 && b.count < TWO_32 && a.count != b.count
    ensures (CompareEncodeNode(a, b) < 0 <==> a.count < b.count) <==> a.count < b.count + TWO_31 && b.count <= a.count + TWO_31
  {
    var d: int := a.count - b.count;
    if d + TWO_31 < 0 {
      assert (d + TWO_31) % TWO_32 == d + TWO_31 + TWO_32;
    } else if d >= TWO_31 {
      assert (d + TWO_31) % TWO_32 == d + TWO_31 - TWO_32;
    } else {
      assert (d + TWO_31) % TWO_32 == d + TWO_31;
    }
  }

  // From 2^31 on the subtraction wraps and the comparison misorders its arguments.
  lemma CompareMisordersLargeCounts()
    ensures CompareEncodeNode(Leaf(TWO_31 + 1, 0), Leaf(1, 1)) < 0 && WellFormed(Leaf(TWO_31 + 1, 0)) && WellFormed(Leaf(1, 1))
  {
  }

  // ptrv_insort: the place before the first entry that the node does not compare greater than.
  function Position(f: seq<EncodeNode>, node: EncodeNode): (at: nat)
    ensures at <= |f|
    ensures forall i :: 0 <= i < at ==> CompareEncodeNode(node, f[i]) > 0
    ensures at < |f| ==> CompareEncodeNode(node, f[at]) <= 0
  {
    if f == [] || CompareEncodeNode(node, f[0]) <= 0 then 0 else 1 + Position(f[1..], node)
  }

  function Inserted(f: seq<EncodeNode>, node: EncodeNode): seq<EncodeNode> {
    InsertAt(f, Position(f, node), node)
  }

  lemma {:induction false} PositionIs(f: seq<EncodeNode>, node: EncodeNode, at: nat)
    requires at <= |f| && forall i :: 0 <= i < at ==> CompareEncodeNode(node, f[i]) > 0
    requires at < |f| ==> CompareEncodeNode(node, f[at]) <= 0
    ensures Position(f, node) == at
  {
  }

  method Insort(tree: seq<EncodeNode>, node: EncodeNode) returns (r: seq<EncodeNode>)
    ensures r == Inserted(tree, node)
  {
    for c := 0 to |tree|
      invariant forall i :: 0 <= i < c ==> CompareEncodeNode(node, tree[i]) > 0
    {
      if CompareEncodeNode(node, tree[c]) <= 0 {
        PositionIs(tree, node, c);
        return tree[..c] + [node] + tree[c..];
      }
    }
    PositionIs(tree, node, |tree|);
    assert tree[..|tree|] == tree && tree[|tree|..] == [];
    return tree + [node];
  }

  lemma InsertSorted(f: seq<EncodeNode>, at: nat, node: EncodeNode)
    requires Sorted(f) && at <= |f| && forall i :: 0 <= i < at ==> f[i].count <= node.count
    requires at < |f| ==> node.count <= f[at].count
    ensures Sorted(InsertAt(f, at, node))
  {
  }

  // Below 2^31 the list stays sorted, and a branch is put behind all nodes of its weight.
  lemma InsortSorts(f: seq<EncodeNode>, node: EncodeNode)
    requires Sorted(f) && node.count < TWO_31 && forall i :: 0 <= i < |f| ==> f[i].count < TWO_31
    ensures Sorted(Inserted(f, node))
    ensures node.Branch? ==> forall i :: Position(f, node) <= i < |f| ==> node.count < f[i].count
  {
    var at := Position(f, node);
    forall i | 0 <= i < at
      ensures f[i].count <= node.count
    {
      CompareOrdersByCount(node, f[i]);
    }
    if at < |f| {
      CompareOrdersByCount(node, f[at]);
    }
    InsertSorted(f, at, node);
  }

  // ---- The invariant of the sorted list

  // No queued node weighs less than a child of a queued node.
  ghost predicate ChildrenBelow(f: seq<EncodeNode>) {
    forall i, j :: 0 <= i < |f| && 0 <= j < |f| && f[i].Branch? ==>
      f[i].left.count <= f[j].count && f[i].right.count <= f[j].count
  }

  ghost predicate Shaped(f: seq<EncodeNode>) {
    && Sorted(f) && AllWellFormed(f) && ChildrenBelow(f)
    && forall i :: 0 <= i < |f| ==> FibShaped(f[i])
  }

  // The leaves of f are the symbols below n with their counts.
  ghost predicate Covers(f: seq<EncodeNode>, counts: seq<nat>, n: nat)
    requires |counts| == ALPHABET && n <= ALPHABET && AllWellFormed(f)
  {
    && ForestSymbols(f) == Present(counts, n)
    && forall lens: seq<nat> :: |lens| == ALPHABET ==> ForestSum(f, lens) == SymbolSum(counts, lens, n)
  }

  function CountsOf(f: seq<EncodeNode>): (ws: seq<nat>)
    ensures |ws| == |f|
    ensures forall i :: 0 <= i < |f| ==> ws[i] == f[i].count
  {
    seq(|f|, i requires 0 <= i < |f| => f[i].count)
  }

  // Some length assignment to the queued nodes satisfies Kraft's inequality and makes the
  // total, with the levels already inside the nodes, at most target.
  ghost predicate Achieves(f: seq<EncodeNode>, target: nat) {
    exists ls: seq<nat> :: |ls| == |f| && Kraft(ls) && ForestCost(f) + Weighted(CountsOf(f), ls) <= target
  }

  function Merged(f: seq<EncodeNode>, at: nat): seq<EncodeNode>
    requires |f| >= 2 && at <= |f| - 2
  {
    InsertAt(f[2..], at, Branch(f[0].count + f[1].count, f[0], f[1]))
  }

  lemma MergeKeepsShape(f: seq<EncodeNode>, at: nat)
    requires |f| >= 2 && at <= |f| - 2 && Shaped(f) && Sorted(Merged(f, at))
    ensures Shaped(Merged(f, at))
  {
    var g := Merged(f, at);
    var node := g[at];
    forall i | 0 <= i < |g| && i != at
      ensures g[i] in f[2..]
    {
      assert g[i] == if i < at then f[2..][i] else f[2..][i - 1];
    }
    assert WellFormed(node) && FibShaped(node) by {
      assert f[0].Branch? ==> f[0].left.count <= f[1].count;
    }
    forall i, j | 0 <= i < |g| && 0 <= j < |g| && g[i].Branch?
      ensures g[i].left.count <= g[j].count && g[i].right.count <= g[j].count
    {
      assert f[0].count <= node.count && f[1].count <= node.count;
    }
  }

  lemma MergeKeepsCover(f: seq<EncodeNode>, at: nat, counts: seq<nat>, n: nat)
    requires |f| >= 2 && at <= |f| - 2 && AllWellFormed(f)
    requires |counts| == ALPHABET && n <= ALPHABET && Covers(f, counts, n)
    ensures AllWellFormed(Merged(f, at)) && Covers(Merged(f, at), counts, n)
  {
    var node := Branch(f[0].count + f[1].count, f[0], f[1]);
    var rest := f[2..];
    assert f[1..][1..] == rest;
    InsertMeasures(rest, at, node);
    assert ForestSymbols(f[1..]) == Symbols(f[1]) + ForestSymbols(rest);
    forall lens: seq<nat> | |lens| == ALPHABET
      ensures AllWellFormed(Merged(f, at)) && ForestSum(Merged(f, at), lens) == SymbolSum(counts, lens, n)
    {
      InsertSum(rest, at, node, lens);
      assert ForestSum(f, lens) == SymbolSum(counts, lens, n);
    }
    InsertSum(rest, at, node, Lengths(seq(ALPHABET, i => [])));
  }

  lemma KraftInsert(rs: seq<nat>, at: nat, l: nat, m: nat)
    requires at <= |rs| && Bounded(rs, m) && l <= m
    ensures Bounded(rs[..at] + [l] + rs[at..], m)
    ensures KraftSum(rs[..at] + [l] + rs[at..], m) == KraftSum(rs, m) + Pow2(m - l)
  {
    assert rs == rs[..at] + rs[at..];
    KraftSumConcat(rs[..at], rs[at..], m);
    KraftSumConcat(rs[..at] + [l], rs[at..], m);
    KraftSumConcat(rs[..at], [l], m);
    assert KraftSum([l], m) == Pow2(m - l) + KraftSum([], m);
  }

  // Two equal lengths fit as well as one length a bit shorter: 2^(m-l) + 2^(m-l) = 2^(m-(l-1)).
  lemma MergeKraft(ks: seq<nat>, at: nat)
    requires |ks| >= 2 && ks[0] == ks[1] > 0 && at <= |ks| - 2 && Kraft(ks)
    ensures Kraft(ks[2..][..at] + [ks[0] - 1] + ks[2..][at..])
  {
    var m :| Fits(ks, m);
    var l, rs := ks[0], ks[2..];
    assert ks[1..][1..] == rs;
    assert KraftSum(ks, m) == Pow2(m - l) + (Pow2(m - l) + KraftSum(rs, m));
    KraftInsert(rs, at, l - 1, m);
    assert Pow2(m - (l - 1)) == 2 * Pow2(m - l);
    assert Fits(rs[..at] + [l - 1] + rs[at..], m);
  }

  lemma WeightedInsert(ws: seq<nat>, ls: seq<nat>, at: nat, w: nat, l: nat)
    requires |ws| == |ls| && at <= |ws|
    ensures Weighted(ws[..at] + [w] + ws[at..], ls[..at] + [l] + ls[at..]) == Weighted(ws, ls) + w * l
  {
    assert ws == ws[..at] + ws[at..] && ls == ls[..at] + ls[at..];
    WeightedConcat(ws[..at], ls[..at], ws[at..], ls[at..]);
    WeightedConcat(ws[..at] + [w], ls[..at] + [l], ws[at..], ls[at..]);
    WeightedConcat(ws[..at], ls[..at], [w], [l]);
    assert Weighted([w], [l]) == w * l + Weighted([], []);
  }

  // The merged pair pays one level less, which is what the merge costs.
  lemma MergeWeight(ws: seq<nat>, ks: seq<nat>, at: nat)
    requires |ws| == |ks| >= 2 && ks[0] == ks[1] > 0 && at <= |ks| - 2
    ensures Weighted(ws[2..][..at] + [ws[0] + ws[1]] + ws[2..][at..], ks[2..][..at] + [ks[0] - 1] + ks[2..][at..])
            + ws[0] + ws[1] == Weighted(ws, ks)
  {
    var w, k := ws[0] + ws[1], ks[0] - 1;
    WeightedInsert(ws[2..], ks[2..], at, w, k);
    WeightedPair(ws, ks, w, k);
  }

  lemma WeightedPair(ws: seq<nat>, ks: seq<nat>, w: nat, k: nat)
    requires |ws| == |ks| >= 2 && ks[0] == ks[1] == k + 1 && w == ws[0] + ws[1]
    ensures Weighted(ws, ks) == w * k + w + Weighted(ws[2..], ks[2..])
  {
    WeightedTwo(ws, ks);
    PairWeight(ws[0], ws[1], k + 1);
  }

  lemma WeightedTwo(ws: seq<nat>, ks: seq<nat>)
    requires |ws| == |ks| >= 2
    ensures Weighted(ws, ks) == ws[0] * ks[0] + ws[1] * ks[1] + Weighted(ws[2..], ks[2..])
  {
    assert ws[1..][1..] == ws[2..] && ks[1..][1..] == ks[2..];
  }

  lemma PairWeight(a: nat, b: nat, l: nat)
    requires l > 0
    ensures a * l + b * l == (a + b) * (l - 1) + a + b
  {
  }

  lemma CountsOfInsert(f: seq<EncodeNode>, at: nat, t: EncodeNode)
    requires at <= |f|
    ensures CountsOf(InsertAt(f, at, t)) == CountsOf(f)[..at] + [t.count] + CountsOf(f)[at..]
  {
  }

  lemma MergeCounts(f: seq<EncodeNode>, at: nat)
    requires |f| >= 2 && at <= |f| - 2
    ensures CountsOf(Merged(f, at)) == CountsOf(f)[2..][..at] + [f[0].count + f[1].count] + CountsOf(f)[2..][at..]
  {
    CountsOfInsert(f[2..], at, Merged(f, at)[at]);
    assert CountsOf(f[2..]) == CountsOf(f)[2..];
  }

  lemma MergeCost(f: seq<EncodeNode>, at: nat)
    requires |f| >= 2 && at <= |f| - 2
    ensures ForestCost(Merged(f, at)) == ForestCost(f) + f[0].count + f[1].count
  {
    InsertMeasures(f[2..], at, Branch(f[0].count + f[1].count, f[0], f[1]));
    assert f[1..][1..] == f[2..];
  }

  // The heart of optimality: merging the two lightest nodes loses nothing.
  lemma MergeAchieves(f: seq<EncodeNode>, at: nat, target: nat)
    requires |f| >= 2 && at <= |f| - 2 && Sorted(f) && Achieves(f, target)
    ensures Achieves(Merged(f, at), target)
  {
    var ls: seq<nat> :| |ls| == |f| && Kraft(ls) && ForestCost(f) + Weighted(CountsOf(f), ls) <= target;
    var max :| Fits(ls, max);
    var ks := Balance(CountsOf(f), ls, max);
    var ms := ks[2..][..at] + [ks[0] - 1] + ks[2..][at..];
    MergeKraft(ks, at);
    MergeWeight(CountsOf(f), ks, at);
    MergeCounts(f, at);
    MergeCost(f, at);
    assert Kraft(ms) && |ms| == |Merged(f, at)|;
  }

  // ---- From prefix codes to length assignments

  ghost predicate AllLeaves(f: seq<EncodeNode>) {
    forall i :: 0 <= i < |f| ==> f[i].Leaf?
  }

  lemma {:induction false} SymbolMultiplicity(f: seq<EncodeNode>, i: nat, v: nat)
    requires i < |f| && AllLeaves(f) && f[i].value == v
    ensures ForestSymbols(f)[v] >= 1
    ensures forall j :: i < j < |f| && f[j].value == v ==> ForestSymbols(f)[v] >= 2
  {
    if i > 0 {
      SymbolMultiplicity(f[1..], i - 1, v);
      assert forall j :: i < j < |f| ==> f[j] == f[1..][j - 1];
    } else if j :| 0 < j < |f| && f[j].value == v {
      SymbolMultiplicity(f[1..], j - 1, v);
    }
  }

  function LeafCodes(f: seq<EncodeNode>, codes: seq<Code>): (r: seq<Code>)
    requires |codes| == ALPHABET && (forall i :: 0 <= i < |f| ==> f[i].Leaf? && f[i].value < ALPHABET)
    ensures |r| == |f|
    ensures forall i :: 0 <= i < |f| ==> r[i] == codes[f[i].value]
  {
    seq(|f|, i requires 0 <= i < |f| => codes[f[i].value])
  }

  lemma {:induction false} LeavesWeigh(f: seq<EncodeNode>, codes: seq<Code>)
    requires |codes| == ALPHABET && AllLeaves(f) && AllWellFormed(f)
    ensures ForestCost(f) == 0
    ensures Weighted(CountsOf(f), Lengths(LeafCodes(f, codes))) == ForestSum(f, Lengths(codes))
  {
    if f != [] {
      LeavesWeigh(f[1..], codes);
      assert CountsOf(f)[1..] == CountsOf(f[1..]);
      assert Lengths(LeafCodes(f, codes))[1..] == Lengths(LeafCodes(f[1..], codes));
    }
  }

  // Before any merge, every prefix code for these counts is a length assignment of its own cost.
  lemma PrefixCodeAchieves(f: seq<EncodeNode>, counts: seq<nat>, codes: seq<Code>)
    requires |counts| == |codes| == ALPHABET && AllLeaves(f) && AllWellFormed(f)
    requires Covers(f, counts, ALPHABET) && PrefixFreeOn(counts, codes)
    ensures Achieves(f, CodeCost(counts, codes))
  {
    var cs := LeafCodes(f, codes);
    forall i, j | 0 <= i < j < |cs|
      ensures !Comparable(cs[i], cs[j])
    {
      var v, w := f[i].value, f[j].value;
      SymbolMultiplicity(f, i, v);
      SymbolMultiplicity(f, j, w);
      PresentCount(counts, ALPHABET, v);
      PresentCount(counts, ALPHABET, w);
      assert v < w || w < v;
    }
    var max := LongestOf(Lengths(cs));
    KraftInequality(cs, max);
    LeavesWeigh(f, codes);
    assert Kraft(Lengths(cs));
  }

  lemma {:induction false} LongestOf(ls: seq<nat>) returns (max: nat)
    ensures Bounded(ls, max)
  {
    if ls == [] {
      max := 0;
    } else {
      max := LongestOf(ls[1..]);
      if ls[0] > max {
        max := ls[0];
      }
      assert forall i :: 1 <= i < |ls| ==> ls[i] == ls[1..][i - 1];
    }
  }

  lemma SingleTreeIsOptimal(t: EncodeNode, target: nat)
    requires Achieves([t], target)
    ensures Cost(t) <= target
  {
    assert [t][1..] == [];
  }

  // ---- The totals of a forest

  function Ones(): (lens: seq<nat>)
    ensures |lens| == ALPHABET
  {
    seq(ALPHABET, v => 1)
  }

  lemma {:induction false} CountIsLeafSum(t: EncodeNode)
    requires WellFormed(t)
    ensures LeafSum(t, Ones()) == t.count
  {
    if t.Branch? {
      CountIsLeafSum(t.left);
      CountIsLeafSum(t.right);
    }
  }

  lemma {:induction false} CountsBelowTotal(f: seq<EncodeNode>)
    requires AllWellFormed(f)
    ensures forall i :: 0 <= i < |f| ==> f[i].count <= ForestSum(f, Ones())
    ensures |f| >= 2 ==> f[0].count + f[1].count <= ForestSum(f, Ones())
  {
    if f != [] {
      CountsBelowTotal(f[1..]);
      CountIsLeafSum(f[0]);
      assert forall i :: 1 <= i < |f| ==> f[i] == f[1..][i - 1];
    }
  }

  // ---- The leaves

  // One leaf for every byte value below n that occurs, inserted in ascending order of values.
  function LeafList(counts: seq<nat>, n: nat): seq<EncodeNode>
    requires |counts| == ALPHABET && n <= ALPHABET
  {
    if n == 0 then []
    else if counts[n - 1] > 0 then Inserted(LeafList(counts, n - 1), Leaf(counts[n - 1], n - 1))
    else LeafList(counts, n - 1)
  }

  ghost predicate LeafQueue(f: seq<EncodeNode>, counts: seq<nat>, n: nat)
    requires |counts| == ALPHABET && n <= ALPHABET
  {
    AllLeaves(f) && AllWellFormed(f) && Covers(f, counts, n) && |f| == |Present(counts, n)|
  }

  lemma AddLeafSum(f: seq<EncodeNode>, g: seq<EncodeNode>, at: nat, leaf: EncodeNode, counts: seq<nat>, n: nat, lens: seq<nat>)
    requires |counts| == |lens| == ALPHABET && n < ALPHABET && at <= |f| && AllWellFormed(f)
    requires leaf == Leaf(counts[n], n) && counts[n] > 0 && g == InsertAt(f, at, leaf)
    requires ForestSum(f, lens) == SymbolSum(counts, lens, n)
    ensures AllWellFormed(g) && ForestSum(g, lens) == SymbolSum(counts, lens, n + 1)
  {
    InsertSum(f, at, leaf, lens);
  }

  lemma AddLeaf(f: seq<EncodeNode>, g: seq<EncodeNode>, at: nat, leaf: EncodeNode, counts: seq<nat>, n: nat)
    requires |counts| == ALPHABET && n < ALPHABET && at <= |f| && 0 < counts[n]
    requires LeafQueue(f, counts, n) && leaf == Leaf(counts[n], n) && g == InsertAt(f, at, leaf)
    ensures LeafQueue(g, counts, n + 1)
  {
    InsertMeasures(f, at, leaf);
    assert Symbols(leaf) == multiset{n};
    AddLeafSum(f, g, at, leaf, counts, n, Ones());
    forall lens: seq<nat> | |lens| == ALPHABET
      ensures ForestSum(g, lens) == SymbolSum(counts, lens, n + 1)
    {
      AddLeafSum(f, g, at, leaf, counts, n, lens);
    }
  }

  lemma SkipSymbol(f: seq<EncodeNode>, counts: seq<nat>, n: nat)
    requires |counts| == ALPHABET && n < ALPHABET && counts[n] == 0
    requires LeafQueue(f, counts, n)
    ensures LeafQueue(f, counts, n + 1)
  {
    forall lens: seq<nat> | |lens| == ALPHABET
      ensures ForestSum(f, lens) == SymbolSum(counts, lens, n + 1)
    {
      assert counts[n] * lens[n] == 0;
    }
  }

  // One more symbol in the list of leaves.
  lemma QueueNext(f: seq<EncodeNode>, g: seq<EncodeNode>, counts: seq<nat>, v: nat, n: nat)
    requires |counts| == ALPHABET && n == v + 1 <= ALPHABET && LeafQueue(f, counts, v)
    requires g == if counts[v] > 0 then Inserted(f, Leaf(counts[v], v)) else f
    ensures LeafQueue(g, counts, n)
  {
    if counts[v] > 0 {
      var leaf := Leaf(counts[v], v);
      AddLeaf(f, g, Position(f, leaf), leaf, counts, v);
    } else {
      SkipSymbol(f, counts, v);
    }
  }

  lemma {:induction false} LeavesAreQueued(counts: seq<nat>, n: nat)
    requires |counts| == ALPHABET && n <= ALPHABET
    ensures LeafQueue(LeafList(counts, n), counts, n)
  {
    if n > 0 {
      var f, g := LeafList(counts, n - 1), LeafList(counts, n);
      LeavesAreQueued(counts, n - 1);
      QueueNext(f, g, counts, n - 1, n);
    }
  }

  lemma {:induction false} LeavesAreSorted(counts: seq<nat>, n: nat)
    requires |counts| == ALPHABET && n <= ALPHABET && forall v :: 0 <= v < n ==> counts[v] < TWO_31
    ensures Sorted(LeafList(counts, n)) && forall i :: 0 <= i < |LeafList(counts, n)| ==> LeafList(counts, n)[i].count < TWO_31
  {
    if n > 0 {
      LeavesAreSorted(counts, n - 1);
      if counts[n - 1] > 0 {
        InsortSorts(LeafList(counts, n - 1), Leaf(counts[n - 1], n - 1));
      }
    }
  }

  // ---- The merges

  function Joined(f: seq<EncodeNode>): EncodeNode
    requires |f| >= 2
  {
    Branch(f[0].count + f[1].count, f[0], f[1])
  }

  function MergePosition(f: seq<EncodeNode>): (at: nat)
    requires |f| >= 2
    ensures at <= |f| - 2
  {
    Position(f[2..], Joined(f))
  }

  // One turn of the loop, and all of them.
  function MergeOnce(f: seq<EncodeNode>): (g: seq<EncodeNode>)
    requires |f| >= 2
    ensures |g| == |f| - 1
  {
    Merged(f, MergePosition(f))
  }

  function MergeTree(f: seq<EncodeNode>): EncodeNode
    requires f != []
    decreases |f|
  {
    if |f| == 1 then f[0] else MergeTree(MergeOnce(f))
  }

  lemma {:induction false} MergeTreeCovers(f: seq<EncodeNode>, counts: seq<nat>)
    requires f != [] && |counts| == ALPHABET && AllWellFormed(f) && Covers(f, counts, ALPHABET)
    ensures AllWellFormed([MergeTree(f)]) && Covers([MergeTree(f)], counts, ALPHABET)
    decreases |f|
  {
    if |f| == 1 {
      assert f == [f[0]];
    } else {
      MergeKeepsCover(f, MergePosition(f), counts, ALPHABET);
      MergeTreeCovers(MergeOnce(f), counts);
    }
  }

  lemma MergeSorts(f: seq<EncodeNode>)
    requires |f| >= 2 && Sorted(f) && AllWellFormed(f) && ForestSum(f, Ones()) < TWO_31
    ensures Sorted(MergeOnce(f))
    ensures forall i :: MergePosition(f) <= i < |f| - 2 ==> Joined(f).count < f[2..][i].count
  {
    CountsBelowTotal(f);
    InsortSorts(f[2..], Joined(f));
  }

  lemma MergeTotal(f: seq<EncodeNode>)
    requires |f| >= 2 && AllWellFormed(f)
    ensures AllWellFormed(MergeOnce(f)) && ForestSum(MergeOnce(f), Ones()) == ForestSum(f, Ones())
  {
    InsertSum(f[2..], MergePosition(f), Joined(f), Ones());
    assert f[1..][1..] == f[2..];
  }

  lemma {:induction false} MergeTreeShaped(f: seq<EncodeNode>)
    requires f != [] && Shaped(f) && ForestSum(f, Ones()) < TWO_31
    ensures FibShaped(MergeTree(f))
    decreases |f|
  {
    if |f| > 1 {
      MergeSorts(f);
      MergeTotal(f);
      MergeKeepsShape(f, MergePosition(f));
      MergeTreeShaped(MergeOnce(f));
    }
  }

  // No assignment of lengths to the nodes of a sorted list costs less than the tree.
  lemma {:induction false} MergeTreeIsOptimal(f: seq<EncodeNode>, target: nat)
    requires f != [] && Sorted(f) && AllWellFormed(f) && ForestSum(f, Ones()) < TWO_31 && Achieves(f, target)
    ensures Cost(MergeTree(f)) <= target
    decreases |f|
  {
    if |f| == 1 {
      assert f == [f[0]];
      SingleTreeIsOptimal(f[0], target);
    } else {
      MergeSorts(f);
      MergeTotal(f);
      MergeAchieves(f, MergePosition(f), target);
      MergeTreeIsOptimal(MergeOnce(f), target);
    }
  }

  // ---- Any order of ties

  // t is what merging the first two nodes again and again makes of f, when a merged node may be put
  // anywhere the list stays sorted.
  ghost predicate MergesTo(f: seq<EncodeNode>, t: EncodeNode)
    decreases |f|
  {
    if |f| < 2 then f == [t]
    else exists at {:trigger Merged(f, at)} :: 0 <= at <= |f| - 2 && Sorted(Merged(f, at)) && MergesTo(Merged(f, at), t)
  }

  lemma MergedSum(f: seq<EncodeNode>, at: nat)
    requires |f| >= 2 && at <= |f| - 2 && AllWellFormed(f)
    ensures AllWellFormed(Merged(f, at)) && ForestSum(Merged(f, at), Ones()) == ForestSum(f, Ones())
  {
    InsertSum(f[2..], at, Joined(f), Ones());
    assert f[1..][1..] == f[2..];
  }

  // Every order gives a tree of the shape that the depth bound needs, with all the weight.
  lemma {:induction false} AnyOrderShaped(f: seq<EncodeNode>, t: EncodeNode)
    requires Shaped(f) && MergesTo(f, t)
    ensures WellFormed(t) && FibShaped(t) && t.count == ForestSum(f, Ones())
    decreases |f|
  {
    if |f| < 2 {
      assert f[0] == t;
      SingleSum(t, Ones());
      CountIsLeafSum(t);
    } else {
      var at: nat :| at <= |f| - 2 && Sorted(Merged(f, at)) && MergesTo(Merged(f, at), t);
      MergeKeepsShape(f, at);
      MergedSum(f, at);
      AnyOrderShaped(Merged(f, at), t);
    }
  }

  // Whatever the order of ties, below 9227465 bytes no path is longer than 32.
  lemma AnyOrderFits(counts: seq<nat>, n: nat, t: EncodeNode)
    requires |counts| == ALPHABET && n <= ALPHABET && SymbolSum(counts, Ones(), n) < 9227465
    requires MergesTo(LeafList(counts, n), t)
    ensures Depth(t) <= 32
  {
    LeafListShaped(counts, n);
    AnyOrderShaped(LeafList(counts, n), t);
    DepthAtMost32(t);
  }

  // The order of ptrv_insort is one of them.
  lemma {:induction false} InsortIsAnOrder(f: seq<EncodeNode>)
    requires f != [] && Sorted(f) && AllWellFormed(f) && ForestSum(f, Ones()) < TWO_31
    ensures MergesTo(f, MergeTree(f))
    decreases |f|
  {
    if |f| == 1 {
      assert f == [f[0]];
    } else {
      MergeSorts(f);
      MergeTotal(f);
      InsortIsAnOrder(MergeOnce(f));
      assert MergeOnce(f) == Merged(f, MergePosition(f));
    }
  }

  // ---- The tree for these counts

  ghost predicate SomeOccur(counts: seq<nat>)
    requires |counts| == ALPHABET
  {
    LeafList(counts, ALPHABET) != []
  }

  function TreeFor(counts: seq<nat>): EncodeNode
    requires |counts| == ALPHABET && SomeOccur(counts)
  {
    MergeTree(LeafList(counts, ALPHABET))
  }

  lemma PositiveTotal(counts: seq<nat>)
    requires |counts| == ALPHABET && 0 < SymbolSum(counts, Ones(), ALPHABET)
    ensures SomeOccur(counts)
  {
    LeavesAreQueued(counts, ALPHABET);
    assert ForestSum(LeafList(counts, ALPHABET), Ones()) == SymbolSum(counts, Ones(), ALPHABET);
  }

  lemma SingleSum(root: EncodeNode, lens: seq<nat>)
    requires |lens| == ALPHABET && WellFormed(root)
    ensures ForestSum([root], lens) == LeafSum(root, lens)
  {
    assert [root][1..] == [];
  }

  lemma SingleCovers(root: EncodeNode, counts: seq<nat>)
    requires |counts| == ALPHABET && WellFormed(root) && Covers([root], counts, ALPHABET)
    ensures Symbols(root) == Present(counts, ALPHABET)
    ensures forall lens: seq<nat> :: |lens| == ALPHABET ==> LeafSum(root, lens) == SymbolSum(counts, lens, ALPHABET)
  {
    assert [root][1..] == [] && ForestSymbols([root]) == Symbols(root) + ForestSymbols([]);
    forall lens: seq<nat> | |lens| == ALPHABET
      ensures LeafSum(root, lens) == SymbolSum(counts, lens, ALPHABET)
    {
      SingleSum(root, lens);
    }
  }

  // The leaves of the tree are the symbols that occur, with their counts.
  lemma TreeForCovers(counts: seq<nat>)
    requires |counts| == ALPHABET && SomeOccur(counts)
    ensures var root := TreeFor(counts);
            && WellFormed(root) && Symbols(root) == Present(counts, ALPHABET)
            && root.count == SymbolSum(counts, Ones(), ALPHABET)
            && forall lens: seq<nat> :: |lens| == ALPHABET ==> LeafSum(root, lens) == SymbolSum(counts, lens, ALPHABET)
  {
    var leaves, root := LeafList(counts, ALPHABET), TreeFor(counts);
    LeavesAreQueued(counts, ALPHABET);
    MergeTreeCovers(leaves, counts);
    assert [root][0] == root;
    SingleCovers(root, counts);
    CountIsLeafSum(root);
  }

  lemma LeafListShaped(counts: seq<nat>, n: nat)
    requires |counts| == ALPHABET && n <= ALPHABET && SymbolSum(counts, Ones(), n) < TWO_31
    ensures var leaves := LeafList(counts, n);
            Shaped(leaves) && LeafQueue(leaves, counts, n) && ForestSum(leaves, Ones()) == SymbolSum(counts, Ones(), n)
  {
    CountBelowSum(counts, n);
    LeavesAreSorted(counts, n);
    LeavesAreQueued(counts, n);
    LeavesAreShaped(LeafList(counts, n));
  }

  lemma LeavesAreShaped(f: seq<EncodeNode>)
    requires Sorted(f) && AllLeaves(f) && AllWellFormed(f)
    ensures Shaped(f)
  {
  }

  // Below 2^31 no prefix code for the counts costs less than the tree, whose nodes have the
  // weights of the depth bound.
  lemma TreeForIsOptimal(counts: seq<nat>)
    requires |counts| == ALPHABET && SomeOccur(counts) && SymbolSum(counts, Ones(), ALPHABET) < TWO_31
    ensures FibShaped(TreeFor(counts))
    ensures forall codes: seq<Code> :: |codes| == ALPHABET && PrefixFreeOn(counts, codes) ==>
              Cost(TreeFor(counts)) <= CodeCost(counts, codes)
  {
    var leaves := LeafList(counts, ALPHABET);
    LeafListShaped(counts, ALPHABET);
    MergeTreeShaped(leaves);
    forall codes: seq<Code> | |codes| == ALPHABET && PrefixFreeOn(counts, codes)
      ensures Cost(TreeFor(counts)) <= CodeCost(counts, codes)
    {
      PrefixCodeAchieves(leaves, counts, codes);
      MergeTreeIsOptimal(leaves, CodeCost(counts, codes));
    }
  }

  // ---- The loops of huffman_encode

  // Line 165-177: one leaf for every byte value that occurs, sorted by count.
  method QueueLeaves(counts: seq<nat>) returns (tree: seq<EncodeNode>, distinct: nat)
    requires |counts| == ALPHABET
    ensures tree == LeafList(counts, ALPHABET)
    ensures distinct == |tree| == |Present(counts, ALPHABET)|
  {
    tree, distinct := [], 0;
    for c := 0 to ALPHABET
      invariant tree == LeafList(counts, c) && distinct == |tree|
    {
      if counts[c] > 0 {
        tree := Insort(tree, Leaf(counts[c], c));
        distinct := distinct + 1;
      }
    }
    LeavesAreQueued(counts, ALPHABET);
  }

  lemma JoinedIn32Bits(f: seq<EncodeNode>)
    requires |f| >= 2 && AllWellFormed(f) && ForestSum(f, Ones()) < TWO_32
    ensures Joined(f).count < TWO_32
  {
    CountsBelowTotal(f);
  }

  // One turn of the loop; the weights are added in 32 bits.
  method MergeFirstTwo(tree: seq<EncodeNode>) returns (merged: seq<EncodeNode>)
    requires |tree| >= 2 && AllWellFormed(tree) && ForestSum(tree, Ones()) < TWO_32
    ensures merged == MergeOnce(tree)
  {
    JoinedIn32Bits(tree);
    var left, right := tree[0], tree[1];
    var node := Branch((left.count + right.count) % TWO_32, left, right);
    assert node == Joined(tree);
    merged := Insort(tree[2..], node);
  }

  lemma MergeKeepsTree(f: seq<EncodeNode>, g: seq<EncodeNode>)
    requires |f| >= 2 && AllWellFormed(f) && g == MergeOnce(f)
    ensures g != [] && MergeTree(g) == MergeTree(f) && AllWellFormed(g) && ForestSum(g, Ones()) == ForestSum(f, Ones())
  {
    MergeTotal(f);
  }

  method MergeAll(leaves: seq<EncodeNode>) returns (root: EncodeNode)
    requires leaves != [] && AllWellFormed(leaves) && ForestSum(leaves, Ones()) < TWO_32
    ensures root == MergeTree(leaves)
  {
    var tree := leaves;
    while |tree| > 1
      invariant tree != [] && AllWellFormed(tree) && ForestSum(tree, Ones()) < TWO_32
      invariant MergeTree(tree) == MergeTree(leaves)
      decreases |tree|
    {
      var merged := MergeFirstTwo(tree);
      MergeKeepsTree(tree, merged);
      tree := merged;
    }
    root := tree[0];
  }

  // Lines 161-191 of huffman_encode, after counting: the tree has exactly the symbols that occur
  // and is an optimal prefix code.
  method BuildTree(counts: seq<nat>) returns (root: EncodeNode, distinct: nat)
    requires |counts| == ALPHABET && 0 < SymbolSum(counts, Ones(), ALPHABET) < TWO_32
    ensures SomeOccur(counts) && root == TreeFor(counts)
    ensures WellFormed(root) && Symbols(root) == Present(counts, ALPHABET) && distinct == |Present(counts, ALPHABET)|
    ensures SymbolSum(counts, Ones(), ALPHABET) < TWO_31 ==>
              forall codes: seq<Code> :: |codes| == ALPHABET && PrefixFreeOn(counts, codes) ==>
                Cost(root) <= CodeCost(counts, codes)
  {
    PositiveTotal(counts);
    LeavesAreQueued(counts, ALPHABET);
    assert ForestSum(LeafList(counts, ALPHABET), Ones()) == SymbolSum(counts, Ones(), ALPHABET);
    var tree;
    tree, distinct := QueueLeaves(counts);
    root := MergeAll(tree);
    TreeForCovers(counts);
    if SymbolSum(counts, Ones(), ALPHABET) < TWO_31 {
      TreeForIsOptimal(counts);
    }
  }

  lemma {:induction false} CountBelowSum(counts: seq<nat>, n: nat)
    requires |counts| == ALPHABET && n <= ALPHABET
    ensures forall v :: 0 <= v < n ==> counts[v] <= SymbolSum(counts, Ones(), n)
  {
    if n > 0 {
      CountBelowSum(counts, n - 1);
    }
  }
}

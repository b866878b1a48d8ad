/** The encoder's tree: counting, the sorted merge loop, and why its result is an optimal
    prefix code no deeper than the 32 bits of a code word. */
module HuffmanTree {
  import opened Bytes
  import opened PrefixCodes

  const ALPHABET: nat := 256

  datatype EncodeNode =
    | Leaf(count: nat, value: nat)
    | Branch(count: nat, left: EncodeNode, right: EncodeNode)

  predicate WellFormed(t: EncodeNode) {
    match t
    case Leaf(count, v) => count > 0 && v < ALPHABET
    case Branch(count, l, r) => count == l.count + r.count && WellFormed(l) && WellFormed(r)
  }

  function Symbols(t: EncodeNode): multiset<nat> {
    match t
    case Leaf(_, v) => multiset{v}
    case Branch(_, l, r) => Symbols(l) + Symbols(r)
  }

  // There is a leaf for v at the end of path p (false is left).
  predicate LeafAt(t: EncodeNode, p: Code, v: nat) {
    match t
    case Leaf(_, w) => p == [] && v == w
    case Branch(_, l, r) => p != [] && LeafAt(if p[0] then r else l, p[1..], v)
  }

  // The sum over all leaves of count * distance from the root.
  function Cost(t: EncodeNode): nat {
    match t
    case Leaf(_, _) => 0
    case Branch(_, l, r) => Cost(l) + Cost(r) + l.count + r.count
  }

  function Depth(t: EncodeNode): nat {
    match t
    case Leaf(_, _) => 0
    case Branch(_, l, r) => 1 + if Depth(l) > Depth(r) then Depth(l) else Depth(r)
  }

  // The sum over all leaves of count * lens[value].
  function LeafSum(t: EncodeNode, lens: seq<nat>): nat
    requires |lens| == ALPHABET && WellFormed(t)
  {
    match t
    case Leaf(count, v) => count * lens[v]
    case Branch(_, l, r) => LeafSum(l, lens) + LeafSum(r, lens)
  }

  // ---- Counting

  function Occurrences(data: seq<byte>, v: nat): nat {
    if data == [] then 0
    else Occurrences(data[..|data| - 1], v) + if data[|data| - 1] == v then 1 else 0
  }

  function Counts(data: seq<byte>): (r: seq<nat>)
    ensures |r| == ALPHABET
  {
    seq(ALPHABET, v requires 0 <= v < ALPHABET => Occurrences(data, v))
  }

  // The weighted length of a code, restricted to the symbols below n.
  function SymbolSum(counts: seq<nat>, lens: seq<nat>, n: nat): nat
    requires |counts| == |lens| == ALPHABET && n <= ALPHABET
  {
    if n == 0 then 0 else SymbolSum(counts, lens, n - 1) + counts[n - 1] * lens[n - 1]
  }

  // The total number of bits the code spends on data with these counts.
  function CodeCost(counts: seq<nat>, codes: seq<Code>): nat
    requires |counts| == |codes| == ALPHABET
  {
    SymbolSum(counts, Lengths(codes), ALPHABET)
  }

  // The symbols below n that occur, once each.
  function Present(counts: seq<nat>, n: nat): multiset<nat>
    requires |counts| == ALPHABET && n <= ALPHABET
  {
    if n == 0 then multiset{}
    else Present(counts, n - 1) + if counts[n - 1] > 0 then multiset{n - 1} else multiset{}
  }

  lemma {:induction false} PresentCount(counts: seq<nat>, n: nat, v: nat)
    requires |counts| == ALPHABET && n <= ALPHABET
    ensures Present(counts, n)[v] == if v < n && counts[v] > 0 then 1 else 0
  {
    if n > 0 {
      PresentCount(counts, n - 1, v);
    }
  }

  // Code words of distinct symbols that occur are never prefixes of each other.
  ghost predicate PrefixFreeOn(counts: seq<nat>, codes: seq<Code>)
    requires |counts| == |codes| == ALPHABET
  {
    forall v, w :: 0 <= v < w < ALPHABET && counts[v] > 0 && counts[w] > 0 ==> !Comparable(codes[v], codes[w])
  }

  lemma {:induction false} WellFormedWeighs(t: EncodeNode)
    requires WellFormed(t)
    ensures t.count > 0
  {
    if t.Branch? {
      WellFormedWeighs(t.left);
    }
  }

  // ---- The sorted list of nodes

  ghost predicate Sorted(f: seq<EncodeNode>) {
    forall i, j :: 0 <= i < j < |f| ==> f[i].count <= f[j].count
  }

  function InsertAt(f: seq<EncodeNode>, at: nat, t: EncodeNode): seq<EncodeNode>
    requires at <= |f|
  {
    f[..at] + [t] + f[at..]
  }

  ghost predicate AllWellFormed(f: seq<EncodeNode>) {
    forall i :: 0 <= i < |f| ==> WellFormed(f[i])
  }

  function ForestSum(f: seq<EncodeNode>, lens: seq<nat>): nat
    requires |lens| == ALPHABET
    requires forall i :: 0 <= i < |f| ==> WellFormed(f[i])
  {
    if f == [] then 0 else LeafSum(f[0], lens) + ForestSum(f[1..], lens)
  }

  function ForestSymbols(f: seq<EncodeNode>): multiset<nat> {
    if f == [] then multiset{} else Symbols(f[0]) + ForestSymbols(f[1..])
  }

  function ForestCost(f: seq<EncodeNode>): nat {
    if f == [] then 0 else Cost(f[0]) + ForestCost(f[1..])
  }

  lemma {:induction false} InsertMeasures(f: seq<EncodeNode>, at: nat, t: EncodeNode)
    requires at <= |f|
    ensures ForestSymbols(InsertAt(f, at, t)) == ForestSymbols(f) + Symbols(t)
    ensures ForestCost(InsertAt(f, at, t)) == ForestCost(f) + Cost(t)
  {
    var g := InsertAt(f, at, t);
    if at == 0 {
      assert g[1..] == f;
    } else {
      assert g[1..] == InsertAt(f[1..], at - 1, t);
      InsertMeasures(f[1..], at - 1, t);
    }
  }

  lemma {:induction false} InsertSum(f: seq<EncodeNode>, at: nat, t: EncodeNode, lens: seq<nat>)
    requires at <= |f| && |lens| == ALPHABET && AllWellFormed(f) && WellFormed(t)
    ensures AllWellFormed(InsertAt(f, at, t))
    ensures ForestSum(InsertAt(f, at, t), lens) == ForestSum(f, lens) + LeafSum(t, lens)
  {
    var g := InsertAt(f, at, t);
    if at == 0 {
      assert g[1..] == f;
    } else {
      assert g[1..] == InsertAt(f[1..], at - 1, t);
      InsertSum(f[1..], at - 1, t, lens);
    }
  }

  // ---- The depth bound

  function Fib(n: nat): nat {
    if n == 0 then 0 else if n == 1 then 1 else Fib(n - 1) + Fib(n - 2)
  }

  // No subtree weighs less than a child of its sibling.
  predicate FibShaped(t: EncodeNode) {
    match t
    case Leaf(_, _) => true
    case Branch(_, l, r) =>
      && FibShaped(l) && FibShaped(r)
      && (l.Branch? ==> l.left.count <= r.count && l.right.count <= r.count)
      && (r.Branch? ==> r.left.count <= l.count && r.right.count <= l.count)
  }

  lemma {:induction false} DepthNeedsWeight(t: EncodeNode)
    requires WellFormed(t) && FibShaped(t)
    ensures t.count >= Fib(Depth(t) + 2)
    decreases t, 0
  {
    if t.Leaf? {
      assert Fib(2) == 1;
      return;
    }
    WellFormedWeighs(t.left);
    WellFormedWeighs(t.right);
    if Depth(t.left) > Depth(t.right) {
      SiblingsNeedWeight(t.left, t.right);
    } else {
      SiblingsNeedWeight(t.right, t.left);
    }
  }

  lemma {:induction false} SiblingsNeedWeight(deep: EncodeNode, other: EncodeNode)
    requires WellFormed(deep) && FibShaped(deep) && other.count > 0
    requires deep.Branch? ==> deep.left.count <= other.count && deep.right.count <= other.count
    ensures deep.count + other.count >= Fib(Depth(deep) + 3)
    decreases deep, 1
  {
    DepthNeedsWeight(deep);
    if deep.Leaf? {
      assert Fib(3) == 2;
    } else {
      var deeper := if Depth(deep.left) > Depth(deep.right) then deep.left else deep.right;
      DepthNeedsWeight(deeper);
      assert Depth(deep) + 3 == Depth(deeper) + 4;
    }
  }

  lemma {:induction false} FibMonotone(m: nat, n: nat)
    requires 1 <= m <= n
    ensures Fib(m) <= Fib(n)
  {
    if m < n {
      FibMonotone(m, n - 1);
    }
  }

  lemma FibFrom35(n: nat)
    requires n >= 35
    ensures Fib(n) >= 9227465
  {
    assert Fib(10) == 55 && Fib(11) == 89;
    assert Fib(18) == 2584 && Fib(19) == 4181;
    assert Fib(26) == 121393 && Fib(27) == 196418;
    assert Fib(35) == 9227465;
    FibMonotone(35, n);
  }

  lemma WeightBoundsDepth(depth: nat, count: nat)
    requires Fib(depth + 2) <= count < 9227465
    ensures depth <= 32
  {
    if depth >= 33 {
      FibFrom35(depth + 2);
    }
  }

  lemma DepthAtMost32(t: EncodeNode)
    requires WellFormed(t) && FibShaped(t) && t.count < 9227465
    ensures Depth(t) <= 32
  {
    DepthNeedsWeight(t);
    WeightBoundsDepth(Depth(t), t.count);
  }

  // The tree of Fibonacci weights: among trees of this shape the bound is attained.
  function FibTree(depth: nat): EncodeNode {
    if depth == 0 then Leaf(1, 0)
    else if depth == 1 then Branch(2, Leaf(1, 0), Leaf(1, 1))
    else Branch(Fib(depth + 2), Leaf(Fib(depth), depth), FibTree(depth - 1))
  }

  // t is of this shape and depth and has the least weight, and its children are lighter than the next leaf.
  predicate Tightest(t: EncodeNode, depth: nat, weight: nat, next: nat) {
    && WellFormed(t) && FibShaped(t) && Depth(t) == depth && t.count == weight
    && (t.Branch? ==> t.left.count <= next && t.right.count <= next)
  }

  lemma FibTreeStep(l: EncodeNode, r: EncodeNode, depth: nat, small: nat, weight: nat, above: nat)
    requires 1 <= depth < ALPHABET - 1 && 0 < small <= weight && above == weight + small
    requires Tightest(l, depth, weight, small) && r == Leaf(small, depth + 1)
    ensures Tightest(Branch(above, r, l), depth + 1, above, weight)
  {
  }

  lemma SmallFibTrees(depth: nat)
    requires depth < 2
    ensures Tightest(FibTree(depth), depth, depth + 1, 1) && Fib(depth + 2) == depth + 1 && Fib(depth + 1) == 1
  {
    assert Fib(1) == 1 && Fib(2) == 1 && Fib(3) == 2;
  }

  lemma {:induction false} FibTreeIsTight(depth: nat, weight: nat, next: nat)
    requires depth < ALPHABET && weight == Fib(depth + 2) && next == Fib(depth + 1)
    ensures Tightest(FibTree(depth), depth, weight, next)
  {
    if depth < 2 {
      SmallFibTrees(depth);
    } else {
      var small := Fib(depth);
      FibMonotone(1, depth);
      FibMonotone(depth, depth + 1);
      FibTreeIsTight(depth - 1, next, small);
      FibTreeStep(FibTree(depth - 1), Leaf(small, depth), depth - 1, small, next, weight);
    }
  }

  lemma {:induction false} FibTreeSymbols(depth: nat, v: nat)
    ensures Symbols(FibTree(depth))[v] == if v <= depth then 1 else 0
  {
    if depth >= 2 {
      FibTreeSymbols(depth - 1, v);
      assert Symbols(FibTree(depth)) == multiset{depth} + Symbols(FibTree(depth - 1));
    } else if depth == 1 {
      assert Symbols(FibTree(1)) == multiset{0} + multiset{1};
    }
  }
}

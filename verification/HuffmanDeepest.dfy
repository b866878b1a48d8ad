/** The bound on the depth cannot be improved: byte counts of the least weight whose tree is that deep. */
module HuffmanDeepest {
  import opened Bytes
  import opened HuffmanTree
  import opened HuffmanMerge
  import opened HuffmanDepth

  // ---- The counts 1, 1, 1, 1, 1, 4, 6, 10, 16, 26, ...

  function DeepCount(v: nat): (r: nat)
    ensures r > 0
  {
    if v < 5 then 1 else LeastWeight(v - 3) + 1
  }

  function DeepLeaf(v: nat): EncodeNode {
    Leaf(DeepCount(v), v)
  }

  // The counts for a tree of this depth.
  ghost predicate Deep(counts: seq<nat>, depth: nat) {
    |counts| == ALPHABET && forall v :: 0 <= v < ALPHABET ==> counts[v] == if v < depth + 2 then DeepCount(v) else 0
  }

  // The leaves of the symbols from v on, below end.
  function Tail(v: nat, end: nat): (f: seq<EncodeNode>)
    requires v <= end
    ensures |f| == end - v && forall i :: 0 <= i < |f| ==> f[i] == DeepLeaf(v + i)
  {
    seq(end - v, i requires 0 <= i < end - v => DeepLeaf(v + i))
  }

  // The leaves of the symbols below n, last one first.
  function Reversed(n: nat): (f: seq<EncodeNode>)
    ensures |f| == n && forall i :: 0 <= i < n ==> f[i] == DeepLeaf(n - 1 - i)
  {
    seq(n, i requires 0 <= i < n => DeepLeaf(n - 1 - i))
  }

  lemma CountsBelowDepth(depth: nat, v: nat)
    requires depth >= 3 && v < depth + 2
    ensures DeepCount(v) <= LeastWeight(depth)
  {
    if v >= 5 {
      LeastWeightGrows(v - 3, depth - 2);
    } else {
      LeastWeightGrows(3, depth);
    }
  }

  // ---- The list of leaves

  // Equal leaves are put in front of each other.
  lemma {:induction false} FirstLeaves(counts: seq<nat>, depth: nat, n: nat)
    requires Deep(counts, depth) && depth >= 3 && n <= 5
    ensures LeafList(counts, n) == Reversed(n)
  {
    if n > 0 {
      var before, leaf := Reversed(n - 1), DeepLeaf(n - 1);
      FirstLeaves(counts, depth, n - 1);
      PositionIs(before, leaf, 0);
      assert Reversed(n) == InsertAt(before, 0, leaf);
    }
  }

  lemma Heavier(a: EncodeNode, b: EncodeNode)
    requires b.count < a.count < TWO_31
    ensures CompareEncodeNode(a, b) > 0 && CompareEncodeNode(b, a) <= 0
  {
    CompareOrdersByCount(a, b);
    CompareOrdersByCount(b, a);
  }

  lemma CountsGrow(v: nat, w: nat)
    requires v < w && w >= 5
    ensures DeepCount(v) < DeepCount(w)
  {
    if v >= 5 {
      LeastWeightGrows(v - 2, w - 3);
    }
  }

  lemma HeavierThanAll(before: seq<EncodeNode>, leaf: EncodeNode, n: nat)
    requires n > 5 && DeepCount(n - 1) < TWO_31 && leaf == DeepLeaf(n - 1) && before == Reversed(5) + Tail(5, n - 1)
    ensures forall i :: 0 <= i < |before| ==> CompareEncodeNode(leaf, before[i]) > 0
  {
    forall i | 0 <= i < |before|
      ensures CompareEncodeNode(leaf, before[i]) > 0
    {
      var v := if i < 5 then 4 - i else i;
      assert before[i] == DeepLeaf(v);
      CountsGrow(v, n - 1);
      Heavier(leaf, before[i]);
    }
  }

  lemma AppendLeaf(n: nat)
    requires n > 5
    ensures var before := Reversed(5) + Tail(5, n - 1);
            InsertAt(before, n - 1, DeepLeaf(n - 1)) == Reversed(5) + Tail(5, n) && |before| == n - 1
  {
    assert Tail(5, n) == Tail(5, n - 1) + [DeepLeaf(n - 1)];
  }

  // The other ones are heavier from leaf to leaf.
  lemma {:induction false} LaterLeaves(counts: seq<nat>, depth: nat, n: nat)
    requires Deep(counts, depth) && 5 <= n <= depth + 2 <= ALPHABET && LeastWeight(depth) < TWO_31
    ensures LeafList(counts, n) == Reversed(5) + Tail(5, n)
  {
    if n == 5 {
      FirstLeaves(counts, depth, 5);
      assert Reversed(5) + Tail(5, 5) == Reversed(5);
    } else {
      var before, leaf := Reversed(5) + Tail(5, n - 1), DeepLeaf(n - 1);
      LaterLeaves(counts, depth, n - 1);
      CountsBelowDepth(depth, n - 1);
      HeavierThanAll(before, leaf, n);
      AppendLeaf(n);
      PositionIs(before, leaf, n - 1);
    }
  }

  lemma {:induction false} NoFurtherLeaves(counts: seq<nat>, depth: nat, n: nat)
    requires Deep(counts, depth) && depth + 2 <= n <= ALPHABET
    ensures LeafList(counts, n) == LeafList(counts, depth + 2)
  {
    if n > depth + 2 {
      NoFurtherLeaves(counts, depth, n - 1);
    }
  }

  // ---- The merges

  // A branch goes behind what is not heavier.
  lemma BranchPosition(f: seq<EncodeNode>, t: EncodeNode, at: nat)
    requires t.Branch? && t.count < TWO_31 && at <= |f|
    requires forall i :: 0 <= i < at ==> f[i].count <= t.count
    requires at < |f| ==> t.count < f[at].count < TWO_31
    ensures Position(f, t) == at
  {
    forall i | 0 <= i < at
      ensures CompareEncodeNode(t, f[i]) > 0
    {
      if f[i].count < t.count {
        Heavier(t, f[i]);
      }
    }
    if at < |f| {
      Heavier(f[at], t);
    }
    PositionIs(f, t, at);
  }

  // One turn of the loop.
  ghost predicate Turn(f: seq<EncodeNode>, g: seq<EncodeNode>) {
    |f| >= 2 && g == MergeOnce(f)
  }

  lemma TurnKeepsTree(f: seq<EncodeNode>, g: seq<EncodeNode>)
    requires Turn(f, g)
    ensures g != [] && MergeTree(f) == MergeTree(g)
  {
  }

  lemma TurnOf(f: seq<EncodeNode>, rest: seq<EncodeNode>, t: EncodeNode, at: nat)
    requires |f| >= 2 && rest == f[2..] && t == Joined(f) && Position(rest, t) == at
    ensures Turn(f, InsertAt(rest, at, t))
  {
  }

  lemma Pair(a: EncodeNode, b: EncodeNode, rest: seq<EncodeNode>)
    ensures var f := [a, b] + rest; f[2..] == rest && Joined(f) == Branch(a.count + b.count, a, b)
  {
  }

  lemma InsertBetween(front: seq<EncodeNode>, t: EncodeNode, back: seq<EncodeNode>)
    ensures InsertAt(front + back, |front|, t) == front + [t] + back
  {
  }

  // The new branch goes between what is not heavier and what is.
  lemma MergePair(a: EncodeNode, b: EncodeNode, front: seq<EncodeNode>, back: seq<EncodeNode>, t: EncodeNode)
    requires t == Branch(a.count + b.count, a, b) && t.count < TWO_31
    requires forall i :: 0 <= i < |front| ==> front[i].count <= t.count
    requires back != [] ==> t.count < back[0].count < TWO_31
    ensures Turn([a, b] + (front + back), front + [t] + back)
  {
    BranchPosition(front + back, t, |front|);
    Pair(a, b, front + back);
    InsertBetween(front, t, back);
    TurnOf([a, b] + (front + back), front + back, t, |front|);
  }

  lemma MergeLastPair(a: EncodeNode, b: EncodeNode, t: EncodeNode)
    requires t == Branch(a.count + b.count, a, b) && t.count < TWO_31
    ensures Turn([a, b], [t])
  {
    MergePair(a, b, [], [], t);
    assert [a, b] + ([] + []) == [a, b] && [] + [t] + [] == [t];
  }

  lemma TailSplit(v: nat, w: nat, end: nat)
    requires v < end && w == v + 1
    ensures Tail(v, end) == [DeepLeaf(v)] + Tail(w, end)
  {
  }

  // A leaf is the next lighter thing to a branch: it goes in front.
  lemma MergeBehindLeaf(a: EncodeNode, b: EncodeNode, t: EncodeNode, v: nat, w: nat, end: nat)
    requires t == Branch(a.count + b.count, a, b) && t.count < TWO_31 && v < end && w == v + 1
    requires DeepCount(v) <= t.count && (w < end ==> t.count < DeepCount(w) < TWO_31)
    ensures Turn([a, b] + Tail(v, end), [DeepLeaf(v), t] + Tail(w, end))
  {
    TailSplit(v, w, end);
    MergePair(a, b, [DeepLeaf(v)], Tail(w, end), t);
    assert [DeepLeaf(v)] + [t] == [DeepLeaf(v), t];
  }

  // The weights on the way up.
  lemma ClimbCounts(k: nat, depth: nat, v: nat)
    requires 3 <= k < depth && LeastWeight(depth) < TWO_31 && v == k + 2
    ensures DeepCount(v) + LeastWeight(k) == LeastWeight(k + 1) < TWO_31
    ensures DeepCount(v + 1) <= LeastWeight(k + 1) < DeepCount(v + 2)
    ensures k + 2 < depth ==> DeepCount(v + 2) < TWO_31
  {
    LeastWeightGrows(k + 1, depth);
    assert DeepCount(v) == LeastWeight(k - 1) + 1;
    if k + 2 < depth {
      CountsBelowDepth(depth, v + 2);
    }
  }

  // A deep node behind the leaf of v; the leaves from w = v + 1 on follow.
  ghost predicate Climbing(f: seq<EncodeNode>, t: EncodeNode, k: nat, v: nat, w: nat, end: nat) {
    && t.Branch? && t.count == LeastWeight(k) && Depth(t) == k
    && w <= end && f == [DeepLeaf(v), t] + Tail(w, end)
  }

  lemma ClimbOnce(f: seq<EncodeNode>, t: EncodeNode, k: nat, depth: nat, v: nat, w: nat, x: nat, end: nat)
    returns (g: seq<EncodeNode>, next: EncodeNode)
    requires Climbing(f, t, k, v, w, end) && 3 <= k < depth - 1 && LeastWeight(depth) < TWO_31
    requires v == k + 2 && w == v + 1 && x == w + 1 && end == depth + 2
    ensures Climbing(g, next, k + 1, w, x, end) && Turn(f, g)
  {
    var leaf := DeepLeaf(v);
    next := Branch(leaf.count + t.count, leaf, t);
    g := [DeepLeaf(w), next] + Tail(x, end);
    ClimbCounts(k, depth, v);
    MergeBehindLeaf(leaf, t, next, w, x, end);
  }

  lemma ClimbLast(f: seq<EncodeNode>, t: EncodeNode, k: nat, depth: nat, v: nat, w: nat) returns (g: seq<EncodeNode>, next: EncodeNode)
    requires Climbing(f, t, k, v, w, w) && 3 <= k == depth - 1 && LeastWeight(depth) < TWO_31 && v == k + 2
    ensures g == [next] && Depth(next) == depth && Turn(f, g)
  {
    var leaf := DeepLeaf(v);
    next := Branch(leaf.count + t.count, leaf, t);
    g := [next];
    ClimbCounts(k, depth, v);
    assert f == [leaf, t];
    MergeLastPair(leaf, t, next);
  }

  // From depth 3 on a leaf and the deep node are merged again and again.
  lemma {:induction false} Climbs(f: seq<EncodeNode>, t: EncodeNode, k: nat, depth: nat, v: nat, w: nat, end: nat)
    requires Climbing(f, t, k, v, w, end) && 3 <= k < depth && LeastWeight(depth) < TWO_31
    requires v == k + 2 && w == v + 1 && end == depth + 2
    ensures f != [] && Depth(MergeTree(f)) == depth
    decreases depth - k
  {
    var g, next;
    if k == depth - 1 {
      g, next := ClimbLast(f, t, k, depth, v, w);
    } else {
      var x := w + 1;
      g, next := ClimbOnce(f, t, k, depth, v, w, x, end);
      Climbs(g, next, k + 1, depth, w, x, end);
    }
    TurnKeepsTree(f, g);
  }

  lemma FirstTurn(l: seq<EncodeNode>, a: EncodeNode, rest: seq<EncodeNode>)
    requires |l| == 5 && (forall i :: 0 <= i < 5 ==> l[i].count == 1) && a == Branch(2, l[0], l[1])
    requires rest != [] ==> 2 < rest[0].count < TWO_31
    ensures Turn(l + rest, [l[2], l[3], l[4], a] + rest)
  {
    assert l + rest == [l[0], l[1]] + ([l[2], l[3], l[4]] + rest);
    assert [l[2], l[3], l[4], a] == [l[2], l[3], l[4]] + [a];
    MergePair(l[0], l[1], [l[2], l[3], l[4]], rest, a);
  }

  lemma SecondTurn(x: EncodeNode, y: EncodeNode, z: EncodeNode, a: EncodeNode, b: EncodeNode, rest: seq<EncodeNode>)
    requires x.count == y.count == z.count == 1 && a.count == 2 && b == Branch(2, x, y)
    requires rest != [] ==> 2 < rest[0].count < TWO_31
    ensures Turn([x, y, z, a] + rest, [z, a, b] + rest)
  {
    assert [x, y, z, a] + rest == [x, y] + ([z, a] + rest);
    assert [z, a, b] == [z, a] + [b];
    MergePair(x, y, [z, a], rest, b);
  }

  lemma ThirdTurn(z: EncodeNode, a: EncodeNode, b: EncodeNode, c: EncodeNode, rest: seq<EncodeNode>)
    requires z.count == 1 && a.count == b.count == 2 && c == Branch(3, z, a)
    requires rest != [] ==> 3 < rest[0].count < TWO_31
    ensures Turn([z, a, b] + rest, [b, c] + rest)
  {
    assert [z, a, b] + rest == [z, a] + ([b] + rest);
    assert [b, c] == [b] + [c];
    MergePair(z, a, [b], rest, c);
  }

  lemma ThreeTurns(f: seq<EncodeNode>, g: seq<EncodeNode>, h: seq<EncodeNode>, k: seq<EncodeNode>)
    requires Turn(f, g) && Turn(g, h) && Turn(h, k)
    ensures k != [] && MergeTree(f) == MergeTree(k)
  {
    TurnKeepsTree(f, g);
    TurnKeepsTree(g, h);
    TurnKeepsTree(h, k);
  }

  // The first five leaves make a pair and a triple.
  lemma FirstMerges(f: seq<EncodeNode>, rest: seq<EncodeNode>) returns (g: seq<EncodeNode>, b: EncodeNode, c: EncodeNode)
    requires f == Reversed(5) + rest && (rest != [] ==> 3 < rest[0].count < TWO_31)
    ensures b.count == 2 && Depth(b) == 1 && c.count == 3 && Depth(c) == 2
    ensures g == [b, c] + rest && MergeTree(f) == MergeTree(g)
  {
    var l := Reversed(5);
    var a := Branch(2, l[0], l[1]);
    b := Branch(2, l[2], l[3]);
    c := Branch(3, l[4], a);
    g := [b, c] + rest;
    FirstTurn(l, a, rest);
    SecondTurn(l[2], l[3], l[4], a, b, rest);
    ThirdTurn(l[4], a, b, c, rest);
    ThreeTurns(f, [l[2], l[3], l[4], a] + rest, [l[4], a, b] + rest, g);
  }

  // The next merge has depth 3: the last one, or the start of the climb.
  lemma FourthMerge(g: seq<EncodeNode>, b: EncodeNode, c: EncodeNode, depth: nat, end: nat)
    requires depth >= 3 && LeastWeight(depth) < TWO_31 && end == depth + 2
    requires b.count == 2 && Depth(b) == 1 && c.count == 3 && Depth(c) == 2 && g == [b, c] + Tail(5, end)
    ensures Depth(MergeTree(g)) == depth
  {
    var t := Branch(5, b, c);
    assert LeastWeight(2) == 3 && LeastWeight(3) == 5;
    if depth == 3 {
      assert g == [b, c];
      MergeLastPair(b, c, t);
      TurnKeepsTree(g, [t]);
    } else {
      var h := [DeepLeaf(5), t] + Tail(6, end);
      if depth > 4 {
        CountsBelowDepth(depth, 6);
      }
      MergeBehindLeaf(b, c, t, 5, 6, end);
      TurnKeepsTree(g, h);
      Climbs(h, t, 3, depth, 5, 6, end);
    }
  }

  lemma DeepMerges(f: seq<EncodeNode>, depth: nat, end: nat)
    requires depth >= 3 && LeastWeight(depth) < TWO_31 && end == depth + 2 && f == Reversed(5) + Tail(5, end)
    ensures Depth(MergeTree(f)) == depth
  {
    assert LeastWeight(2) == 3;
    if depth > 3 {
      CountsBelowDepth(depth, 5);
    }
    var g, b, c := FirstMerges(f, Tail(5, end));
    FourthMerge(g, b, c, depth, end);
  }

  // ---- The bound is attained

  lemma {:induction false} DeepTotal(counts: seq<nat>, depth: nat, n: nat)
    requires Deep(counts, depth) && depth >= 3 && n <= depth + 2 <= ALPHABET
    ensures SymbolSum(counts, Ones(), n) == if n < 5 then n else LeastWeight(n - 2)
  {
    if n > 0 {
      DeepTotal(counts, depth, n - 1);
      assert counts[n - 1] * Ones()[n - 1] == DeepCount(n - 1);
    }
  }

  lemma {:induction false} NoFurtherTotal(counts: seq<nat>, depth: nat, n: nat)
    requires Deep(counts, depth) && depth + 2 <= n <= ALPHABET
    ensures SymbolSum(counts, Ones(), n) == SymbolSum(counts, Ones(), depth + 2)
  {
    if n > depth + 2 {
      NoFurtherTotal(counts, depth, n - 1);
      assert counts[n - 1] * Ones()[n - 1] == 0;
    }
  }

  // For every depth that 31-bit totals allow there are counts of exactly the least weight.
  lemma DepthIsReached(counts: seq<nat>, depth: nat)
    requires Deep(counts, depth) && 3 <= depth <= ALPHABET - 2 && LeastWeight(depth) < TWO_31
    ensures SomeOccur(counts) && Depth(TreeFor(counts)) == depth
    ensures SymbolSum(counts, Ones(), ALPHABET) == LeastWeight(depth)
  {
    LaterLeaves(counts, depth, depth + 2);
    NoFurtherLeaves(counts, depth, ALPHABET);
    DeepMerges(LeafList(counts, depth + 2), depth, depth + 2);
    DeepTotal(counts, depth, depth + 2);
    NoFurtherTotal(counts, depth, ALPHABET);
  }

  // ---- A text with these counts

  function TextWith(counts: seq<nat>, n: nat): seq<byte>
    requires |counts| == ALPHABET && n <= ALPHABET
  {
    if n == 0 then [] else TextWith(counts, n - 1) + Repeat(n - 1, counts[n - 1])
  }

  lemma {:induction false} OccurrencesInRun(s: seq<byte>, b: byte, times: nat, v: nat)
    ensures Occurrences(s + Repeat(b, times), v) == Occurrences(s, v) + if b == v then times else 0
  {
    if times == 0 {
      assert s + Repeat(b, 0) == s;
    } else {
      var t := s + Repeat(b, times);
      assert t[..|t| - 1] == s + Repeat(b, times - 1);
      OccurrencesInRun(s, b, times - 1, v);
    }
  }

  lemma {:induction false} OccurrencesInText(counts: seq<nat>, n: nat, v: nat)
    requires |counts| == ALPHABET && n <= ALPHABET
    ensures Occurrences(TextWith(counts, n), v) == if v < n then counts[v] else 0
  {
    if n > 0 {
      OccurrencesInText(counts, n - 1, v);
      OccurrencesInRun(TextWith(counts, n - 1), n - 1, counts[n - 1], v);
    }
  }

  lemma TextWithCounts(counts: seq<nat>, n: nat)
    requires |counts| == ALPHABET && n == ALPHABET
    ensures Counts(TextWith(counts, n)) == counts
  {
    forall v | 0 <= v < ALPHABET
      ensures Counts(TextWith(counts, n))[v] == counts[v]
    {
      OccurrencesInText(counts, n, v);
    }
  }
}

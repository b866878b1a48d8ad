/** The Fibonacci bound cannot be improved for an unknown order of ties: some order makes a tree that
    deep of leaves with no more weight. */
module HuffmanAnyOrder {
  import opened HuffmanTree
  import opened HuffmanMerge

  // ---- The leaves 1, 1, 1, 2, 3, 5, ...

  function FibCount(v: nat): nat {
    if v == 0 then 1 else Fib(v)
  }

  function FibLeaf(v: nat): EncodeNode {
    Leaf(FibCount(v), v)
  }

  // The leaves from v on, up to end.
  function FibLeaves(v: nat, end: nat): (f: seq<EncodeNode>)
    requires v <= end + 1
    ensures |f| == end + 1 - v && forall i :: 0 <= i < |f| ==> f[i] == FibLeaf(v + i)
  {
    seq(end + 1 - v, i requires 0 <= i < end + 1 - v => FibLeaf(v + i))
  }

  lemma FibCountsGrow(v: nat, w: nat)
    requires v <= w
    ensures 0 < FibCount(v) <= FibCount(w)
  {
    FibMonotone(1, if v == 0 then 1 else v);
    if w > 0 {
      FibMonotone(if v == 0 then 1 else v, w);
    }
  }

  lemma FibLeavesAreShaped(v: nat, end: nat)
    requires v <= end + 1 <= ALPHABET
    ensures Shaped(FibLeaves(v, end)) && AllLeaves(FibLeaves(v, end))
  {
    var f := FibLeaves(v, end);
    forall i, j | 0 <= i < j < |f|
      ensures f[i].count <= f[j].count
    {
      FibCountsGrow(v + i, v + j);
    }
    forall i | 0 <= i < |f|
      ensures WellFormed(f[i])
    {
      FibCountsGrow(v + i, v + i);
    }
  }

  // ---- Merging them so that the new node goes in front of its equals

  // The tree of depth k behind the next leaf, then the other leaves.
  function Stage(k: nat, end: nat): seq<EncodeNode>
    requires k < end
  {
    [FibLeaf(k + 1), FibTree(k)] + FibLeaves(k + 2, end)
  }

  lemma StageIsSorted(k: nat, end: nat)
    requires 1 <= k < end < ALPHABET
    ensures Sorted(Stage(k, end))
  {
    var f := Stage(k, end);
    FibTreeIsTight(k, Fib(k + 2), Fib(k + 1));
    FibMonotone(k + 1, k + 2);
    forall i, j | 0 <= i < j < |f|
      ensures f[i].count <= f[j].count
    {
      if i >= 2 {
        FibCountsGrow(k + i, k + j);
      } else if j >= 2 {
        FibCountsGrow(k + 2, k + j);
      }
    }
  }

  lemma JoinedStage(k: nat, end: nat)
    requires 1 <= k < end < ALPHABET
    ensures Joined(Stage(k, end)) == FibTree(k + 1) && Stage(k, end)[2..] == FibLeaves(k + 2, end)
  {
    FibTreeIsTight(k, Fib(k + 2), Fib(k + 1));
    assert Fib(k + 3) == Fib(k + 2) + Fib(k + 1);
  }

  lemma NextStage(k: nat, end: nat, rest: seq<EncodeNode>)
    requires 1 <= k && k + 1 < end < ALPHABET && rest == FibLeaves(k + 2, end)
    ensures InsertAt(rest, 1, FibTree(k + 1)) == Stage(k + 1, end)
  {
    assert rest[..1] == [FibLeaf(k + 2)];
    assert rest[1..] == FibLeaves(k + 3, end);
  }

  lemma {:induction false} StageMerges(k: nat, end: nat)
    requires 1 <= k < end < ALPHABET
    ensures MergesTo(Stage(k, end), FibTree(end))
    decreases end - k
  {
    var f := Stage(k, end);
    JoinedStage(k, end);
    if k + 1 == end {
      assert Merged(f, 0) == [FibTree(end)];
    } else {
      NextStage(k, end, f[2..]);
      assert Merged(f, 1) == Stage(k + 1, end);
      StageIsSorted(k + 1, end);
      StageMerges(k + 1, end);
    }
  }

  lemma FirstStage(end: nat, f: seq<EncodeNode>)
    requires 2 <= end < ALPHABET && f == FibLeaves(0, end)
    ensures Merged(f, 1) == Stage(1, end)
  {
    var rest := f[2..];
    assert Fib(1) == 1 && Joined(f) == FibTree(1);
    assert rest[..1] == [FibLeaf(2)];
    assert rest[1..] == FibLeaves(3, end);
  }

  // For every depth there are sorted leaves of total weight F(depth + 2) and an order of ties that
  // makes a tree that deep of them.
  lemma BoundIsTight(depth: nat) returns (leaves: seq<EncodeNode>)
    requires 2 <= depth < ALPHABET
    ensures Shaped(leaves) && AllLeaves(leaves) && MergesTo(leaves, FibTree(depth))
    ensures Depth(FibTree(depth)) == depth && ForestSum(leaves, Ones()) == Fib(depth + 2)
  {
    leaves := FibLeaves(0, depth);
    FibLeavesAreShaped(0, depth);
    FirstStage(depth, leaves);
    StageIsSorted(1, depth);
    StageMerges(1, depth);
    AnyOrderShaped(leaves, FibTree(depth));
    FibTreeIsTight(depth, Fib(depth + 2), Fib(depth + 1));
  }
}

/** How deep the encoder's tree gets with the tie order of compare_encode_node: nodes of the same
    weight are merged leaves first, then branches in the order they were made. */
module HuffmanDepth {
  import opened Bytes
  import opened HuffmanTree
  import opened HuffmanMerge

  // ---- What the tie order gives

  // c is no heavier than a node of this weight, and lighter unless it is as heavy as a full tree of its depth.
  predicate Under(c: EncodeNode, weight: nat) {
    c.count <= weight && (c.count == weight ==> c.count >= Pow2(Depth(c)))
  }

  predicate ChildrenUnder(t: EncodeNode, weight: nat) {
    t.Branch? ==> Under(t.left, weight) && Under(t.right, weight)
  }

  predicate Steep(t: EncodeNode) {
    match t
    case Leaf(_, _) => true
    case Branch(_, l, r) => Steep(l) && Steep(r) && ChildrenUnder(l, r.count) && ChildrenUnder(r, l.count)
  }

  // Every node that has an equal behind it is as heavy as a full tree of its depth.
  ghost predicate TiesAreFull(f: seq<EncodeNode>) {
    forall i, j :: 0 <= i < j < |f| && f[i].count == f[j].count ==> f[i].count >= Pow2(Depth(f[i]))
  }

  ghost predicate ChildrenLag(f: seq<EncodeNode>) {
    forall i, j :: 0 <= i < |f| && 0 <= j < |f| ==> ChildrenUnder(f[i], f[j].count)
  }

  ghost predicate Settled(f: seq<EncodeNode>) {
    && Sorted(f) && AllWellFormed(f) && TiesAreFull(f) && ChildrenLag(f)
    && forall i :: 0 <= i < |f| ==> Steep(f[i])
  }

  lemma LeavesSettle(f: seq<EncodeNode>)
    requires Sorted(f) && AllLeaves(f) && AllWellFormed(f)
    ensures Settled(f)
  {
    assert Pow2(0) == 1;
  }

  // A branch made of two full trees of one weight is one.
  lemma FullBranch(t: EncodeNode, weight: nat)
    requires t.Branch? && t.count == t.left.count + t.right.count && t.count == 2 * weight
    requires Under(t.left, weight) && Under(t.right, weight)
    ensures t.count >= Pow2(Depth(t))
  {
  }

  // A node in front of the new branch, with the same weight.
  lemma TieWithJoined(f: seq<EncodeNode>, i: nat)
    requires |f| >= 2 && Settled(f) && 2 <= i < |f| && f[i].count == Joined(f).count
    ensures f[i].count >= Pow2(Depth(f[i]))
  {
    var t := f[i];
    assert WellFormed(f[0]) && WellFormed(f[1]) && WellFormed(t);
    if t.Branch? {
      assert ChildrenUnder(t, f[0].count) && ChildrenUnder(t, f[1].count);
      FullBranch(t, f[0].count);
    } else {
      assert Pow2(0) == 1;
    }
  }

  lemma JoinedLags(f: seq<EncodeNode>, j: nat)
    requires |f| >= 2 && Settled(f) && 2 <= j < |f|
    ensures ChildrenUnder(Joined(f), f[j].count)
  {
    assert f[0].count <= f[j].count && f[1].count <= f[j].count;
  }

  lemma JoinedIsSteep(f: seq<EncodeNode>)
    requires |f| >= 2 && Settled(f)
    ensures WellFormed(Joined(f)) && Steep(Joined(f)) && ChildrenUnder(Joined(f), Joined(f).count)
    ensures f[0].count < Joined(f).count && f[1].count < Joined(f).count
  {
    assert ChildrenUnder(f[0], f[1].count) && ChildrenUnder(f[1], f[0].count);
    WellFormedWeighs(f[0]);
    WellFormedWeighs(f[1]);
  }

  // Children of queued nodes are strictly lighter than the new branch.
  lemma LagBehindJoined(f: seq<EncodeNode>, i: nat)
    requires |f| >= 2 && Settled(f) && 2 <= i < |f|
    ensures ChildrenUnder(f[i], Joined(f).count)
  {
    JoinedIsSteep(f);
    assert ChildrenUnder(f[i], f[0].count);
  }

  // Where the nodes of the merged list come from.
  lemma MergedAt(f: seq<EncodeNode>, at: nat, i: nat) returns (k: nat)
    requires |f| >= 2 && at <= |f| - 2 && i < |f| - 1
    ensures i == at ==> Merged(f, at)[i] == Joined(f)
    ensures i != at ==> 2 <= k < |f| && Merged(f, at)[i] == f[k] && k == if i < at then i + 2 else i + 1
  {
    k := if i < at then i + 2 else i + 1;
  }

  lemma MergeSettles(f: seq<EncodeNode>, at: nat)
    requires |f| >= 2 && at <= |f| - 2 && Settled(f) && Sorted(Merged(f, at))
    requires forall i :: at <= i < |f| - 2 ==> Joined(f).count < f[2..][i].count
    ensures Settled(Merged(f, at))
  {
    var g := Merged(f, at);
    JoinedIsSteep(f);
    forall i | 0 <= i < |g|
      ensures WellFormed(g[i]) && Steep(g[i])
    {
      var k := MergedAt(f, at, i);
    }
    MergeTies(f, at);
    MergeLags(f, at);
  }

  lemma MergeTies(f: seq<EncodeNode>, at: nat)
    requires |f| >= 2 && at <= |f| - 2 && Settled(f)
    requires forall i :: at <= i < |f| - 2 ==> Joined(f).count < f[2..][i].count
    ensures TiesAreFull(Merged(f, at))
  {
    var g := Merged(f, at);
    forall i, j | 0 <= i < j < |g| && g[i].count == g[j].count
      ensures g[i].count >= Pow2(Depth(g[i]))
    {
      var k := MergedAt(f, at, i);
      var l := MergedAt(f, at, j);
      if j == at {
        TieWithJoined(f, k);
      } else if i == at {
        assert false;
      } else {
        assert f[k].count == f[l].count;
      }
    }
  }

  lemma MergeLags(f: seq<EncodeNode>, at: nat)
    requires |f| >= 2 && at <= |f| - 2 && Settled(f)
    ensures ChildrenLag(Merged(f, at))
  {
    var g := Merged(f, at);
    JoinedIsSteep(f);
    forall i, j | 0 <= i < |g| && 0 <= j < |g|
      ensures ChildrenUnder(g[i], g[j].count)
    {
      var k := MergedAt(f, at, i);
      var l := MergedAt(f, at, j);
      if i == at && j != at {
        JoinedLags(f, l);
      } else if i != at && j == at {
        LagBehindJoined(f, k);
      } else if i != at {
        assert ChildrenUnder(f[k], f[l].count);
      }
    }
  }

  lemma {:induction false} MergeTreeIsSteep(f: seq<EncodeNode>)
    requires f != [] && Settled(f) && ForestSum(f, Ones()) < TWO_31
    ensures Steep(MergeTree(f))
    decreases |f|
  {
    if |f| > 1 {
      MergeSorts(f);
      MergeTotal(f);
      MergeSettles(f, MergePosition(f));
      MergeTreeIsSteep(MergeOnce(f));
    }
  }

  lemma TreeForIsSteep(counts: seq<nat>)
    requires |counts| == ALPHABET && SomeOccur(counts) && SymbolSum(counts, Ones(), ALPHABET) < TWO_31
    ensures Steep(TreeFor(counts))
  {
    LeafListShaped(counts, ALPHABET);
    LeavesSettle(LeafList(counts, ALPHABET));
    MergeTreeIsSteep(LeafList(counts, ALPHABET));
  }

  // ---- The least weight of a depth

  // 1, 2, 3, 5, 9, 15, 25, 41, ...
  function LeastWeight(depth: nat): (r: nat)
    ensures r > 0
  {
    if depth < 2 then depth + 1
    else if depth == 2 then 3
    else LeastWeight(depth - 1) + LeastWeight(depth - 2) + if depth == 3 then 0 else 1
  }

  lemma {:induction false} LeastWeightIsFib(depth: nat)
    requires depth >= 2
    ensures LeastWeight(depth) == 2 * Fib(depth + 1) - 1
  {
    if depth == 2 {
      assert Fib(3) == 2;
    } else if depth == 3 {
      assert Fib(4) == 3;
    } else {
      LeastWeightIsFib(depth - 1);
      LeastWeightIsFib(depth - 2);
    }
  }

  lemma {:induction false} FullIsHeavier(depth: nat)
    requires depth >= 2
    ensures Pow2(depth) > LeastWeight(depth)
  {
    if depth == 2 {
      assert Pow2(2) == 4;
    } else if depth == 3 {
      assert Pow2(3) == 8;
    } else {
      FullIsHeavier(depth - 1);
      FullIsHeavier(depth - 2);
    }
  }

  // In a tree the merge loop makes, depth d needs LeastWeight(d).
  lemma {:induction false} SteepNeedsWeight(t: EncodeNode)
    requires WellFormed(t) && Steep(t)
    ensures t.count >= LeastWeight(Depth(t))
    decreases t, 0
  {
    if t.Branch? {
      WellFormedWeighs(t.left);
      WellFormedWeighs(t.right);
      if Depth(t.left) > Depth(t.right) {
        SteepSiblings(t.left, t.right);
      } else {
        SteepSiblings(t.right, t.left);
      }
    }
  }

  lemma {:induction false} SteepSiblings(deep: EncodeNode, other: EncodeNode)
    requires WellFormed(deep) && Steep(deep) && other.count > 0 && ChildrenUnder(deep, other.count)
    ensures deep.count + other.count >= LeastWeight(Depth(deep) + 1)
    decreases deep, 1
  {
    SteepNeedsWeight(deep);
    if deep.Branch? {
      var deeper := if Depth(deep.left) > Depth(deep.right) then deep.left else deep.right;
      SteepNeedsWeight(deeper);
      if Depth(deeper) >= 2 {
        FullIsHeavier(Depth(deeper));
      }
    }
  }

  lemma {:induction false} LeastWeightGrows(m: nat, n: nat)
    requires m <= n
    ensures LeastWeight(m) <= LeastWeight(n)
  {
    if m < n {
      LeastWeightGrows(m, n - 1);
    }
  }

  lemma LeastWeight33()
    ensures LeastWeight(33) == 11405773
  {
    assert LeastWeight(9) == 109 && LeastWeight(10) == 177;
    assert LeastWeight(17) == 5167 && LeastWeight(18) == 8361;
    assert LeastWeight(25) == 242785 && LeastWeight(26) == 392835;
  }

  // Below 11405773 bytes no code word is longer than the 32 bits it is stored in.
  lemma TreeForDepth(counts: seq<nat>)
    requires |counts| == ALPHABET && SomeOccur(counts) && SymbolSum(counts, Ones(), ALPHABET) < TWO_31
    ensures SymbolSum(counts, Ones(), ALPHABET) >= LeastWeight(Depth(TreeFor(counts)))
    ensures SymbolSum(counts, Ones(), ALPHABET) < 11405773 ==> Depth(TreeFor(counts)) <= 32
  {
    var root := TreeFor(counts);
    TreeForIsSteep(counts);
    TreeForCovers(counts);
    SteepNeedsWeight(root);
    LeastWeight33();
    if Depth(root) >= 33 {
      LeastWeightGrows(33, Depth(root));
    }
  }
}

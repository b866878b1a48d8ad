/** huffman_decode: what it computes on any input, and the code that computes it. */
module HuffmanDecode {
  import opened Bytes
  import opened PrefixCodes

  datatype Outcome =
    | Decoded(output: seq<byte>)
    | Rejected                    // the function returns NULL
    | PastEnd                     // GET_BIT reads at or behind data + data_size

  // ---- The specification: a table of code words instead of a trie of nodes

  // The leaf table: value and code word length of each leaf.
  datatype LeafNode = LeafNode(chr: byte, len: nat)

  function Leaves(table: seq<byte>): (r: seq<LeafNode>)
    ensures |r| == |table| / 2
    ensures forall i :: 0 <= i < |r| ==> r[i].len < 256
  {
    if |table| < 2 then []
    else [LeafNode(table[0], table[1])] + Leaves(table[2..])
  }

  function TotalLength(leaves: seq<LeafNode>): nat {
    if leaves == [] then 0 else leaves[0].len + TotalLength(leaves[1..])
  }

  // The paths that have a node, and the paths whose node carries a value.
  datatype Trie = Trie(paths: set<Code>, chars: map<Code, byte>)

  const EMPTY_TRIE: Trie := Trie({[]}, map[])

  function Prefixes(code: Code): set<Code> {
    set i | 0 <= i <= |code| :: code[..i]
  }

  // A later leaf with the same code word replaces an earlier one.
  function AddLeaf(trie: Trie, code: Code, chr: byte): Trie {
    Trie(trie.paths + Prefixes(code), trie.chars[code := chr])
  }

  function ReadTrie(bits: seq<bool>, pos: nat, leaves: seq<LeafNode>, trie: Trie): (r: Trie)
    requires pos + TotalLength(leaves) <= |bits|
    decreases leaves
  {
    if leaves == [] then trie
    else
      var len := leaves[0].len;
      ReadTrie(bits, pos + len, leaves[1..], AddLeaf(trie, bits[pos..pos + len], leaves[0].chr))
  }

  lemma ReadTrieNext(bits: seq<bool>, pos: nat, leaves: seq<LeafNode>, trie: Trie, leaf: LeafNode, rest: seq<LeafNode>, next: nat)
    requires pos + TotalLength(leaves) <= |bits| && leaves == [leaf] + rest && next == pos + leaf.len
    ensures next + TotalLength(rest) <= |bits|
    ensures ReadTrie(bits, pos, leaves, trie) == ReadTrie(bits, next, rest, AddLeaf(trie, bits[pos..next], leaf.chr))
  {
    assert leaves[1..] == rest;
  }

  // The root has a node, and no path is longer than an 8-bit length can say.
  ghost predicate Usable(trie: Trie) {
    [] in trie.paths && forall p :: p in trie.paths ==> |p| < 256
  }

  // The walk along w stays on nodes and meets no value in front of its end.
  ghost predicate Walked(trie: Trie, w: Code) {
    forall i :: 0 <= i <= |w| ==> w[..i] in trie.paths && (i < |w| ==> w[..i] !in trie.chars)
  }

  // What fetching the next bit yields: the bit and the position behind it, or a reason to stop.
  datatype BitRead = Bit(value: bool, next: nat) | NoBit(reason: Outcome)

  // The test at the head of the walk loop, then GET_BIT and the increment; bit positions are
  // 32-bit unsigned.
  function ReadBit(data: seq<byte>, pos: nat): (r: BitRead)
    ensures r.NoBit? ==> !r.reason.Decoded?
  {
    if ByteBoundary(pos) % TWO_32 / 8 > |data| then NoBit(Rejected)
    else if pos / 8 >= |data| then NoBit(PastEnd)
    else Bit(BitAt(data, pos), (pos + 1) % TWO_32)
  }

  datatype Step = Found(chr: byte, pos: nat) | Stuck(reason: Outcome)

  // Walk down from the node at path.
  ghost function WalkFrom(data: seq<byte>, trie: Trie, pos: nat, path: Code): Step
    requires Usable(trie) && path in trie.paths
    decreases 256 - |path|
  {
    if path in trie.chars then Found(trie.chars[path], pos)
    else
      match ReadBit(data, pos)
      case NoBit(reason) => Stuck(reason)
      case Bit(value, next) =>
        if path + [value] !in trie.paths then Stuck(Rejected)
        else WalkFrom(data, trie, next, path + [value])
  }

  ghost function DecodeText(data: seq<byte>, trie: Trie, pos: nat, count: nat, sofar: seq<byte>): Outcome
    requires Usable(trie)
    decreases count
  {
    if count == 0 then Decoded(sofar)
    else
      match WalkFrom(data, trie, pos, [])
      case Stuck(reason) => reason
      case Found(chr, next) => DecodeText(data, trie, next, count - 1, sofar + [chr])
  }

  predicate HasMagic(data: seq<byte>) {
    && |data| >= 11 && data[0] == 0x48 && data[1] == 0x45
    && (data[2] == 0x33 || data[2] == 0x30)
  }

  lemma {:induction false} TriePathsShort(bits: seq<bool>, pos: nat, leaves: seq<LeafNode>, trie: Trie)
    requires pos + TotalLength(leaves) <= |bits|
    requires forall i :: 0 <= i < |leaves| ==> leaves[i].len < 256
    requires Usable(trie)
    ensures Usable(ReadTrie(bits, pos, leaves, trie))
    decreases leaves
  {
    if leaves != [] {
      var len := leaves[0].len;
      var code := bits[pos..pos + len];
      assert code[..len] == code;
      TriePathsShort(bits, pos + len, leaves[1..], AddLeaf(trie, code, leaves[0].chr));
    }
  }

  // keyPos and textPos are the bit positions of the two bit sections.
  datatype Preamble = Bad | Good(size: nat, keyPos: nat, textPos: nat, leaves: seq<LeafNode>)

  // The leaf lengths fit in a byte and the first bit section lies inside the data.
  ghost predicate Sound(p: Preamble, data: seq<byte>) {
    && p.Good? && |data| >= 11
    && p.keyPos + TotalLength(p.leaves) <= 8 * |data|
    && forall i :: 0 <= i < |p.leaves| ==> p.leaves[i].len < 256
  }

  // Everything up to the two bit sections, with the checks that can reject it.
  function ReadPreamble(data: seq<byte>): (r: Preamble)
    ensures r.Good? ==> Sound(r, data)
  {
    if !HasMagic(data) then Bad
    else
      var tableEnd := 11 + FromLittleEndian(data[9..11]) * 2;
      if |data| < tableEnd then Bad
      else
        var leaves := Leaves(data[11..tableEnd]);
        var keyLength := TotalLength(leaves);
        if |data| < tableEnd + ByteBoundary(keyLength) / 8 then Bad
        else Good(FromLittleEndian(data[5..9]), 8 * tableEnd, NextSection(8 * tableEnd, keyLength), leaves)
  }

  ghost function TrieOf(data: seq<byte>, p: Preamble): (r: Trie)
    requires Sound(p, data)
    ensures Usable(r)
  {
    TriePathsShort(Bits(data), p.keyPos, p.leaves, EMPTY_TRIE);
    ReadTrie(Bits(data), p.keyPos, p.leaves, EMPTY_TRIE)
  }

  ghost function DecodeSections(data: seq<byte>, p: Preamble): (r: Outcome)
    requires Sound(p, data)
  {
    DecodeText(data, TrieOf(data, p), p.textPos, p.size, [])
  }

  // The value huffman_decode computes; Decode below is proved to return it.
  ghost function DecodeSpec(data: seq<byte>): (r: Outcome) {
    var p := ReadPreamble(data);
    if p.Bad? then Rejected else DecodeSections(data, p)
  }

  // ---- The implementation: nodes linked by pointers

  class BranchNode {
    var left: BranchNode?
    var right: BranchNode?
    var chr: int
    ghost const path: Code

    constructor (ghost path: Code)
      ensures left == null && right == null && chr == -1 && this.path == path
    {
      left, right, chr := null, null, -1;
      this.path := path;
    }
  }

  ghost predicate Closed(trie: Trie) {
    && [] in trie.paths
    && (forall p: Code, bit: bool :: p + [bit] in trie.paths ==> p in trie.paths)
    && (forall p :: p in trie.chars ==> p in trie.paths)
  }

  // The nodes are exactly the paths of the trie, linked by their last bit.
  ghost predicate Represents(nodes: set<BranchNode>, root: BranchNode, trie: Trie)
    reads nodes
  {
    && Closed(trie) && root in nodes && root.path == []
    && (forall n, m :: n in nodes && m in nodes && n.path == m.path ==> n == m)
    && (forall n {:trigger NodeOk(nodes, n, trie)} :: n in nodes ==> NodeOk(nodes, n, trie))
  }

  ghost predicate NodeOk(nodes: set<BranchNode>, n: BranchNode, trie: Trie)
    reads n
  {
    && n.path in trie.paths
    && (n.left == null <==> n.path + [false] !in trie.paths)
    && (n.right == null <==> n.path + [true] !in trie.paths)
    && (n.left != null ==> n.left in nodes && n.left.path == n.path + [false])
    && (n.right != null ==> n.right in nodes && n.right.path == n.path + [true])
    && n.chr == if n.path in trie.chars then trie.chars[n.path] else -1
  }

  lemma PrefixesStep(code: Code, d: nat)
    requires d < |code|
    ensures Prefixes(code[..d + 1]) == Prefixes(code[..d]) + {code[..d + 1]}
    ensures code[..d] in Prefixes(code[..d])
  {
    var longer := code[..d + 1];
    forall i | 0 <= i <= d
      ensures longer[..i] == code[..d][..i] == code[..i]
    {
    }
    forall p | p in Prefixes(code[..d])
      ensures p in Prefixes(longer)
    {
      var i :| 0 <= i <= d && p == code[..d][..i];
      assert p == longer[..i];
    }
    assert longer[..d + 1] == longer && code[..d][..d] == code[..d];
  }

  lemma NewPath(trie: Trie, path: Code, bit: bool)
    requires Closed(trie) && path in trie.paths && path + [bit] !in trie.paths
    ensures Closed(trie.(paths := trie.paths + {path + [bit]}))
    ensures forall q: Code, x: bool :: q + [x] == path + [bit] ==> q == path && x == bit
    ensures forall x: bool :: path + [bit] + [x] !in trie.paths
  {
    var next := path + [bit];
    forall q: Code, x: bool | q + [x] == next
      ensures q == path && x == bit
    {
      assert (q + [x])[..|q|] == q && (q + [x])[|q|] == x;
    }
  }

  // A missing child of node, linked to it.
  method NewChild(ghost nodes: set<BranchNode>, ghost root: BranchNode, ghost trie: Trie, node: BranchNode, bit: bool)
    returns (child: BranchNode)
    requires Represents(nodes, root, trie) && node in nodes
    requires node.path + [bit] !in trie.paths
    modifies node
    ensures fresh(child) && child.path == node.path + [bit]
    ensures Represents(nodes + {child}, root, trie.(paths := trie.paths + {child.path}))
  {
    ghost var next := node.path + [bit];
    assert NodeOk(nodes, node, trie);
    NewPath(trie, node.path, bit);
    child := new BranchNode(next);
    forall n | n in nodes
      ensures n.path != next
    {
      assert NodeOk(nodes, n, trie);
    }
    if bit {
      node.right := child;
    } else {
      node.left := child;
    }
    ghost var trie' := trie.(paths := trie.paths + {next});
    forall n | n in nodes && n != node
      ensures NodeOk(nodes + {child}, n, trie')
    {
      assert NodeOk(nodes, n, trie);
      assert n.path + [false] != next && n.path + [true] != next;
    }
    assert NodeOk(nodes + {child}, node, trie');
    assert NodeOk(nodes + {child}, child, trie');
  }

  lemma LinkOf(nodes: set<BranchNode>, n: BranchNode, trie: Trie, bit: bool)
    requires NodeOk(nodes, n, trie)
    ensures var link := if bit then n.right else n.left;
            && (link == null <==> n.path + [bit] !in trie.paths)
            && (link != null ==> link in nodes && link.path == n.path + [bit])
  {
    if bit {
      assert n.path + [bit] == n.path + [true];
    } else {
      assert n.path + [bit] == n.path + [false];
    }
  }

  lemma KnownPath(trie: Trie, path: Code)
    requires path in trie.paths
    ensures trie.(paths := trie.paths + {path}) == trie
  {
  }

  // node->left or node->right for this bit, created when missing.
  method Descend(ghost nodes: set<BranchNode>, ghost root: BranchNode, ghost trie: Trie, node: BranchNode, bit: bool)
    returns (child: BranchNode, ghost grown: set<BranchNode>)
    requires Represents(nodes, root, trie) && node in nodes
    modifies node
    ensures fresh(grown - nodes) && nodes <= grown
    ensures Represents(grown, root, trie.(paths := trie.paths + {node.path + [bit]}))
    ensures child in grown && child.path == node.path + [bit]
  {
    var link := if bit then node.right else node.left;
    LinkOf(nodes, node, trie, bit);
    if link == null {
      child := NewChild(nodes, root, trie, node, bit);
      grown := nodes + {child};
    } else {
      KnownPath(trie, node.path + [bit]);
      child, grown := link, nodes;
    }
  }

  lemma PrefixesOfEmpty(code: Code)
    ensures Prefixes(code[..0]) == {[]}
  {
    assert code[..0][..0] == [];
  }

  lemma PathsStep(trie: Trie, code: Code, d: nat)
    requires d < |code|
    ensures trie.paths + Prefixes(code[..d + 1]) == trie.paths + Prefixes(code[..d]) + {code[..d] + [code[d]]}
  {
    PrefixesStep(code, d);
    assert code[..d + 1] == code[..d] + [code[d]];
  }

  // The inner loop of the trie construction: walk down along the code word, then set the value.
  method InsertLeaf(ghost nodes: set<BranchNode>, root: BranchNode, ghost trie: Trie,
                    data: seq<byte>, start: nat, leaf: LeafNode)
    returns (bitPos: nat, ghost grown: set<BranchNode>)
    requires Represents(nodes, root, trie) && start + leaf.len <= 8 * |data|
    modifies nodes
    ensures bitPos == start + leaf.len
    ensures fresh(grown - nodes) && nodes <= grown
    ensures Represents(grown, root, AddLeaf(trie, Bits(data)[start..start + leaf.len], leaf.chr))
  {
    ghost var code := Bits(data)[start..start + leaf.len];
    var node := root;
    bitPos, grown := start, nodes;
    PrefixesOfEmpty(code);
    KnownPath(trie, []);
    for d := 0 to leaf.len
      invariant bitPos == start + d
      invariant fresh(grown - nodes) && nodes <= grown
      invariant node in grown && node.path == code[..d]
      invariant Represents(grown, root, trie.(paths := trie.paths + Prefixes(code[..d])))
    {
      PathsStep(trie, code, d);
      assert code[..d + 1] == code[..d] + [code[d]];
      assert BitAt(data, bitPos) == code[d];
      node, grown := Descend(grown, root, trie.(paths := trie.paths + Prefixes(code[..d])), node, BitAt(data, bitPos));
      bitPos := bitPos + 1;
    }
    assert code[..leaf.len] == code;
    SetChar(grown, root, trie.(paths := trie.paths + Prefixes(code)), node, leaf.chr);
  }

  method SetChar(ghost nodes: set<BranchNode>, ghost root: BranchNode, ghost trie: Trie, node: BranchNode, chr: byte)
    requires Represents(nodes, root, trie) && node in nodes
    modifies node
    ensures Represents(nodes, root, trie.(chars := trie.chars[node.path := chr]))
  {
    forall n | n in nodes
      ensures NodeOk(nodes, n, trie)
    {
    }
    node.chr := chr;
    ghost var trie' := trie.(chars := trie.chars[node.path := chr]);
    forall n | n in nodes
      ensures NodeOk(nodes, n, trie')
    {
      assert old(NodeOk(nodes, n, trie));
      assert n != node ==> n.path != node.path;
    }
  }

  method BuildTrie(data: seq<byte>, start: nat, leaves: seq<LeafNode>)
    returns (root: BranchNode, bitPos: nat, ghost nodes: set<BranchNode>)
    requires start + TotalLength(leaves) <= 8 * |data|
    ensures bitPos == start + TotalLength(leaves)
    ensures fresh(nodes) && Represents(nodes, root, ReadTrie(Bits(data), start, leaves, EMPTY_TRIE))
  {
    ghost var bits := Bits(data);
    root := new BranchNode([]);
    nodes := {root};
    bitPos := start;
    ghost var trie := EMPTY_TRIE;
    assert forall x: bool :: [x] !in EMPTY_TRIE.paths;
    for c := 0 to |leaves|
      invariant bitPos + TotalLength(leaves[c..]) == start + TotalLength(leaves)
      invariant fresh(nodes) && Represents(nodes, root, trie)
      invariant ReadTrie(bits, bitPos, leaves[c..], trie) == ReadTrie(bits, start, leaves, EMPTY_TRIE)
    {
      assert leaves[c..][1..] == leaves[c + 1..];
      ghost var pos := bitPos;
      bitPos, nodes := InsertLeaf(nodes, root, trie, data, bitPos, leaves[c]);
      trie := AddLeaf(trie, bits[pos..bitPos], leaves[c].chr);
    }
  }

  // One symbol: from the root down to a node with a value.
  method Walk(ghost nodes: set<BranchNode>, root: BranchNode, ghost trie: Trie,
              data: seq<byte>, start: nat)
    returns (step: Step)
    requires Represents(nodes, root, trie) && Usable(trie)
    ensures step == WalkFrom(data, trie, start, [])
    ensures step.Stuck? ==> !step.reason.Decoded?
  {
    var node, bitPos: nat := root, start;
    assert NodeOk(nodes, node, trie);
    while node.chr == -1
      invariant node in nodes && NodeOk(nodes, node, trie)
      invariant WalkFrom(data, trie, bitPos, node.path) == WalkFrom(data, trie, start, [])
      decreases 256 - |node.path|
    {
        if ByteBoundary(bitPos) % TWO_32 / 8 > |data| {
        return Stuck(Rejected);
      }
      if bitPos / 8 >= |data| {
        return Stuck(PastEnd);
      }
      var bit := BitAt(data, bitPos);
      LinkOf(nodes, node, trie, bit);
      var next := if bit then node.right else node.left;
      bitPos := (bitPos + 1) % TWO_32;
      if next == null {
        return Stuck(Rejected);
      }
      node := next;
      assert NodeOk(nodes, node, trie);
    }
    step := Found(node.chr, bitPos);
  }

  lemma LeavesCons(leaf: LeafNode, rest: seq<byte>)
    requires leaf.len < 256
    ensures Leaves([leaf.chr, leaf.len] + rest) == [leaf] + Leaves(rest)
  {
    assert ([leaf.chr, leaf.len] + rest)[2..] == rest;
  }

  // all is what the whole table holds, the part from pos on starts with leaf.
  lemma LeavesStep(all: seq<LeafNode>, part: seq<byte>, leaves: seq<LeafNode>, leaf: LeafNode, rest: seq<byte>)
    requires leaf.len < 256 && part == [leaf.chr, leaf.len] + rest && leaves + Leaves(part) == all
    ensures leaves + [leaf] + Leaves(rest) == all
  {
    LeavesCons(leaf, rest);
    assert leaves + [leaf] + Leaves(rest) == leaves + ([leaf] + Leaves(rest));
  }

  lemma SplitPair(table: seq<byte>, pos: nat)
    requires pos + 2 <= |table|
    ensures table[pos..] == [table[pos], table[pos + 1]] + table[pos + 2..]
  {
  }

  // The leaves in front of pos were read.
  ghost predicate LeavesRead(table: seq<byte>, pos: nat, leaves: seq<LeafNode>, total: nat) {
    && pos <= |table| && pos % 2 == 0
    && leaves + Leaves(table[pos..]) == Leaves(table) && total == TotalLength(leaves)
  }

  lemma LeafRead(table: seq<byte>, pos: nat, leaves: seq<LeafNode>, total: nat, leaf: LeafNode, next: nat)
    requires |table| % 2 == 0 && LeavesRead(table, pos, leaves, total) && next == pos + 2 <= |table|
    requires leaf == LeafNode(table[pos], table[pos + 1])
    ensures LeavesRead(table, next, leaves + [leaf], total + leaf.len)
  {
    SplitPair(table, pos);
    LeavesStep(Leaves(table), table[pos..], leaves, leaf, table[next..]);
    TotalLengthAppend(leaves, leaf);
  }

  method ReadLeaves(table: seq<byte>) returns (leaves: seq<LeafNode>, total: nat)
    requires |table| % 2 == 0
    ensures leaves == Leaves(table) && total == TotalLength(leaves)
  {
    leaves, total := [], 0;
    var dataPos := 0;
    while dataPos < |table|
      invariant LeavesRead(table, dataPos, leaves, total)
      decreases |table| - dataPos
    {
      var leaf := LeafNode(table[dataPos], table[dataPos + 1]);
      LeafRead(table, dataPos, leaves, total, leaf, dataPos + 2);
      leaves := leaves + [leaf];
      total := total + leaf.len;
      dataPos := dataPos + 2;
    }
  }

  lemma {:induction false} TotalLengthAppend(leaves: seq<LeafNode>, leaf: LeafNode)
    ensures TotalLength(leaves + [leaf]) == TotalLength(leaves) + leaf.len
  {
    if leaves == [] {
      assert [] + [leaf] == [leaf];
    } else {
      assert (leaves + [leaf])[1..] == leaves[1..] + [leaf];
      TotalLengthAppend(leaves[1..], leaf);
    }
  }

  // One symbol after the other.
  method DecodeSymbols(ghost nodes: set<BranchNode>, root: BranchNode, ghost trie: Trie,
                       data: seq<byte>, start: nat, unpackSize: nat)
    returns (outcome: Outcome, parity: byte)
    requires Represents(nodes, root, trie) && Usable(trie)
    ensures outcome == DecodeText(data, trie, start, unpackSize, [])
    ensures outcome.Decoded? ==> parity == Parity(outcome.output)
  {
    var output: seq<byte>, bitPos: nat := [], start;
    parity := 0;
    for c := 0 to unpackSize
      invariant DecodeText(data, trie, bitPos, unpackSize - c, output) == DecodeText(data, trie, start, unpackSize, [])
      invariant parity == Parity(output)
    {
      var step := Walk(nodes, root, trie, data, bitPos);
      if step.Stuck? {
        return step.reason, parity;
      }
      ParityAppend(output, step.chr);
      output, parity, bitPos := output + [step.chr], Xor(parity, step.chr), step.pos;
    }
    outcome := Decoded(output);
  }

  method ReadHeader(data: seq<byte>) returns (p: Preamble)
    ensures p == ReadPreamble(data)
  {
    if |data| < 11 || data[0] != 0x48 || data[1] != 0x45 || (data[2] != 0x33 && data[2] != 0x30) {
      return Bad;
    }
    var unpackSize := FromLittleEndian(data[5..9]);
    var leafCount := FromLittleEndian(data[9..11]);
    if |data| < 11 + leafCount * 2 {
      return Bad;
    }
    var dataPos := 11 + leafCount * 2;
    var leaves, leafDataLen := ReadLeaves(data[11..dataPos]);
    if |data| < dataPos + ByteBoundary(leafDataLen) / 8 {
      return Bad;
    }
    p := Good(unpackSize, 8 * dataPos, NextSection(8 * dataPos, leafDataLen), leaves);
  }

  // Both bit sections of a file whose preamble is good.
  method DecodeBody(data: seq<byte>, p: Preamble) returns (outcome: Outcome, parity: byte)
    requires Sound(p, data)
    requires p.textPos == NextSection(p.keyPos, TotalLength(p.leaves))
    ensures outcome == DecodeSections(data, p)
    ensures outcome.Decoded? ==> parity == Parity(outcome.output)
  {
    var root, bitPos;
    ghost var nodes;
    root, bitPos, nodes := BuildTrie(data, p.keyPos, p.leaves);
    bitPos := ByteBoundary(bitPos);
    outcome, parity := DecodeSymbols(nodes, root, TrieOf(data, p), data, bitPos, p.size);
  }

  // The second result is false when the function warns about the parity.
  method Decode(data: seq<byte>) returns (outcome: Outcome, parityMatches: bool)
    ensures outcome == DecodeSpec(data)
    ensures outcome.Decoded? ==> |data| >= 11 && parityMatches == (Parity(outcome.output) == data[4])
  {
    parityMatches := true;
    var p := ReadHeader(data);
    if p.Bad? {
      return Rejected, parityMatches;
    }
    var parity;
    outcome, parity := DecodeBody(data, p);
    parityMatches := parity == data[4];
  }
}

/** data_to_filelist: rebuilding a file list from its binary form. */
module FileListUnpack {
  import opened Bytes
  import opened Wrappers
  import opened FileTree
  import opened FileWalk
  import opened FileNodes
  import opened FileListData

  ghost predicate StandsAt(data: seq<byte>, pos: nat, s: seq<byte>) {
    pos + |s| <= |data| && data[pos..pos + |s|] == s
  }

  lemma StandsInParts(data: seq<byte>, pos: nat, a: seq<byte>, mid: nat, b: seq<byte>)
    requires StandsAt(data, pos, a + b) && mid == pos + |a|
    ensures StandsAt(data, pos, a) && StandsAt(data, mid, b)
  {
    var s := data[pos..pos + |a + b|];
    assert data[pos..mid] == s[..|a|] == a;
    assert data[mid..mid + |b|] == s[|a|..] == b;
  }

  lemma StandingCString(data: seq<byte>, pos: nat, s: Name)
    requires StandsAt(data, pos, CStringBytes(s)) && 0 !in s
    ensures CString(data[pos..]) == s
  {
    var n, rest := |s|, data[pos..];
    StandsInParts(data, pos, s, pos + n, [0]);
    assert data[pos + n] == data[pos + n..pos + n + 1][0] == 0;
    assert rest[n] == data[pos + n];
    CStringStops(rest, n);
    assert rest[..n] == data[pos..pos + n] == s;
    WholeCString(s);
  }

  // What fits the fields: names without NUL, 64-bit numbers.
  predicate PackableNode(w: Walk) {
    match w
    case File(info) => info.size < UINT64_RANGE && info.mtime < UINT64_RANGE
    case Folder(realPath, entries) =>
      (realPath.Some? ==> 0 !in realPath.value) && |entries| < UINT64_RANGE && PackableEntries(entries)
  }

  predicate PackableEntries(entries: seq<Entry>) {
    entries != [] ==> 0 !in entries[0].name && PackableNode(entries[0].walk) && PackableEntries(entries[1..])
  }

  lemma Word64RoundTrip(n: nat)
    requires n < UINT64_RANGE
    ensures FromLittleEndian(Word64(n)) == n
  {
    assert Range(4) == TWO_32;
    assert Range(8) == UINT64_RANGE;
    LittleEndianRoundTrip(n, 8);
  }

  method ReadHead(data: seq<byte>, pos: nat, ghost wasDir: bool, ghost name: Name) returns (isDir: bool, nodeName: Name, end: nat)
    requires StandsAt(data, pos, Head(wasDir, name)) && 0 !in name
    ensures isDir == wasDir && nodeName == name && end == pos + |Head(wasDir, name)|
  {
    StandsInParts(data, pos, TypeField(wasDir), pos + 4, CStringBytes(name));
    assert data[pos..pos + 4] == TypeField(wasDir);
    isDir := data[pos..pos + 4] == TypeField(true);
    StandingCString(data, pos + 4, name);
    nodeName := CString(data[pos + 4..]);
    end := pos + 4 + |nodeName| + 1;
  }

  lemma RegParts(data: seq<byte>, pos: nat, info: FileInfo)
    requires StandsAt(data, pos, RegFields(info))
    ensures pos + 56 <= |data|
    ensures data[pos..pos + 8] == Word64(info.size) && data[pos + 8] == (if info.hasTth then 1 else 0)
    ensures data[pos + 9..pos + 48] == info.tth && data[pos + 48..pos + 56] == Word64(info.mtime)
  {
    var flag: seq<byte> := [if info.hasTth then 1 else 0];
    StandsInParts(data, pos, Word64(info.size) + flag + info.tth, pos + 48, Word64(info.mtime));
    StandsInParts(data, pos, Word64(info.size) + flag, pos + 9, info.tth);
    StandsInParts(data, pos, Word64(info.size), pos + 8, flag);
    assert data[pos + 8] == data[pos + 8..pos + 9][0];
  }

  method ReadReg(data: seq<byte>, pos: nat, node: FileNode, ghost info: FileInfo) returns (end: nat)
    requires StandsAt(data, pos, RegFields(info)) && info.size < UINT64_RANGE && info.mtime < UINT64_RANGE
    modifies node`size, node`hasTth, node`tth, node`mtime
    ensures FileInfo(node.size, node.hasTth, node.tth, node.mtime) == info && end == pos + |RegFields(info)|
  {
    RegParts(data, pos, info);
    Word64RoundTrip(info.size);
    Word64RoundTrip(info.mtime);
    node.size := FromLittleEndian(data[pos..pos + 8]);
    node.hasTth := data[pos + 8] != 0;
    node.tth := data[pos + 9..pos + 48];
    node.mtime := FromLittleEndian(data[pos + 48..pos + 56]);
    end := pos + 56;
  }

  method ReadDir(data: seq<byte>, pos: nat, ghost realPath: Option<Name>, ghost n: nat)
    returns (path: Option<Name>, count: nat, end: nat)
    requires StandsAt(data, pos, DirFields(realPath, n)) && n < UINT64_RANGE
    requires realPath.Some? ==> 0 !in realPath.value
    ensures path == realPath && count == n && end == pos + |DirFields(realPath, n)|
  {
    StandsInParts(data, pos, RealPathField(realPath), pos + |RealPathField(realPath)|, Word64(n));
    assert data[pos] == data[pos..pos + |RealPathField(realPath)|][0];
    path, end := None, pos;
    if data[pos] == 1 {
      StandsInParts(data, pos, [1], pos + 1, CStringBytes(realPath.value));
      StandingCString(data, pos + 1, realPath.value);
      path := Some(CString(data[pos + 1..]));
      end := end + |path.value| + 1;
    }
    end := end + 1;
    Word64RoundTrip(n);
    count := FromLittleEndian(data[end..end + 8]);
    end := end + 8;
  }

  // The children of node, all below, stand for these trees.
  ghost predicate Holds(node: FileNode, children: map<Name, Tree>, below: set<FileNode>)
    reads node, below
  {
    && node !in below && node.children.Keys == children.Keys
    && forall name :: name in children ==>
         IsChild(node, name, below) && Denotes(node.children[name], children[name], below)
  }

  lemma {:induction false} ChildrenAppend(entries: seq<Entry>, e: Entry)
    requires forall d :: d in entries ==> d.name != e.name
    ensures ChildrenOf(entries + [e]) == ChildrenOf(entries)[e.name := TreeOf(e.walk)]
    ensures EntriesSize(entries + [e]) == EntriesSize(entries) + TotalSize(e.walk)
  {
    if entries == [] {
      assert entries + [e] == [e] && [e][1..] == [];
    } else {
      assert entries[0] in entries;
      assert (entries + [e])[1..] == entries[1..] + [e];
      ChildrenAppend(entries[1..], e);
    }
  }

  lemma {:induction false} DistinctAt(entries: seq<Entry>, k: nat)
    requires DistinctEntries(entries) && k < |entries|
    ensures Distinct(entries[k].walk) && forall d :: d in entries[..k] ==> d.name != entries[k].name
  {
    if k > 0 {
      DistinctAt(entries[1..], k - 1);
      assert entries[k] == entries[1..][k - 1] && entries[k] in entries[1..];
      assert entries[..k] == [entries[0]] + entries[1..][..k - 1];
    }
  }

  lemma {:induction false} PackableAt(entries: seq<Entry>, k: nat)
    requires PackableEntries(entries) && k < |entries|
    ensures 0 !in entries[k].name && PackableNode(entries[k].walk)
  {
    if k > 0 {
      PackableAt(entries[1..], k - 1);
    }
  }

  lemma SerialFrom(entries: seq<Entry>, k: nat)
    requires k < |entries|
    ensures SerialEntries(entries[k..]) == Serial(entries[k].name, entries[k].walk) + SerialEntries(entries[k + 1..])
  {
    assert entries[k..][1..] == entries[k + 1..];
  }

  // Reading one more entry.
  lemma NextEntry(data: seq<byte>, pos: nat, entries: seq<Entry>, k: nat, mid: nat)
    requires k < |entries| && StandsAt(data, pos, SerialEntries(entries[k..]))
    requires PackableEntries(entries) && DistinctEntries(entries)
    requires mid == pos + |Serial(entries[k].name, entries[k].walk)|
    ensures StandsAt(data, pos, Serial(entries[k].name, entries[k].walk))
    ensures StandsAt(data, mid, SerialEntries(entries[k + 1..]))
    ensures mid + |SerialEntries(entries[k + 1..])| == pos + |SerialEntries(entries[k..])|
    ensures 0 !in entries[k].name && PackableNode(entries[k].walk) && Distinct(entries[k].walk)
  {
    SerialFrom(entries, k);
    StandsInParts(data, pos, Serial(entries[k].name, entries[k].walk), mid, SerialEntries(entries[k + 1..]));
    DistinctAt(entries, k);
    PackableAt(entries, k);
  }

  lemma ChildrenNext(entries: seq<Entry>, k: nat)
    requires k < |entries| && DistinctEntries(entries)
    ensures ChildrenOf(entries[..k + 1]) == ChildrenOf(entries[..k])[entries[k].name := TreeOf(entries[k].walk)]
    ensures EntriesSize(entries[..k + 1]) == EntriesSize(entries[..k]) + SizeOf(TreeOf(entries[k].walk))
  {
    DistinctAt(entries, k);
    SizeOfTree(entries[k].walk);
    ChildrenAppend(entries[..k], entries[k]);
    assert entries[..k] + [entries[k]] == entries[..k + 1];
  }

  // hmap_put(node->dir.children, child_node->name, child_node), the parent link and the size.
  method AdoptChild(node: FileNode, child: FileNode, ghost t: Tree, ghost sub: set<FileNode>,
                    ghost children: map<Name, Tree>, ghost below: set<FileNode>)
    returns (ghost more: set<FileNode>)
    requires Holds(node, children, below) && Heads(child, t, sub)
    requires child !in below && child !in sub && node !in sub && node != child
    modifies node`children, node`size, child`parent
    ensures node.size == old(node.size) + SizeOf(t)
    ensures more == below + sub + {child} && Holds(node, children[child.name := t], more)
  {
    more := below + sub + {child};
    ghost var was := node.children;
    label before:
    node.children := node.children[child.name := child];
    child.parent := node;
    node.size := node.size + child.size;
    forall name | name in children[child.name := t]
      ensures IsChild(node, name, more) && Denotes(node.children[name], children[child.name := t][name], more)
    {
      if name == child.name {
        HeadsMore(child, t, sub, more);
      } else {
        assert old@before(IsChild(node, name, below));
        DenotesMore(node.children[name], children[name], below, more);
      }
    }
  }

  // From the data of a traversal, whatever follows it, the node of its tree; end is where the
  // rest starts.
  method DataToFilelist(data: seq<byte>, pos: nat, ghost name: Name, ghost w: Walk)
    returns (node: FileNode, end: nat, ghost below: set<FileNode>)
    requires StandsAt(data, pos, Serial(name, w)) && 0 !in name && PackableNode(w) && Distinct(w)
    ensures end == pos + |Serial(name, w)|
    ensures fresh(node) && fresh(below) && node !in below && node.parent == null
    ensures node.name == name && Heads(node, TreeOf(w), below)
    decreases w, 1
  {
    ghost var head := Head(w.Folder?, name);
    StandsInParts(data, pos, head, pos + |head|, Body(w));
    var isDir, nodeName;
    isDir, nodeName, end := ReadHead(data, pos, w.Folder?, name);
    node := NewFileNode(nodeName, isDir, null);
    below := {};
    if isDir {
      end, below := ReadDirBody(data, end, node, w);
    } else {
      end := ReadReg(data, end, node, w.info);
    }
  }

  method ReadDirBody(data: seq<byte>, pos: nat, node: FileNode, ghost w: Walk) returns (end: nat, ghost below: set<FileNode>)
    requires w.Folder? && StandsAt(data, pos, Body(w)) && PackableNode(w) && Distinct(w)
    requires node.isDir && node.children == map[] && node.size == 0
    modifies node`children, node`size, node`realPath
    ensures end == pos + |Body(w)| && fresh(below) && node !in below && Heads(node, TreeOf(w), below)
    decreases w, 0
  {
    ghost var fields := DirFields(w.realPath, |w.entries|);
    StandsInParts(data, pos, fields, pos + |fields|, SerialEntries(w.entries));
    var count;
    node.realPath, count, end := ReadDir(data, pos, w.realPath, |w.entries|);
    end, below := ReadChildren(data, end, node, count, w.entries);
  }

  method ReadChildren(data: seq<byte>, pos: nat, node: FileNode, n: nat, ghost entries: seq<Entry>)
    returns (end: nat, ghost below: set<FileNode>)
    requires StandsAt(data, pos, SerialEntries(entries)) && n == |entries|
    requires PackableEntries(entries) && DistinctEntries(entries)
    requires node.children == map[] && node.size == 0
    modifies node`children, node`size
    ensures end == pos + |SerialEntries(entries)| && fresh(below)
    ensures Holds(node, ChildrenOf(entries), below) && node.size == EntriesSize(entries)
    decreases entries
  {
    end, below := pos, {};
    var count := n;
    ghost var k, done: map<Name, Tree> := 0, map[];
    while count > 0
      invariant k + count == |entries| && fresh(below)
      invariant StandsAt(data, end, SerialEntries(entries[k..]))
      invariant end + |SerialEntries(entries[k..])| == pos + |SerialEntries(entries)|
      invariant Holds(node, done, below) && done == ChildrenOf(entries[..k])
      invariant node.size == EntriesSize(entries[..k])
      decreases count
    {
      ghost var e := entries[k];
      ghost var mid := end + |Serial(e.name, e.walk)|;
      NextEntry(data, end, entries, k, mid);
      var child;
      ghost var sub;
      child, end, sub := DataToFilelist(data, end, e.name, e.walk);
      below := AdoptChild(node, child, TreeOf(e.walk), sub, done, below);
      done := done[e.name := TreeOf(e.walk)];
      ChildrenNext(entries, k);
      count, k := count - 1, k + 1;
    }
    assert entries[..k] == entries;
  }

  // ---- Both ways

  predicate PackableTree(t: Tree)
    decreases t
  {
    match t
    case Reg(info) => info.size < UINT64_RANGE && info.mtime < UINT64_RANGE
    case Dir(_, realPath, children) =>
      && (realPath.Some? ==> 0 !in realPath.value) && |children.Keys| < UINT64_RANGE
      && forall name :: name in children ==> 0 !in name && PackableTree(children[name])
  }

  lemma {:induction false} WalkIsPackable(w: Walk, t: Tree)
    requires Walks(w, t) && PackableTree(t)
    ensures PackableNode(w)
    decreases w
  {
    if w.Folder? {
      assert Those(t.children, t.children.Keys) == t.children;
      SerialSizes(w.entries, t, t.children.Keys);
      EntriesArePackable(w.entries, t.children);
    }
  }

  lemma {:induction false} EntriesArePackable(entries: seq<Entry>, children: map<Name, Tree>)
    requires Visits(entries, children)
    requires forall name :: name in children ==> 0 !in name && PackableTree(children[name])
    ensures PackableEntries(entries)
    decreases entries
  {
    if entries != [] {
      WalkIsPackable(entries[0].walk, children[entries[0].name]);
      EntriesArePackable(entries[1..], children - {entries[0].name});
    }
  }

  // A file list sent in front of anything else arrives unchanged, and reading stops in front of
  // the rest.
  method PackThenUnpack(node: FileNode, suffix: seq<byte>, ghost t: Tree, ghost repr: set<FileNode>)
    returns (copy: FileNode, size: nat, end: nat, ghost below: set<FileNode>)
    requires Denotes(node, t, repr) && Additive(t) && PackableTree(t) && 0 !in node.name
    ensures copy.name == node.name && copy.parent == null && fresh(copy) && fresh(below) && copy !in below
    ensures Heads(copy, t, below)
    ensures end == size == DataSize(node.name, t)
  {
    var data;
    ghost var w;
    data, w := FilelistToData(node, t, repr);
    WalkIsPackable(w, t);
    WalkIsDistinct(w, t);
    WalkDetermines(w, t);
    SerialSize(node.name, w, t);
    size := data.Length;
    var message := data[..] + suffix;
    assert message[0..0 + |Serial(node.name, w)|] == data[..];
    copy, end, below := DataToFilelist(message, 0, node.name, w);
  }
}

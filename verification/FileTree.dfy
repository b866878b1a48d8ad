/** The file list: a tree of named files and directories with cached directory sizes. */
module FileTree {
  import opened Bytes
  import opened Wrappers

  type Name = seq<byte>

  const SLASH: byte := 47
  const CURRENT_DIR: Name := [46]
  const PARENT_DIR: Name := [46, 46]

  type Tth = s: seq<byte> | |s| == 39 witness Repeat(0, 39)

  const NO_TTH: Tth := Repeat(0, 39)

  // The reg member of a node: hash flag, hash text and modification time (as a 64-bit pattern).
  datatype FileInfo = FileInfo(size: nat, hasTth: bool, tth: Tth, mtime: nat)

  function PlainInfo(size: nat): FileInfo {
    FileInfo(size, false, NO_TTH, 0)
  }

  // A node by value. The children of a directory are a hash map in the program.
  datatype Tree =
    | Reg(info: FileInfo)
    | Dir(size: nat, realPath: Option<Name>, children: map<Name, Tree>)

  function SizeOf(t: Tree): nat {
    match t
    case Reg(info) => info.size
    case Dir(size, _, _) => size
  }

  // The sum of the children's sizes, which does not depend on the order of the children.
  ghost function SumOf(children: map<Name, Tree>): nat {
    if children == map[] then 0
    else
      var name :| name in children;
      SizeOf(children[name]) + SumOf(children - {name})
  }

  lemma {:induction false} SumWithout(children: map<Name, Tree>, name: Name)
    requires name in children
    ensures SumOf(children) == SizeOf(children[name]) + SumOf(children - {name})
    decreases |children|
  {
    var first :| first in children && SumOf(children) == SizeOf(children[first]) + SumOf(children - {first});
    if first != name {
      SumWithout(children - {first}, name);
      SumWithout(children - {name}, first);
      assert children - {first} - {name} == children - {name} - {first};
    }
  }

  lemma SumOfFew(name: Name, t: Tree)
    ensures SumOf(map[]) == 0 && SumOf(map[name := t]) == SizeOf(t)
  {
    SumWithout(map[name := t], name);
    assert map[name := t] - {name} == map[];
  }

  // Every directory's size is the total of the files beneath it.
  ghost predicate Additive(t: Tree) {
    match t
    case Reg(_) => true
    case Dir(size, _, children) =>
      size == SumOf(children) && forall name :: name in children ==> Additive(children[name])
  }

  // One traversal of a tree: the children of every directory in the order an iterator of its
  // hash map delivered them.
  datatype Walk =
    | File(info: FileInfo)
    | Folder(realPath: Option<Name>, entries: seq<Entry>)

  datatype Entry = Entry(name: Name, walk: Walk)

  function TotalSize(w: Walk): nat {
    match w
    case File(info) => info.size
    case Folder(_, entries) => EntriesSize(entries)
  }

  function EntriesSize(entries: seq<Entry>): nat {
    if entries == [] then 0 else TotalSize(entries[0].walk) + EntriesSize(entries[1..])
  }

  // No directory delivers a name twice.
  predicate Distinct(w: Walk) {
    w.Folder? ==> DistinctEntries(w.entries)
  }

  predicate DistinctEntries(entries: seq<Entry>) {
    entries != [] ==>
      && Distinct(entries[0].walk)
      && (forall e :: e in entries[1..] ==> e.name != entries[0].name)
      && DistinctEntries(entries[1..])
  }

  // The tree a traversal runs over, with directory sizes computed.
  function TreeOf(w: Walk): Tree {
    match w
    case File(info) => Reg(info)
    case Folder(realPath, entries) => Dir(EntriesSize(entries), realPath, ChildrenOf(entries))
  }

  function ChildrenOf(entries: seq<Entry>): map<Name, Tree> {
    if entries == [] then map[] else ChildrenOf(entries[1..])[entries[0].name := TreeOf(entries[0].walk)]
  }

  lemma {:induction false} SizeOfTree(w: Walk)
    ensures SizeOf(TreeOf(w)) == TotalSize(w)
  {
  }

  lemma {:induction false} ChildrenNames(entries: seq<Entry>, name: Name)
    ensures name in ChildrenOf(entries) <==> exists e :: e in entries && e.name == name
  {
    if entries != [] {
      ChildrenNames(entries[1..], name);
      if name == entries[0].name {
        assert entries[0] in entries;
      } else if name in ChildrenOf(entries[1..]) {
        var e :| e in entries[1..] && e.name == name;
        assert e in entries;
      }
    }
  }

  // Traversals of trees are additive: the cached sizes are the sums.
  lemma {:induction false} TreeOfAdditive(w: Walk)
    requires Distinct(w)
    ensures Additive(TreeOf(w))
  {
    if w.Folder? {
      ChildrenOfAdditive(w.entries);
    }
  }

  lemma {:induction false} ChildrenOfAdditive(entries: seq<Entry>)
    requires DistinctEntries(entries)
    ensures SumOf(ChildrenOf(entries)) == EntriesSize(entries)
    ensures forall name :: name in ChildrenOf(entries) ==> Additive(ChildrenOf(entries)[name])
  {
    if entries != [] {
      var name, rest := entries[0].name, entries[1..];
      TreeOfAdditive(entries[0].walk);
      ChildrenOfAdditive(rest);
      ChildrenNames(rest, name);
      SumWithout(ChildrenOf(entries), name);
      assert ChildrenOf(entries) - {name} == ChildrenOf(rest);
    }
  }
}

/** The binary form of a file list, which the parser process sends to the main process. */
module FileListData {
  import opened Bytes
  import opened Wrappers
  import opened FileTree
  import opened FileWalk
  import opened FileNodes

  // ---- The format

  function CStringBytes(s: Name): seq<byte> {
    s + [0]
  }

  function Word64(n: nat): (r: seq<byte>)
    ensures |r| == 8
  {
    LittleEndian(n, 8)
  }

  // An enum of four bytes: DC_TYPE_DIR is 0 and DC_TYPE_REG is 1.
  function TypeField(isDir: bool): (r: seq<byte>)
    ensures |r| == 4
  {
    [if isDir then 0 else 1, 0, 0, 0]
  }

  function RegFields(info: FileInfo): (r: seq<byte>)
    ensures |r| == 56
  {
    Word64(info.size) + [if info.hasTth then 1 else 0] + info.tth + Word64(info.mtime)
  }

  function RealPathField(realPath: Option<Name>): seq<byte> {
    match realPath
    case None => [0]
    case Some(path) => [1] + CStringBytes(path)
  }

  function Head(isDir: bool, name: Name): seq<byte> {
    TypeField(isDir) + CStringBytes(name)
  }

  function DirFields(realPath: Option<Name>, count: nat): seq<byte> {
    RealPathField(realPath) + Word64(count)
  }

  function Serial(name: Name, w: Walk): seq<byte>
    decreases w, 1
  {
    Head(w.Folder?, name) + Body(w)
  }

  function Body(w: Walk): seq<byte>
    decreases w, 0
  {
    match w
    case File(info) => RegFields(info)
    case Folder(realPath, entries) => DirFields(realPath, |entries|) + SerialEntries(entries)
  }

  function SerialEntries(entries: seq<Entry>): seq<byte>
    decreases entries
  {
    if entries == [] then [] else Serial(entries[0].name, entries[0].walk) + SerialEntries(entries[1..])
  }

  // ---- The format, byte by byte

  // A file: the type in four bytes, the name and a NUL, the size in eight, a byte that says whether
  // there is a hash, the hash, and the time in eight.
  lemma SerialFile(name: Name, info: FileInfo)
    ensures Serial(name, File(info))
         == [1, 0, 0, 0] + (name + [0])
            + (LittleEndian(info.size, 8) + [if info.hasTth then 1 else 0] + info.tth + LittleEndian(info.mtime, 8))
  {
  }

  // A directory: the type, the name and a NUL, a byte that says whether there is a real path, the
  // real path and a NUL, the number of entries in eight bytes, and then the entries in the order of
  // the traversal.
  lemma SerialDir(name: Name, realPath: Option<Name>, entries: seq<Entry>)
    ensures Serial(name, Folder(realPath, entries))
         == [0, 0, 0, 0] + (name + [0])
            + ((if realPath.Some? then [1] + (realPath.value + [0]) else [0]) + LittleEndian(|entries|, 8) + SerialEntries(entries))
  {
  }

  lemma SerialInOrder(entries: seq<Entry>, e: Entry)
    ensures SerialEntries([]) == [] && SerialEntries(entries + [e]) == SerialEntries(entries) + Serial(e.name, e.walk)
  {
    SerialAppend(entries, e);
  }

  // ---- The size, which no iteration order changes

  function NodeSize(name: Name, t: Tree): nat {
    match t
    case Reg(_) => 4 + |name| + 1 + 8 + 1 + 39 + 8
    case Dir(_, realPath, _) => 4 + |name| + 1 + 1 + (if realPath.Some? then |realPath.value| + 1 else 0) + 8
  }

  ghost function DataSize(name: Name, t: Tree): nat
    decreases t, 0
  {
    NodeSize(name, t) + if t.Dir? then DataSizes(t, t.children.Keys) else 0
  }

  // The total for some of the children of a directory.
  ghost function DataSizes(t: Tree, names: set<Name>): nat
    requires t.Dir? && names <= t.children.Keys
    decreases t, 0, |names|
  {
    if names == {} then 0
    else
      var name :| name in names;
      DataSize(name, t.children[name]) + DataSizes(t, names - {name})
  }

  lemma {:induction false} DataSizesWithout(t: Tree, names: set<Name>, name: Name)
    requires t.Dir? && names <= t.children.Keys && name in names
    ensures DataSizes(t, names) == DataSize(name, t.children[name]) + DataSizes(t, names - {name})
    decreases |names|
  {
    var first :| first in names && DataSizes(t, names) == DataSize(first, t.children[first]) + DataSizes(t, names - {first});
    if first != name {
      DataSizesWithout(t, names - {first}, name);
      DataSizesWithout(t, names - {name}, first);
      assert names - {first} - {name} == names - {name} - {first};
    }
  }

  method CalculateFilelistDataSize(node: FileNode, ghost t: Tree, ghost repr: set<FileNode>) returns (size: nat)
    requires Denotes(node, t, repr)
    ensures size == DataSize(node.name, t)
    decreases t
  {
    if !node.isDir {
      return 4 + |node.name| + 1 + 8 + 1 + 39 + 8;
    }
    size := 4 + |node.name| + 1 + 1 + (if node.realPath.Some? then |node.realPath.value| + 1 else 0) + 8;
    var rest := node.children.Keys;
    while rest != {}
      invariant rest <= t.children.Keys
      invariant size + DataSizes(t, rest) == DataSize(node.name, t)
      decreases |rest|
    {
      var name :| name in rest;
      assert IsChild(node, name, repr);
      var childSize := CalculateFilelistDataSize(node.children[name], t.children[name], repr);
      DataSizesWithout(t, rest, name);
      size := size + childSize;
      rest := rest - {name};
    }
  }

  // ---- Packing

  // The buffer after writing s at pos.
  function Overwrite(data: seq<byte>, pos: nat, s: seq<byte>): (r: seq<byte>)
    requires pos + |s| <= |data|
    ensures |r| == |data|
  {
    data[..pos] + s + data[pos + |s|..]
  }

  lemma OverwriteTwice(data: seq<byte>, pos: nat, a: seq<byte>, mid: nat, b: seq<byte>)
    requires pos + |a| == mid && mid + |b| <= |data|
    ensures Overwrite(Overwrite(data, pos, a), mid, b) == Overwrite(data, pos, a + b)
  {
  }

  // Copy bytes to a position and move behind them.
  method Put(data: array<byte>, pos: nat, s: seq<byte>) returns (end: nat)
    requires pos + |s| <= data.Length
    modifies data
    ensures end == pos + |s| && data[..] == Overwrite(old(data[..]), pos, s)
  {
    forall i | 0 <= i < |s| {
      data[pos + i] := s[i];
    }
    end := pos + |s|;
  }

  lemma {:induction false} SerialSize(name: Name, w: Walk, t: Tree)
    requires Walks(w, t)
    ensures |Serial(name, w)| == DataSize(name, t)
    decreases w
  {
    if w.Folder? {
      assert Those(t.children, t.children.Keys) == t.children;
      SerialSizes(w.entries, t, t.children.Keys);
    }
  }

  lemma {:induction false} SerialSizes(entries: seq<Entry>, t: Tree, names: set<Name>)
    requires t.Dir? && names <= t.children.Keys && Visits(entries, Those(t.children, names))
    ensures |SerialEntries(entries)| == DataSizes(t, names) && |entries| == |names|
    decreases entries
  {
    assert Those(t.children, names).Keys == names;
    if entries != [] {
      var name := entries[0].name;
      SerialSize(name, entries[0].walk, t.children[name]);
      DataSizesWithout(t, names, name);
      assert Those(t.children, names) - {name} == Those(t.children, names - {name});
      SerialSizes(entries[1..], t, names - {name});
    }
  }

  function Those(children: map<Name, Tree>, names: set<Name>): map<Name, Tree>
    requires names <= children.Keys
  {
    map name | name in names :: children[name]
  }

  lemma {:induction false} SerialAppend(entries: seq<Entry>, e: Entry)
    ensures SerialEntries(entries + [e]) == SerialEntries(entries) + Serial(e.name, e.walk)
    decreases entries
  {
    if entries == [] {
      assert entries + [e] == [e] && [e][1..] == [];
    } else {
      assert (entries + [e])[1..] == entries[1..] + [e];
      SerialAppend(entries[1..], e);
    }
  }

  method PutHead(data: array<byte>, pos: nat, isDir: bool, name: Name) returns (end: nat)
    requires pos + |Head(isDir, name)| <= data.Length
    modifies data
    ensures end == pos + |Head(isDir, name)| && data[..] == Overwrite(old(data[..]), pos, Head(isDir, name))
  {
    end := Put(data, pos, TypeField(isDir));
    OverwriteTwice(old(data[..]), pos, TypeField(isDir), end, CStringBytes(name));
    end := Put(data, end, CStringBytes(name));
  }

  method PutReg(data: array<byte>, pos: nat, info: FileInfo) returns (end: nat)
    requires pos + |RegFields(info)| <= data.Length
    modifies data
    ensures end == pos + |RegFields(info)| && data[..] == Overwrite(old(data[..]), pos, RegFields(info))
  {
    ghost var before, done := data[..], Word64(info.size);
    end := Put(data, pos, Word64(info.size));
    OverwriteTwice(before, pos, done, end, [if info.hasTth then 1 else 0]);
    end := Put(data, end, [if info.hasTth then 1 else 0]);
    done := done + [if info.hasTth then 1 else 0];
    OverwriteTwice(before, pos, done, end, info.tth);
    end := Put(data, end, info.tth);
    done := done + info.tth;
    OverwriteTwice(before, pos, done, end, Word64(info.mtime));
    end := Put(data, end, Word64(info.mtime));
  }

  method PutDir(data: array<byte>, pos: nat, realPath: Option<Name>, count: nat) returns (end: nat)
    requires pos + |DirFields(realPath, count)| <= data.Length
    modifies data
    ensures end == pos + |DirFields(realPath, count)|
    ensures data[..] == Overwrite(old(data[..]), pos, DirFields(realPath, count))
  {
    ghost var before := data[..];
    end := Put(data, pos, [if realPath.Some? then 1 else 0]);
    if realPath.Some? {
      OverwriteTwice(before, pos, [1], end, CStringBytes(realPath.value));
      end := Put(data, end, CStringBytes(realPath.value));
    }
    OverwriteTwice(before, pos, RealPathField(realPath), end, Word64(count));
    end := Put(data, end, Word64(count));
  }

  // Exactly the computed number of bytes is written, from pos on.
  method CopyFilelistToData(node: FileNode, data: array<byte>, pos: nat, ghost t: Tree, ghost repr: set<FileNode>)
    returns (end: nat, ghost w: Walk)
    requires Denotes(node, t, repr) && pos + DataSize(node.name, t) <= data.Length
    modifies data
    ensures Walks(w, t) && end == pos + DataSize(node.name, t)
    ensures |Serial(node.name, w)| == DataSize(node.name, t)
    ensures data[..] == Overwrite(old(data[..]), pos, Serial(node.name, w))
    decreases t, 2
  {
    ghost var before, head := data[..], Head(node.isDir, node.name);
    end := PutHead(data, pos, node.isDir, node.name);
    ghost var mid := end;
    if !node.isDir {
      end := PutReg(data, end, FileInfo(node.size, node.hasTth, node.tth, node.mtime));
      OverwriteTwice(before, pos, head, mid, RegFields(t.info));
      w := File(t.info);
    } else {
      ghost var entries;
      end, entries := CopyDir(node, data, end, t, repr);
      w := Folder(t.realPath, entries);
      OverwriteTwice(before, pos, head, mid, Body(w));
    }
    SerialSize(node.name, w, t);
  }

  method CopyDir(node: FileNode, data: array<byte>, pos: nat, ghost t: Tree, ghost repr: set<FileNode>)
    returns (end: nat, ghost entries: seq<Entry>)
    requires t.Dir? && Denotes(node, t, repr)
    requires pos + |DirFields(t.realPath, |t.children.Keys|)| + DataSizes(t, t.children.Keys) <= data.Length
    modifies data
    ensures Visits(entries, t.children) && end == pos + |Body(Folder(t.realPath, entries))|
    ensures |SerialEntries(entries)| == DataSizes(t, t.children.Keys)
    ensures data[..] == Overwrite(old(data[..]), pos, Body(Folder(t.realPath, entries)))
    decreases t, 1
  {
    ghost var before, fields := data[..], DirFields(node.realPath, |node.children.Keys|);
    end := PutDir(data, pos, node.realPath, |node.children.Keys|);
    ghost var mid := end;
    end, entries := CopyChildren(node, data, end, t, repr);
    OverwriteTwice(before, pos, fields, mid, SerialEntries(entries));
  }

  method CopyChildren(node: FileNode, data: array<byte>, pos: nat, ghost t: Tree, ghost repr: set<FileNode>)
    returns (end: nat, ghost entries: seq<Entry>)
    requires t.Dir? && Denotes(node, t, repr) && pos + DataSizes(t, t.children.Keys) <= data.Length
    modifies data
    ensures Visits(entries, t.children) && end == pos + |SerialEntries(entries)|
    ensures |SerialEntries(entries)| == DataSizes(t, t.children.Keys) && |entries| == |t.children.Keys|
    ensures data[..] == Overwrite(old(data[..]), pos, SerialEntries(entries))
    decreases t, 0
  {
    end, entries := pos, [];
    var rest := node.children.Keys;
    VisitedNone(t.children);
    while rest != {}
      invariant Visited(entries, t.children, rest)
      invariant end == pos + |SerialEntries(entries)|
      invariant end + DataSizes(t, rest) == pos + DataSizes(t, t.children.Keys)
      invariant data[..] == Overwrite(old(data[..]), pos, SerialEntries(entries))
      decreases |rest|
    {
      var name :| name in rest;
      assert IsChild(node, name, repr);
      DataSizesWithout(t, rest, name);
      ghost var w;
      ghost var mid := end;
      end, w := CopyFilelistToData(node.children[name], data, end, t.children[name], repr);
      ghost var e := Entry(name, w);
      VisitNext(entries, t.children, rest, e);
      SerialAppend(entries, e);
      OverwriteTwice(old(data[..]), pos, SerialEntries(entries), mid, Serial(name, w));
      rest := rest - {name};
      entries := entries + [e];
    }
    VisitedAll(entries, t.children);
    assert Those(t.children, t.children.Keys) == t.children;
    SerialSizes(entries, t, t.children.Keys);
  }

  method FilelistToData(node: FileNode, ghost t: Tree, ghost repr: set<FileNode>) returns (data: array<byte>, ghost w: Walk)
    requires Denotes(node, t, repr)
    ensures Walks(w, t) && data[..] == Serial(node.name, w)
  {
    var size := CalculateFilelistDataSize(node, t, repr);
    data := new byte[size];
    ghost var before := data[..];
    var end;
    end, w := CopyFilelistToData(node, data, 0, t, repr);
    assert Overwrite(before, 0, Serial(node.name, w)) == Serial(node.name, w);
  }
}

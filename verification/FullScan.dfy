/** dir_to_filelist: building the nodes of a shared directory from scratch. */
module FullScan {
  import opened Wrappers
  import opened FileTree
  import opened FileNodes
  import opened Footprint
  import opened Refresh
  import opened RefreshDir

  // What the scan has built after looking at these names.
  ghost function ScannedSome(d: Disk, path: Name, done: set<Name>): map<Name, Tree>
    requires d.DDir?
  {
    map name | name in done && name in d.entries && Shared(name, d.entries[name]) :: Scan(d.entries[name], CatFiles(path, name))
  }

  ghost function ScannedTree(d: Disk, path: Name, done: set<Name>): Tree
    requires d.DDir?
  {
    Dir(SumOf(ScannedSome(d, path, done)), Some(path), ScannedSome(d, path, done))
  }

  // The tree t after one more entry.
  ghost function WithEntry(t: Tree, name: Name, d: Disk, fullname: Name): Tree
    requires t.Dir?
  {
    if d.DOther? then t
    else var k := Scan(d, fullname); t.(children := t.children[name := k], size := t.size + SizeOf(k))
  }

  lemma ScannedNext(d: Disk, path: Name, done: set<Name>, name: Name)
    requires d.DDir? && name in d.entries && !Special(name) && name !in done
    ensures name !in ScannedTree(d, path, done).children
    ensures WithEntry(ScannedTree(d, path, done), name, d.entries[name], CatFiles(path, name)) == ScannedTree(d, path, done + {name})
  {
    var e, before, after := d.entries[name], ScannedSome(d, path, done), ScannedSome(d, path, done + {name});
    if e.DOther? {
      assert after == before;
    } else {
      assert after == before[name := Scan(e, CatFiles(path, name))];
      SumWithout(after, name);
      assert after - {name} == before;
    }
  }

  lemma ScannedAll(d: Disk, path: Name)
    requires d.DDir?
    ensures ScannedTree(d, path, Listed(d)) == Scan(d, path) && ScannedTree(d, path, {}) == Dir(0, Some(path), map[])
  {
    assert ScannedSome(d, path, Listed(d)) == Scanned(d, path);
    assert ScannedSome(d, path, {}) == map[];
  }

  // One name that readdir delivers.
  method ScanEntry(parent: FileNode, name: Name, d: Disk, fullname: Name, ghost f: Foot, ghost t: Tree)
    returns (ghost g: Foot, ghost u: Tree)
    requires Tidy(f) && Owns(f, t) && f.node == parent && t.Dir? && name !in t.children
    modifies parent`children, parent`size
    ensures Tidy(g) && Owns(g, u) && g.node == parent && forall n :: n in g.below ==> n in f.below || fresh(n)
    ensures u == WithEntry(t, name, d, fullname)
    decreases d, 1
  {
    label start:
    g, u := f, t;
    if d.DOther? {
      return;
    }
    ghost var kid, k := f, Scan(d, fullname);
    if d.DDir? {
      var node := NewFileNode(name, true, parent);
      kid := DirToFilelist(node, fullname, d);
      label built:
      parent.size := parent.size + node.size;
      TreeStays@built(kid, k);
    } else {
      var node := NewFileNode(name, false, parent);
      node.size := d.size;
      node.mtime := d.mtime;
      parent.size := parent.size + node.size;
      kid := Foot(node, {}, map[]);
    }
    g, u := With(f, name, kid), t.(children := t.children[name := k], size := t.size + SizeOf(k));
    NewKid@start(f, t, kid, name, k, parent.size);
  }

  // The nodes it builds hold the tree a full scan gives.
  method DirToFilelist(parent: FileNode, path: Name, d: Disk) returns (ghost g: Foot)
    requires d.DDir? && parent.isDir && parent.children == map[] && parent.size == 0
    modifies parent`realPath, parent`children, parent`size
    ensures Tidy(g) && Owns(g, Scan(d, path)) && g.node == parent && fresh(g.below)
    decreases d, 0
  {
    parent.realPath := Some(path);
    g := Foot(parent, {}, map[]);
    var rest := d.entries.Keys + {CURRENT_DIR, PARENT_DIR};
    ghost var done: set<Name> := {};
    ScannedAll(d, path);
    ghost var t := ScannedTree(d, path, done);
    while rest != {}
      invariant Splits(d, done, rest)
      invariant Tidy(g) && Owns(g, t) && g.node == parent && forall n :: n in g.below ==> fresh(n)
      invariant t == ScannedTree(d, path, done)
      decreases |rest|
    {
      var name :| name in rest;
      SplitsNext(d, done, rest, name);
      rest := rest - {name};
      if !Special(name) {
        ScannedNext(d, path, done, name);
        g, t := ScanEntry(parent, name, d.entries[name], CatFiles(path, name), g, t);
        done := done + {name};
      }
    }
    assert done == Listed(d);
  }
}

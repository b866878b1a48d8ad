/** Scans and refreshes path by path: what stands at the end of a path on the disk, and what the
    tree, the queue and the result say of it. */
module RefreshPaths {
  import opened Bytes
  import opened Wrappers
  import opened FileTree
  import opened FileNodes
  import opened Footprint
  import opened Refresh
  import opened RefreshDir
  import opened RefreshNodes

  // What the tree has at the end of a path.
  function TreeAt(t: Tree, names: seq<Name>): Option<Tree>
    decreases names
  {
    if names == [] then Some(t)
    else if t.Dir? && names[0] in t.children then TreeAt(t.children[names[0]], names[1..])
    else None
  }

  // And the node that holds it.
  function NodeAt(f: Foot, names: seq<Name>): Option<FileNode>
    decreases names
  {
    if names == [] then Some(f.node)
    else if names[0] in f.kids then NodeAt(f.kids[names[0]], names[1..])
    else None
  }

  function Up(names: seq<Name>): seq<Name>
    requires names != []
  {
    names[..|names| - 1]
  }

  function Last(names: seq<Name>): Name
    requires names != []
  {
    names[|names| - 1]
  }

  lemma FileIsTree(t: Tree, names: seq<Name>)
    ensures var there := TreeAt(t, names); FileAt(t, names) == if there.Some? && there.value.Reg? then Some(there.value.info) else None
  {
  }

  lemma SpecialNames(name: Name)
    ensures Special(name) <==> name == [46] || name == [46, 46]
                               || (|name| >= 12 && name[..12] == [46, 109, 105, 99, 114, 111, 100, 99, 95, 116, 116, 104])
  {
  }

  // ---- The result of a pass

  // Both have a directory in front of the last name, so a pass looks at it.
  predicate Visited(t: Tree, d: Disk, names: seq<Name>) {
    && names != []
    && TreeAt(t, Up(names)).Some? && TreeAt(t, Up(names)).value.Dir?
    && DiskAt(d, Up(names)).Some? && DiskAt(d, Up(names)).value.DDir?
  }

  lemma Shorter(names: seq<Name>)
    requires |names| > 1
    ensures Up(names)[0] == names[0] && Up(names)[1..] == Up(names[1..]) && Last(names[1..]) == Last(names)
  {
  }

  lemma VisitedBelow(t: Tree, d: Disk, names: seq<Name>)
    requires |names| > 1
    ensures Visited(t, d, names)
       <==> t.Dir? && names[0] in t.children && d.DDir? && names[0] in d.entries
            && Visited(t.children[names[0]], d.entries[names[0]], names[1..])
  {
    Shorter(names);
  }

  // A pass that returns false: nothing is gone, nothing is new, and every file whose node was not
  // queued has on the disk the size and the time it has in the tree.
  lemma {:induction false} QuietPass(f: Foot, t: Tree, d: Disk, items: seq<FileNode>, names: seq<Name>)
    requires Owns(f, t) && !Reports(f, t, d, items) && Visited(t, d, names)
    ensures TreeAt(t, names).Some? ==> DiskAt(d, names).Some?
    ensures DiskAt(d, names).Some? && !Special(Last(names)) ==> TreeAt(t, names).Some?
    ensures FileAt(t, names).Some? && !Special(Last(names)) ==> NodeAt(f, names).Some? && DiskAt(d, names).Some?
    ensures FileAt(t, names).Some? && !Special(Last(names)) && NodeAt(f, names).value !in items ==>
      var info, e := FileAt(t, names).value, DiskAt(d, names).value; info.size == e.size && info.mtime == e.mtime
    decreases names
  {
    var name, rest := names[0], names[1..];
    if rest == [] {
      assert names == [name];
      VisitedOne(t, d, name);
      FileIsTree(t, names);
      assert name !in Gone(t, d);
      assert name in d.entries && !Special(name) ==> name in Listed(d) && !Noticed(f, t, name, d.entries[name], items);
      if name in t.children {
        assert OwnsKid(f, name, t.children[name]);
        assert NodeAt(f, names) == NodeAt(f.kids[name], []);
      }
    } else {
      VisitedBelow(t, d, names);
      Shorter(names);
      assert OwnsKid(f, name, t.children[name]);
      assert !BelowReports(f, t, d, items, name);
      QuietPass(f.kids[name], t.children[name], d.entries[name], items, rest);
    }
  }

  lemma VisitedOne(t: Tree, d: Disk, name: Name)
    ensures Visited(t, d, [name]) <==> t.Dir? && d.DDir?
    ensures TreeAt(t, [name]) == if t.Dir? && name in t.children then Some(t.children[name]) else None
    ensures DiskAt(d, [name]) == if d.DDir? && name in d.entries then Some(d.entries[name]) else None
    ensures Last([name]) == name
  {
    assert [name][1..] == [];
  }

  lemma OneBelow(f: Foot, t: Tree, d: Disk, name: Name, rest: seq<Name>)
    requires t.Dir? && d.DDir? && name in t.children && name in d.entries && name in f.kids && rest != []
    ensures var names := [name] + rest;
            && TreeAt(t, names) == TreeAt(t.children[name], rest) && DiskAt(d, names) == DiskAt(d.entries[name], rest)
            && FileAt(t, names) == FileAt(t.children[name], rest) && NodeAt(f, names) == NodeAt(f.kids[name], rest)
            && Last(names) == Last(rest) && (Visited(t.children[name], d.entries[name], rest) ==> Visited(t, d, names))
  {
    var names := [name] + rest;
    assert names[1..] == rest;
    VisitedBelow(t, d, names);
  }

  // A pass that returns true has found something that is gone, something that is new (a file, a
  // directory or anything else), or a file that has changed and was not queued.
  lemma {:induction false} LoudPass(f: Foot, t: Tree, d: Disk, items: seq<FileNode>) returns (names: seq<Name>)
    requires Owns(f, t) && Reports(f, t, d, items)
    ensures Visited(t, d, names)
    ensures || (TreeAt(t, names).Some? && DiskAt(d, names).None?)
            || (TreeAt(t, names).None? && DiskAt(d, names).Some? && !Special(Last(names)))
            || (&& FileAt(t, names).Some? && DiskAt(d, names).Some? && NodeAt(f, names).Some? && NodeAt(f, names).value !in items
                && var info, e := FileAt(t, names).value, DiskAt(d, names).value; info.size != e.size || info.mtime != e.mtime)
    decreases t
  {
    if d.DDir? && Gone(t, d) != {} {
      var name :| name in Gone(t, d);
      VisitedOne(t, d, name);
      names := [name];
    } else if d.DDir? && AnyNoticed(f, t, d, Listed(d), items) {
      var name :| name in Listed(d) && name in d.entries && Noticed(f, t, name, d.entries[name], items);
      VisitedOne(t, d, name);
      names := [name];
      FileIsTree(t, names);
      if name in t.children {
        assert OwnsKid(f, name, t.children[name]);
        assert names[1..] == [];
      }
    } else {
      var name :| name in t.children && BelowReports(f, t, d, items, name);
      assert OwnsKid(f, name, t.children[name]);
      if d.DDir? {
        var rest := LoudPass(f.kids[name], t.children[name], d.entries[name], items);
        names := [name] + rest;
        OneBelow(f, t, d, name, rest);
      } else {
        QuietWithoutDir(f.kids[name], t.children[name], d, items);
        assert false;
      }
    }
  }

  lemma {:induction false} QuietWithoutDir(f: Foot, t: Tree, d: Disk, items: seq<FileNode>)
    requires !d.DDir?
    ensures !Reports(f, t, d, items)
    decreases t
  {
    if t.Dir? {
      forall name | name in t.children
        ensures !BelowReports(f, t, d, items, name)
      {
        if name in f.kids {
          QuietWithoutDir(f.kids[name], t.children[name], d, items);
        }
      }
    }
  }

  // ---- The queue and the nodes

  // A node belongs to the tree if and only if some path leads to it.
  lemma {:induction false} LiveByPath(f: Foot, n: FileNode) returns (names: seq<Name>)
    requires Live(f, n)
    ensures NodeAt(f, names) == Some(n)
  {
    if n == f.node {
      names := [];
    } else {
      var a :| a in f.kids && Live(f.kids[a], n);
      var rest := LiveByPath(f.kids[a], n);
      names := [a] + rest;
      assert names[1..] == rest;
    }
  }

  lemma {:induction false} PathIsLive(f: Foot, names: seq<Name>)
    requires NodeAt(f, names).Some?
    ensures Live(f, NodeAt(f, names).value)
    decreases names
  {
    if names != [] {
      PathIsLive(f.kids[names[0]], names[1..]);
    }
  }

  // The nodes that are queued are those at the paths of files without a hash.
  lemma {:induction false} UnhashedByPath(g: Foot, r: Tree, n: FileNode) returns (names: seq<Name>)
    requires Owns(g, r) && IsUnhashed(g, r, n)
    ensures NodeAt(g, names) == Some(n) && FileAt(r, names).Some? && !FileAt(r, names).value.hasTth
    decreases r
  {
    if r.Reg? {
      names := [];
    } else {
      var a :| a in r.children && a in g.kids && IsUnhashed(g.kids[a], r.children[a], n);
      assert OwnsKid(g, a, r.children[a]);
      var rest := UnhashedByPath(g.kids[a], r.children[a], n);
      names := [a] + rest;
      assert names[1..] == rest;
    }
  }

  lemma {:induction false} PathIsUnhashed(g: Foot, r: Tree, names: seq<Name>)
    requires Owns(g, r) && FileAt(r, names).Some? && !FileAt(r, names).value.hasTth
    ensures NodeAt(g, names).Some? && IsUnhashed(g, r, NodeAt(g, names).value)
    decreases names
  {
    if names != [] {
      assert OwnsKid(g, names[0], r.children[names[0]]);
      PathIsUnhashed(g.kids[names[0]], r.children[names[0]], names[1..]);
    }
  }

  // ---- A full scan

  // A path is joined with slashes.
  lemma CatFilesIs(path: Name, name: Name)
    ensures CatFiles(path, name) == if path == [] || path[|path| - 1] == 47 then path + name else path + [47] + name
  {
  }

  // A scan shares exactly the files and directories whose names are ordinary all the way, with the
  // size and the time of the disk and no hash.
  lemma {:induction false} ScanByPath(d: Disk, path: Name, names: seq<Name>)
    requires d.DDir?
    ensures FileAt(Scan(d, path), names)
         == if DiskAt(d, names).Some? && DiskAt(d, names).value.DFile? && forall name :: name in names ==> !Special(name)
            then Some(FileInfo(DiskAt(d, names).value.size, false, Repeat(0, 39), DiskAt(d, names).value.mtime)) else None
    ensures TreeAt(Scan(d, path), names).Some? && TreeAt(Scan(d, path), names).value.Dir?
       <==> DiskAt(d, names).Some? && DiskAt(d, names).value.DDir? && forall name :: name in names ==> !Special(name)
    decreases names
  {
    if names != [] {
      var name, rest := names[0], names[1..];
      assert names == [name] + rest;
      if name in d.entries && Shared(name, d.entries[name]) {
        var e, fullname := d.entries[name], CatFiles(path, name);
        assert TreeAt(Scan(d, path), names) == TreeAt(Scan(e, fullname), rest);
        assert DiskAt(d, names) == DiskAt(e, rest);
        if e.DDir? {
          ScanByPath(e, fullname, rest);
        }
      }
    }
  }

  // And every directory has the size of the files in it and the real path that leads to it.
  lemma {:induction false} ScanAddsUp(d: Disk, path: Name)
    ensures Additive(Scan(d, path)) && Placed(Scan(d, path), path) && Ordinary(Scan(d, path))
    decreases d
  {
    if d.DDir? {
      var scanned := Scanned(d, path);
      forall name | name in scanned
        ensures Additive(scanned[name]) && Placed(scanned[name], CatFiles(path, name)) && Ordinary(scanned[name])
      {
        ScanAddsUp(d.entries[name], CatFiles(path, name));
      }
    }
  }

  // ---- A refresh

  // A file that the tree has and that is still there, as whatever it may be now: it stays a file,
  // has the size and the time of the disk, and keeps its hash if neither has changed.
  lemma {:induction false} KnownFile(t: Tree, d: Disk, path: Name, names: seq<Name>, info: FileInfo, e: Disk)
    requires Ordinary(t) && t.Dir? && FileAt(t, names) == Some(info) && DiskAt(d, names) == Some(e)
    ensures FileAt(Refreshed(t, d, path), names)
         == Some(if e.size == info.size && e.mtime == info.mtime then info else FileInfo(e.size, false, info.tth, e.mtime))
    decreases names
  {
    var name, rest := names[0], names[1..];
    KnownName(t, d, path, name);
    var child, kept := t.children[name], RefreshedChildren(t, d, path)[name];
    assert FileAt(Refreshed(t, d, path), names) == FileAt(kept, rest);
    if child.Dir? {
      KnownFile(child, d.entries[name], CatFiles(path, name), rest, info, e);
    } else {
      assert rest == [] && d.entries[name] == e;
    }
  }

  // What is below a directory that is none any more on the disk stays as it is.
  lemma {:induction false} LostDirectory(t: Tree, d: Disk, path: Name, names: seq<Name>)
    requires !d.DDir?
    ensures FileAt(Refreshed(t, d, path), names) == FileAt(t, names)
    decreases names
  {
    if names != [] && t.Dir? && names[0] in t.children {
      LostDirectory(t.children[names[0]], d, CatFiles(path, names[0]), names[1..]);
    }
  }
}

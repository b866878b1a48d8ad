/** Sharing a directory: the tree a full scan builds, the tree an incremental refresh makes of
    an older one, and how the two agree. */
module Refresh {
  import opened Wrappers
  import opened FileTree

  // A snapshot of one file system entry, with what stat says of it. Every entry is readable.
  datatype Disk =
    | DFile(size: nat, mtime: nat)
    | DDir(size: nat, mtime: nat, entries: map<Name, Disk>)
    | DOther(size: nat, mtime: nat)

  // ".microdc_tth"
  const TTH_DIRECTORY_NAME: Name := [46, 109, 105, 99, 114, 111, 100, 99, 95, 116, 116, 104]

  predicate Special(name: Name) {
    || name == CURRENT_DIR || name == PARENT_DIR
    || (|name| >= |TTH_DIRECTORY_NAME| && name[..|TTH_DIRECTORY_NAME|] == TTH_DIRECTORY_NAME)
  }

  function CatFiles(path: Name, name: Name): Name {
    if path == [] || path[|path| - 1] == SLASH then path + name else path + [SLASH] + name
  }

  // Where the children of a node are on the disk: under its real path, or, for the root of the
  // list, which has none, each at the path it is shared from.
  datatype Place = At(path: Name) | Shares(paths: map<Name, Name>)

  function Below(place: Place, name: Name): Name {
    match place
    case At(path) => CatFiles(path, name)
    case Shares(paths) => if name in paths then paths[name] else []
  }

  // ---- A full scan

  function NewFile(d: Disk): FileInfo {
    FileInfo(d.size, false, NO_TTH, d.mtime)
  }

  predicate Shared(name: Name, d: Disk) {
    !Special(name) && !d.DOther?
  }

  // The tree dir_to_filelist builds.
  ghost function Scan(d: Disk, path: Name): Tree
    decreases d, 1
  {
    if d.DDir? then Dir(SumOf(Scanned(d, path)), Some(path), Scanned(d, path)) else Reg(NewFile(d))
  }

  ghost function Scanned(d: Disk, path: Name): map<Name, Tree>
    requires d.DDir?
    decreases d, 0
  {
    map name | name in d.entries && Shared(name, d.entries[name]) :: Scan(d.entries[name], CatFiles(path, name))
  }

  // ---- A refresh

  // What becomes of a name that readdir delivers: a known file is compared, a new one added.
  function Touch(known: Option<Tree>, d: Disk, path: Name): Option<Tree> {
    match known
    case Some(Reg(info)) =>
      if d.mtime != info.mtime || info.size != d.size then Some(Reg(FileInfo(d.size, false, info.tth, d.mtime)))
      else known
    case Some(Dir(_, _, _)) => known
    case None =>
      match d
      case DFile(_, _) => Some(Reg(NewFile(d)))
      case DDir(_, _, _) => Some(Dir(0, Some(path), map[]))
      case DOther(_, _) => None
  }

  function Get(children: map<Name, Tree>, name: Name): Option<Tree> {
    if name in children then Some(children[name]) else None
  }

  // The child of this name after the names were compared with the directory, before subdirectories
  // are visited.
  function After(children: map<Name, Tree>, entries: map<Name, Disk>, path: Name, name: Name): Option<Tree>
    requires name in entries
  {
    if Special(name) then Get(children, name)
    else Touch(Get(children, name), entries[name], CatFiles(path, name))
  }

  // The tree lookup_filelist_changes leaves, for a directory whose real path is path. Under a
  // path that is not a directory any more nothing is deleted: stat does not fail with ENOENT.
  ghost function Refreshed(t: Tree, d: Disk, path: Name): Tree
    decreases d, t, 1
  {
    if t.Reg? then t
    else Dir(SumOf(RefreshedChildren(t, d, path)), t.realPath, RefreshedChildren(t, d, path))
  }

  ghost function RefreshedChildren(t: Tree, d: Disk, path: Name): map<Name, Tree>
    requires t.Dir?
    decreases d, t, 0
  {
    if d.DDir? then
      map name | name in d.entries && After(t.children, d.entries, path, name).Some? ::
        Refreshed(After(t.children, d.entries, path, name).value, d.entries[name], CatFiles(path, name))
    else
      map name | name in t.children :: Refreshed(t.children[name], d, CatFiles(path, name))
  }

  // The same for the root of the list: each share is refreshed from its own directory.
  ghost function RefreshedRoot(t: Tree, disks: map<Name, Disk>, paths: map<Name, Name>): Tree
    requires t.Dir? && t.children.Keys <= disks.Keys
  {
    Dir(SumOf(RefreshedShares(t, disks, paths)), t.realPath, RefreshedShares(t, disks, paths))
  }

  ghost function RefreshedShares(t: Tree, disks: map<Name, Disk>, paths: map<Name, Name>): map<Name, Tree>
    requires t.Dir? && t.children.Keys <= disks.Keys
  {
    map name | name in t.children :: Refreshed(t.children[name], disks[name], Below(Shares(paths), name))
  }

  // No name in the tree is special.
  predicate Ordinary(t: Tree) {
    t.Dir? ==> forall name :: name in t.children ==> !Special(name) && Ordinary(t.children[name])
  }

  // The real path of every directory is made of its parent's and its name.
  predicate Placed(t: Tree, path: Name) {
    t.Dir? ==>
      && t.realPath == Some(path)
      && forall name :: name in t.children ==> Placed(t.children[name], CatFiles(path, name))
  }

  // No name is a file on one side and something else on the other.
  predicate SameKinds(t: Tree, d: Disk) {
    match t
    case Reg(_) => d.DFile?
    case Dir(_, _, children) =>
      d.DDir? && forall name :: name in children && name in d.entries ==> SameKinds(children[name], d.entries[name])
  }

  // The tree without its hashes.
  function Untagged(t: Tree): Tree
    decreases t, 1
  {
    match t
    case Reg(info) => Reg(FileInfo(info.size, false, NO_TTH, info.mtime))
    case Dir(size, realPath, _) => Dir(size, realPath, UntaggedChildren(t))
  }

  function UntaggedChildren(t: Tree): map<Name, Tree>
    requires t.Dir?
    decreases t, 0
  {
    map name | name in t.children :: Untagged(t.children[name])
  }

  lemma {:induction false} SumOfSame(a: map<Name, Tree>, b: map<Name, Tree>)
    requires a.Keys == b.Keys && forall name :: name in a ==> SizeOf(a[name]) == SizeOf(b[name])
    ensures SumOf(a) == SumOf(b)
    decreases |a|
  {
    if a != map[] {
      var name :| name in a;
      SumWithout(a, name);
      SumWithout(b, name);
      SumOfSame(a - {name}, b - {name});
    } else {
      assert b == map[];
    }
  }

  lemma UntaggedSum(t: Tree)
    requires t.Dir?
    ensures SumOf(UntaggedChildren(t)) == SumOf(t.children)
  {
    forall name | name in t.children
      ensures SizeOf(UntaggedChildren(t)[name]) == SizeOf(t.children[name])
    {
    }
    SumOfSame(UntaggedChildren(t), t.children);
  }

  lemma UntaggedIs(t: Tree, children: map<Name, Tree>, path: Name)
    requires t.Dir? && t.realPath == Some(path) && t.size == SumOf(t.children)
    requires t.children.Keys == children.Keys
    requires forall name :: name in children ==> Untagged(t.children[name]) == children[name]
    ensures Untagged(t) == Dir(SumOf(children), Some(path), children)
  {
    UntaggedSum(t);
    assert UntaggedChildren(t) == children;
  }

  // What becomes of a name on the disk that the tree does not have.
  lemma NewName(children: map<Name, Tree>, entries: map<Name, Disk>, path: Name, name: Name)
    requires name in entries && name !in children
    ensures var after, e, fullname := After(children, entries, path, name), entries[name], CatFiles(path, name);
            && (after.Some? <==> Shared(name, e))
            && (Shared(name, e) && e.DFile? ==> Untagged(Refreshed(after.value, e, fullname)) == Scan(e, fullname))
            && (Shared(name, e) && e.DDir? ==> after.value == Dir(0, Some(fullname), map[]))
  {
  }

  // What becomes of a name that both have.
  lemma KnownName(t: Tree, d: Disk, path: Name, name: Name)
    requires t.Dir? && d.DDir? && name in t.children && name in d.entries && !Special(name)
    ensures var child, e, kept := t.children[name], d.entries[name], RefreshedChildren(t, d, path);
            && name in kept
            && (child.Reg? ==> Untagged(kept[name]) == Reg(NewFile(e)))
            && (child.Dir? ==> kept[name] == Refreshed(child, e, CatFiles(path, name)))
  {
  }

  // What is new on the disk comes in as a scan would build it.
  lemma {:induction false} RefreshedNew(d: Disk, path: Name)
    requires d.DDir?
    ensures Untagged(Refreshed(Dir(0, Some(path), map[]), d, path)) == Scan(d, path)
    decreases d
  {
    var t := Dir(0, Some(path), map[]);
    var kept, scanned := RefreshedChildren(t, d, path), Scanned(d, path);
    forall name | name in d.entries
      ensures name in kept <==> name in scanned
      ensures name in kept ==> Untagged(kept[name]) == scanned[name]
    {
      NewName(map[], d.entries, path, name);
      if d.entries[name].DDir? {
        RefreshedNew(d.entries[name], CatFiles(path, name));
      }
    }
    UntaggedIs(Refreshed(t, d, path), scanned, path);
  }

  // When no name changes its kind, the refresh makes the tree that a full scan builds.
  lemma {:induction false} RefreshIsRescan(t: Tree, d: Disk, path: Name)
    requires Placed(t, path) && Ordinary(t) && SameKinds(t, d) && t.Dir?
    ensures Untagged(Refreshed(t, d, path)) == Scan(d, path)
    decreases d
  {
    var kept, scanned := RefreshedChildren(t, d, path), Scanned(d, path);
    forall name | name in d.entries
      ensures name in kept <==> name in scanned
      ensures name in kept ==> Untagged(kept[name]) == scanned[name]
    {
      var e, fullname := d.entries[name], CatFiles(path, name);
      if name !in t.children {
        NewName(t.children, d.entries, path, name);
        if e.DDir? {
          RefreshedNew(e, fullname);
        }
      } else {
        KnownName(t, d, path, name);
        assert SameKinds(t.children[name], e);
        if e.DDir? {
          RefreshIsRescan(t.children[name], e, fullname);
        }
      }
      assert name in kept ==> Untagged(kept[name]) == Scan(e, fullname);
    }
    UntaggedIs(Refreshed(t, d, path), scanned, path);
  }

  // And only then.
  lemma {:induction false} RescanNeedsSameKinds(t: Tree, d: Disk, path: Name)
    requires Placed(t, path) && Ordinary(t) && t.Dir? && d.DDir?
    requires Untagged(Refreshed(t, d, path)) == Scan(d, path)
    ensures SameKinds(t, d)
    decreases d
  {
    var kept, scanned := RefreshedChildren(t, d, path), Scanned(d, path);
    assert UntaggedChildren(Refreshed(t, d, path)) == scanned;
    forall name | name in t.children && name in d.entries
      ensures SameKinds(t.children[name], d.entries[name])
    {
      var child, e := t.children[name], d.entries[name];
      KnownName(t, d, path, name);
      assert name in scanned;
      assert Untagged(kept[name]) == scanned[name] == Scan(e, CatFiles(path, name));
      if child.Dir? {
        RescanNeedsSameKinds(child, e, CatFiles(path, name));
      }
    }
  }

  // A file that became a directory: the refresh keeps the file, a scan shares the directory.
  lemma KindChangeIsMissed(path: Name)
    ensures var name: Name := [97];
            var t := Dir(1, Some(path), map[name := Reg(PlainInfo(1))]);
            var d := DDir(0, 0, map[name := DDir(0, 0, map[])]);
            && Placed(t, path) && Ordinary(t) && !SameKinds(t, d)
            && Untagged(Refreshed(t, d, path)) != Scan(d, path)
  {
    var name: Name := [97];
    var t := Dir(1, Some(path), map[name := Reg(PlainInfo(1))]);
    var d := DDir(0, 0, map[name := DDir(0, 0, map[])]);
    assert name in t.children && name in d.entries && !Special(name);
    if Untagged(Refreshed(t, d, path)) == Scan(d, path) {
      RescanNeedsSameKinds(t, d, path);
    }
  }

  // ---- Hashes

  // The file at the end of a path.
  function FileAt(t: Tree, names: seq<Name>): Option<FileInfo>
    decreases names
  {
    if names == [] then (if t.Reg? then Some(t.info) else None)
    else if t.Dir? && names[0] in t.children then FileAt(t.children[names[0]], names[1..])
    else None
  }

  function DiskAt(d: Disk, names: seq<Name>): Option<Disk>
    decreases names
  {
    if names == [] then Some(d)
    else if d.DDir? && names[0] in d.entries then DiskAt(d.entries[names[0]], names[1..])
    else None
  }

  predicate Unchanged(info: FileInfo, d: Option<Disk>) {
    d.Some? && d.value.size == info.size && d.value.mtime == info.mtime
  }

  // A refreshed tree has a hash exactly where the older tree had the same hash and neither the
  // size nor the modification time on the disk differs.
  lemma {:induction false} HashKeptExactly(t: Tree, d: Disk, path: Name, names: seq<Name>, info: FileInfo)
    requires Ordinary(t) && SameKinds(t, d) && info.hasTth && t.Dir?
    ensures FileAt(Refreshed(t, d, path), names) == Some(info)
       <==> FileAt(t, names) == Some(info) && Unchanged(info, DiskAt(d, names))
    decreases names
  {
    if names != [] {
      var name, rest, kept := names[0], names[1..], RefreshedChildren(t, d, path);
      if name in d.entries && name in t.children {
        var child, e := t.children[name], d.entries[name];
        assert SameKinds(child, e) && DiskAt(d, names) == DiskAt(e, rest);
        KnownName(t, d, path, name);
        if child.Dir? {
          HashKeptExactly(child, e, CatFiles(path, name), rest, info);
        } else {
          assert kept[name] == Touch(Some(child), e, CatFiles(path, name)).value;
          assert rest == [] ==> DiskAt(e, rest) == Some(e);
        }
      } else if name in kept {
        NewName(t.children, d.entries, path, name);
        NewHasNoHash(d.entries[name], CatFiles(path, name), rest);
      }
    }
  }

  lemma {:induction false} NewHasNoHash(d: Disk, path: Name, names: seq<Name>)
    ensures d.DDir? ==> var file := FileAt(Refreshed(Dir(0, Some(path), map[]), d, path), names);
                        file.Some? ==> !file.value.hasTth
    decreases names
  {
    if names != [] && d.DDir? && names[0] in d.entries {
      NewName(map[], d.entries, path, names[0]);
      NewHasNoHash(d.entries[names[0]], CatFiles(path, names[0]), names[1..]);
      assert After(map[], d.entries, path, names[0]).Some? && d.entries[names[0]].DFile? ==>
          After(map[], d.entries, path, names[0]).value == Reg(NewFile(d.entries[names[0]]));
    }
  }

  // ---- The second pass

  lemma {:induction false} RefreshedPlaced(t: Tree, d: Disk, path: Name)
    requires Placed(t, path) && Ordinary(t)
    ensures var r := Refreshed(t, d, path); Placed(r, path) && Ordinary(r)
    decreases d, t
  {
    if t.Dir? {
      var kept := RefreshedChildren(t, d, path);
      forall name | name in kept
        ensures !Special(name) && Ordinary(kept[name]) && Placed(kept[name], CatFiles(path, name))
      {
        if d.DDir? {
          var before := After(t.children, d.entries, path, name).value;
          assert Placed(before, CatFiles(path, name)) && Ordinary(before);
          RefreshedPlaced(before, d.entries[name], CatFiles(path, name));
        } else {
          RefreshedPlaced(t.children[name], d, CatFiles(path, name));
        }
      }
    }
  }

  lemma {:induction false} RefreshedShape(t: Tree, d: Disk, path: Name)
    requires Placed(t, path) && Ordinary(t) && SameKinds(t, d)
    ensures var r := Refreshed(t, d, path); Placed(r, path) && Ordinary(r) && SameKinds(r, d)
    decreases d, t
  {
    RefreshedPlaced(t, d, path);
    if t.Dir? {
      var kept := RefreshedChildren(t, d, path);
      forall name | name in kept
        ensures SameKinds(kept[name], d.entries[name])
      {
        var before := After(t.children, d.entries, path, name).value;
        assert Placed(before, CatFiles(path, name)) && Ordinary(before) && SameKinds(before, d.entries[name]);
        RefreshedShape(before, d.entries[name], CatFiles(path, name));
      }
    }
  }

  // Refreshing again changes nothing.
  lemma {:induction false} RefreshTwice(t: Tree, d: Disk, path: Name)
    requires Ordinary(t)
    ensures Refreshed(Refreshed(t, d, path), d, path) == Refreshed(t, d, path)
    decreases d, t
  {
    if t.Dir? {
      var r, kept := Refreshed(t, d, path), RefreshedChildren(t, d, path);
      forall name | name in kept
        ensures name in RefreshedChildren(r, d, path) && RefreshedChildren(r, d, path)[name] == kept[name]
      {
        var fullname := CatFiles(path, name);
        if d.DDir? {
          var before := After(t.children, d.entries, path, name).value;
          RefreshTwice(before, d.entries[name], fullname);
          assert After(kept, d.entries, path, name) == Some(kept[name]);
        } else {
          RefreshTwice(t.children[name], d, fullname);
        }
      }
      assert RefreshedChildren(r, d, path).Keys == kept.Keys;
      assert RefreshedChildren(r, d, path) == kept;
    }
  }
}

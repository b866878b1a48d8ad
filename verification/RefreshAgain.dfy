/** Refreshing a second time. */
module RefreshAgain {
  import opened Wrappers
  import opened FileTree
  import opened FileNodes
  import opened Footprint
  import opened Refresh
  import opened RefreshDir
  import opened RefreshNodes

  // Somewhere a shared directory lists something that is neither a file nor a directory.
  predicate HasOther(d: Disk) {
    d.DDir? && exists name :: name in d.entries && !Special(name) && (d.entries[name].DOther? || HasOther(d.entries[name]))
  }

  // The same, but what the tree has as a file, or on the disk is no directory any more, is not
  // looked into, and what the tree has is not new.
  predicate Restless(t: Tree, d: Disk)
    decreases t
  {
    t.Dir? && d.DDir? && exists name {:trigger RestlessAt(t, d, name)} :: name in d.entries && !Special(name) && RestlessAt(t, d, name)
  }

  predicate RestlessAt(t: Tree, d: Disk, name: Name)
    requires t.Dir? && d.DDir? && name in d.entries
    decreases t, 0
  {
    if name in t.children then Restless(t.children[name], d.entries[name])
    else d.entries[name].DOther? || HasOther(d.entries[name])
  }

  // Without changes of kind the tree does not matter.
  lemma {:induction false} RestlessIsOther(t: Tree, d: Disk)
    requires SameKinds(t, d)
    ensures Restless(t, d) <==> HasOther(d)
    decreases t
  {
    if t.Dir? {
      forall name | name in d.entries
        ensures RestlessAt(t, d, name) <==> d.entries[name].DOther? || HasOther(d.entries[name])
      {
        if name in t.children {
          assert SameKinds(t.children[name], d.entries[name]);
          RestlessIsOther(t.children[name], d.entries[name]);
        }
      }
    }
  }

  // In the directories that still are directories every known file is up to date and every other
  // known name is there; what is not known is neither a file nor a directory.
  predicate UpToDate(r: Tree, d: Disk) {
    r.Dir? && d.DDir? ==>
      && (forall name :: name in r.children ==>
            && name in d.entries && !Special(name) && UpToDate(r.children[name], d.entries[name])
            && (r.children[name].Reg? ==> !Differs(r.children[name].info, d.entries[name])))
      && forall name :: name in d.entries && !Special(name) && name !in r.children ==> d.entries[name].DOther?
  }

  lemma {:induction false} RefreshedIsUpToDate(t: Tree, d: Disk, path: Name)
    requires Ordinary(t)
    ensures UpToDate(Refreshed(t, d, path), d)
    decreases d
  {
    if t.Dir? && d.DDir? {
      var kept := RefreshedChildren(t, d, path);
      forall name | name in kept
        ensures !Special(name) && UpToDate(kept[name], d.entries[name])
        ensures kept[name].Reg? ==> !Differs(kept[name].info, d.entries[name])
      {
        var after, e := After(t.children, d.entries, path, name).value, d.entries[name];
        assert Ordinary(after);
        RefreshedIsUpToDate(after, e, CatFiles(path, name));
      }
    }
  }

  // A refresh does not change what is reported again and again.
  lemma {:induction false} RestlessStays(t: Tree, d: Disk, path: Name)
    requires Ordinary(t)
    ensures Restless(Refreshed(t, d, path), d) <==> Restless(t, d)
    decreases d
  {
    if t.Dir? && d.DDir? {
      var r, kept := Refreshed(t, d, path), RefreshedChildren(t, d, path);
      forall name | name in d.entries && !Special(name)
        ensures RestlessAt(r, d, name) <==> RestlessAt(t, d, name)
      {
        var e, fullname := d.entries[name], CatFiles(path, name);
        if name in t.children {
          KnownName(t, d, path, name);
          RestlessStays(t.children[name], e, fullname);
        } else {
          NewName(t.children, d.entries, path, name);
          if e.DDir? {
            var empty := Dir(0, Some(fullname), map[]);
            RestlessStays(empty, e, fullname);
            EmptyIsRestless(empty, e);
          }
        }
      }
    }
  }

  lemma EmptyIsRestless(t: Tree, d: Disk)
    requires t.Dir? && t.children == map[]
    ensures Restless(t, d) <==> HasOther(d)
  {
    if d.DDir? {
      forall name | name in d.entries
        ensures RestlessAt(t, d, name) <==> d.entries[name].DOther? || HasOther(d.entries[name])
      {
      }
    }
  }

  // Below what is no directory any more nothing is reported.
  lemma {:induction false} NothingBelow(g: Foot, r: Tree, d: Disk, items: seq<FileNode>)
    requires !d.DDir?
    ensures !Reports(g, r, d, items)
    decreases r
  {
    if r.Dir? {
      forall name | name in r.children
        ensures !BelowReports(g, r, d, items, name)
      {
        if name in g.kids {
          NothingBelow(g.kids[name], r.children[name], d, items);
        }
      }
    }
  }

  // On an up-to-date tree a pass reports a change exactly when some unknown entry is neither a file
  // nor a directory: such an entry counts as new every time.
  lemma {:induction false} SecondPass(g: Foot, r: Tree, d: Disk, items: seq<FileNode>)
    requires UpToDate(r, d) && Owns(g, r)
    ensures Reports(g, r, d, items) <==> Restless(r, d)
    decreases r
  {
    if !d.DDir? {
      NothingBelow(g, r, d, items);
    } else if r.Dir? {
      forall name | name in r.children
        ensures BelowReports(g, r, d, items, name) == RestlessAt(r, d, name)
      {
        assert OwnsKid(g, name, r.children[name]);
        SecondPass(g.kids[name], r.children[name], d.entries[name], items);
      }
      forall name | name in Listed(d)
        ensures Noticed(g, r, name, d.entries[name], items) <==> name !in r.children
        ensures name !in r.children ==> RestlessAt(r, d, name)
      {
      }
      assert Gone(r, d) == {};
    }
  }

  // A directory that lists a device: the tree is up to date, and every pass reports a change.
  lemma DeviceIsReported(g: Foot, r: Tree, d: Disk, items: seq<FileNode>)
    requires r == Dir(0, Some([SLASH]), map[]) && d == DDir(0, 0, map[[97] := DOther(0, 0)]) && Owns(g, r)
    ensures UpToDate(r, d) && Reports(g, r, d, items)
  {
    var name: Name := [97];
    assert name in d.entries && !Special(name) && RestlessAt(r, d, name);
    SecondPass(g, r, d, items);
  }

  // Two passes over the same snapshot: the second leaves the tree as it is, and reports a change
  // exactly when some entry that the tree does not have is neither a file nor a directory; without
  // changes of kind, when there is any such entry.
  method PassTwice(node: FileNode, hash: PtrV, d: Disk, path: Name, ghost f: Foot, ghost t: Tree)
    returns (first: bool, second: bool, ghost g: Foot)
    requires Tidy(f) && Owns(f, t) && f.node == node && Placed(t, path) && Ordinary(t) && NoDuplicates(hash.items)
    modifies node`size, node`children, f.below, hash
    ensures Tidy(g) && g.node == node && Owns(g, Refreshed(t, d, path))
    ensures NoDuplicates(hash.items) && old(hash.items) <= hash.items
    ensures first <==> Reports(f, t, d, old(hash.items))
    ensures second <==> Restless(t, d)
    ensures SameKinds(t, d) ==> (second <==> HasOther(d))
  {
    ghost var h, r;
    first, h, r := LookupFilelistChanges(node, hash, d, path, f, t);
    RefreshedPlaced(t, d, path);
    RefreshedIsUpToDate(t, d, path);
    RefreshTwice(t, d, path);
    SecondPass(h, r, d, hash.items);
    RestlessStays(t, d, path);
    if SameKinds(t, d) {
      RestlessIsOther(t, d);
    }
    second, g, r := LookupFilelistChanges(node, hash, d, path, h, r);
  }
}

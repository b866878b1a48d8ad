/** The first half of lookup_filelist_changes: comparing the children of a node with its directory. */
module RefreshDir {
  import opened Bytes
  import opened Wrappers
  import opened FileTree
  import opened FileNodes
  import opened Footprint
  import opened Refresh

  // The queue of files to hash.
  class PtrV {
    var items: seq<FileNode>

    constructor ()
      ensures items == []
    {
      items := [];
    }
  }

  // ---- Names that are gone

  // hmap_remove and the size update.
  method RemoveChild(node: FileNode, name: Name, ghost f: Foot, ghost t: Tree)
    requires Tidy(f) && Owns(f, t) && f.node == node && t.Dir? && name in t.children
    modifies node`children, node`size
    ensures Tidy(Without(f, name))
    ensures Owns(Without(f, name), t.(children := t.children - {name}, size := node.size))
  {
    ghost var g := Without(f, name);
    TidyWithout(f, name);
    assert OwnsKid(f, name, t.children[name]);
    label before:
    var child := node.children[name];
    node.children := node.children - {name};
    node.size := (node.size - child.size) % UINT64_RANGE;
    forall a | a in t.children - {name}
      ensures OwnsKid(g, a, t.children[a])
    {
      assert old(OwnsKid(f, a, t.children[a]));
      KidStays@before(f, g, a, t.children[a]);
    }
  }

  // The names whose stat fails with ENOENT.
  function Gone(t: Tree, d: Disk): set<Name>
    requires t.Dir? && d.DDir?
  {
    set name | name in t.children && name !in d.entries
  }

  function Names(s: seq<Name>): set<Name> {
    set name | name in s
  }

  lemma NextName(s: seq<Name>, i: nat)
    requires i < |s| && forall j, k :: 0 <= j < k < |s| ==> s[j] != s[k]
    ensures s[i] in Names(s) && s[i] !in Names(s[..i])
    ensures Names(s[..i + 1]) == Names(s[..i]) + {s[i]}
  {
    assert s[..i + 1] == s[..i] + [s[i]];
  }

  lemma DropOneMore<V>(m: map<Name, V>, gone: set<Name>, name: Name)
    ensures m - gone - {name} == m - (gone + {name})
  {
  }

  method FindMissing(node: FileNode, d: Disk, ghost f: Foot, ghost t: Tree) returns (deleted: seq<Name>)
    requires Owns(f, t) && f.node == node && t.Dir? && d.DDir?
    ensures (forall i, j :: 0 <= i < j < |deleted| ==> deleted[i] != deleted[j])
    ensures Names(deleted) == Gone(t, d) && Owns(f, t)
  {
    deleted := [];
    var rest := node.children.Keys;
    while rest != {}
      invariant rest <= t.children.Keys
      invariant (forall i, j :: 0 <= i < j < |deleted| ==> deleted[i] != deleted[j])
      invariant forall name :: name in deleted <==> name in t.children && name !in rest && name !in d.entries
      decreases |rest|
    {
      var name :| name in rest;
      if name !in d.entries {
        deleted := deleted + [name];
      }
      rest := rest - {name};
    }
  }

  method DeleteMissing(node: FileNode, d: Disk, ghost f: Foot, ghost t: Tree)
    returns (changed: bool, ghost g: Foot, ghost u: Tree)
    requires Tidy(f) && Owns(f, t) && f.node == node && t.Dir? && d.DDir?
    modifies node`children, node`size
    ensures g == f.(kids := f.kids - Gone(t, d)) && Tidy(g)
    ensures u == t.(children := t.children - Gone(t, d), size := node.size) && Owns(g, u)
    ensures changed <==> Gone(t, d) != {}
  {
    var deleted := FindMissing(node, d, f, t);
    changed, g, u := false, f, t;
    ghost var gone: set<Name> := {};
    assert f.kids - gone == f.kids && t.children - gone == t.children;
    for i := 0 to |deleted|
      invariant gone == Names(deleted[..i])
      invariant g == f.(kids := f.kids - gone) && Tidy(g)
      invariant u == t.(children := t.children - gone, size := node.size) && Owns(g, u)
      invariant changed <==> i > 0
    {
      NextName(deleted, i);
      RemoveChild(node, deleted[i], g, u);
      g, u := Without(g, deleted[i]), u.(children := u.children - {deleted[i]}, size := node.size);
      DropOneMore(f.kids, gone, deleted[i]);
      DropOneMore(t.children, gone, deleted[i]);
      gone := gone + {deleted[i]};
      changed := true;
    }
    assert deleted[..|deleted|] == deleted && (deleted != [] ==> deleted[0] in Names(deleted));
  }

  // ---- Names that the directory delivers

  // ptrv_append unless ptrv_find finds the node.
  function Queued(items: seq<FileNode>, node: FileNode): seq<FileNode> {
    if node in items then items else items + [node]
  }

  predicate Differs(info: FileInfo, d: Disk) {
    d.mtime != info.mtime || info.size != d.size
  }

  // A known file.
  method TouchFile(child: FileNode, d: Disk, hash: PtrV, ghost info: FileInfo) returns (changed: bool)
    requires !child.isDir && info == FileInfo(child.size, child.hasTth, child.tth, child.mtime)
    modifies child`size, child`hasTth, child`mtime, hash
    ensures Touch(Some(Reg(info)), d, []) == Some(Reg(FileInfo(child.size, child.hasTth, child.tth, child.mtime)))
    ensures hash.items == if child.hasTth then old(hash.items) else Queued(old(hash.items), child)
    ensures changed <==> Differs(info, d) && child !in old(hash.items)
  {
    changed := false;
    if d.mtime != child.mtime || child.size != d.size {
      child.hasTth := false;
      child.mtime := d.mtime;
      child.size := d.size;
      if child !in hash.items {
        hash.items := hash.items + [child];
        changed := true;
      }
    } else if !child.hasTth {
      if child !in hash.items {
        hash.items := hash.items + [child];
      }
    }
  }

  // A name the tree does not have.
  method AddEntry(node: FileNode, name: Name, d: Disk, fullname: Name, hash: PtrV) returns (child: FileNode?)
    modifies node`children, hash
    ensures Touch(None, d, fullname).None? ==> child == null && node.children == old(node.children) && hash.items == old(hash.items)
    ensures Touch(None, d, fullname).Some? ==>
      && child != null && fresh(child) && child.name == name && child.parent == node
      && node.children == old(node.children)[name := child]
      && Owns(Foot(child, {}, map[]), Touch(None, d, fullname).value)
      && hash.items == if child.isDir then old(hash.items) else Queued(old(hash.items), child)
  {
    child := null;
    if d.DDir? {
      child := NewFileNode(name, true, node);
      child.realPath := Some(fullname);
    } else if d.DFile? {
      child := NewFileNode(name, false, node);
      child.size := d.size;
      child.mtime := d.mtime;
      if child !in hash.items {
        hash.items := hash.items + [child];
      }
    }
  }

  lemma KidIs(f: Foot, t: Tree, name: Name)
    requires Owns(f, t) && t.Dir? && name in t.children
    ensures name in f.kids && name in f.node.children && f.kids[name].node == f.node.children[name]
    ensures var child, k := f.kids[name].node, t.children[name];
            && child in f.below && child.parent == f.node && child.isDir == k.Dir?
            && (k.Reg? ==> f.kids[name].kids == map[] && k.info == FileInfo(child.size, child.hasTth, child.tth, child.mtime))
  {
    assert OwnsKid(f, name, t.children[name]);
    assert Owns(f.kids[name], t.children[name]);
  }

  // Only the leaf filed under name changed.
  twostate lemma LeafChanged(f: Foot, new t: Tree, new name: Name, new k: Tree)
    requires Tidy(f) && old(Owns(f, t)) && t.Dir? && name in t.children && t.children[name].Reg?
    requires unchanged(f.node) && unchanged(f.below - {f.kids[name].node})
    requires f.kids[name].node.parent == f.node && k.Reg?
    requires Owns(f.kids[name], k)
    ensures Owns(f, t.(children := t.children[name := k]))
  {
    var u := t.children[name := k];
    assert old(OwnsKid(f, name, t.children[name]));
    forall a | a in u
      ensures OwnsKid(f, a, u[a])
    {
      assert old(OwnsKid(f, a, t.children[a]));
      if a != name {
        assert Apart(f, a, name);
        KidStays(f, f, a, t.children[a]);
      }
    }
  }

  predicate NeedsHash(t: Tree) {
    t.Reg? && !t.info.hasTth
  }

  function MaybeQueued(items: seq<FileNode>, t: Tree, node: FileNode): seq<FileNode> {
    if NeedsHash(t) then Queued(items, node) else items
  }

  // readdir delivered a name that the tree has.
  method TouchKnown(node: FileNode, name: Name, d: Disk, hash: PtrV, ghost f: Foot, ghost t: Tree) returns (changed: bool)
    requires Tidy(f) && Owns(f, t) && f.node == node && t.Dir? && name in t.children
    modifies f.below, hash
    ensures var k := Touch(Some(t.children[name]), d, []).value;
            && Owns(f, t.(children := t.children[name := k]))
            && hash.items == MaybeQueued(old(hash.items), k, f.kids[name].node)
    ensures changed <==> t.children[name].Reg? && Differs(t.children[name].info, d) && f.kids[name].node !in old(hash.items)
  {
    KidIs(f, t, name);
    var child := node.children[name];
    if child.isDir {
      changed := false;
      assert t.(children := t.children[name := t.children[name]]) == t;
    } else {
      label before:
      changed := TouchFile(child, d, hash, t.children[name].info);
      ghost var k := Reg(FileInfo(child.size, child.hasTth, child.tth, child.mtime));
      LeafChanged@before(f, t, name, k);
    }
  }

  // readdir delivered a name that the tree does not have.
  method TouchNew(node: FileNode, name: Name, d: Disk, fullname: Name, hash: PtrV, ghost f: Foot, ghost t: Tree)
    returns (ghost g: Foot)
    requires Tidy(f) && Owns(f, t) && f.node == node && t.Dir? && name !in t.children
    modifies node`children, hash
    ensures var k := Touch(None, d, fullname);
            && (k.None? ==> g == f && Owns(g, t) && hash.items == old(hash.items))
            && (k.Some? ==>
                  && Adds(f, g, name) && fresh(g.kids[name].node)
                  && Owns(g, t.(children := t.children[name := k.value]))
                  && hash.items == MaybeQueued(old(hash.items), k.value, g.kids[name].node))
    ensures Tidy(g)
  {
    g := f;
    label before:
    var child := AddEntry(node, name, d, fullname, hash);
    if child != null {
      g := With(f, name, Foot(child, {}, map[]));
      NewKid@before(f, t, Foot(child, {}, map[]), name, Touch(None, d, fullname).value, node.size);
    } else {
      TreeStays@before(f, t);
    }
  }

  // g is f with one more leaf.
  ghost predicate Adds(f: Foot, g: Foot, name: Name) {
    name !in f.kids && name in g.kids && g.kids[name] == Foot(g.kids[name].node, {}, map[]) && g == With(f, name, g.kids[name])
  }

  function PutSome(children: map<Name, Tree>, name: Name, t: Option<Tree>): map<Name, Tree> {
    if t.Some? then children[name := t.value] else children
  }

  // The child is new, or a file that changed and is not queued.
  predicate Noticed(f: Foot, t: Tree, name: Name, d: Disk, items: seq<FileNode>)
    requires t.Dir?
  {
    name in t.children ==>
      && t.children[name].Reg? && Differs(t.children[name].info, d)
      && (name in f.kids ==> f.kids[name].node !in items)
  }

  // The same nodes, and at most a new leaf under name.
  ghost predicate Extends(f: Foot, g: Foot, name: Name) {
    g == f || Adds(f, g, name)
  }

  // What g has and f does not are leaves made of a new node.
  twostate predicate NewLeaves(f: Foot, new g: Foot) {
    forall a :: a in g.kids ==>
      if a in f.kids then g.kids[a] == f.kids[a] else g.kids[a] == Foot(g.kids[a].node, {}, map[]) && fresh(g.kids[a].node)
  }

  method TouchEntry(node: FileNode, name: Name, d: Disk, fullname: Name, hash: PtrV, ghost f: Foot, ghost t: Tree)
    returns (changed: bool, ghost g: Foot, ghost u: Tree)
    requires Tidy(f) && Owns(f, t) && f.node == node && t.Dir?
    modifies node`children, f.below, hash
    ensures Tidy(g) && Owns(g, u) && Extends(f, g, name) && NewLeaves(f, g)
    ensures forall n :: n in g.below ==> n in f.below || fresh(n)
    ensures u == t.(children := PutSome(t.children, name, Touch(Get(t.children, name), d, fullname)))
    ensures hash.items == if name in u.children then MaybeQueued(old(hash.items), u.children[name], g.kids[name].node)
                          else old(hash.items)
    ensures changed <==> Noticed(f, t, name, d, old(hash.items))
  {
    g, u := f, t.(children := PutSome(t.children, name, Touch(Get(t.children, name), d, fullname)));
    if name in node.children {
      changed := TouchKnown(node, name, d, hash, f, t);
    } else {
      g := TouchNew(node, name, d, fullname, hash, f, t);
      changed := true;
    }
  }

  // ---- The loop over the directory

  // The names that the loop looks at.
  function Listed(d: Disk): set<Name>
    requires d.DDir?
  {
    set name | name in d.entries && !Special(name)
  }

  function Slot(children: map<Name, Tree>, d: Disk, path: Name, done: set<Name>, name: Name): Option<Tree>
    requires d.DDir?
  {
    if name in done && name in d.entries then Touch(Get(children, name), d.entries[name], CatFiles(path, name))
    else Get(children, name)
  }

  // The children after these names were looked at.
  function Touched(children: map<Name, Tree>, d: Disk, path: Name, done: set<Name>): map<Name, Tree>
    requires d.DDir?
  {
    map name | name in children.Keys + done && Slot(children, d, path, done, name).Some? ::
      Slot(children, d, path, done, name).value
  }

  lemma TouchedNone(children: map<Name, Tree>, d: Disk, path: Name)
    requires d.DDir?
    ensures Touched(children, d, path, {}) == children
  {
  }

  lemma TouchedNext(children: map<Name, Tree>, d: Disk, path: Name, done: set<Name>, name: Name)
    requires d.DDir? && name in d.entries && name !in done
    ensures var before := Touched(children, d, path, done);
            && Get(before, name) == Get(children, name)
            && Touched(children, d, path, done + {name})
               == PutSome(before, name, Touch(Get(before, name), d.entries[name], CatFiles(path, name)))
  {
  }

  // The files without a hash among these children.
  ghost function Leaves(g: Foot, u: Tree, names: set<Name>): set<FileNode>
    requires u.Dir?
  {
    set a | a in names && a in u.children && a in g.kids && NeedsHash(u.children[a]) :: g.kids[a].node
  }

  function Elements(items: seq<FileNode>): set<FileNode> {
    set n | n in items
  }

  predicate NoDuplicates(items: seq<FileNode>) {
    forall i, j :: 0 <= i < j < |items| ==> items[i] != items[j]
  }

  lemma QueuedElements(items: seq<FileNode>, node: FileNode)
    requires NoDuplicates(items)
    ensures NoDuplicates(Queued(items, node)) && Elements(Queued(items, node)) == Elements(items) + {node}
  {
    if node !in items {
      var longer := items + [node];
      forall n
        ensures n in longer <==> n in items || n == node
      {
      }
    }
  }

  // The queue holds what it held, and the nodes added; nothing twice.
  ghost predicate QueueIs(items: seq<FileNode>, before: seq<FileNode>, added: set<FileNode>) {
    NoDuplicates(items) && before <= items && Elements(items) == Elements(before) + added
  }

  lemma QueueNext(items: seq<FileNode>, before: seq<FileNode>, added: set<FileNode>, t: Tree, node: FileNode)
    requires QueueIs(items, before, added)
    ensures QueueIs(MaybeQueued(items, t, node), before, if NeedsHash(t) then added + {node} else added)
  {
    QueuedElements(items, node);
  }

  lemma LeavesNext(f: Foot, t: Tree, g: Foot, u: Tree, done: set<Name>, name: Name, k: Option<Tree>)
    requires t.Dir? && name !in done && Extends(f, g, name) && u == t.(children := PutSome(t.children, name, k))
    requires k.None? ==> name !in t.children
    requires k.Some? ==> name in g.kids
    ensures Leaves(g, u, done + {name})
         == Leaves(f, t, done) + if k.Some? && NeedsHash(k.value) then {g.kids[name].node} else {}
  {
    forall a | a in done && a in u.children && a in g.kids
      ensures a in t.children && a in f.kids && u.children[a] == t.children[a] && g.kids[a] == f.kids[a]
    {
    }
  }

  ghost predicate Keeps(f: Foot, g: Foot) {
    g.node == f.node && f.below <= g.below && forall a :: a in f.kids ==> a in g.kids && g.kids[a] == f.kids[a]
  }

  // f grew into g: new names only, all their nodes new.
  twostate predicate Grown(f: Foot, new g: Foot) {
    Keeps(f, g) && forall n :: n in g.below ==> n in f.below || fresh(n)
  }

  // A kid's node is in the queue only if it was there or is among the leaves added for its name.
  lemma OwnQueueEntry(g: Foot, u: Tree, name: Name, done: set<Name>, items: seq<FileNode>, before: seq<FileNode>)
    requires Tidy(g) && u.Dir? && name in g.kids && name !in done && QueueIs(items, before, Leaves(g, u, done))
    ensures g.kids[name].node in items <==> g.kids[name].node in before
  {
    var n := g.kids[name].node;
    assert n in items <==> n in Elements(items);
    assert n in before <==> n in Elements(before);
    forall a | a in done && a in g.kids
      ensures g.kids[a].node != n
    {
      KidsDiffer(g, a, name);
    }
    assert n !in Leaves(g, u, done);
  }

  lemma KidsDiffer(g: Foot, a: Name, b: Name)
    requires Tidy(g) && a in g.kids && b in g.kids && a != b
    ensures g.kids[a].node != g.kids[b].node
  {
    assert Apart(g, a, b) && g.kids[a].node in Nodes(g.kids[a]);
  }

  // Where the loop over the directory stands.
  ghost predicate LoopAt(t: Tree, g: Foot, u: Tree, d: Disk, path: Name, done: set<Name>,
                         items: seq<FileNode>, before: seq<FileNode>)
    requires t.Dir? && d.DDir?
  {
    && Tidy(g) && u == t.(children := Touched(t.children, d, path, done))
    && QueueIs(items, before, Leaves(g, u, done))
  }

  lemma LoopNext(t: Tree, g: Foot, u: Tree, d: Disk, path: Name, done: set<Name>,
                 items: seq<FileNode>, before: seq<FileNode>, name: Name, h: Foot, v: Tree, later: seq<FileNode>)
    requires t.Dir? && d.DDir? && LoopAt(t, g, u, d, path, done, items, before)
    requires name in d.entries && name !in done && Tidy(h) && Extends(g, h, name)
    requires v == u.(children := PutSome(u.children, name, Touch(Get(u.children, name), d.entries[name], CatFiles(path, name))))
    requires name in v.children ==> name in h.kids
    requires later == if name in v.children then MaybeQueued(items, v.children[name], h.kids[name].node) else items
    ensures LoopAt(t, h, v, d, path, done + {name}, later, before)
  {
    var k := Touch(Get(u.children, name), d.entries[name], CatFiles(path, name));
    TouchedNext(t.children, d, path, done, name);
    LeavesNext(g, u, h, v, done, name, k);
    if k.Some? {
      QueueNext(items, before, Leaves(g, u, done), k.value, h.kids[name].node);
    }
  }

  ghost predicate AnyNoticed(f: Foot, t: Tree, d: Disk, names: set<Name>, items: seq<FileNode>)
    requires t.Dir? && d.DDir?
  {
    exists name :: name in names && name in d.entries && Noticed(f, t, name, d.entries[name], items)
  }

  lemma NoticedNext(f: Foot, t: Tree, g: Foot, u: Tree, d: Disk, path: Name, done: set<Name>,
                    items: seq<FileNode>, before: seq<FileNode>, name: Name)
    requires t.Dir? && d.DDir? && LoopAt(t, g, u, d, path, done, items, before) && Keeps(f, g)
    requires name in d.entries && name !in done && t.children.Keys <= f.kids.Keys && u.children.Keys <= g.kids.Keys
    ensures AnyNoticed(f, t, d, done + {name}, before)
       <==> AnyNoticed(f, t, d, done, before) || Noticed(g, u, name, d.entries[name], items)
  {
    TouchedNext(t.children, d, path, done, name);
    if name in t.children {
      OwnQueueEntry(g, u, name, done, items, before);
    }
    assert Noticed(g, u, name, d.entries[name], items) <==> Noticed(f, t, name, d.entries[name], before);
    assert name in done + {name};
    if AnyNoticed(f, t, d, done, before) {
      var a :| a in done && a in d.entries && Noticed(f, t, a, d.entries[a], before);
      assert a in done + {name};
    }
  }

  lemma OneLess(all: set<Name>, rest: set<Name>, name: Name)
    requires name in rest
    ensures all - (rest - {name}) == (all - rest) + (if name in all then {name} else {})
    ensures |rest - {name}| < |rest|
  {
  }

  // done are the names looked at, rest the ones still to come.
  predicate Splits(d: Disk, done: set<Name>, rest: set<Name>)
    requires d.DDir?
  {
    done == Listed(d) - rest && rest <= d.entries.Keys + {CURRENT_DIR, PARENT_DIR}
  }

  lemma SplitsNext(d: Disk, done: set<Name>, rest: set<Name>, name: Name)
    requires d.DDir? && Splits(d, done, rest) && name in rest
    ensures Special(name) ==> Splits(d, done, rest - {name})
    ensures !Special(name) ==> name in d.entries && name !in done && Splits(d, done + {name}, rest - {name})
  {
    OneLess(Listed(d), rest, name);
  }

  // Where the loop over the directory stands.
  ghost predicate ScanAt(f: Foot, t: Tree, g: Foot, u: Tree, d: Disk, path: Name, done: set<Name>, changed: bool,
                         items: seq<FileNode>, before: seq<FileNode>)
    requires t.Dir? && d.DDir?
    reads Nodes(g)
  {
    && Owns(g, u) && Keeps(f, g)
    && LoopAt(t, g, u, d, path, done, items, before)
    && (changed <==> AnyNoticed(f, t, d, done, before))
  }

  // One turn of the loop, for a name that is not special.
  method TouchNext(node: FileNode, d: Disk, path: Name, hash: PtrV, name: Name, changed: bool, ghost f: Foot, ghost t: Tree,
                   ghost g: Foot, ghost u: Tree, ghost done: set<Name>, ghost before: seq<FileNode>)
    returns (noticed: bool, ghost h: Foot, ghost v: Tree)
    requires t.Dir? && d.DDir? && t.children.Keys <= f.kids.Keys && g.node == node && name in d.entries && name !in done
    requires ScanAt(f, t, g, u, d, path, done, changed, hash.items, before)
    modifies node`children, g.below, hash
    ensures ScanAt(f, t, h, v, d, path, done + {name}, changed || noticed, hash.items, before)
    ensures NewLeaves(g, h) && forall n :: n in h.below ==> n in g.below || fresh(n)
  {
    ghost var items := hash.items;
    noticed, h, v := TouchEntry(node, name, d.entries[name], CatFiles(path, name), hash, g, u);
    LoopNext(t, g, u, d, path, done, items, before, name, h, v, hash.items);
    NoticedNext(f, t, g, u, d, path, done, items, before, name);
  }

  // One turn of the loop.
  method TouchName(node: FileNode, d: Disk, path: Name, hash: PtrV, name: Name, changed: bool, ghost f: Foot, ghost t: Tree,
                   ghost g: Foot, ghost u: Tree, ghost done: set<Name>, ghost rest: set<Name>, ghost before: seq<FileNode>)
    returns (now: bool, ghost h: Foot, ghost v: Tree, ghost more: set<Name>)
    requires t.Dir? && d.DDir? && t.children.Keys <= f.kids.Keys && g.node == node && name in rest && Splits(d, done, rest)
    requires ScanAt(f, t, g, u, d, path, done, changed, hash.items, before)
    modifies node`children, g.below, hash
    ensures Splits(d, more, rest - {name}) && ScanAt(f, t, h, v, d, path, more, now, hash.items, before)
    ensures NewLeaves(g, h) && forall n :: n in h.below ==> n in g.below || fresh(n)
  {
    now, h, v, more := changed, g, u, done;
    SplitsNext(d, done, rest, name);
    if !Special(name) {
      var noticed;
      noticed, h, v := TouchNext(node, d, path, hash, name, changed, f, t, g, u, done, before);
      now, more := changed || noticed, done + {name};
    }
  }

  lemma ScanStart(f: Foot, t: Tree, d: Disk, path: Name, before: seq<FileNode>, rest: set<Name>)
    requires Tidy(f) && Owns(f, t) && t.Dir? && d.DDir? && NoDuplicates(before)
    requires rest == d.entries.Keys + {CURRENT_DIR, PARENT_DIR}
    ensures Splits(d, {}, rest) && ScanAt(f, t, f, t, d, path, {}, false, before, before)
  {
    TouchedNone(t.children, d, path);
  }

  method TouchAll(node: FileNode, d: Disk, path: Name, hash: PtrV, names: set<Name>, ghost f: Foot, ghost t: Tree)
    returns (changed: bool, ghost g: Foot, ghost u: Tree, ghost done: set<Name>)
    requires t.Dir? && d.DDir? && t.children.Keys <= f.kids.Keys && f.node == node
    requires Splits(d, {}, names) && ScanAt(f, t, f, t, d, path, {}, false, hash.items, hash.items)
    modifies node`children, f.below, hash
    ensures Splits(d, done, {}) && ScanAt(f, t, g, u, d, path, done, changed, hash.items, old(hash.items))
    ensures NewLeaves(f, g) && forall n :: n in g.below ==> n in f.below || fresh(n)
  {
    changed, g, u, done := false, f, t, {};
    var rest := names;
    ghost var before := hash.items;
    while rest != {}
      invariant Splits(d, done, rest) && NewLeaves(f, g) && forall n :: n in g.below ==> n in f.below || fresh(n)
      invariant ScanAt(f, t, g, u, d, path, done, changed, hash.items, before)
      decreases |rest|
    {
      var name :| name in rest;
      changed, g, u, done := TouchName(node, d, path, hash, name, changed, f, t, g, u, done, rest, before);
      rest := rest - {name};
    }
  }

  method TouchEntries(node: FileNode, d: Disk, path: Name, hash: PtrV, ghost f: Foot, ghost t: Tree)
    returns (changed: bool, ghost g: Foot, ghost u: Tree)
    requires Tidy(f) && Owns(f, t) && f.node == node && t.Dir? && d.DDir? && NoDuplicates(hash.items)
    modifies node`children, f.below, hash
    ensures Owns(g, u) && Grown(f, g) && NewLeaves(f, g)
    ensures LoopAt(t, g, u, d, path, Listed(d), hash.items, old(hash.items))
    ensures changed <==> AnyNoticed(f, t, d, Listed(d), old(hash.items))
  {
    var names := d.entries.Keys + {CURRENT_DIR, PARENT_DIR};
    ScanStart(f, t, d, path, hash.items, names);
    ghost var done;
    changed, g, u, done := TouchAll(node, d, path, hash, names, f, t);
    assert done == Listed(d);
  }
}

/** lookup_filelist_changes on the nodes of a file list. */
module RefreshNodes {
  import opened Wrappers
  import opened FileTree
  import opened FileNodes
  import opened Footprint
  import opened Refresh
  import opened RefreshDir

  // ---- The subdirectories

  // What is on the disk under a name of the tree; still no directory below what is none.
  function Sub(d: Disk, name: Name): Disk
    requires d.DDir? ==> name in d.entries
  {
    if d.DDir? then d.entries[name] else d
  }

  ghost predicate Backed(t: Tree, d: Disk) {
    t.Dir? && (d.DDir? ==> t.children.Keys <= d.entries.Keys)
  }

  // The children after these were visited.
  ghost function Visited(t: Tree, d: Disk, place: Place, done: set<Name>): map<Name, Tree>
    requires Backed(t, d)
  {
    map name | name in t.children ::
      if name in done then Refreshed(t.children[name], Sub(d, name), Below(place, name)) else t.children[name]
  }

  lemma VisitedNext(t: Tree, d: Disk, place: Place, done: set<Name>, name: Name)
    requires Backed(t, d) && name in t.children && name !in done
    ensures Visited(t, d, place, done)[name] == t.children[name]
    ensures Visited(t, d, place, done + {name})
         == Visited(t, d, place, done)[name := Refreshed(t.children[name], Sub(d, name), Below(place, name))]
  {
  }

  // The size gathered so far.
  ghost function SizeSoFar(children: map<Name, Tree>, done: set<Name>): nat {
    SumOf(map name | name in children && name in done :: children[name])
  }

  lemma SizeNext(children: map<Name, Tree>, done: set<Name>, name: Name, t: Tree)
    requires name in children && name !in done
    ensures SizeSoFar(children[name := t], done + {name}) == SizeSoFar(children, done) + SizeOf(t)
  {
    var some := map a | a in children[name := t] && a in done + {name} :: children[name := t][a];
    SumWithout(some, name);
    assert some - {name} == map a | a in children && a in done :: children[a];
  }

  lemma SizeAll(children: map<Name, Tree>)
    ensures SizeSoFar(children, children.Keys) == SumOf(children) && SizeSoFar(children, {}) == 0
  {
    assert (map name | name in children && name in children.Keys :: children[name]) == children;
    assert SizeSoFar(children, {}) == SumOf(map[]);
  }

  // One subtree was changed in place, into r with the nodes g.
  twostate lemma SubtreeChanged(f: Foot, new t: Tree, new name: Name, new g: Foot, new r: Tree, new size: nat)
    requires Tidy(f) && old(Owns(f, t)) && t.Dir? && name in t.children
    requires Tidy(g) && Owns(g, r) && g.node == f.kids[name].node
    requires fresh(g.below - f.kids[name].below)
    requires unchanged(f.below - Nodes(f.kids[name]))
    requires g.node.parent == f.node && unchanged(f.node`children, f.node`realPath) && f.node.size == size
    ensures Tidy(With(f, name, g))
    ensures Owns(With(f, name, g), t.(children := t.children[name := r], size := size))
  {
    assert old(OwnsKid(f, name, t.children[name]));
    assert Within(f, name);
    forall a | a in f.kids && a != name
      ensures Nodes(f.kids[a]) !! Nodes(g)
    {
      assert Apart(f, a, name);
    }
    TidyWith(f, name, g);
    var h, u := With(f, name, g), t.children[name := r];
    forall a | a in u
      ensures OwnsKid(h, a, u[a])
    {
      if a != name {
        assert old(OwnsKid(f, a, t.children[a]));
        assert Apart(f, a, name);
        KidStays(f, h, a, t.children[a]);
      }
    }
  }

  // ---- Which nodes a pass frees

  // n belongs to the tree, and still does when all names that are gone from the disk are removed.
  ghost predicate Survives(f: Foot, t: Tree, d: Disk, n: FileNode)
    decreases t, 1
  {
    n == f.node || (t.Dir? && exists name {:trigger SurvivesBelow(f, t, d, n, name)} ::
                                name in t.children && SurvivesBelow(f, t, d, n, name))
  }

  ghost predicate SurvivesBelow(f: Foot, t: Tree, d: Disk, n: FileNode, name: Name)
    requires t.Dir? && name in t.children
    decreases t, 0
  {
    name in f.kids && (d.DDir? ==> name in d.entries) && Survives(f.kids[name], t.children[name], Sub(d, name), n)
  }

  lemma {:induction false} SurvivorIsNode(f: Foot, t: Tree, d: Disk, n: FileNode)
    requires Tidy(f) && Survives(f, t, d, n)
    ensures n in Nodes(f)
    decreases t
  {
    if n != f.node {
      var name :| name in t.children && SurvivesBelow(f, t, d, n, name);
      assert Within(f, name);
      SurvivorIsNode(f.kids[name], t.children[name], Sub(d, name), n);
    }
  }

  // Of these nodes, exactly the survivors belong to the tree afterwards.
  ghost predicate LiveIn(world: set<FileNode>, f: Foot, t: Tree, d: Disk, g: Foot) {
    forall n {:trigger Live(g, n)} :: n in world ==> (Live(g, n) <==> Survives(f, t, d, n))
  }

  lemma LeafLive(f: Foot, t: Tree, d: Disk)
    requires Owns(f, t) && t.Reg?
    ensures LiveIn(Nodes(f), f, t, d, f)
  {
    assert f.kids == map[];
  }

  // The same for nodes that did not belong to f.
  lemma LiveWider(world: set<FileNode>, f: Foot, t: Tree, d: Disk, g: Foot)
    requires Tidy(f) && Tidy(g) && LiveIn(Nodes(f), f, t, d, g)
    requires forall n :: n in Nodes(g) ==> n in Nodes(f) || n !in world
    ensures LiveIn(world, f, t, d, g)
  {
    forall n | n in world
      ensures Live(g, n) <==> Survives(f, t, d, n)
    {
      if n !in Nodes(f) {
        if Live(g, n) {
          LiveIsNode(g, n);
        }
        if Survives(f, t, d, n) {
          SurvivorIsNode(f, t, d, n);
        }
      }
    }
  }

  ghost predicate KidLive(world: set<FileNode>, f: Foot, t: Tree, d: Disk, g: Foot, a: Name)
    requires Backed(t, d) && a in t.children
  {
    a in f.kids && a in g.kids && LiveIn(world, f.kids[a], t.children[a], Sub(d, a), g.kids[a])
  }

  ghost predicate KidsLive(f: Foot, t: Tree, d: Disk, g: Foot, done: set<Name>)
    requires Backed(t, d)
  {
    forall a {:trigger KidLive(Nodes(f), f, t, d, g, a)} :: a in done && a in t.children ==> KidLive(Nodes(f), f, t, d, g, a)
  }

  // From the children to the whole.
  lemma LiveFromKids(f: Foot, t: Tree, d: Disk, g: Foot)
    requires Backed(t, d) && g.node == f.node && f.kids.Keys == t.children.Keys == g.kids.Keys
    requires KidsLive(f, t, d, g, t.children.Keys)
    ensures LiveIn(Nodes(f), f, t, d, g)
  {
    forall n | n in Nodes(f)
      ensures Live(g, n) <==> Survives(f, t, d, n)
    {
      forall a | a in t.children
        ensures Live(g.kids[a], n) == SurvivesBelow(f, t, d, n, a)
      {
        assert KidLive(Nodes(f), f, t, d, g, a);
      }
    }
  }

  // ---- What the whole pass queues and reports

  // n is the node of a file without a hash.
  ghost predicate IsUnhashed(g: Foot, r: Tree, n: FileNode) {
    match r
    case Reg(info) => !info.hasTth && n == g.node
    case Dir(_, _, children) =>
      exists name :: name in children && name in g.kids && IsUnhashed(g.kids[name], children[name], n)
  }

  lemma {:induction false} UnhashedIsNode(g: Foot, r: Tree, n: FileNode)
    requires Tidy(g) && IsUnhashed(g, r, n)
    ensures n in Nodes(g)
    decreases r
  {
    if r.Dir? {
      var name :| name in r.children && name in g.kids && IsUnhashed(g.kids[name], r.children[name], n);
      assert Within(g, name);
      UnhashedIsNode(g.kids[name], r.children[name], n);
    }
  }

  // Nothing is queued twice, nothing leaves the queue, and only nodes of the tree come in.
  ghost predicate QueueGrows(items: seq<FileNode>, before: seq<FileNode>, g: Foot) {
    NoDuplicates(items) && before <= items && forall n :: n in items ==> n in before || Live(g, n)
  }

  // Of the nodes of the tree, exactly the files without a hash came in.
  ghost predicate QueueHolds(items: seq<FileNode>, before: seq<FileNode>, g: Foot, r: Tree) {
    forall n {:trigger IsUnhashed(g, r, n)} :: n in Nodes(g) ==> (n in items <==> n in before || IsUnhashed(g, r, n))
  }

  // The pass returns true: a name is gone or was noticed, here or below.
  ghost predicate Reports(f: Foot, t: Tree, d: Disk, items: seq<FileNode>)
    decreases t
  {
    t.Dir? && (
      || (d.DDir? && (Gone(t, d) != {} || AnyNoticed(f, t, d, Listed(d), items)))
      || exists name {:trigger BelowReports(f, t, d, items, name)} :: name in t.children && BelowReports(f, t, d, items, name))
  }

  ghost predicate BelowReports(f: Foot, t: Tree, d: Disk, items: seq<FileNode>, name: Name)
    requires t.Dir? && name in t.children
    decreases t, 0
  {
    name in f.kids && (d.DDir? ==> name in d.entries) && Reports(f.kids[name], t.children[name], Sub(d, name), items)
  }

  ghost predicate SameFor(f: Foot, items: seq<FileNode>, other: seq<FileNode>) {
    forall n :: n in Nodes(f) ==> (n in items <==> n in other)
  }

  // Only the queued nodes of the tree itself matter.
  lemma {:induction false} ReportsSame(f: Foot, t: Tree, d: Disk, items: seq<FileNode>, other: seq<FileNode>)
    requires Tidy(f) && SameFor(f, items, other)
    ensures Reports(f, t, d, items) == Reports(f, t, d, other)
    decreases t
  {
    if t.Dir? {
      if d.DDir? {
        forall name | name in d.entries
          ensures Noticed(f, t, name, d.entries[name], items) == Noticed(f, t, name, d.entries[name], other)
        {
          if name in f.kids {
            assert Within(f, name);
          }
        }
      }
      forall name | name in t.children
        ensures BelowReports(f, t, d, items, name) == BelowReports(f, t, d, other, name)
      {
        if name in f.kids && (d.DDir? ==> name in d.entries) {
          assert Within(f, name);
          ReportsSame(f.kids[name], t.children[name], Sub(d, name), items, other);
        }
      }
    }
  }

  // ---- The loop over the children

  ghost predicate InKids(g: Foot, n: FileNode) {
    exists a {:trigger g.kids[a]} :: a in g.kids && Live(g.kids[a], n)
  }

  // What the queue says of the nodes under one name.
  ghost predicate KidQueue(items: seq<FileNode>, before: seq<FileNode>, g: Foot, v: Tree, a: Name, done: set<Name>, same: bool)
    requires v.Dir? && a in v.children && a in g.kids
  {
    if a in done && v.children[a].Dir? then (same ==> QueueHolds(items, before, g.kids[a], v.children[a]))
    else SameFor(g.kids[a], items, before)
  }

  ghost predicate QueueAt(items: seq<FileNode>, before: seq<FileNode>, g: Foot, v: Tree, done: set<Name>, same: bool)
    requires v.Dir?
  {
    && NoDuplicates(items) && before <= items
    && (forall n :: n in items ==> n in before || InKids(g, n))
    && forall a {:trigger KidQueue(items, before, g, v, a, done, same)} :: a in g.kids && a in v.children ==>
         KidQueue(items, before, g, v, a, done, same)
  }

  // A node that came into the queue and belongs to the tree is not below a name still to be visited.
  lemma MemberBelow(items: seq<FileNode>, before: seq<FileNode>, g: Foot, v: Tree, done: set<Name>, same: bool, n: FileNode)
    returns (a: Name)
    requires v.Dir? && QueueAt(items, before, g, v, done, same) && Tidy(g) && g.kids.Keys == v.children.Keys
    requires n in items && n !in before
    ensures a in done && a in g.kids && Live(g.kids[a], n)
  {
    assert InKids(g, n);
    a :| a in g.kids && Live(g.kids[a], n);
    assert Within(g, a);
    LiveIsNode(g.kids[a], n);
    assert KidQueue(items, before, g, v, a, done, same);
  }

  lemma MembersNext(items: seq<FileNode>, before: seq<FileNode>, g: Foot, v: Tree, done: set<Name>, same: bool,
                    name: Name, kid: Foot, later: seq<FileNode>)
    requires v.Dir? && QueueAt(items, before, g, v, done, same) && Tidy(g) && g.kids.Keys == v.children.Keys && name !in done
    requires QueueGrows(later, items, kid)
    ensures forall n :: n in later ==> n in before || InKids(With(g, name, kid), n)
  {
    var h := With(g, name, kid);
    forall n | n in later && n !in before
      ensures InKids(h, n)
    {
      if n in items {
        var a := MemberBelow(items, before, g, v, done, same, n);
        assert h.kids[a] == g.kids[a];
      } else {
        assert Live(h.kids[name], n);
      }
    }
  }

  lemma NewMembers(later: seq<FileNode>, items: seq<FileNode>, kid: Foot)
    requires Tidy(kid) && QueueGrows(later, items, kid)
    ensures forall n :: n in later && n !in items ==> n in Nodes(kid)
  {
    forall n | n in later && n !in items
      ensures n in Nodes(kid)
    {
      LiveIsNode(kid, n);
    }
  }

  // Visiting one more name leaves the queue as it was for all others.
  lemma QueueAtNext(items: seq<FileNode>, before: seq<FileNode>, g: Foot, v: Tree, done: set<Name>, same: bool,
                    name: Name, kid: Foot, r: Tree, later: seq<FileNode>, w: Tree)
    requires v.Dir? && QueueAt(items, before, g, v, done, same) && name in v.children && name in g.kids && name !in done
    requires g.kids.Keys == v.children.Keys
    requires Tidy(g) && Tidy(With(g, name, kid)) && QueueGrows(later, items, kid)
    requires forall n :: n in g.kids[name].below ==> n in kid.below
    requires g.kids[name].node == kid.node
    requires if r.Dir? then same ==> QueueHolds(later, items, kid, r) else later == items && kid == g.kids[name]
    requires forall n :: n in Nodes(kid) ==> n in Nodes(g.kids[name]) || n !in items
    requires w.Dir? && w.children == v.children[name := r]
    ensures QueueAt(later, before, With(g, name, kid), w, done + {name}, same)
  {
    var h := With(g, name, kid);
    MembersNext(items, before, g, v, done, same, name, kid, later);
    assert Within(g, name) && Within(h, name);
    NewMembers(later, items, kid);
    forall a | a in h.kids && a in w.children
      ensures KidQueue(later, before, h, w, a, done + {name}, same)
    {
      assert KidQueue(items, before, g, v, a, done, same);
      if a != name {
        assert Within(g, a);
        assert Apart(h, a, name);
      }
    }
  }

  lemma ReportNext(f: Foot, t: Tree, d: Disk, done: set<Name>, name: Name, before: seq<FileNode>, items: seq<FileNode>)
    requires Tidy(f) && Backed(t, d) && t.children.Keys == f.kids.Keys && name in t.children && SameFor(f.kids[name], items, before)
    ensures AnyBelow(f, t, d, done + {name}, before)
       <==> AnyBelow(f, t, d, done, before) || Reports(f.kids[name], t.children[name], Sub(d, name), items)
  {
    assert Within(f, name);
    ReportsSame(f.kids[name], t.children[name], Sub(d, name), items, before);
    assert BelowReports(f, t, d, before, name) == Reports(f.kids[name], t.children[name], Sub(d, name), items);
    if AnyBelow(f, t, d, done, before) {
      var a :| a in done && a in t.children && BelowReports(f, t, d, before, a);
      assert a in done + {name};
    }
    assert name in done + {name};
  }

  // Some visited subdirectory reports a change.
  ghost predicate AnyBelow(f: Foot, t: Tree, d: Disk, done: set<Name>, items: seq<FileNode>)
    requires t.Dir?
  {
    exists name {:trigger BelowReports(f, t, d, items, name)} ::
      name in done && name in t.children && BelowReports(f, t, d, items, name)
  }

  // A child stays the same node, and until it is visited the same tree.
  ghost predicate KidKept(f: Foot, g: Foot, a: Name, done: set<Name>)
    requires a in f.kids
  {
    a in g.kids && g.kids[a].node == f.kids[a].node && (a !in done ==> g.kids[a] == f.kids[a])
  }

  ghost predicate KidsKept(f: Foot, g: Foot, done: set<Name>) {
    forall a {:trigger KidKept(f, g, a, done)} :: a in f.kids ==> KidKept(f, g, a, done)
  }

  // Where the loop over the children stands.
  ghost predicate VisitAt(f: Foot, t: Tree, g: Foot, v: Tree, d: Disk, place: Place, done: set<Name>, same: bool,
                          result: bool, items: seq<FileNode>, before: seq<FileNode>)
    requires Backed(t, d)
  {
    && Tidy(g) && g.node == f.node && f.below <= g.below
    && v == t.(children := Visited(t, d, place, done), size := SizeSoFar(Visited(t, d, place, done), done))
    && g.kids.Keys == v.children.Keys && KidsKept(f, g, done) && KidsLive(f, t, d, g, done)
    && QueueAt(items, before, g, v, done, same)
    && (result <==> AnyBelow(f, t, d, done, before))
  }

  // Where the recursion looks next: a directory below, or the same place and a subtree.
  function Key(t: Tree, d: Disk): Tree {
    if d.DDir? then Reg(PlainInfo(0)) else t
  }

  ghost predicate Same(t: Tree, d: Disk) {
    Backed(t, d) && forall name {:trigger Sub(d, name)} ::
      name in t.children && t.children[name].Dir? ==> SameKinds(t.children[name], Sub(d, name))
  }

  lemma VisitNext(f: Foot, t: Tree, g: Foot, v: Tree, d: Disk, place: Place, done: set<Name>, same: bool,
                  name: Name, kid: Foot, r: Tree)
    requires Backed(t, d) && v == t.(children := Visited(t, d, place, done), size := SizeSoFar(Visited(t, d, place, done), done))
    requires name in t.children && name !in done && r == Refreshed(t.children[name], Sub(d, name), Below(place, name))
    ensures var all := Visited(t, d, place, done + {name});
            && v.(children := v.children[name := r], size := v.size + SizeOf(r))
               == t.(children := all, size := SizeSoFar(all, done + {name}))
  {
    VisitedNext(t, d, place, done, name);
    SizeNext(v.children, done, name, r);
  }

  lemma LiveNext(f: Foot, t: Tree, g: Foot, d: Disk, done: set<Name>, name: Name, kid: Foot)
    requires Backed(t, d) && KidsLive(f, t, d, g, done) && name in t.children && name in f.kids
    requires LiveIn(Nodes(f), f.kids[name], t.children[name], Sub(d, name), kid)
    ensures KidsLive(f, t, d, With(g, name, kid), done + {name})
  {
    forall a | a in done + {name} && a in t.children
      ensures KidLive(Nodes(f), f, t, d, With(g, name, kid), a)
    {
      if a != name {
        assert KidLive(Nodes(f), f, t, d, g, a);
      }
    }
  }

  lemma VisitStep(f: Foot, t: Tree, g: Foot, v: Tree, d: Disk, place: Place, done: set<Name>, same: bool, result: bool,
                  items: seq<FileNode>, before: seq<FileNode>, name: Name, kid: Foot, r: Tree, later: seq<FileNode>, reported: bool)
    requires Tidy(f) && Backed(t, d) && t.children.Keys == f.kids.Keys && name in t.children && name !in done
    requires VisitAt(f, t, g, v, d, place, done, same, result, items, before)
    requires KidVisited(g, v, d, place, same, items, name, kid, r, later, Nodes(f))
    requires reported <==> Reports(g.kids[name], v.children[name], Sub(d, name), items)
    requires Tidy(With(g, name, kid))
    ensures var w := v.(children := v.children[name := r], size := v.size + SizeOf(r));
            VisitAt(f, t, With(g, name, kid), w, d, place, done + {name}, same, result || reported, later, before)
  {
    VisitedNext(t, d, place, done, name);
    assert Within(g, name) && KidKept(f, g, name, done);
    var h := With(g, name, kid);
    forall a | a in f.kids
      ensures KidKept(f, h, a, done + {name})
    {
      assert KidKept(f, g, a, done);
    }
    LiveNext(f, t, g, d, done, name, kid);
    QueueAtNext(items, before, g, v, done, same, name, kid, r, later,
                v.(children := v.children[name := r], size := v.size + SizeOf(r)));
    VisitNext(f, t, g, v, d, place, done, same, name, kid, r);
    assert KidQueue(items, before, g, v, name, done, same);
    ReportNext(f, t, d, done, name, before, items);
  }

  // What the visit of one child did to its nodes and to the queue.
  ghost predicate KidVisited(g: Foot, v: Tree, d: Disk, place: Place, same: bool, items: seq<FileNode>,
                             name: Name, kid: Foot, r: Tree, later: seq<FileNode>, world: set<FileNode>)
    requires Backed(v, d) && name in v.children
  {
    && name in g.kids && g.kids[name].node == kid.node && g.kids[name].below <= kid.below
    && r == Refreshed(v.children[name], Sub(d, name), Below(place, name))
    && QueueGrows(later, items, kid)
    && (if r.Dir? then same ==> QueueHolds(later, items, kid, r) else later == items && kid == g.kids[name])
    && LiveIn(world, g.kids[name], v.children[name], Sub(d, name), kid)
    && forall n :: n in Nodes(kid) ==> n in Nodes(g.kids[name]) || n !in items
  }

  method VisitChild(node: FileNode, name: Name, hash: PtrV, d: Disk, place: Place, ghost g: Foot, ghost v: Tree, ghost same: bool,
                    ghost world: set<FileNode>)
    returns (reported: bool, ghost kid: Foot, ghost r: Tree)
    requires Tidy(g) && Owns(g, v) && g.node == node && Backed(v, d) && name in v.children && NoDuplicates(hash.items)
    requires Placed(v.children[name], Below(place, name)) && Ordinary(v.children[name])
    requires same && v.children[name].Dir? ==> SameKinds(v.children[name], Sub(d, name))
    modifies node`size, g.below, hash
    ensures KidVisited(g, v, d, place, same, old(hash.items), name, kid, r, hash.items, world)
    ensures reported <==> Reports(g.kids[name], v.children[name], Sub(d, name), old(hash.items))
    ensures Tidy(With(g, name, kid))
    ensures Owns(With(g, name, kid), v.(children := v.children[name := r], size := node.size))
    ensures node.size == old(node.size) + SizeOf(r)
    ensures forall n :: n in With(g, name, kid).below ==> n in g.below || fresh(n)
    decreases d, Key(v.children[name], d), if d.DDir? then 0 else 5
  {
    label start:
    assert OwnsKid(g, name, v.children[name]) && Within(g, name);
    kid, r := g.kids[name], v.children[name];
    var child := node.children[name];
    reported := false;
    assert Tidy(kid) && child !in kid.below;
    assert Owns(kid, r);
    if child.isDir {
      reported, kid, r := LookupFilelistChanges(child, hash, Sub(d, name), Below(place, name), kid, r);
    } else {
      LeafLive(kid, r, Sub(d, name));
    }
    assert child.parent == node && node !in Nodes(kid);
    LiveWider(world, g.kids[name], v.children[name], Sub(d, name), kid);
    label visited:
    node.size := node.size + child.size;
    TreeStays@visited(kid, r);
    SubtreeChanged@start(g, v, name, kid, r, node.size);
  }

  predicate Partition(all: set<Name>, done: set<Name>, rest: set<Name>) {
    all == done + rest && done !! rest
  }

  lemma TakeOne(all: set<Name>, done: set<Name>, rest: set<Name>, name: Name)
    requires Partition(all, done, rest) && name in rest
    ensures name in all && name !in done && Partition(all, done + {name}, rest - {name}) && |rest - {name}| < |rest|
  {
  }

  // What a visit of the child needs.
  ghost predicate KidReady(t: Tree, d: Disk, place: Place, same: bool, name: Name)
    requires Backed(t, d) && name in t.children
  {
    && Placed(t.children[name], Below(place, name)) && Ordinary(t.children[name])
    && (same && t.children[name].Dir? ==> SameKinds(t.children[name], Sub(d, name)))
  }

  ghost predicate Ready(t: Tree, d: Disk, place: Place, same: bool)
    requires Backed(t, d)
  {
    forall name {:trigger KidReady(t, d, place, same, name)} :: name in t.children ==> KidReady(t, d, place, same, name)
  }

  lemma AllReady(t: Tree, d: Disk, path: Name, same: bool)
    requires Backed(t, d) && Placed(t, path) && Ordinary(t) && (same ==> Same(t, d))
    ensures Ready(t, d, At(path), same)
  {
  }

  // One turn of the loop.
  method VisitOne(node: FileNode, name: Name, hash: PtrV, d: Disk, place: Place, result: bool, ghost f: Foot, ghost t: Tree,
                  ghost g: Foot, ghost v: Tree, ghost done: set<Name>, ghost rest: set<Name>, ghost same: bool,
                  ghost before: seq<FileNode>)
    returns (now: bool, ghost h: Foot, ghost w: Tree, ghost more: set<Name>, ghost left: set<Name>)
    requires Tidy(f) && Backed(t, d) && t.children.Keys == f.kids.Keys && Partition(t.children.Keys, done, rest) && name in rest
    requires Ready(t, d, place, same) && g.node == node
    requires Owns(g, v) && VisitAt(f, t, g, v, d, place, done, same, result, hash.items, before)
    modifies node`size, g.below, hash
    ensures left == rest - {name} && Partition(t.children.Keys, more, left) && |left| < |rest|
    ensures Owns(h, w) && VisitAt(f, t, h, w, d, place, more, same, now, hash.items, before)
    ensures forall n :: n in h.below ==> n in g.below || fresh(n)
    decreases d, Key(t.children[name], d), if d.DDir? then 1 else 6
  {
    TakeOne(t.children.Keys, done, rest, name);
    assert KidReady(t, d, place, same, name);
    VisitedNext(t, d, place, done, name);
    ghost var kid, r, items := g, v, hash.items;
    assert v.size == node.size;
    var reported;
    reported, kid, r := VisitChild(node, name, hash, d, place, g, v, same, Nodes(f));
    assert node.size == v.size + SizeOf(r);
    VisitStep(f, t, g, v, d, place, done, same, result, items, before, name, kid, r, hash.items, reported);
    h, w := With(g, name, kid), v.(children := v.children[name := r], size := v.size + SizeOf(r));
    now, more, left := result || reported, done + {name}, rest - {name};
  }

  twostate lemma OnlySizeChanged(f: Foot, new t: Tree, new size: nat)
    requires Tidy(f) && old(Owns(f, t)) && t.Dir? && unchanged(f.below)
    requires unchanged(f.node`children, f.node`realPath) && f.node.size == size
    ensures Owns(f, t.(size := size))
  {
    forall a | a in t.children
      ensures OwnsKid(f, a, t.children[a])
    {
      assert old(OwnsKid(f, a, t.children[a]));
      assert Within(f, a);
      KidStays(f, f, a, t.children[a]);
    }
  }

  lemma VisitStart(f: Foot, t: Tree, d: Disk, place: Place, same: bool, before: seq<FileNode>)
    requires Tidy(f) && Backed(t, d) && f.kids.Keys == t.children.Keys && NoDuplicates(before)
    ensures VisitAt(f, t, f, t.(size := 0), d, place, {}, same, false, before, before)
  {
    var none: set<Name> := {};
    SizeAll(t.children);
    assert Visited(t, d, place, none) == t.children;
    assert !AnyBelow(f, t, d, none, before);
    forall a | a in f.kids && a in t.children
      ensures KidQueue(before, before, f, t.(size := 0), a, none, same)
    {
    }
  }

  // The loop over the children.
  method VisitAll(node: FileNode, hash: PtrV, d: Disk, place: Place, names: set<Name>, ghost f: Foot, ghost t: Tree, ghost same: bool)
    returns (result: bool, ghost g: Foot, ghost v: Tree, ghost done: set<Name>)
    requires Backed(t, d) && Tidy(f) && Owns(f, t.(size := 0)) && f.node == node && Partition(t.children.Keys, {}, names)
    requires VisitAt(f, t, f, t.(size := 0), d, place, {}, same, false, hash.items, hash.items)
    requires Ready(t, d, place, same)
    modifies node`size, f.below, hash
    ensures Partition(t.children.Keys, done, {})
    ensures Owns(g, v) && VisitAt(f, t, g, v, d, place, done, same, result, hash.items, old(hash.items))
    ensures forall n :: n in g.below ==> n in f.below || fresh(n)
    decreases d, Key(t, d), 2
  {
    result, g, v, done := false, f, t.(size := 0), {};
    var rest := names;
    ghost var before := hash.items;
    while rest != {}
      invariant Partition(t.children.Keys, done, rest)
      invariant Owns(g, v) && VisitAt(f, t, g, v, d, place, done, same, result, hash.items, before)
      invariant forall n :: n in g.below ==> n in f.below || fresh(n)
      decreases |rest|
    {
      var name :| name in rest;
      ghost var left;
      result, g, v, done, left := VisitOne(node, name, hash, d, place, result, f, t, g, v, done, rest, same, before);
      rest := rest - {name};
    }
  }

  method VisitChildren(node: FileNode, hash: PtrV, d: Disk, place: Place, ghost f: Foot, ghost t: Tree, ghost same: bool)
    returns (result: bool, ghost g: Foot, ghost v: Tree)
    requires Tidy(f) && Owns(f, t) && f.node == node && Backed(t, d) && NoDuplicates(hash.items)
    requires Ready(t, d, place, same)
    modifies node`size, f.below, hash
    ensures Owns(g, v) && VisitAt(f, t, g, v, d, place, t.children.Keys, same, result, hash.items, old(hash.items))
    ensures forall n :: n in g.below ==> n in f.below || fresh(n)
    decreases d, Key(t, d), 3
  {
    label start:
    node.size := 0;
    OnlySizeChanged@start(f, t, 0);
    VisitStart(f, t, d, place, same, hash.items);
    ghost var done;
    result, g, v, done := VisitAll(node, hash, d, place, node.children.Keys, f, t, same);
    assert done == t.children.Keys;
  }

  // ---- The whole pass

  // The children between the loop over the directory and the loop over the children.
  ghost predicate HalfDone(t: Tree, d: Disk, path: Name, u: Tree) {
    && t.Dir? && u.Dir? && u.realPath == t.realPath
    && if d.DDir? then u.children == Touched(t.children - Gone(t, d), d, path, Listed(d)) else u.children == t.children
  }

  lemma HalfDoneAt(t: Tree, d: Disk, path: Name, u: Tree, name: Name)
    requires HalfDone(t, d, path, u) && Ordinary(t) && d.DDir?
    ensures name in u.children <==> name in d.entries && After(t.children, d.entries, path, name).Some?
    ensures name in u.children ==> u.children[name] == After(t.children, d.entries, path, name).value && !Special(name)
  {
  }

  lemma HalfDoneShape(t: Tree, d: Disk, path: Name, u: Tree)
    requires HalfDone(t, d, path, u) && Ordinary(t) && Placed(t, path)
    ensures Backed(u, d) && Placed(u, path) && Ordinary(u) && (SameKinds(t, d) ==> Same(u, d))
  {
    if d.DDir? {
      forall name | name in u.children
        ensures name in d.entries && !Special(name) && Ordinary(u.children[name]) && Placed(u.children[name], CatFiles(path, name))
        ensures SameKinds(t, d) && u.children[name].Dir? ==> SameKinds(u.children[name], d.entries[name])
      {
        HalfDoneAt(t, d, path, u, name);
      }
    }
  }

  lemma PassValue(t: Tree, d: Disk, path: Name, u: Tree)
    requires HalfDone(t, d, path, u) && Ordinary(t) && Placed(t, path) && Backed(u, d)
    ensures var all := Visited(u, d, At(path), u.children.Keys);
            u.(children := all, size := SizeSoFar(all, u.children.Keys)) == Refreshed(t, d, path)
  {
    var all, kept := Visited(u, d, At(path), u.children.Keys), RefreshedChildren(t, d, path);
    forall name
      ensures name in all <==> name in kept
      ensures name in all ==> all[name] == kept[name]
    {
      if d.DDir? {
        HalfDoneAt(t, d, path, u, name);
      }
    }
    assert all == kept && all.Keys == u.children.Keys;
    SizeAll(all);
  }

  // The queue after the loop over the directory.
  ghost predicate MidQueue(mid: seq<FileNode>, before: seq<FileNode>, g: Foot, u: Tree, d: Disk)
    requires u.Dir?
  {
    if d.DDir? then QueueIs(mid, before, Leaves(g, u, Listed(d))) else mid == before && NoDuplicates(mid)
  }

  lemma MidMember(mid: seq<FileNode>, before: seq<FileNode>, g: Foot, u: Tree, d: Disk, n: FileNode) returns (a: Name)
    requires u.Dir? && MidQueue(mid, before, g, u, d) && n in mid && n !in before
    ensures d.DDir? && a in u.children && a in g.kids && NeedsHash(u.children[a]) && g.kids[a].node == n
  {
    assert n in Elements(mid) && n !in Elements(before);
    a :| a in Listed(d) && a in u.children && a in g.kids && NeedsHash(u.children[a]) && g.kids[a].node == n;
  }

  lemma PassQueueGrows(before: seq<FileNode>, mid: seq<FileNode>, final: seq<FileNode>, d: Disk,
                       h: Foot, u: Tree, g: Foot, v: Tree, same: bool)
    requires Tidy(h) && u.Dir? && MidQueue(mid, before, h, u, d)
    requires Tidy(g) && g.node == h.node && v.Dir? && QueueAt(final, mid, g, v, v.children.Keys, same)
    requires KidsKept(h, g, u.children.Keys)
    ensures QueueGrows(final, before, g)
  {
    forall n | n in final
      ensures n in before || Live(g, n)
    {
      if n in mid && n !in before {
        var a := MidMember(mid, before, h, u, d, n);
        assert KidKept(h, g, a, u.children.Keys);
        assert Live(g.kids[a], n);
      } else if n !in mid {
        assert InKids(g, n);
      }
    }
  }

  lemma LeafIsMid(before: seq<FileNode>, mid: seq<FileNode>, h: Foot, u: Tree, d: Disk, a: Name)
    requires d.DDir? && Backed(u, d) && Ordinary(u) && MidQueue(mid, before, h, u, d) && a in u.children && a in h.kids
    ensures NeedsHash(u.children[a]) ==> h.kids[a].node in mid
  {
    if NeedsHash(u.children[a]) {
      assert h.kids[a].node in Leaves(h, u, Listed(d));
      assert h.kids[a].node in Elements(mid);
    }
  }

  lemma DirIsQueued(final: seq<FileNode>, mid: seq<FileNode>, g: Foot, v: Tree, a: Name, n: FileNode)
    requires v.Dir? && QueueAt(final, mid, g, v, v.children.Keys, true)
    requires a in v.children && a in g.kids && v.children[a].Dir? && n in Nodes(g.kids[a])
    ensures n in final <==> n in mid || IsUnhashed(g.kids[a], v.children[a], n)
  {
    assert KidQueue(final, mid, g, v, a, v.children.Keys, true);
  }

  lemma FinalIsUnhashed(before: seq<FileNode>, mid: seq<FileNode>, final: seq<FileNode>, d: Disk, path: Name,
                        h: Foot, u: Tree, g: Foot, v: Tree, n: FileNode)
    requires d.DDir? && Backed(u, d) && MidQueue(mid, before, h, u, d)
    requires v.Dir? && v.children == Visited(u, d, At(path), u.children.Keys)
    requires Tidy(g) && QueueAt(final, mid, g, v, v.children.Keys, true) && g.kids.Keys == v.children.Keys
    requires KidsKept(h, g, u.children.Keys)
    requires n in final && n !in before
    ensures IsUnhashed(g, v, n)
  {
    var a;
    if n in mid {
      a := MidMember(mid, before, h, u, d, n);
      assert KidKept(h, g, a, u.children.Keys);
      assert v.children[a] == u.children[a];
    } else {
      a := MemberBelow(final, mid, g, v, v.children.Keys, true, n);
      assert Within(g, a);
      LiveIsNode(g.kids[a], n);
      assert KidQueue(final, mid, g, v, a, v.children.Keys, true);
    }
    assert IsUnhashed(g.kids[a], v.children[a], n);
  }

  lemma UnhashedIsFinal(before: seq<FileNode>, mid: seq<FileNode>, final: seq<FileNode>, d: Disk, path: Name,
                        h: Foot, u: Tree, g: Foot, v: Tree, n: FileNode)
    requires d.DDir? && Backed(u, d) && Ordinary(u) && MidQueue(mid, before, h, u, d) && h.kids.Keys == u.children.Keys
    requires v.Dir? && v.children == Visited(u, d, At(path), u.children.Keys)
    requires Tidy(g) && QueueAt(final, mid, g, v, v.children.Keys, true)
    requires KidsKept(h, g, u.children.Keys)
    requires IsUnhashed(g, v, n)
    ensures n in final
  {
    var a :| a in v.children && a in g.kids && IsUnhashed(g.kids[a], v.children[a], n);
    if v.children[a].Reg? {
      LeafIsMid(before, mid, h, u, d, a);
      assert KidKept(h, g, a, u.children.Keys);
      assert v.children[a] == u.children[a];
    } else {
      assert Within(g, a);
      UnhashedIsNode(g.kids[a], v.children[a], n);
      DirIsQueued(final, mid, g, v, a, n);
    }
  }

  lemma PassQueueHolds(before: seq<FileNode>, mid: seq<FileNode>, final: seq<FileNode>, d: Disk, path: Name,
                       h: Foot, u: Tree, g: Foot, v: Tree)
    requires d.DDir? && Backed(u, d) && Ordinary(u) && MidQueue(mid, before, h, u, d) && h.kids.Keys == u.children.Keys
    requires v.Dir? && v.children == Visited(u, d, At(path), u.children.Keys)
    requires Tidy(g) && QueueAt(final, mid, g, v, v.children.Keys, true) && g.kids.Keys == v.children.Keys
    requires KidsKept(h, g, u.children.Keys)
    ensures QueueHolds(final, before, g, v)
  {
    forall n | n in Nodes(g)
      ensures n in final <==> n in before || IsUnhashed(g, v, n)
    {
      if n in final && n !in before {
        FinalIsUnhashed(before, mid, final, d, path, h, u, g, v, n);
      } else if IsUnhashed(g, v, n) {
        UnhashedIsFinal(before, mid, final, d, path, h, u, g, v, n);
      }
    }
  }

  // ---- What the pass reports

  // The tree and the nodes after the names that are gone.
  lemma NoticedAfterDelete(f: Foot, t: Tree, d: Disk, f1: Foot, t1: Tree, items: seq<FileNode>)
    requires t.Dir? && d.DDir? && f1.kids == f.kids - Gone(t, d) && t1.Dir? && t1.children == t.children - Gone(t, d)
    ensures AnyNoticed(f1, t1, d, Listed(d), items) == AnyNoticed(f, t, d, Listed(d), items)
  {
    forall name | name in d.entries
      ensures Noticed(f1, t1, name, d.entries[name], items) == Noticed(f, t, name, d.entries[name], items)
    {
    }
  }

  // Without a name that is gone or noticed, the two loops leave the subdirectories as they were.
  lemma BelowAfterLoop(f: Foot, t: Tree, d: Disk, path: Name, h: Foot, u: Tree, before: seq<FileNode>, mid: seq<FileNode>, name: Name)
    requires HalfDone(t, d, path, u) && Ordinary(t) && Backed(u, d) && MidQueue(mid, before, h, u, d)
    requires Tidy(f) && Tidy(h) && f.kids.Keys == t.children.Keys && h.kids.Keys == u.children.Keys
    requires name in t.children && (d.DDir? ==> name in d.entries)
    requires name in h.kids && h.kids[name] == f.kids[name]
    requires before <= mid
    ensures name in u.children && BelowReports(f, t, d, before, name) == BelowReports(h, u, d, mid, name)
  {
    if d.DDir? {
      HalfDoneAt(t, d, path, u, name);
    }
    if t.children[name].Dir? {
      assert Within(h, name);
      forall a | a in h.kids && a != name
        ensures h.kids[a].node !in Nodes(h.kids[name])
      {
        assert Apart(h, a, name);
      }
      forall n | n in Nodes(h.kids[name])
        ensures n in mid <==> n in before
      {
        if n in mid && n !in before {
          var a := MidMember(mid, before, h, u, d, n);
        }
      }
      ReportsSame(h.kids[name], t.children[name], Sub(d, name), before, mid);
    }
  }

  lemma ListedOrGone(t: Tree, d: Disk, name: Name)
    requires t.Dir? && d.DDir? && name in t.children
    ensures name in d.entries || name in Gone(t, d)
  {
  }

  lemma PassReports(f: Foot, t: Tree, d: Disk, path: Name, h: Foot, u: Tree, before: seq<FileNode>, mid: seq<FileNode>, here: bool)
    requires HalfDone(t, d, path, u) && Ordinary(t) && Backed(u, d) && MidQueue(mid, before, h, u, d) && before <= mid
    requires Tidy(f) && Tidy(h) && f.kids.Keys == t.children.Keys && h.kids.Keys == u.children.Keys
    requires here <==> d.DDir? && (Gone(t, d) != {} || AnyNoticed(f, t, d, Listed(d), before))
    requires forall a :: a in f.kids && (d.DDir? ==> a in d.entries) ==> a in h.kids && h.kids[a] == f.kids[a]
    ensures Reports(f, t, d, before) <==> here || AnyBelow(h, u, d, u.children.Keys, mid)
  {
    if !here {
      forall name | name in t.children
        ensures name in u.children && BelowReports(f, t, d, before, name) == BelowReports(h, u, d, mid, name)
      {
        if d.DDir? {
          ListedOrGone(t, d, name);
        }
        BelowAfterLoop(f, t, d, path, h, u, before, mid, name);
      }
      forall name | name in u.children
        ensures name in t.children
      {
        if d.DDir? {
          HalfDoneAt(t, d, path, u, name);
          assert name !in t.children ==> name in Listed(d) && Noticed(f, t, name, d.entries[name], before);
        }
      }
    }
  }

  // ---- Which nodes are left

  // The nodes after the two loops: the same under names that are still there, otherwise new leaves.
  ghost predicate Kept(f: Foot, d: Disk, h: Foot) {
    forall a :: a in h.kids ==>
      if a in f.kids && (d.DDir? ==> a in d.entries) then h.kids[a] == f.kids[a]
      else h.kids[a] == Foot(h.kids[a].node, {}, map[]) && h.kids[a].node !in Nodes(f)
  }

  lemma SurvivesAt(f: Foot, t: Tree, d: Disk, path: Name, h: Foot, u: Tree, n: FileNode, a: Name)
    requires HalfDone(t, d, path, u) && Ordinary(t) && Kept(f, d, h) && n in Nodes(f)
    requires f.kids.Keys == t.children.Keys && h.kids.Keys == u.children.Keys && a in u.children
    ensures SurvivesBelow(h, u, d, n, a) <==> a in t.children && SurvivesBelow(f, t, d, n, a)
  {
    if d.DDir? {
      HalfDoneAt(t, d, path, u, a);
    }
  }

  lemma SurvivesAfterLoops(f: Foot, t: Tree, d: Disk, path: Name, h: Foot, u: Tree, n: FileNode)
    requires HalfDone(t, d, path, u) && Ordinary(t) && Kept(f, d, h) && n in Nodes(f) && h.node == f.node
    requires f.kids.Keys == t.children.Keys && h.kids.Keys == u.children.Keys
    requires forall a :: a in f.kids && (d.DDir? ==> a in d.entries) ==> a in h.kids && h.kids[a] == f.kids[a]
    ensures Survives(h, u, d, n) <==> Survives(f, t, d, n)
  {
    forall a | a in u.children
      ensures SurvivesBelow(h, u, d, n, a) <==> a in t.children && SurvivesBelow(f, t, d, n, a)
    {
      SurvivesAt(f, t, d, path, h, u, n, a);
    }
    forall a | a in t.children && SurvivesBelow(f, t, d, n, a)
      ensures a in u.children
    {
    }
  }

  lemma PassLive(f: Foot, t: Tree, d: Disk, path: Name, h: Foot, u: Tree, g: Foot)
    requires HalfDone(t, d, path, u) && Ordinary(t) && Backed(u, d) && Kept(f, d, h)
    requires h.node == g.node == f.node && f.below <= h.below
    requires f.kids.Keys == t.children.Keys && h.kids.Keys == u.children.Keys == g.kids.Keys
    requires forall a :: a in f.kids && (d.DDir? ==> a in d.entries) ==> a in h.kids && h.kids[a] == f.kids[a]
    requires KidsLive(h, u, d, g, u.children.Keys)
    ensures LiveIn(Nodes(f), f, t, d, g)
  {
    LiveFromKids(h, u, d, g);
    forall n | n in Nodes(f)
      ensures Live(g, n) <==> Survives(f, t, d, n)
    {
      assert n in Nodes(h);
      SurvivesAfterLoops(f, t, d, path, h, u, n);
    }
  }

  // Deleting what is gone and looking at what the directory delivers.
  method CompareWithDir(node: FileNode, hash: PtrV, d: Disk, path: Name, ghost f: Foot, ghost t: Tree)
    returns (changed: bool, ghost h: Foot, ghost u: Tree)
    requires Tidy(f) && Owns(f, t) && f.node == node && t.Dir? && d.DDir? && NoDuplicates(hash.items)
    modifies node`size, node`children, f.below, hash
    ensures Tidy(h) && Owns(h, u) && h.node == node && HalfDone(t, d, path, u) && MidQueue(hash.items, old(hash.items), h, u, d)
    ensures forall a :: a in f.kids && a in d.entries ==> a in h.kids && h.kids[a] == f.kids[a]
    ensures Kept(f, d, h)
    ensures f.below <= h.below && forall n :: n in h.below ==> n in f.below || fresh(n)
    ensures changed <==> Gone(t, d) != {} || AnyNoticed(f, t, d, Listed(d), old(hash.items))
    ensures old(hash.items) <= hash.items
  {
    var deleted;
    deleted, h, u := DeleteMissing(node, d, f, t);
    NoticedAfterDelete(f, t, d, h, u, hash.items);
    changed, h, u := TouchEntries(node, d, path, hash, h, u);
    changed := changed || deleted;
  }

  lemma {:induction false} PassResult(f: Foot, t: Tree, d: Disk, path: Name, h: Foot, u: Tree, g: Foot, r: Tree,
                   before: seq<FileNode>, mid: seq<FileNode>, final: seq<FileNode>, changed: bool, below: bool, same: bool)
    requires HalfDone(t, d, path, u) && Ordinary(t) && Ordinary(u) && Placed(t, path) && Backed(u, d)
    requires Tidy(f) && Tidy(h) && f.kids.Keys == t.children.Keys && h.kids.Keys == u.children.Keys
    requires MidQueue(mid, before, h, u, d) && before <= mid && (same ==> d.DDir?)
    requires changed <==> d.DDir? && (Gone(t, d) != {} || AnyNoticed(f, t, d, Listed(d), before))
    requires forall a :: a in f.kids && (d.DDir? ==> a in d.entries) ==> a in h.kids && h.kids[a] == f.kids[a]
    requires VisitAt(h, u, g, r, d, At(path), u.children.Keys, same, below, final, mid) && g.kids.Keys == r.children.Keys
    ensures r == Refreshed(t, d, path) && QueueGrows(final, before, g)
    ensures same ==> QueueHolds(final, before, g, r)
    ensures Reports(f, t, d, before) <==> below || changed
  {
    assert r.children.Keys == u.children.Keys;
    PassReports(f, t, d, path, h, u, before, mid, changed);
    PassValue(t, d, path, u);
    PassQueueGrows(before, mid, final, d, h, u, g, r, same);
    if same {
      PassQueueHolds(before, mid, final, d, path, h, u, g, r);
    }
  }

  // One pass over a shared directory.
  method LookupFilelistChanges(node: FileNode, hash: PtrV, d: Disk, path: Name, ghost f: Foot, ghost t: Tree)
    returns (result: bool, ghost g: Foot, ghost r: Tree)
    requires Tidy(f) && Owns(f, t) && f.node == node && Placed(t, path) && Ordinary(t) && NoDuplicates(hash.items)
    modifies node`size, node`children, f.below, hash
    ensures Tidy(g) && Owns(g, r) && g.node == node && r == Refreshed(t, d, path)
    ensures f.below <= g.below && forall n :: n in g.below ==> n in f.below || fresh(n)
    ensures QueueGrows(hash.items, old(hash.items), g)
    ensures t.Dir? && SameKinds(t, d) ==> QueueHolds(hash.items, old(hash.items), g, r)
    ensures LiveIn(Nodes(f), f, t, d, g)
    ensures result <==> Reports(f, t, d, old(hash.items))
    decreases d, Key(t, d), 4
  {
    result, g, r := false, f, t;
    if !node.isDir {
      return;
    }
    var changed := false;
    ghost var h, u, before := f, t, hash.items;
    if d.DDir? {
      changed, h, u := CompareWithDir(node, hash, d, path, f, t);
    }
    ghost var mid, same := hash.items, SameKinds(t, d);
    HalfDoneShape(t, d, path, u);
    AllReady(u, d, path, same);
    result, g, r := VisitChildren(node, hash, d, At(path), h, u, same);
    PassResult(f, t, d, path, h, u, g, r, before, mid, hash.items, changed, result, same);
    PassLive(f, t, d, path, h, u, g);
    result := result || changed;
  }

  // ---- The queue and the nodes that were freed

  // When the queue held nodes of the tree only, it still does after the pass if and only if none
  // of them was under a name that is gone.
  lemma QueueStaysLive(f: Foot, t: Tree, d: Disk, g: Foot, items: seq<FileNode>, before: seq<FileNode>)
    requires LiveIn(Nodes(f), f, t, d, g) && QueueGrows(items, before, g) && forall n :: n in before ==> n in Nodes(f)
    ensures (forall n :: n in items ==> Live(g, n)) <==> forall n :: n in before ==> Survives(f, t, d, n)
  {
    if forall n :: n in items ==> Live(g, n) {
      forall n | n in before
        ensures Survives(f, t, d, n)
      {
        assert n in items && Live(g, n);
      }
    }
  }

  // A queued file under a name that is gone stays queued, although the pass frees it.
  lemma GoneDoNotSurvive(f: Foot, t: Tree, d: Disk, name: Name)
    requires Tidy(f) && t.Dir? && d.DDir? && name in Gone(t, d) && name in f.kids
    ensures !Survives(f, t, d, f.kids[name].node)
  {
    var n := f.kids[name].node;
    assert Within(f, name) && n in Nodes(f.kids[name]);
    forall a | a in t.children
      ensures !SurvivesBelow(f, t, d, n, a)
    {
      if a in f.kids && a in d.entries {
        assert Within(f, a) && Apart(f, a, name);
        if Survives(f.kids[a], t.children[a], Sub(d, a), n) {
          SurvivorIsNode(f.kids[a], t.children[a], Sub(d, a), n);
        }
      }
    }
  }

  // ---- The root of the list

  lemma RootValue(t: Tree, disks: map<Name, Disk>, paths: map<Name, Name>, d: Disk, r: Tree)
    requires t.Dir? && t.children.Keys <= disks.Keys && d == DDir(0, 0, disks)
    requires var all := Visited(t, d, Shares(paths), t.children.Keys);
             r == t.(children := all, size := SizeSoFar(all, t.children.Keys))
    ensures r == RefreshedRoot(t, disks, paths)
  {
    var all := Visited(t, d, Shares(paths), t.children.Keys);
    assert all == RefreshedShares(t, disks, paths) && all.Keys == t.children.Keys;
    SizeAll(all);
  }

  lemma RootQueue(final: seq<FileNode>, before: seq<FileNode>, g: Foot, r: Tree, names: set<Name>, same: bool)
    requires Tidy(g) && r.Dir? && r.children.Keys == names == g.kids.Keys && QueueAt(final, before, g, r, names, same)
    ensures QueueGrows(final, before, g)
    ensures forall name :: same && name in names && r.children[name].Dir? ==> QueueHolds(final, before, g.kids[name], r.children[name])
  {
    forall n | n in final && n !in before
      ensures Live(g, n)
    {
      assert InKids(g, n);
    }
    forall name | same && name in names && r.children[name].Dir?
      ensures QueueHolds(final, before, g.kids[name], r.children[name])
    {
      assert KidQueue(final, before, g, r, name, names, same);
    }
  }

  // Every share is ready for a refresh: its directories know their real paths.
  ghost predicate SharesPlaced(t: Tree, paths: map<Name, Name>)
    requires t.Dir?
  {
    forall name :: name in t.children ==> Placed(t.children[name], Below(Shares(paths), name)) && Ordinary(t.children[name])
  }

  ghost predicate ShareReports(f: Foot, t: Tree, disks: map<Name, Disk>, items: seq<FileNode>, name: Name)
    requires t.Dir? && name in t.children && t.children.Keys <= disks.Keys && t.children.Keys == f.kids.Keys
  {
    Reports(f.kids[name], t.children[name], disks[name], items)
  }

  // One pass over the whole list: the root has no real path, so only its shares are looked at. The
  // snapshot of a share whose directory is gone is an empty directory.
  method LookupRootChanges(root: FileNode, hash: PtrV, disks: map<Name, Disk>, paths: map<Name, Name>, ghost f: Foot, ghost t: Tree)
    returns (result: bool, ghost g: Foot, ghost r: Tree)
    requires Tidy(f) && Owns(f, t) && f.node == root && NoDuplicates(hash.items) && t.Dir? && t.realPath == None
    requires t.children.Keys <= disks.Keys && SharesPlaced(t, paths)
    modifies root`size, f.below, hash
    ensures Tidy(g) && Owns(g, r) && g.node == root && r == RefreshedRoot(t, disks, paths)
    ensures QueueGrows(hash.items, old(hash.items), g) && g.kids.Keys == r.children.Keys == t.children.Keys
    ensures LiveIn(Nodes(f), f, t, DDir(0, 0, disks), g)
    ensures Same(t, DDir(0, 0, disks)) ==> forall name :: name in r.children && r.children[name].Dir? ==>
              QueueHolds(hash.items, old(hash.items), g.kids[name], r.children[name])
    ensures result <==> exists name {:trigger ShareReports(f, t, disks, old(hash.items), name)} ::
              name in t.children && ShareReports(f, t, disks, old(hash.items), name)
  {
    var d := DDir(0, 0, disks);
    ghost var before, same := hash.items, Same(t, d);
    result, g, r := VisitChildren(root, hash, d, Shares(paths), f, t, same);
    RootValue(t, disks, paths, d, r);
    RootQueue(hash.items, before, g, r, t.children.Keys, same);
    LiveFromKids(f, t, d, g);
    assert forall name :: name in t.children ==> ShareReports(f, t, disks, before, name) == BelowReports(f, t, d, before, name);
  }
}

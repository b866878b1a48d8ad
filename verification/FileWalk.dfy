/** Which traversals a tree has, when its hash maps may be iterated in any order. */
module FileWalk {
  import opened FileTree

  // w is a traversal of t.
  ghost predicate Walks(w: Walk, t: Tree)
    decreases w
  {
    match w
    case File(info) => t == Reg(info)
    case Folder(realPath, entries) => t.Dir? && t.realPath == realPath && Visits(entries, t.children)
  }

  // The entries are the children, each once.
  ghost predicate Visits(entries: seq<Entry>, children: map<Name, Tree>)
    decreases entries
  {
    if entries == [] then children == map[]
    else
      var name := entries[0].name;
      && name in children && Walks(entries[0].walk, children[name])
      && Visits(entries[1..], children - {name})
  }

  // The iterator delivered one more child.
  lemma {:induction false} VisitsAppend(entries: seq<Entry>, children: map<Name, Tree>, e: Entry)
    requires e.name in children && Visits(entries, children - {e.name}) && Walks(e.walk, children[e.name])
    ensures Visits(entries + [e], children)
  {
    if entries == [] {
      assert entries + [e] == [e];
      assert forall n :: n in children && n != e.name ==> n in children - {e.name};
      assert [e][1..] == [];
    } else {
      var name := entries[0].name;
      assert children - {e.name} - {name} == children - {name} - {e.name};
      VisitsAppend(entries[1..], children - {name}, e);
      assert (entries + [e])[1..] == entries[1..] + [e];
    }
  }

  // Which children of a directory are left to visit.
  ghost predicate Visited(entries: seq<Entry>, children: map<Name, Tree>, rest: set<Name>) {
    rest <= children.Keys && Visits(entries, children - rest)
  }

  lemma VisitNext(entries: seq<Entry>, children: map<Name, Tree>, rest: set<Name>, e: Entry)
    requires Visited(entries, children, rest) && e.name in rest && Walks(e.walk, children[e.name])
    ensures Visited(entries + [e], children, rest - {e.name})
  {
    assert children - (rest - {e.name}) - {e.name} == children - rest;
    VisitsAppend(entries, children - (rest - {e.name}), e);
  }

  lemma VisitedAll(entries: seq<Entry>, children: map<Name, Tree>)
    requires Visited(entries, children, {})
    ensures Visits(entries, children)
  {
    assert children - {} == children;
  }

  lemma VisitedNone(children: map<Name, Tree>)
    ensures Visited([], children, children.Keys)
  {
  }

  lemma {:induction false} VisitedNames(entries: seq<Entry>, children: map<Name, Tree>)
    requires Visits(entries, children)
    ensures forall e :: e in entries ==> e.name in children
  {
    if entries != [] {
      VisitedNames(entries[1..], children - {entries[0].name});
    }
  }

  lemma {:induction false} WalkIsDistinct(w: Walk, t: Tree)
    requires Walks(w, t)
    ensures Distinct(w)
    decreases w
  {
    if w.Folder? {
      VisitsAreDistinct(w.entries, t.children);
    }
  }

  lemma {:induction false} VisitsAreDistinct(entries: seq<Entry>, children: map<Name, Tree>)
    requires Visits(entries, children)
    ensures DistinctEntries(entries)
    decreases entries
  {
    if entries != [] {
      var name := entries[0].name;
      WalkIsDistinct(entries[0].walk, children[name]);
      VisitsAreDistinct(entries[1..], children - {name});
      VisitedNames(entries[1..], children - {name});
    }
  }

  // When the cached directory sizes are the sums, every traversal determines the tree.
  lemma {:induction false} WalkDetermines(w: Walk, t: Tree)
    requires Walks(w, t) && Additive(t)
    ensures TreeOf(w) == t
    decreases w
  {
    if w.Folder? {
      VisitsDetermine(w.entries, t.children);
    }
  }

  lemma {:induction false} VisitsDetermine(entries: seq<Entry>, children: map<Name, Tree>)
    requires Visits(entries, children) && forall name :: name in children ==> Additive(children[name])
    ensures ChildrenOf(entries) == children && EntriesSize(entries) == SumOf(children)
    decreases entries
  {
    if entries != [] {
      var name := entries[0].name;
      WalkDetermines(entries[0].walk, children[name]);
      SizeOfTree(entries[0].walk);
      VisitsDetermine(entries[1..], children - {name});
      SumWithout(children, name);
      assert (children - {name})[name := children[name]] == children;
    }
  }
}

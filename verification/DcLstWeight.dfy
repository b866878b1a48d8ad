/** How much of a DcLst text can end up in the tree: parsing never makes a name out of nothing. */
module DcLstWeight {
  import opened Wrappers
  import opened FileTree
  import opened DcLst
  import opened DcLstRoundTrip

  // ---- The weight of a tree: one for every node below it, and one for every byte of its name

  ghost function Pick(names: set<Name>): (name: Name)
    requires names != {}
    ensures name in names
  {
    var name :| name in names;
    name
  }

  ghost function Weight(t: Tree): nat
    decreases t
  {
    match t
    case Reg(_) => 0
    case Dir(_, _, children) => WeightOf(t, children.Keys)
  }

  ghost function WeightOf(t: Tree, names: set<Name>): nat
    requires t.Dir? && names <= t.children.Keys
    decreases t, |names|
  {
    if names == {} then 0
    else
      var name := Pick(names);
      |name| + 1 + Weight(t.children[name]) + WeightOf(t, names - {name})
  }

  lemma {:induction false} WeightWithout(t: Tree, names: set<Name>, name: Name)
    requires t.Dir? && names <= t.children.Keys && name in names
    ensures WeightOf(t, names) == |name| + 1 + Weight(t.children[name]) + WeightOf(t, names - {name})
    decreases |names|
  {
    var first := Pick(names);
    if first != name {
      WeightWithout(t, names - {first}, name);
      WeightWithout(t, names - {name}, first);
      assert names - {first} - {name} == names - {name} - {first};
    }
  }

  lemma {:induction false} SameWeight(t: Tree, u: Tree, names: set<Name>)
    requires t.Dir? && u.Dir? && names <= t.children.Keys && names <= u.children.Keys
    requires forall name :: name in names ==> t.children[name] == u.children[name]
    ensures WeightOf(t, names) == WeightOf(u, names)
    decreases |names|
  {
    if names != {} {
      SameWeight(t, u, names - {Pick(names)});
    }
  }

  // A new child adds its weight; a replaced one takes its own away.
  lemma WeightWith(t: Tree, u: Tree, name: Name, child: Tree)
    requires t.Dir? && u.Dir? && u.children == t.children[name := child]
    ensures Weight(u) <= Weight(t) + |name| + 1 + Weight(child)
    ensures name !in t.children ==> Weight(u) == Weight(t) + |name| + 1 + Weight(child)
  {
    var others := t.children.Keys - {name};
    WeightWithout(u, u.children.Keys, name);
    assert u.children.Keys - {name} == others;
    SameWeight(t, u, others);
    if name in t.children {
      WeightWithout(t, t.children.Keys, name);
    } else {
      assert others == t.children.Keys;
    }
  }

  lemma WeightLess(t: Tree, u: Tree, name: Name)
    requires t.Dir? && u.Dir? && u.children == t.children - {name}
    ensures Weight(u) <= Weight(t)
  {
    var others := t.children.Keys - {name};
    assert u.children.Keys == others;
    SameWeight(t, u, others);
    if name in t.children {
      WeightWithout(t, t.children.Keys, name);
    } else {
      assert others == t.children.Keys;
    }
  }

  // The same for a traversal.
  function NamesOf(entries: seq<Entry>): nat
    decreases entries
  {
    if entries == [] then 0
    else |entries[0].name| + 1 + NamesBelow(entries[0].walk) + NamesOf(entries[1..])
  }

  function NamesBelow(w: Walk): nat
    decreases w
  {
    match w
    case File(_) => 0
    case Folder(_, entries) => NamesOf(entries)
  }

  lemma {:induction false} WeightOfTree(w: Walk)
    requires Distinct(w)
    ensures Weight(TreeOf(Bare(w))) == NamesBelow(w)
    decreases w
  {
    if w.Folder? {
      WeightOfEntries(w.entries, TreeOf(Bare(w)));
    }
  }

  lemma {:induction false} WeightOfEntries(entries: seq<Entry>, t: Tree)
    requires DistinctEntries(entries) && t.Dir? && t.children == ChildrenOf(BareEntries(entries))
    ensures Weight(t) == NamesOf(entries)
    decreases entries
  {
    if entries != [] {
      var name, rest, bare := entries[0].name, entries[1..], BareEntries(entries);
      var before := Dir(0, None, ChildrenOf(BareEntries(rest)));
      assert bare[1..] == BareEntries(rest);
      BareNames(rest, name);
      WeightOfTree(entries[0].walk);
      WeightOfEntries(rest, before);
      WeightWith(before, t, name, TreeOf(Bare(entries[0].walk)));
    }
  }

  // ---- The weight of the open directories

  ghost function Load(z: seq<Frame>): nat {
    if z == [] then 0
    else Load(z[..|z| - 1]) + |z[|z| - 1].name| + 1 + Weight(Closed(z[|z| - 1]))
  }

  lemma {:induction false} SameLoad(z: seq<Frame>, y: seq<Frame>)
    requires |z| == |y| && forall i :: 0 <= i < |z| ==> z[i].name == y[i].name && z[i].children == y[i].children
    ensures Load(z) == Load(y)
  {
    if z != [] {
      var last := |z| - 1;
      SameLoad(z[..last], y[..last]);
      SameWeight(Closed(z[last]), Closed(y[last]), z[last].children.Keys);
    }
  }

  lemma LoadWithChild(z: Chain, name: Name, t: Tree)
    ensures Load(PutChild(z, name, t)) <= Load(z) + |name| + 1 + Weight(t)
  {
    var y, last := PutChild(z, name, t), |z| - 1;
    assert y[..last] == z[..last];
    WeightWith(Closed(z[last]), Closed(y[last]), name, t);
  }

  lemma {:induction false} LoadAfterPop(z: Chain, depth: nat)
    requires depth >= 1
    ensures Load(PopTo(z, depth)) <= Load(z)
    decreases |z|
  {
    if |z| > depth {
      LoadWithChild(z[..|z| - 1], Top(z).name, Closed(Top(z)));
      LoadAfterPop(CloseTop(z), depth);
    }
  }

  lemma LoadWithDir(z: Chain, name: Name)
    ensures Load(OpenDir(z, name)) <= Load(z) + |name| + 1
  {
    var y, last := OpenDir(z, name), |z| - 1;
    assert y[..|z|][..last] == z[..last] && y[..|z|] == y[..|y| - 1];
    WeightLess(Closed(z[last]), Closed(y[last]), name);
  }

  function Gain(line: Line): nat {
    if line.FileLine? || line.DirLine? then |line.name| + 1 else 0
  }

  // No line adds more than its own name.
  lemma LoadAfterLine(z: Chain, line: Line)
    requires WellFormedLine(line)
    ensures Load(Apply(z, line)) <= Load(z) + Gain(line)
  {
    match line
    case BadSize(depth, _) =>
      LoadAfterPop(z, depth);
    case FileLine(depth, name, size, _) =>
      var y := PopTo(z, depth);
      LoadAfterPop(z, depth);
      LoadWithChild(y, name, PlainFile(size));
      SameLoad(AddSize(PutChild(y, name, PlainFile(size)), size), PutChild(y, name, PlainFile(size)));
    case DirLine(depth, name, _) =>
      LoadAfterPop(z, depth);
      LoadWithDir(PopTo(z, depth), name);
    case _ =>
  }
}

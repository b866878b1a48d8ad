/** Trees of nodes that are changed in place: which nodes each subtree consists of. */
module Footprint {
  import opened FileTree
  import opened FileNodes

  // A node, the nodes below it, and the same for each of its children.
  datatype Foot = Foot(node: FileNode, below: set<FileNode>, kids: map<Name, Foot>)

  function Nodes(f: Foot): set<FileNode> {
    {f.node} + f.below
  }

  // No node occurs twice.
  predicate Tidy(f: Foot) {
    && f.node !in f.below
    && (forall a {:trigger Within(f, a)} :: a in f.kids ==> Within(f, a) && Tidy(f.kids[a]))
    && forall a, b {:trigger Apart(f, a, b)} :: a in f.kids && b in f.kids && a != b ==> Apart(f, a, b)
  }

  predicate Within(f: Foot, a: Name)
    requires a in f.kids
  {
    Nodes(f.kids[a]) <= f.below
  }

  predicate Apart(f: Foot, a: Name, b: Name)
    requires a in f.kids && b in f.kids
  {
    Nodes(f.kids[a]) !! Nodes(f.kids[b])
  }

  // n belongs to the tree: it is reached from the top. (A node that was removed stays below.)
  predicate Live(f: Foot, n: FileNode) {
    n == f.node || exists a {:trigger f.kids[a]} :: a in f.kids && Live(f.kids[a], n)
  }

  lemma {:induction false} LiveIsNode(f: Foot, n: FileNode)
    requires Tidy(f) && Live(f, n)
    ensures n in Nodes(f)
  {
    if n != f.node {
      var a :| a in f.kids && Live(f.kids[a], n);
      assert Within(f, a);
      LiveIsNode(f.kids[a], n);
    }
  }

  // The nodes hold the tree t.
  ghost predicate Owns(f: Foot, t: Tree)
    reads Nodes(f)
    decreases t, 0
  {
    match t
    case Reg(info) =>
      !f.node.isDir && f.kids == map[] && info == FileInfo(f.node.size, f.node.hasTth, f.node.tth, f.node.mtime)
    case Dir(size, realPath, children) =>
      && f.node.isDir && f.node.size == size && f.node.realPath == realPath
      && f.node.children.Keys == f.kids.Keys == children.Keys
      && forall name {:trigger OwnsKid(f, name, children[name])} :: name in children ==> OwnsKid(f, name, children[name])
  }

  // The child filed under name hangs under its directory and holds t.
  ghost predicate OwnsKid(f: Foot, name: Name, t: Tree)
    requires name in f.kids
    reads Nodes(f)
    decreases t, 1
  {
    var child := f.kids[name].node;
    && Within(f, name)
    && name in f.node.children && f.node.children[name] == child && child.name == name && child.parent == f.node
    && Owns(f.kids[name], t)
  }

  lemma {:induction false} OwnsDenotes(f: Foot, t: Tree, repr: set<FileNode>)
    requires Owns(f, t) && Nodes(f) <= repr
    ensures Denotes(f.node, t, repr)
    decreases t
  {
    if t.Dir? {
      forall name | name in t.children
        ensures IsChild(f.node, name, repr) && Denotes(f.node.children[name], t.children[name], repr)
      {
        assert OwnsKid(f, name, t.children[name]);
        OwnsDenotes(f.kids[name], t.children[name], repr);
      }
    }
  }

  // One child is replaced or added.
  function With(f: Foot, name: Name, g: Foot): Foot {
    Foot(f.node, f.below + Nodes(g), f.kids[name := g])
  }

  lemma TidyWith(f: Foot, name: Name, g: Foot)
    requires Tidy(f) && Tidy(g) && f.node !in Nodes(g)
    requires forall a :: a in f.kids && a != name ==> Nodes(f.kids[a]) !! Nodes(g)
    ensures Tidy(With(f, name, g))
  {
    var h := With(f, name, g);
    forall a | a in h.kids
      ensures Within(h, a) && Tidy(h.kids[a])
    {
      if a != name {
        assert Within(f, a);
      }
    }
    forall a, b | a in h.kids && b in h.kids && a != b
      ensures Apart(h, a, b)
    {
      if a != name && b != name {
        assert Apart(f, a, b);
      }
    }
  }

  function Without(f: Foot, name: Name): Foot {
    f.(kids := f.kids - {name})
  }

  lemma TidyWithout(f: Foot, name: Name)
    requires Tidy(f)
    ensures Tidy(Without(f, name))
  {
    var h := Without(f, name);
    forall a | a in h.kids
      ensures Within(h, a) && Tidy(h.kids[a])
    {
      assert Within(f, a);
    }
    forall a, b | a in h.kids && b in h.kids && a != b
      ensures Apart(h, a, b)
    {
      assert Apart(f, a, b);
    }
  }

  // A child whose nodes were not touched.
  twostate lemma KidStays(f: Foot, new g: Foot, new name: Name, new t: Tree)
    requires name in f.kids && old(OwnsKid(f, name, t))
    requires g.node == f.node && name in g.kids && g.kids[name] == f.kids[name]
    requires name in f.node.children && f.node.children[name] == old(f.node.children[name])
    requires unchanged(f.kids[name].node, f.kids[name].below) && f.below <= g.below
    ensures OwnsKid(g, name, t)
  {
  }

  // Nothing was touched.
  twostate lemma TreeStays(f: Foot, new t: Tree)
    requires old(Owns(f, t)) && unchanged(f.node, f.below)
    ensures Owns(f, t)
  {
    if t.Dir? {
      forall name | name in t.children
        ensures OwnsKid(f, name, t.children[name])
      {
        assert old(OwnsKid(f, name, t.children[name]));
      }
    }
  }

  // One more child, with all its nodes new.
  twostate lemma NewKid(f: Foot, new t: Tree, new kid: Foot, new name: Name, new k: Tree, new size: nat)
    requires Tidy(f) && old(Owns(f, t)) && t.Dir? && name !in t.children
    requires Tidy(kid) && Owns(kid, k) && fresh(Nodes(kid)) && kid.node.name == name && kid.node.parent == f.node
    requires f.node.children == old(f.node.children)[name := kid.node] && f.node.size == size
    requires unchanged(f.node`realPath) && unchanged(f.below)
    ensures Tidy(With(f, name, kid)) && Owns(With(f, name, kid), t.(children := t.children[name := k], size := size))
  {
    var g, u := With(f, name, kid), t.children[name := k];
    forall a | a in f.kids
      ensures Nodes(f.kids[a]) !! Nodes(kid)
    {
      assert Within(f, a);
    }
    TidyWith(f, name, kid);
    forall a | a in u
      ensures OwnsKid(g, a, u[a])
    {
      if a != name {
        assert old(OwnsKid(f, a, t.children[a]));
        KidStays(f, g, a, t.children[a]);
      }
    }
  }
}

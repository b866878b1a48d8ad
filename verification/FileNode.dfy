/** The file list in memory: nodes with parent links, and the tree a node stands for. */
module FileNodes {
  import opened Wrappers
  import opened FileTree

  class FileNode {
    const name: Name
    const isDir: bool
    var parent: FileNode?
    var size: nat
    var hasTth: bool
    var tth: Tth
    var mtime: nat
    var realPath: Option<Name>
    var children: map<Name, FileNode>

    constructor (name: Name, isDir: bool, parent: FileNode?)
      ensures this.name == name && this.isDir == isDir && this.parent == parent
      ensures size == 0 && !hasTth && tth == NO_TTH && mtime == 0 && realPath == None && children == map[]
    {
      this.name, this.isDir, this.parent := name, isDir, parent;
      size, hasTth, tth, mtime := 0, false, NO_TTH, 0;
      realPath, children := None, map[];
    }
  }

  method NewFileNode(name: Name, isDir: bool, parent: FileNode?) returns (node: FileNode)
    modifies (if parent == null then {} else {parent})`children
    ensures fresh(node) && node.name == name && node.isDir == isDir && node.parent == parent
    ensures node.size == 0 && !node.hasTth && node.tth == NO_TTH && node.mtime == 0
    ensures node.realPath == None && node.children == map[]
    ensures parent != null ==> parent.children == old(parent.children)[name := node]
  {
    node := new FileNode(name, isDir, parent);
    if parent != null {
      parent.children := parent.children[name := node];
    }
  }

  // The node is the root of a tree of nodes, all of them in repr, whose value is t: every child
  // is filed under its own name and points back to its directory.
  ghost predicate Denotes(node: FileNode, t: Tree, repr: set<FileNode>)
    reads repr
    decreases t, 1
  {
    node in repr && Heads(node, t, repr)
  }

  // The same for a node that need not be in the set itself.
  ghost predicate Heads(node: FileNode, t: Tree, below: set<FileNode>)
    reads node, below
    decreases t, 0
  {
    match t
    case Reg(info) => !node.isDir && info == FileInfo(node.size, node.hasTth, node.tth, node.mtime)
    case Dir(size, realPath, children) =>
      && node.isDir && node.size == size && node.realPath == realPath
      && node.children.Keys == children.Keys
      && forall name :: name in children ==>
           && IsChild(node, name, below)
           && Denotes(node.children[name], children[name], below)
  }

  ghost predicate IsChild(node: FileNode, name: Name, repr: set<FileNode>)
    reads node, repr
  {
    && name in node.children
    && node.children[name] in repr && node.children[name].name == name && node.children[name].parent == node
  }

  lemma {:induction false} DenotesMore(node: FileNode, t: Tree, repr: set<FileNode>, more: set<FileNode>)
    requires Denotes(node, t, repr) && repr <= more
    ensures Denotes(node, t, more)
    decreases t, 1
  {
    HeadsMore(node, t, repr, more);
  }

  lemma {:induction false} HeadsMore(node: FileNode, t: Tree, below: set<FileNode>, more: set<FileNode>)
    requires Heads(node, t, below) && below <= more
    ensures Heads(node, t, more)
    decreases t, 0
  {
    if t.Dir? {
      forall name | name in t.children
        ensures IsChild(node, name, more) && Denotes(node.children[name], t.children[name], more)
      {
        assert IsChild(node, name, below);
        DenotesMore(node.children[name], t.children[name], below, more);
      }
    }
  }
}

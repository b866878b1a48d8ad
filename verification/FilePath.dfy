/** Paths in a file list: filelist_get_path, its form with a trailing slash, and filelist_lookup. */
module FilePath {
  import opened Bytes
  import opened FileTree
  import opened FileNodes

  // The position of the first slash, or |s|.
  function FindSlash(s: seq<byte>): (n: nat)
    ensures n <= |s| && (n < |s| ==> s[n] == SLASH)
    ensures forall i :: 0 <= i < n ==> s[i] != SLASH
  {
    if s == [] || s[0] == SLASH then 0 else 1 + FindSlash(s[1..])
  }

  function GetChildNode(node: FileNode, name: Name): FileNode?
    reads node
  {
    if name == CURRENT_DIR then node
    else if name == PARENT_DIR then (if node.parent == null then node else node.parent)
    else if name in node.children then node.children[name]
    else null
  }

  function Lookup(node: FileNode, filename: seq<byte>): FileNode?
    reads *
    decreases |filename|
  {
    if filename == [] || filename[0] != SLASH then null
    else
      var rest := filename[CountLeading(filename, SLASH)..];
      var end := FindSlash(rest);
      if rest == [] then node
      else if !node.isDir then null
      else
        var child := GetChildNode(node, rest[..end]);
        if child == null then null
        else if end == |rest| then child
        else Lookup(child, rest[end..])
  }

  // Going down from root by these names, through directories whose children are filed under
  // their own names and point back, ends at node.
  ghost predicate Leads(root: FileNode, names: seq<Name>, node: FileNode)
    reads *
    decreases |names|
  {
    if names == [] then root == node
    else
      && root.isDir && names[0] in root.children
      && root.children[names[0]].name == names[0] && root.children[names[0]].parent == root
      && Leads(root.children[names[0]], names[1..], node)
  }

  // In a denoted tree every path of t leads to a node.
  predicate HasPath(t: Tree, names: seq<Name>) {
    names != [] ==> t.Dir? && names[0] in t.children && HasPath(t.children[names[0]], names[1..])
  }

  lemma {:induction false} DenotedPath(root: FileNode, t: Tree, repr: set<FileNode>, names: seq<Name>)
    returns (node: FileNode)
    requires Denotes(root, t, repr) && HasPath(t, names)
    ensures node in repr && Leads(root, names, node)
    decreases |names|
  {
    if names == [] {
      node := root;
    } else {
      assert IsChild(root, names[0], repr);
      node := DenotedPath(root.children[names[0]], t.children[names[0]], repr, names[1..]);
    }
  }

  function PathText(names: seq<Name>): seq<byte> {
    if names == [] then [] else [SLASH] + names[0] + PathText(names[1..])
  }

  lemma {:induction false} LeadsToParent(root: FileNode, names: seq<Name>, node: FileNode) returns (parent: FileNode)
    requires names != [] && Leads(root, names, node)
    ensures Leads(root, names[..|names| - 1], parent)
    ensures node.parent == parent && node.name == names[|names| - 1]
    decreases |names|
  {
    if |names| == 1 {
      parent := root;
      assert Leads(root.children[names[0]], [], node);
    } else {
      parent := LeadsToParent(root.children[names[0]], names[1..], node);
      assert names[..|names| - 1][1..] == names[1..][..|names| - 2];
    }
  }

  // The loop of both path functions; it ends at the root.
  method ClimbToRoot(start: FileNode, ghost root: FileNode, ghost names: seq<Name>) returns (sb: seq<byte>, node: FileNode)
    requires root.parent == null && Leads(root, names, start)
    ensures sb == PathText(names) && node == root
  {
    sb, node := [], start;
    ghost var k := |names|;
    assert names[..k] == names;
    while node.parent != null
      invariant 0 <= k <= |names| && Leads(root, names[..k], node)
      invariant sb == PathText(names[k..])
      decreases k
    {
      assert k > 0;
      ghost var parent := LeadsToParent(root, names[..k], node);
      assert names[..k][..k - 1] == names[..k - 1];
      assert names[k - 1..] == [names[k - 1]] + names[k..];
      sb := [SLASH] + (node.name + sb);
      node := node.parent;
      k := k - 1;
    }
    if k > 0 {
      ghost var parent := LeadsToParent(root, names[..k], node);
      assert false;
    }
  }

  method GetPath(node: FileNode, ghost root: FileNode, ghost names: seq<Name>) returns (path: seq<byte>)
    requires root.parent == null && Leads(root, names, node)
    ensures path == if names == [] then [SLASH] else PathText(names)
  {
    if node.parent == null {
      if names != [] {
        ghost var parent := LeadsToParent(root, names, node);
        assert false;
      }
      return [SLASH];
    }
    var top;
    path, top := ClimbToRoot(node, root, names);
  }

  // The type that is tested is the type of the root, where the loop ended: a file in a shared
  // directory gets a trailing slash too.
  method GetPathWithTrailingSlash(node: FileNode, ghost root: FileNode, ghost names: seq<Name>) returns (path: seq<byte>)
    requires root.parent == null && Leads(root, names, node)
    ensures path == PathText(names) + if root.isDir then [SLASH] else []
  {
    var top;
    path, top := ClimbToRoot(node, root, names);
    if top.isDir {
      path := path + [SLASH];
    }
  }

  // A name that a path can spell.
  predicate Nameable(name: Name) {
    name != [] && SLASH !in name && name != CURRENT_DIR && name != PARENT_DIR
  }

  lemma {:induction false} FindsSlash(name: Name, rest: seq<byte>)
    requires SLASH !in name && (rest == [] || rest[0] == SLASH)
    ensures FindSlash(name + rest) == |name|
  {
    if name == [] {
      assert name + rest == rest;
    } else {
      assert (name + rest)[1..] == name[1..] + rest;
      FindsSlash(name[1..], rest);
    }
  }

  // One component of the path.
  lemma LookupStep(node: FileNode, name: Name, rest: seq<byte>, child: FileNode)
    requires Nameable(name) && (rest == [] || rest[0] == SLASH)
    requires node.isDir && name in node.children && node.children[name] == child
    ensures Lookup(node, [SLASH] + name + rest) == if rest == [] then child else Lookup(child, rest)
  {
    LookupComponent(node, name, rest);
  }

  // Looking up the path of a node from the root, with or without a trailing slash, gives the node.
  lemma {:induction false} LookupOfPath(root: FileNode, names: seq<Name>, node: FileNode)
    requires Leads(root, names, node) && forall name :: name in names ==> Nameable(name)
    ensures names != [] ==> Lookup(root, PathText(names)) == node
    ensures Lookup(root, PathText(names) + [SLASH]) == node
    decreases |names|
  {
    if names == [] {
      assert [] + [SLASH] == [SLASH] && CountLeading([SLASH], SLASH) == 1;
    } else {
      var child, rest := root.children[names[0]], PathText(names[1..]);
      LookupOfPath(child, names[1..], node);
      LookupStep(root, names[0], rest, child);
      LookupStep(root, names[0], rest + [SLASH], child);
      assert PathText(names) + [SLASH] == [SLASH] + names[0] + (rest + [SLASH]);
    }
  }

  // For every node of a file list.
  method PathsLeadBack(root: FileNode, node: FileNode, ghost names: seq<Name>)
    returns (found: FileNode?, foundWithSlash: FileNode?)
    requires root.isDir && root.parent == null
    requires Leads(root, names, node) && forall name :: name in names ==> Nameable(name)
    ensures found == foundWithSlash == node
  {
    var path := GetPath(node, root, names);
    var withSlash := GetPathWithTrailingSlash(node, root, names);
    LookupOfPath(root, names, node);
    found, foundWithSlash := Lookup(root, path), Lookup(root, withSlash);
    assert [] + [SLASH] == [SLASH];
  }

  // ---- Looking up any path

  // The path of a node has a slash in front of every name.
  lemma {:induction false} PathInBytes(names: seq<Name>, name: Name)
    ensures PathText([]) == [] && PathText(names + [name]) == PathText(names) + [47] + name
  {
    if names == [] {
      assert names + [name] == [name] && [name][1..] == [];
    } else {
      assert (names + [name])[1..] == names[1..] + [name];
      PathInBytes(names[1..], name);
    }
  }

  // Without a slash in front nothing is found; slashes alone name the node itself, and several count
  // as one.
  lemma SlashesOnly(node: FileNode, filename: seq<byte>, rest: seq<byte>)
    ensures filename == [] || filename[0] != 47 ==> Lookup(node, filename) == null
    ensures Lookup(node, [47]) == node
    ensures Lookup(node, [47, 47] + rest) == Lookup(node, [47] + rest)
  {
    assert [47][1..] == [] && CountLeading([47], 47) == 1;
    var one, two := [47] + rest, [47, 47] + rest;
    assert two[1..] == one;
    assert CountLeading(two, 47) == 1 + CountLeading(one, 47);
    assert two[CountLeading(two, 47)..] == one[CountLeading(one, 47)..];
  }

  // One component: a dot is the node itself, two dots are its parent, or the node itself if it has
  // none; any other name is a child. Only directories have components behind them.
  lemma LookupComponent(node: FileNode, name: Name, rest: seq<byte>)
    requires name != [] && 47 !in name && (rest == [] || rest[0] == 47)
    ensures var found := Lookup(node, [47] + name + rest);
            var child := if name == [46] then node
                         else if name == [46, 46] then (if node.parent != null then node.parent else node)
                         else if name in node.children then node.children[name] else null;
            if !node.isDir || child == null then found == null
            else if rest == [] then found == child
            else found == Lookup(child, rest)
  {
    var filename, tail := [47] + name + rest, name + rest;
    assert filename == [47] + tail && filename[1..] == tail;
    assert CountLeading(filename, 47) == 1;
    FindsSlash(name, rest);
    assert tail[..|name|] == name && tail[|name|..] == rest;
  }
}

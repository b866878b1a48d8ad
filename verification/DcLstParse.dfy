/** parse_decoded_dclst: building the nodes of a file list from its text. */
module DcLstParse {
  import opened Bytes
  import opened Wrappers
  import opened FileTree
  import opened FileNodes
  import opened DcLst
  import opened DcLstScan

  // A directory under construction, its parent, the child that is itself still open, and the
  // nodes that are finished.
  datatype Spot = Spot(dir: FileNode, parent: FileNode?, open: FileNode?, repr: set<FileNode>)

  // The directory is as far built as f says.
  ghost predicate Builds(s: Spot, f: Frame)
    reads s.dir, s.repr
  {
    var Spot(d, parent, open, repr) := s;
    && d !in repr && d.isDir && d.realPath == None && d.parent == parent
    && d.name == f.name && d.size == f.size
    && d.children.Keys == f.children.Keys + (if open == null then {} else {open.name})
    && (open != null ==> open.name !in f.children && d.children[open.name] == open)
    && forall name :: name in f.children ==> IsChild(d, name, repr) && Denotes(d.children[name], f.children[name], repr)
  }

  function Above(dirs: seq<FileNode>, i: nat): FileNode?
    requires i < |dirs|
  {
    if i == 0 then null else dirs[i - 1]
  }

  function Below(dirs: seq<FileNode>, i: nat): FileNode?
    requires i < |dirs|
  {
    if i + 1 < |dirs| then dirs[i + 1] else null
  }

  // The dirs stack is the chain of directories from the root to the current one; everything
  // else built so far is in repr.
  ghost predicate Stacked(dirs: seq<FileNode>, z: Chain, repr: set<FileNode>)
    reads dirs, repr
  {
    && |dirs| == |z|
    && (forall i, j :: 0 <= i < j < |dirs| ==> dirs[i] != dirs[j])
    && forall i :: 0 <= i < |dirs| ==> BuildsAt(dirs, i, z[i], repr)
  }

  ghost predicate BuildsAt(dirs: seq<FileNode>, i: nat, f: Frame, repr: set<FileNode>)
    requires i < |dirs|
    reads dirs, repr
  {
    Builds(SpotAt(dirs, i, repr), f)
  }

  function SpotAt(dirs: seq<FileNode>, i: nat, repr: set<FileNode>): Spot
    requires i < |dirs|
  {
    Spot(dirs[i], Above(dirs, i), Below(dirs, i), repr)
  }

  // Leaving the current directory.
  lemma CloseDir(dirs: seq<FileNode>, z: Chain, repr: set<FileNode>)
    requires Stacked(dirs, z, repr) && |dirs| >= 2
    ensures Stacked(dirs[..|dirs| - 1], CloseTop(z), repr + {dirs[|dirs| - 1]})
  {
    var n := |dirs| - 1;
    var rest, more, y := dirs[..n], repr + {dirs[n]}, CloseTop(z);
    assert BuildsAt(dirs, n, z[n], repr);
    BuiltDir(dirs[n], z[n], dirs[n - 1], repr, more);
    forall i | 0 <= i < n
      ensures BuildsAt(rest, i, y[i], more)
    {
      assert BuildsAt(dirs, i, z[i], repr);
      if i == n - 1 {
        CloseBelow(SpotAt(dirs, i, repr), z[i], dirs[n], Closed(z[n]), more);
      } else {
        BuildsMore(SpotAt(dirs, i, repr), z[i], more);
      }
    }
  }

  lemma BuildsMore(s: Spot, f: Frame, more: set<FileNode>)
    requires Builds(s, f) && s.repr <= more && s.dir !in more
    ensures Builds(s.(repr := more), f)
  {
    var d, repr := s.dir, s.repr;
    forall name | name in f.children
      ensures IsChild(d, name, more) && Denotes(d.children[name], f.children[name], more)
    {
      assert IsChild(d, name, repr);
      DenotesMore(d.children[name], f.children[name], repr, more);
    }
  }

  lemma BuiltDir(d: FileNode, f: Frame, parent: FileNode?, repr: set<FileNode>, more: set<FileNode>)
    requires Builds(Spot(d, parent, null, repr), f) && more == repr + {d}
    ensures Denotes(d, Closed(f), more)
  {
    HeadsMore(d, Closed(f), repr, more);
  }

  lemma CloseBelow(s: Spot, f: Frame, open: FileNode, t: Tree, more: set<FileNode>)
    requires Builds(s, f) && s.open == open && s.repr <= more && s.dir !in more
    requires open in more && open.parent == s.dir && Denotes(open, t, more)
    ensures Builds(Spot(s.dir, s.parent, null, more), f.(children := f.children[open.name := t]))
  {
    var d, repr := s.dir, s.repr;
    var children := f.children[open.name := t];
    assert d.children.Keys == children.Keys;
    forall name | name in children
      ensures IsChild(d, name, more) && Denotes(d.children[name], children[name], more)
    {
      if name != open.name {
        assert IsChild(d, name, repr);
        DenotesMore(d.children[name], f.children[name], repr, more);
      }
    }
  }

  // The stack cut back to depth directories.
  function Keep(dirs: seq<FileNode>, depth: nat): seq<FileNode> {
    if depth < |dirs| then dirs[..depth] else dirs
  }

  lemma KeepFewer(dirs: seq<FileNode>, depth: nat)
    requires depth < |dirs|
    ensures Keep(dirs, depth) == Keep(dirs[..|dirs| - 1], depth)
  {
  }

  lemma {:induction false} CloseTo(dirs: seq<FileNode>, z: Chain, depth: nat, repr: set<FileNode>) returns (more: set<FileNode>)
    requires Stacked(dirs, z, repr) && depth >= 1
    ensures Stacked(Keep(dirs, depth), PopTo(z, depth), more)
    decreases |z|
  {
    more := repr;
    if depth < |dirs| {
      CloseDir(dirs, z, repr);
      KeepFewer(dirs, depth);
      more := CloseTo(dirs[..|dirs| - 1], CloseTop(z), depth, repr + {dirs[|dirs| - 1]});
    }
  }

  // At the end the bottom of the stack is the finished root.
  lemma CloseAll(dirs: seq<FileNode>, z: Chain, repr: set<FileNode>) returns (more: set<FileNode>)
    requires Stacked(dirs, z, repr)
    ensures Denotes(dirs[0], Closed(PopTo(z, 1)[0]), more) && dirs[0].parent == null
  {
    var rest := CloseTo(dirs, z, 1, repr);
    more := rest + {dirs[0]};
    assert BuildsAt(Keep(dirs, 1), 0, PopTo(z, 1)[0], rest);
    BuiltDir(dirs[0], PopTo(z, 1)[0], null, rest, more);
  }

  // ---- Adding to the current directory

  // z after the directories from k on have grown by size.
  function Grown(z: Chain, k: nat, size: nat): (r: Chain)
    ensures |r| == |z|
    ensures forall i :: 0 <= i < |z| ==> r[i] == if i < k then z[i] else z[i].(size := z[i].size + size)
  {
    seq(|z|, i requires 0 <= i < |z| => if i < k then z[i] else z[i].(size := z[i].size + size))
  }

  twostate lemma SizeOnly(s: Spot, new f: Frame, new f': Frame)
    requires old(Builds(s, f)) && unchanged(s.repr)
    requires unchanged(s.dir`parent, s.dir`realPath, s.dir`children) && s.dir.size == f'.size && f' == f.(size := f'.size)
    ensures Builds(s, f')
  {
    var d, repr := s.dir, s.repr;
    forall name | name in f'.children
      ensures IsChild(d, name, repr) && Denotes(d.children[name], f'.children[name], repr)
    {
      assert old(IsChild(d, name, repr));
    }
  }

  // One turn: the directory at k grows.
  method GrowDir(up: FileNode, size: nat, ghost dirs: seq<FileNode>, ghost z: Chain, ghost k: nat, ghost repr: set<FileNode>)
    requires k < |dirs| && Stacked(dirs, Grown(z, k + 1, size), repr) && up == dirs[k]
    modifies up`size
    ensures Stacked(dirs, Grown(z, k, size), repr)
  {
    ghost var y, y' := Grown(z, k + 1, size), Grown(z, k, size);
    label before:
    assert BuildsAt(dirs, k, y[k], repr);
    up.size := up.size + size;
    forall i | 0 <= i < |dirs|
      ensures BuildsAt(dirs, i, y'[i], repr)
    {
      assert old(BuildsAt(dirs, i, y[i], repr));
      if i == k {
        SizeOnly@before(SpotAt(dirs, i, repr), y[i], y'[i]);
      } else {
        SizeOnly@before(SpotAt(dirs, i, repr), y[i], y[i]);
      }
    }
  }

  // Add the size to a directory and to all directories above it.
  method AddToAncestors(node: FileNode, size: nat, ghost dirs: seq<FileNode>, ghost z: Chain, ghost repr: set<FileNode>)
    requires Stacked(dirs, z, repr) && node == dirs[|dirs| - 1]
    modifies (set d | d in dirs)`size
    ensures Stacked(dirs, AddSize(z, size), repr)
  {
    var up: FileNode? := node;
    ghost var k := |dirs|;
    assert Grown(z, k, size) == z;
    while up != null
      invariant 0 <= k <= |dirs| && up == (if k == 0 then null else dirs[k - 1])
      invariant Stacked(dirs, Grown(z, k, size), repr)
      decreases k
    {
      k := k - 1;
      GrowDir(up, size, dirs, z, k, repr);
      assert BuildsAt(dirs, k, Grown(z, k, size)[k], repr);
      up := up.parent;
    }
    assert Grown(z, 0, size) == AddSize(z, size);
  }

  // A new child t of a directory, filed under name in place of any older one.
  twostate lemma Filed(s: Spot, new f: Frame, new node: FileNode, new t: Tree, new more: set<FileNode>)
    requires old(Builds(s, f)) && s.open == null && unchanged(s.repr)
    requires unchanged(s.dir`parent, s.dir`realPath, s.dir`size) && s.dir.children == old(s.dir.children)[node.name := node]
    requires more == s.repr + {node} && node.parent == s.dir && s.dir != node && Denotes(node, t, more)
    ensures Builds(s.(repr := more), f.(children := f.children[node.name := t]))
  {
    var d, repr := s.dir, s.repr;
    var children := f.children[node.name := t];
    assert d.children.Keys == children.Keys;
    forall name | name in children
      ensures IsChild(d, name, more) && Denotes(d.children[name], children[name], more)
    {
      if name != node.name {
        assert old(IsChild(d, name, repr));
        DenotesMore(d.children[name], f.children[name], repr, more);
      }
    }
  }

  // A directory that did not change.
  twostate lemma StillBuilds(s: Spot, new f: Frame, new more: set<FileNode>)
    requires old(Builds(s, f)) && unchanged(s.dir) && unchanged(s.repr)
    requires s.repr <= more && s.dir !in more
    ensures Builds(s.(repr := more), f)
  {
    BuildsMore(s, f, more);
  }

  method AddFile(dirs: seq<FileNode>, name: Name, size: nat, ghost z: Chain, ghost repr: set<FileNode>)
    returns (ghost more: set<FileNode>)
    requires Stacked(dirs, z, repr)
    modifies dirs
    ensures Stacked(dirs, AddSize(PutChild(z, name, PlainFile(size)), size), more)
  {
    ghost var n := |dirs| - 1;
    var top := dirs[|dirs| - 1];
    assert BuildsAt(dirs, n, z[n], repr);
    label before:
    var node := NewFileNode(name, false, top);
    node.size := size;
    more := repr + {node};
    ghost var y := PutChild(z, name, PlainFile(size));
    forall i | 0 <= i < |dirs|
      ensures BuildsAt(dirs, i, y[i], more)
    {
      assert old(BuildsAt(dirs, i, z[i], repr));
      if i == n {
        Filed@before(SpotAt(dirs, n, repr), z[n], node, PlainFile(size), more);
      } else {
        StillBuilds@before(SpotAt(dirs, i, repr), z[i], more);
      }
    }
    AddToAncestors(top, size, dirs, y, more);
  }

  // The current directory gets a new directory, which becomes the current one.
  twostate lemma Opened(s: Spot, new f: Frame, new node: FileNode)
    requires old(Builds(s, f)) && s.open == null && unchanged(s.repr)
    requires unchanged(s.dir`parent, s.dir`realPath, s.dir`size) && s.dir.children == old(s.dir.children)[node.name := node]
    ensures Builds(s.(open := node), f.(children := f.children - {node.name}))
  {
    var d, repr := s.dir, s.repr;
    var children := f.children - {node.name};
    forall name | name in children
      ensures IsChild(d, name, repr) && Denotes(d.children[name], children[name], repr)
    {
      assert old(IsChild(d, name, repr));
    }
  }

  method AddDir(dirs: seq<FileNode>, name: Name, ghost z: Chain, ghost repr: set<FileNode>) returns (node: FileNode)
    requires Stacked(dirs, z, repr)
    modifies dirs
    ensures fresh(node) && Stacked(dirs + [node], OpenDir(z, name), repr)
  {
    ghost var n := |dirs| - 1;
    var top := dirs[|dirs| - 1];
    assert BuildsAt(dirs, n, z[n], repr);
    label before:
    node := NewFileNode(name, true, top);
    ghost var y, longer := OpenDir(z, name), dirs + [node];
    forall i | 0 <= i < |longer|
      ensures BuildsAt(longer, i, y[i], repr)
    {
      if i <= n {
        assert old(BuildsAt(dirs, i, z[i], repr));
        if i == n {
          Opened@before(SpotAt(dirs, n, repr), z[n], node);
        } else {
          StillBuilds@before(SpotAt(dirs, i, repr), z[i], repr);
        }
      }
    }
  }

  // ---- The whole parse

  // From the chain z at pos, the rest of the text leads to the chain final.
  ghost predicate Reached(text: seq<byte>, pos: nat, z: Chain, final: Chain) {
    Run(Advance(text, pos), z) == final
  }

  lemma ReachedStart(text: seq<byte>)
    ensures Reached(text, 0, START, Run(text, START))
  {
    assert text[0..] == text;
  }

  lemma RunOnce(s: seq<byte>, line: Line, z: Chain)
    requires line == ReadLine(s) && !line.End?
    ensures Run(s, z) == Run(Advance(s, line.len), Apply(z, line))
  {
  }

  lemma AdvanceTwice(text: seq<byte>, pos: nat, len: nat, next: nat)
    requires next == pos + len && pos <= |text|
    ensures Advance(Advance(text, pos), len) == Advance(text, next)
  {
  }

  lemma ReachedNext(text: seq<byte>, pos: nat, line: Line, z: Chain, next: nat, y: Chain,
                    final: Chain)
    requires pos <= |text| && line == ReadLine(text[pos..]) && !line.End? && next == pos + line.len
    requires Reached(text, pos, z, final) && y == Apply(z, line)
    ensures Reached(text, next, y, final)
  {
    RunOnce(Advance(text, pos), line, z);
    AdvanceTwice(text, pos, line.len, next);
  }

  lemma StartsStacked(root: FileNode)
    requires root.isDir && root.realPath == None && root.parent == null
    requires root.name == [] && root.size == 0 && root.children == map[]
    ensures Stacked([root], START, {})
  {
    assert BuildsAt([root], 0, START[0], {});
  }

  lemma ReachedEnd(text: seq<byte>, pos: nat, z: Chain, final: Chain)
    requires Reached(text, pos, z, final) && (pos < |text| ==> ReadLine(text[pos..]).End?)
    ensures z == final
  {
  }

  ghost predicate AllIn(dirs: seq<FileNode>, made: set<FileNode>) {
    forall i :: 0 <= i < |dirs| ==> dirs[i] in made
  }

  // What the lines of the buffer add to the chain.
  method ApplyLine(dirs: seq<FileNode>, line: Line, ghost z: Chain, ghost y: Chain,
                   ghost repr: set<FileNode>, ghost made: set<FileNode>)
    returns (newDirs: seq<FileNode>, ghost more: set<FileNode>, ghost newMade: set<FileNode>)
    requires Stacked(dirs, z, repr) && WellFormedLine(line) && !line.End? && AllIn(dirs, made)
    requires y == Apply(z, line)
    modifies made
    ensures Stacked(newDirs, y, more)
    ensures AllIn(newDirs, newMade) && forall n :: n in newMade ==> n in made || fresh(n)
  {
    newDirs, more, newMade := dirs, repr, made;
    if !line.Blank? {
      more := CloseTo(dirs, z, line.depth, repr);
      newDirs := Keep(dirs, line.depth);
      ghost var popped := PopTo(z, line.depth);
      match line {
        case FileLine(_, name, size, _) =>
          more := AddFile(newDirs, name, size, popped, more);
        case DirLine(_, name, _) =>
          var node := AddDir(newDirs, name, popped, more);
          newDirs := newDirs + [node];
          newMade := made + {node};
        case _ =>
      }
    }
  }

  method NextLine(buffer: array<byte>, c: nat, ghost text: seq<byte>, ghost z: Chain, ghost final: Chain)
    returns (line: Line, next: nat, ghost y: Chain)
    requires c < |text| && Unread(buffer[..], text, c) && Reached(text, c, z, final)
    modifies buffer
    ensures WellFormedLine(line) && (line.End? ==> z == final)
    ensures !line.End? ==> next > c && Unread(buffer[..], text, next) && Reached(text, next, y, final) && y == Apply(z, line)
  {
    line := ScanLine(buffer, c, text);
    next, y := c, z;
    if line.End? {
      ReachedEnd(text, c, z, final);
    } else {
      next, y := c + line.len, Apply(z, line);
      ReachedNext(text, c, line, z, next, y, final);
    }
  }

  // The loop over the lines.
  method ParseLines(buffer: array<byte>, start: seq<FileNode>, ghost text: seq<byte>, ghost final: Chain, ghost made0: set<FileNode>)
    returns (dirs: seq<FileNode>, ghost repr: set<FileNode>)
    requires Unread(buffer[..], text, 0) && Reached(text, 0, START, final) && Stacked(start, START, {})
    requires AllIn(start, made0)
    modifies buffer, made0
    ensures Stacked(dirs, final, repr)
  {
    ghost var made, z := made0, START;
    var c := 0;
    dirs, repr := start, {};
    while c < buffer.Length - 1
      invariant AllIn(dirs, made) && forall n :: n in made ==> n in made0 || fresh(n)
      invariant Unread(buffer[..], text, c) && Reached(text, c, z, final)
      invariant Stacked(dirs, z, repr)
      decreases |text| - c
    {
      var line, next;
      ghost var y;
      line, next, y := NextLine(buffer, c, text, z, final);
      if line.End? {
        return;
      }
      dirs, repr, made := ApplyLine(dirs, line, z, y, repr, made);
      z, c := y, next;
    }
    ReachedEnd(text, c, z, final);
  }

  method ParseDecodedDclst(buffer: array<byte>, ghost text: seq<byte>) returns (root: FileNode, ghost repr: set<FileNode>)
    requires buffer.Length == |text| + 1 && buffer[..|text|] == text
    modifies buffer
    ensures Denotes(root, ParseSpec(text), repr) && root.parent == null
  {
    root := NewFileNode([], true, null);
    StartsStacked(root);
    ReachedStart(text);
    var dirs;
    dirs, repr := ParseLines(buffer, [root], text, Run(text, START), {root});
    root := dirs[0];
    repr := CloseAll(dirs, Run(text, START), repr);
  }
}

/** parse_decoded_dclst undoes filelist_to_string. */
module DcLstRoundTrip {
  import opened Bytes
  import opened Wrappers
  import opened Decimal
  import opened FileTree
  import opened DcLst

  // The text form keeps names, kinds and sizes.
  function Bare(w: Walk): Walk
    decreases w
  {
    match w
    case File(info) => File(PlainInfo(info.size))
    case Folder(_, entries) => Folder(None, BareEntries(entries))
  }

  function BareEntries(entries: seq<Entry>): seq<Entry>
    decreases entries
  {
    if entries == [] then []
    else [Entry(entries[0].name, Bare(entries[0].walk))] + BareEntries(entries[1..])
  }

  // Every name below w, w at this level, survives the text form, and every file size is 64-bit.
  predicate PrintableWalk(w: Walk, level: nat)
    decreases w
  {
    match w
    case File(info) => info.size <= UINT64_MAX
    case Folder(_, entries) => PrintableEntries(entries, level + 1)
  }

  predicate PrintableEntries(entries: seq<Entry>, level: nat)
    decreases entries
  {
    entries != [] ==>
      && Printable(entries[0].name, level, entries[0].walk.Folder?)
      && PrintableWalk(entries[0].walk, level)
      && PrintableEntries(entries[1..], level)
  }

  // ---- Adding whole trees to the current directory

  function AddNode(z: Chain, name: Name, t: Tree): (r: Chain)
    ensures |r| == |z|
  {
    AddSize(PutChild(z, name, t), SizeOf(t))
  }

  function AddEntries(z: Chain, entries: seq<Entry>): (r: Chain)
    ensures |r| == |z|
    decreases entries
  {
    if entries == [] then z
    else AddEntries(AddNode(z, entries[0].name, TreeOf(Bare(entries[0].walk))), entries[1..])
  }

  // r is z after its top directory gained these children and all its directories this size.
  ghost predicate Gains(z: Chain, r: Chain, size: nat, children: map<Name, Tree>) {
    && |r| == |z|
    && (forall i :: 0 <= i < |z| - 1 ==> r[i] == z[i].(size := z[i].size + size))
    && Top(r) == Frame(Top(z).name, Top(z).size + size, Top(z).children + children)
  }

  lemma GainOne(z: Chain, r: Chain, name: Name, t: Tree, size: nat, rest: map<Name, Tree>, all: map<Name, Tree>)
    requires Gains(AddNode(z, name, t), r, size, rest) && name !in rest && all == rest[name := t]
    ensures Gains(z, r, SizeOf(t) + size, all)
  {
    assert Top(z).children[name := t] + rest == Top(z).children + all;
  }

  // The effect of adding the entries one by one.
  lemma {:induction false} AddEntriesEffect(z: Chain, entries: seq<Entry>)
    requires DistinctEntries(entries)
    ensures Gains(z, AddEntries(z, entries), EntriesSize(BareEntries(entries)), ChildrenOf(BareEntries(entries)))
    decreases entries
  {
    if entries == [] {
      assert Top(z).children + map[] == Top(z).children;
    } else {
      var name, w, rest := entries[0].name, Bare(entries[0].walk), entries[1..];
      AddEntriesEffect(AddNode(z, name, TreeOf(w)), rest);
      assert BareEntries(entries)[1..] == BareEntries(rest);
      SizeOfTree(w);
      BareNames(rest, name);
      GainOne(z, AddEntries(z, entries), name, TreeOf(w), EntriesSize(BareEntries(rest)),
              ChildrenOf(BareEntries(rest)), ChildrenOf(BareEntries(entries)));
    }
  }

  lemma {:induction false} BareNames(entries: seq<Entry>, name: Name)
    requires forall e :: e in entries ==> e.name != name
    ensures name !in ChildrenOf(BareEntries(entries))
  {
    if entries != [] {
      assert entries[0] in entries;
      assert BareEntries(entries)[1..] == BareEntries(entries[1..]);
      BareNames(entries[1..], name);
    }
  }

  lemma {:induction false} PopToPopTo(z: Chain, m: nat, n: nat)
    requires 1 <= n <= m
    ensures PopTo(PopTo(z, m), n) == PopTo(z, n)
    decreases |z|
  {
    if |z| > m {
      PopToPopTo(CloseTop(z), m, n);
    }
  }

  // Closing a directory that was opened and filled amounts to adding it as one node.
  lemma CloseFilled(z: Chain, name: Name, filled: Chain, size: nat, children: map<Name, Tree>)
    requires Gains(OpenDir(z, name), filled, size, children)
    ensures PopTo(filled, |z|) == AddNode(z, name, Dir(size, None, children))
  {
    var child, t := OpenDir(z, name), Dir(size, None, children);
    assert map[] + children == children;
    assert Top(filled) == Frame(name, size, children);
    var closed := CloseTop(filled);
    assert closed[|z| - 1] == Top(AddNode(z, name, t)) by {
      assert filled[|z| - 1] == child[|z| - 1].(size := child[|z| - 1].size + size);
      assert (Top(z).children - {name})[name := t] == Top(z).children[name := t];
    }
    forall i | 0 <= i < |z| - 1
      ensures closed[i] == AddNode(z, name, t)[i]
    {
      assert child[i] == z[i];
      assert filled[i] == child[i].(size := child[i].size + size);
    }
    assert closed == AddNode(z, name, t);
  }

  // ---- Parsing what was printed

  // From any state whose chain reaches the parent's depth, the lines of a node add its tree to
  // the parent.
  lemma {:induction false} RunNode(name: Name, w: Walk, level: nat, rest: seq<byte>, z: Chain) returns (z': Chain)
    requires 1 <= level <= |z|
    requires Printable(name, level, w.Folder?) && PrintableWalk(w, level) && Distinct(w)
    ensures Run(PrintNode(name, w, level) + rest, z) == Run(rest, z')
    ensures |z'| >= level && PopTo(z', level) == AddNode(PopTo(z, level), name, TreeOf(Bare(w)))
    decreases w
  {
    match w
    case File(info) =>
      z' := RunFileLine(name, info.size, level, rest, z);
    case Folder(realPath, entries) =>
      var line, body := Indent(level) + (name + [CR, LF]), PrintEntries(entries, level + 1);
      assert PrintNode(name, w, level) + rest == line + (body + rest);
      var child := RunDirLine(name, level, body + rest, z);
      z' := RunEntries(entries, level + 1, rest, child);
      PopToPopTo(z', level + 1, level);
      AddEntriesEffect(child, entries);
      CloseFilled(PopTo(z, level), name, AddEntries(child, entries), EntriesSize(BareEntries(entries)),
                  ChildrenOf(BareEntries(entries)));
  }

  // What the two kinds of lines do to the chain.
  lemma ApplyFile(z: Chain, level: nat, name: Name, size: nat, len: nat)
    requires 1 <= level <= |z|
    ensures var r := AddNode(PopTo(z, level), name, PlainFile(size));
            Apply(z, FileLine(level, name, size, len)) == r && |r| == level && PopTo(r, level) == r
  {
  }

  lemma ApplyDir(z: Chain, level: nat, name: Name, len: nat)
    requires 1 <= level <= |z|
    ensures var r := OpenDir(PopTo(z, level), name);
            Apply(z, DirLine(level, name, len)) == r && |r| == level + 1 && PopTo(r, level + 1) == r
  {
  }

  lemma RunFileLine(name: Name, size: nat, level: nat, rest: seq<byte>, z: Chain) returns (z': Chain)
    requires 1 <= level <= |z| && Printable(name, level, false) && size <= UINT64_MAX
    ensures Run(Indent(level) + (name + [BAR] + Digits(size) + [CR, LF]) + rest, z) == Run(rest, z')
    ensures |z'| == level && PopTo(z', level) == z' == AddNode(PopTo(z, level), name, PlainFile(size))
  {
    var line := Indent(level) + (name + [BAR] + Digits(size) + [CR, LF]);
    ReadFileLine(level, level - 1, name, size, Digits(size), rest, line);
    z' := RunStep(line, rest, z, FileLine(level, name, size, |line|));
    ApplyFile(z, level, name, size, |line|);
  }

  lemma RunDirLine(name: Name, level: nat, rest: seq<byte>, z: Chain) returns (z': Chain)
    requires 1 <= level <= |z| && Printable(name, level, true)
    ensures Run(Indent(level) + (name + [CR, LF]) + rest, z) == Run(rest, z')
    ensures |z'| == level + 1 && PopTo(z', level + 1) == z' == OpenDir(PopTo(z, level), name)
  {
    var line := Indent(level) + (name + [CR, LF]);
    ReadDirLine(level, level - 1, name, rest, line);
    z' := RunStep(line, rest, z, DirLine(level, name, |line|));
    ApplyDir(z, level, name, |line|);
  }

  lemma {:induction false} RunEntries(entries: seq<Entry>, level: nat, rest: seq<byte>, z: Chain) returns (z': Chain)
    requires 1 <= level <= |z|
    requires PrintableEntries(entries, level) && DistinctEntries(entries)
    ensures Run(PrintEntries(entries, level) + rest, z) == Run(rest, z')
    ensures |z'| >= level && PopTo(z', level) == AddEntries(PopTo(z, level), entries)
    decreases entries
  {
    if entries == [] {
      assert PrintEntries(entries, level) + rest == rest;
      z' := z;
    } else {
      var e, more := entries[0], PrintEntries(entries[1..], level);
      assert PrintEntries(entries, level) + rest == PrintNode(e.name, e.walk, level) + (more + rest);
      var y := RunNode(e.name, e.walk, level, more + rest, z);
      z' := RunEntries(entries[1..], level, rest, y);
    }
  }

  // For every tree with printable names, in every order of its children, parsing the printed
  // text gives the same tree of names, kinds and sizes.
  lemma TextRoundTrip(root: Walk, name: Name)
    requires root.Folder? && PrintableWalk(root, 0) && Distinct(root)
    ensures ParseSpec(PrintNode(name, root, 0)) == TreeOf(Bare(root))
  {
    var text := PrintEntries(root.entries, 1);
    assert PrintNode(name, root, 0) == text + [];
    var z := RunEntries(root.entries, 1, [], START);
    AddEntriesEffect(START, root.entries);
    CloseRoot(z, AddEntries(START, root.entries), EntriesSize(BareEntries(root.entries)), ChildrenOf(BareEntries(root.entries)));
    assert Run([], z) == z;
    assert ParseSpec(text + []) == Closed(PopTo(z, 1)[0]);
  }

  lemma CloseRoot(z: Chain, r: Chain, size: nat, children: map<Name, Tree>)
    requires Gains(START, r, size, children) && PopTo(z, 1) == r
    ensures Closed(PopTo(z, 1)[0]) == Dir(size, None, children)
  {
    assert map[] + children == children;
  }
}

/** Exactly which trees survive the DcLst text. */
module DcLstExact {
  import opened Bytes
  import opened Decimal
  import opened FileTree
  import opened DcLst
  import opened DcLstRoundTrip
  import opened DcLstWeight

  // ---- What any text parses to

  // A name that parsing can give: no CR, bar or NUL, and no tab in front.
  predicate Readable(name: Name) {
    (forall i :: 0 <= i < |name| ==> name[i] != CR && name[i] != BAR && name[i] != 0) && (name != [] ==> name[0] != TAB)
  }

  predicate ReadableTree(t: Tree)
    decreases t
  {
    match t
    case Reg(info) => info.size <= UINT64_MAX
    case Dir(_, _, children) => forall name :: name in children ==> Readable(name) && ReadableTree(children[name])
  }

  predicate ReadableLine(line: Line) {
    match line
    case FileLine(_, name, size, _) => Readable(name) && size <= UINT64_MAX
    case DirLine(_, name, _) => Readable(name)
    case _ => true
  }

  ghost predicate ReadableChain(z: Chain) {
    forall i :: 0 <= i < |z| ==> Readable(z[i].name) && ReadableTree(Closed(z[i]))
  }

  lemma CutName(s: seq<byte>, stop: nat)
    requires stop == Find(s, true) && s != [] && s[0] != TAB && stop <= |s|
    ensures Readable(CString(s[..stop]))
  {
    var cut := CString(s[..stop]);
    assert forall i :: 0 <= i < |cut| ==> cut[i] == s[..stop][i];
    assert 0 !in cut;
  }

  lemma NamesAreReadable(s: seq<byte>, tabs: nat, lfs: nat)
    requires s != [] ==> s[0] != TAB
    ensures ReadableLine(ReadName(s, tabs, lfs))
  {
    if s != [] {
      CutName(s, Find(s, true));
    }
  }

  lemma LinesAreReadable(s: seq<byte>)
    ensures ReadableLine(ReadLine(s))
  {
    var lfs := CountLeading(s, LF);
    var after := s[lfs..];
    var tabs := CountLeading(after, TAB);
    assert ReadLine(s) == ReadName(after[tabs..], tabs, lfs);
    NamesAreReadable(after[tabs..], tabs, lfs);
  }

  lemma {:induction false} PopKeepsReadable(z: Chain, depth: nat)
    requires ReadableChain(z) && depth >= 1
    ensures ReadableChain(PopTo(z, depth))
    decreases |z|
  {
    if |z| > depth {
      PopKeepsReadable(CloseTop(z), depth);
    }
  }

  lemma ApplyKeepsReadable(z: Chain, line: Line)
    requires ReadableChain(z) && WellFormedLine(line) && !line.End? && ReadableLine(line)
    ensures ReadableChain(Apply(z, line))
  {
    match line
    case BadSize(depth, _) =>
      PopKeepsReadable(z, depth);
    case FileLine(depth, name, size, _) =>
      PopKeepsReadable(z, depth);
      assert ReadableTree(PlainFile(size));
      assert ReadableChain(PutChild(PopTo(z, depth), name, PlainFile(size)));
    case DirLine(depth, _, _) =>
      PopKeepsReadable(z, depth);
    case Blank(_) =>
  }

  lemma {:induction false} RunKeepsReadable(s: seq<byte>, z: Chain)
    requires ReadableChain(z)
    ensures ReadableChain(Run(s, z))
    decreases |s|
  {
    var line := ReadLine(s);
    LinesAreReadable(s);
    if !line.End? {
      ApplyKeepsReadable(z, line);
      RunKeepsReadable(Advance(s, line.len), Apply(z, line));
    }
  }

  // No text at all parses to a tree with any other name or size.
  lemma ParsedIsReadable(text: seq<byte>)
    ensures ReadableTree(ParseSpec(text))
  {
    RunKeepsReadable(text, START);
    PopKeepsReadable(Run(text, START), 1);
  }

  // ---- The same for a traversal

  predicate ReadableWalk(w: Walk)
    decreases w
  {
    match w
    case File(info) => info.size <= UINT64_MAX
    case Folder(_, entries) => ReadableEntries(entries)
  }

  predicate ReadableEntries(entries: seq<Entry>)
    decreases entries
  {
    entries != [] ==> Readable(entries[0].name) && ReadableWalk(entries[0].walk) && ReadableEntries(entries[1..])
  }

  lemma {:induction false} WalkIsReadable(w: Walk)
    requires Distinct(w) && ReadableTree(TreeOf(Bare(w)))
    ensures ReadableWalk(w)
    decreases w
  {
    if w.Folder? {
      EntriesAreReadable(w.entries);
    }
  }

  lemma {:induction false} EntriesAreReadable(entries: seq<Entry>)
    requires DistinctEntries(entries)
    requires forall name :: name in ChildrenOf(BareEntries(entries))
                        ==> Readable(name) && ReadableTree(ChildrenOf(BareEntries(entries))[name])
    ensures ReadableEntries(entries)
    decreases entries
  {
    if entries != [] {
      var name, rest, bare := entries[0].name, entries[1..], BareEntries(entries);
      assert bare[1..] == BareEntries(rest);
      BareNames(rest, name);
      assert forall n :: n in ChildrenOf(bare[1..]) ==> n in ChildrenOf(bare) && ChildrenOf(bare)[n] == ChildrenOf(bare[1..])[n];
      assert ChildrenOf(bare)[name] == TreeOf(Bare(entries[0].walk));
      WalkIsReadable(entries[0].walk);
      EntriesAreReadable(rest);
    }
  }

  // ---- Reading the lines of names that are readable, but not printable

  lemma {:induction false} LeadingWithin(name: seq<byte>, tail: seq<byte>, b: byte)
    requires tail != [] && tail[0] != b
    ensures CountLeading(name + tail, b) == CountLeading(name, b)
  {
    if name == [] {
      assert name + tail == tail;
    } else {
      assert (name + tail)[1..] == name[1..] + tail;
      LeadingWithin(name[1..], tail, b);
    }
  }

  predicate Plain(name: Name) {
    forall i :: 0 <= i < |name| ==> name[i] != CR && name[i] != BAR && name[i] != 0
  }

  // On the top level line feeds and then tabs in front of a name are lost.
  lemma ReadTopName(name: Name, rest: seq<byte>) returns (tail: Name, tabs: nat, lfs: nat)
    requires Readable(name) && rest != [] && rest[0] != LF && rest[0] != TAB
    ensures Plain(tail) && lfs + tabs + |tail| == |name| && (name != [] && name[0] == LF ==> lfs > 0)
    ensures ReadLine(name + rest) == ReadName(tail + rest, tabs, lfs)
  {
    lfs := CountLeading(name, LF);
    var after := name[lfs..];
    tabs := CountLeading(after, TAB);
    tail := after[tabs..];
    LeadingWithin(name, rest, LF);
    assert (name + rest)[lfs..] == after + rest;
    LeadingWithin(after, rest, TAB);
    assert (after + rest)[tabs..] == tail + rest;
  }

  predicate LosesFront(name: Name, level: nat) {
    level == 1 && name != [] && name[0] == LF
  }

  lemma TopShape(name: Name, stop: byte, rest: seq<byte>)
    ensures Indent(1) == [] && Indent(1) + (name + [stop] + rest) == name + [stop] + rest == name + ([stop] + rest)
  {
  }

  lemma ReadAnyName(name: Name, level: nat, stop: byte, rest: seq<byte>) returns (tail: Name, tabs: nat, lfs: nat)
    requires Readable(name) && level >= 1 && (stop == CR || stop == BAR)
    ensures |Indent(level)| == level - 1 && |tail| + lfs + tabs == |name| + (level - 1) && |tail| <= |name|
    ensures LosesFront(name, level) ==> |tail| < |name|
    ensures Plain(tail)
    ensures ReadLine(Indent(level) + (name + [stop] + rest)) == ReadName(tail + [stop] + rest, tabs, lfs)
  {
    if LosesFront(name, level) {
      tail, tabs, lfs := ReadTopName(name, [stop] + rest);
      TopShape(name, stop, rest);
      TopShape(tail, stop, rest);
    } else {
      tail, tabs, lfs := name, level - 1, 0;
      ReadIndentedName(level, tabs, name, stop, rest);
    }
  }

  // Behind the indentation of a file line.
  lemma ReadFileRest(tail: Name, size: nat, digits: seq<byte>, rest: seq<byte>, tabs: nat, lfs: nat, len: nat)
    requires Plain(tail) && size <= UINT64_MAX && digits == Digits(size) && len == lfs + tabs + |tail| + 1 + |digits| + 2
    ensures ReadName(tail + [BAR] + (digits + [CR] + rest), tabs, lfs) == FileLine(1 + tabs, tail, size, len)
  {
    ReadNameThen(tail, BAR, digits + [CR] + rest, tabs, lfs);
    ReadSizeThen(size, rest, tabs, lfs, tail, |tail|);
  }

  lemma ReadAnyFileLine(name: Name, size: nat, digits: seq<byte>, level: nat, rest: seq<byte>)
    returns (tail: Name, tabs: nat, len: nat)
    requires level >= 1 && Readable(name) && size <= UINT64_MAX && digits == Digits(size)
    ensures len == level - 1 + |name| + 1 + |digits| + 2
    ensures ReadLine(Indent(level) + (name + [BAR] + (digits + [CR] + rest))) == FileLine(1 + tabs, tail, size, len)
    ensures |tail| <= |name| && (LosesFront(name, level) ==> |tail| < |name|)
  {
    var lfs;
    tail, tabs, lfs := ReadAnyName(name, level, BAR, digits + [CR] + rest);
    len := level - 1 + |name| + 1 + |digits| + 2;
    ReadFileRest(tail, size, digits, rest, tabs, lfs, len);
  }

  lemma FileLineLength(name: Name, level: nat, digits: seq<byte>, line: seq<byte>)
    requires level >= 1 && line == Indent(level) + (name + [BAR] + digits + [CR, LF])
    ensures |line| == level - 1 + |name| + 1 + |digits| + 2
  {
  }

  // A file line adds no more than the file's name, and less if the name loses its front.
  lemma RunAnyFile(name: Name, size: nat, level: nat, rest: seq<byte>, z: Chain) returns (z': Chain)
    requires level >= 1 && Readable(name) && size <= UINT64_MAX
    ensures Run(Indent(level) + (name + [BAR] + Digits(size) + [CR, LF]) + rest, z) == Run(rest, z')
    ensures Load(z') <= Load(z) + |name| + (if Printable(name, level, false) then 1 else 0)
  {
    var digits := Digits(size);
    var line := Indent(level) + (name + [BAR] + digits + [CR, LF]);
    var tail, tabs, len := ReadAnyFileLine(name, size, digits, level, [LF] + rest);
    FileLineShape(Indent(level), name, digits, rest);
    FileLineLength(name, level, digits, line);
    z' := RunStep(line, rest, z, FileLine(1 + tabs, tail, size, len));
    LoadAfterLine(z, FileLine(1 + tabs, tail, size, len));
  }

  // The same for a directory line; a name of which nothing is left makes a blank line.
  lemma RunAnyDir(name: Name, level: nat, rest: seq<byte>, z: Chain) returns (z': Chain)
    requires level >= 1 && Readable(name)
    ensures Run(Indent(level) + (name + [CR, LF]) + rest, z) == Run(rest, z')
    ensures Load(z') <= Load(z) + |name| + (if Printable(name, level, true) then 1 else 0)
  {
    var line, more := Indent(level) + (name + [CR, LF]), [LF] + rest;
    var tail, tabs, lfs := ReadAnyName(name, level, CR, more);
    DirLineShape(Indent(level), name, rest);
    var read := if tail == [] then Blank(|line|) else DirLine(1 + tabs, tail, |line|);
    if tail == [] {
      assert tail + [CR] + more == [CR] + more;
    } else {
      ReadNameThen(tail, CR, more, tabs, lfs);
    }
    z' := RunStep(line, rest, z, read);
    LoadAfterLine(z, read);
  }

  lemma {:induction false} RunAnyNode(name: Name, w: Walk, level: nat, rest: seq<byte>, z: Chain) returns (z': Chain)
    requires level >= 1 && Readable(name) && ReadableWalk(w)
    ensures Run(PrintNode(name, w, level) + rest, z) == Run(rest, z')
    ensures Load(z') <= Load(z) + |name| + 1 + NamesBelow(w)
    ensures Load(z') == Load(z) + |name| + 1 + NamesBelow(w) ==> Printable(name, level, w.Folder?) && PrintableWalk(w, level)
    decreases w, 1
  {
    if w.File? {
      FileShape(name, w, level);
      z' := RunAnyFile(name, w.info.size, level, rest, z);
    } else {
      z' := RunAnyFolder(name, w, level, rest, z);
    }
  }

  lemma {:induction false} RunAnyFolder(name: Name, w: Walk, level: nat, rest: seq<byte>, z: Chain) returns (z': Chain)
    requires level >= 1 && Readable(name) && ReadableWalk(w) && w.Folder?
    ensures Run(PrintNode(name, w, level) + rest, z) == Run(rest, z')
    ensures Load(z') <= Load(z) + |name| + 1 + NamesBelow(w)
    ensures Load(z') == Load(z) + |name| + 1 + NamesBelow(w) ==> Printable(name, level, true) && PrintableWalk(w, level)
    decreases w, 0
  {
    var body := PrintEntries(w.entries, level + 1);
    FolderShape(name, w, level, body, rest);
    FolderParts(w, level);
    var child := RunAnyDir(name, level, body + rest, z);
    z' := RunAnyEntries(w.entries, level + 1, rest, child);
    FolderLoad(name, w, level, Load(z), Load(child), Load(z'));
  }

  lemma FolderParts(w: Walk, level: nat)
    requires w.Folder? && ReadableWalk(w)
    ensures ReadableEntries(w.entries) && NamesBelow(w) == NamesOf(w.entries)
    ensures PrintableWalk(w, level) == PrintableEntries(w.entries, level + 1)
  {
  }

  // The weights before, inside and behind a folder.
  lemma FolderLoad(name: Name, w: Walk, level: nat, before: nat, inside: nat, after: nat)
    requires w.Folder?
    requires inside <= before + |name| + if Printable(name, level, true) then 1 else 0
    requires after <= inside + NamesOf(w.entries)
    requires after == inside + NamesOf(w.entries) ==> PrintableEntries(w.entries, level + 1)
    ensures after <= before + |name| + 1 + NamesBelow(w)
    ensures after == before + |name| + 1 + NamesBelow(w) ==> Printable(name, level, true) && PrintableWalk(w, level)
  {
  }

  lemma FileShape(name: Name, w: Walk, level: nat)
    requires w.File?
    ensures PrintNode(name, w, level) == Indent(level) + (name + [BAR] + Digits(w.info.size) + [CR, LF])
  {
  }

  lemma FolderShape(name: Name, w: Walk, level: nat, body: seq<byte>, rest: seq<byte>)
    requires w.Folder? && level >= 1 && body == PrintEntries(w.entries, level + 1)
    ensures PrintNode(name, w, level) + rest == Indent(level) + (name + [CR, LF]) + (body + rest)
  {
    Associate(Indent(level), name + [CR, LF], body, rest);
  }

  lemma Associate(a: seq<byte>, b: seq<byte>, c: seq<byte>, d: seq<byte>)
    ensures a + (b + c) + d == a + b + (c + d)
  {
  }

  // Printed entries add no more than their names, and less if one of them is not printable.
  lemma {:induction false} RunAnyEntries(entries: seq<Entry>, level: nat, rest: seq<byte>, z: Chain) returns (z': Chain)
    requires level >= 1 && ReadableEntries(entries)
    ensures Run(PrintEntries(entries, level) + rest, z) == Run(rest, z')
    ensures Load(z') <= Load(z) + NamesOf(entries)
    ensures Load(z') == Load(z) + NamesOf(entries) ==> PrintableEntries(entries, level)
    decreases entries, 2
  {
    if entries == [] {
      assert PrintEntries(entries, level) + rest == rest;
      z' := z;
    } else {
      var e, more := entries[0], PrintEntries(entries[1..], level);
      assert PrintEntries(entries, level) + rest == PrintNode(e.name, e.walk, level) + (more + rest);
      var y := RunAnyNode(e.name, e.walk, level, more + rest, z);
      z' := RunAnyEntries(entries[1..], level, rest, y);
    }
  }

  // A parsed tree that has all the weight of the printed one was printable.
  lemma ParsedWeight(root: Walk, name: Name)
    requires root.Folder? && ReadableWalk(root)
    ensures Weight(ParseSpec(PrintNode(name, root, 0))) <= NamesBelow(root)
    ensures Weight(ParseSpec(PrintNode(name, root, 0))) == NamesBelow(root) ==> PrintableWalk(root, 0)
  {
    var text := PrintEntries(root.entries, 1);
    RootShape(root, name);
    var z := RunAnyEntries(root.entries, 1, [], START);
    assert Run([], z) == z;
    ClosedWeight(z);
    assert Load(START) == 1 by { assert START[..0] == []; }
  }

  lemma RootShape(root: Walk, name: Name)
    requires root.Folder?
    ensures PrintNode(name, root, 0) == PrintEntries(root.entries, 1) == PrintEntries(root.entries, 1) + []
  {
  }

  lemma ClosedWeight(z: Chain)
    ensures 1 + Weight(Closed(PopTo(z, 1)[0])) <= Load(z)
  {
    var only := PopTo(z, 1);
    LoadAfterPop(z, 1);
    assert only[..0] == [];
  }

  // A tree survives printing and parsing if and only if all names and sizes in it are printable.
  lemma TextRoundTripExactly(root: Walk, name: Name)
    requires root.Folder? && Distinct(root)
    ensures ParseSpec(PrintNode(name, root, 0)) == TreeOf(Bare(root)) <==> PrintableWalk(root, 0)
  {
    if PrintableWalk(root, 0) {
      TextRoundTrip(root, name);
    } else {
      ParsedIsReadable(PrintNode(name, root, 0));
      if ReadableTree(TreeOf(Bare(root))) {
        WalkIsReadable(root);
        ParsedWeight(root, name);
        WeightOfTree(root);
      }
    }
  }
}

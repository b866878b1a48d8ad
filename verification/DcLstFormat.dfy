/** The DcLst text byte by byte: 9 is the tab, 10 the line feed, 13 the CR and 124 the bar. */
module DcLstFormat {
  import opened Bytes
  import opened Wrappers
  import opened Decimal
  import opened FileTree
  import opened DcLst
  import opened DcLstPrint
  import opened DcLstRoundTrip

  // ---- Writing

  // The line of a file: a tab for every directory it is in, below the root, then name, bar and size.
  lemma FileText(name: Name, info: FileInfo, level: nat)
    requires level >= 1
    ensures PrintNode(name, File(info), level) == Repeat(9, level - 1) + name + [124] + Digits(info.size) + [13, 10]
  {
  }

  // The line of a directory, and then its entries, in the order of the traversal. The root itself
  // has no line.
  lemma DirText(name: Name, realPath: Option<Name>, entries: seq<Entry>, e: Entry, level: nat)
    ensures PrintNode(name, Folder(realPath, []), level) == if level == 0 then [] else Repeat(9, level - 1) + name + [13, 10]
    ensures PrintNode(name, Folder(realPath, entries + [e]), level)
         == PrintNode(name, Folder(realPath, entries), level) + PrintNode(e.name, e.walk, level + 1)
  {
    PrintAppend(entries, e, level + 1);
  }

  // ---- Reading any line

  lemma {:induction false} LeadingRun(b: byte, times: nat, rest: seq<byte>)
    requires rest == [] || rest[0] != b
    ensures CountLeading(Repeat(b, times) + rest, b) == times && (Repeat(b, times) + rest)[times..] == rest
  {
    var s := Repeat(b, times) + rest;
    if times > 0 {
      assert s[1..] == Repeat(b, times - 1) + rest;
      LeadingRun(b, times - 1, rest);
    } else {
      assert s == rest;
    }
  }

  // Line feeds, then tabs, then the rest of the line.
  lemma ReadFront(lfs: nat, tabs: nat, rest: seq<byte>)
    requires rest != [] && rest[0] != 9 && (tabs == 0 ==> rest[0] != 10)
    ensures ReadLine(Repeat(10, lfs) + (Repeat(9, tabs) + rest)) == ReadName(rest, tabs, lfs)
  {
    var tail := Repeat(9, tabs) + rest;
    assert tail[0] == if tabs == 0 then rest[0] else 9;
    LeadingRun(10, lfs, tail);
    LeadingRun(9, tabs, rest);
  }

  lemma {:induction false} FirstStop(s: seq<byte>, stop: byte, rest: seq<byte>, bars: bool)
    requires 13 !in s && (bars ==> 124 !in s) && (stop == 13 || (bars && stop == 124))
    ensures Find(s + [stop] + rest, bars) == |s|
  {
    if s == [] {
      assert s + [stop] + rest == [stop] + rest;
    } else {
      assert (s + [stop] + rest)[1..] == s[1..] + [stop] + rest;
      FirstStop(s[1..], stop, rest, bars);
    }
  }

  lemma {:induction false} NoStop(s: seq<byte>, bars: bool)
    requires 13 !in s && (bars ==> 124 !in s)
    ensures Find(s, bars) == |s|
  {
    if s != [] {
      NoStop(s[1..], bars);
    }
  }

  lemma AtStop(s: seq<byte>, stop: byte, rest: seq<byte>)
    ensures var all := s + [stop] + rest; all[..|s|] == s && all[|s|] == stop && all[|s| + 1..] == rest && all != []
  {
  }

  lemma FirstByte(s: seq<byte>, stop: byte, rest: seq<byte>)
    ensures s + [stop] + rest != [] && (s + [stop] + rest)[0] == if s == [] then stop else s[0]
  {
  }

  // A name as it may stand in a line: no CR, no bar, and what is in front of it ends there.
  ghost predicate Raw(name: seq<byte>, tabs: nat) {
    13 !in name && 124 !in name && (name != [] ==> name[0] != 9 && (tabs == 0 ==> name[0] != 10))
  }

  lemma ReadAnySize(size: seq<byte>, rest: seq<byte>, tabs: nat, lfs: nat, name: Name, stop: nat, len: nat)
    requires 13 !in size && len == lfs + tabs + stop + 1 + |size| + 2
    ensures ReadSize(size + [13] + rest, tabs, lfs, name, stop)
         == if Parses(CString(size)) then FileLine(1 + tabs, name, Value(CString(size)), len) else BadSize(1 + tabs, len)
  {
    FirstStop(size, 13, rest, false);
    AtStop(size, 13, rest);
  }

  lemma ReadAnyName(name: seq<byte>, rest: seq<byte>, tabs: nat, lfs: nat)
    requires Raw(name, tabs)
    ensures ReadName(name + [124] + rest, tabs, lfs) == ReadSize(rest, tabs, lfs, CString(name), |name|)
  {
    FirstStop(name, 124, rest, true);
    AtStop(name, 124, rest);
  }

  lemma ReadAnyFront(lfs: nat, tabs: nat, name: seq<byte>, stop: byte, rest: seq<byte>, line: seq<byte>)
    requires Raw(name, tabs) && (stop == 13 || stop == 124) && line == name + [stop] + rest
    ensures ReadLine(Repeat(10, lfs) + (Repeat(9, tabs) + line)) == ReadName(line, tabs, lfs)
  {
    FirstByte(name, stop, rest);
    ReadFront(lfs, tabs, line);
  }

  // Any line with a bar is a file of the depth that its tabs say, provided that digits follow the
  // bar; what stands behind a NUL in the name or the size is dropped. The byte behind the CR is
  // skipped without a look.
  lemma ReadAnyFile(text: seq<byte>, lfs: nat, tabs: nat, name: seq<byte>, size: seq<byte>, rest: seq<byte>, len: nat)
    requires Raw(name, tabs) && 13 !in size && len == lfs + tabs + |name| + 1 + |size| + 2
    requires text == Repeat(10, lfs) + (Repeat(9, tabs) + (name + [124] + (size + [13] + rest)))
    ensures ReadLine(text) == if Parses(CString(size)) then FileLine(1 + tabs, CString(name), Value(CString(size)), len)
                              else BadSize(1 + tabs, len)
  {
    ReadFileFront(text, lfs, tabs, name, size + [13] + rest);
    ReadAnySize(size, rest, tabs, lfs, CString(name), |name|, len);
  }

  lemma ReadFileFront(text: seq<byte>, lfs: nat, tabs: nat, name: seq<byte>, behind: seq<byte>)
    requires Raw(name, tabs) && text == Repeat(10, lfs) + (Repeat(9, tabs) + (name + [124] + behind))
    ensures ReadLine(text) == ReadSize(behind, tabs, lfs, CString(name), |name|)
  {
    ReadAnyFront(lfs, tabs, name, 124, behind, name + [124] + behind);
    ReadAnyName(name, behind, tabs, lfs);
  }

  lemma ReadDirName(name: seq<byte>, rest: seq<byte>, tabs: nat, lfs: nat)
    requires Raw(name, tabs) && name != []
    ensures ReadName(name + [13] + rest, tabs, lfs) == DirLine(1 + tabs, CString(name), lfs + tabs + |name| + 2)
  {
    FirstStop(name, 13, rest, true);
    AtStop(name, 13, rest);
    FirstByte(name, 13, rest);
  }

  // Any other line with a name is a directory.
  lemma ReadAnyDir(text: seq<byte>, lfs: nat, tabs: nat, name: seq<byte>, rest: seq<byte>, len: nat)
    requires Raw(name, tabs) && name != [] && len == lfs + tabs + |name| + 2
    requires text == Repeat(10, lfs) + (Repeat(9, tabs) + (name + [13] + rest))
    ensures ReadLine(text) == DirLine(1 + tabs, CString(name), len)
  {
    var line := name + [13] + rest;
    ReadAnyFront(lfs, tabs, name, 13, rest, line);
    ReadDirName(name, rest, tabs, lfs);
  }

  // A line without a name is skipped.
  lemma ReadAnyBlank(lfs: nat, tabs: nat, rest: seq<byte>)
    ensures ReadLine(Repeat(10, lfs) + (Repeat(9, tabs) + ([13] + rest))) == Blank(lfs + tabs + 2)
  {
    ReadFront(lfs, tabs, [13] + rest);
  }

  // Without a CR the line does not end, and reading stops.
  lemma ReadUnfinished(lfs: nat, tabs: nat, name: seq<byte>, size: seq<byte>)
    requires Raw(name, tabs) && 13 !in size
    ensures ReadLine(Repeat(10, lfs) + (Repeat(9, tabs) + name)) == End
    ensures ReadLine(Repeat(10, lfs) + (Repeat(9, tabs) + (name + [124] + size))) == End
  {
    NoStop(name, true);
    NoStop(size, false);
    if name == [] {
      LeadingRun(9, tabs, []);
      var tail := Repeat(9, tabs) + [];
      assert tail == [] || tail[0] == 9;
      LeadingRun(10, lfs, tail);
    } else {
      ReadFront(lfs, tabs, name);
    }
    ReadAnyFront(lfs, tabs, name, 124, size, name + [124] + size);
    ReadAnyName(name, size, tabs, lfs);
  }

  // ---- Reading what was written

  lemma FileTextShape(none: seq<byte>, indent: seq<byte>, name: Name, digits: seq<byte>, rest: seq<byte>, line: seq<byte>)
    requires none == [] && line == indent + name + [124] + digits + [13, 10]
    ensures line + rest == none + (indent + (name + [124] + (digits + [13] + ([10] + rest))))
    ensures |line| == |indent| + |name| + 1 + |digits| + 2
  {
  }

  lemma DirTextShape(none: seq<byte>, indent: seq<byte>, name: Name, rest: seq<byte>, line: seq<byte>)
    requires none == [] && line == indent + name + [13, 10]
    ensures line + rest == none + (indent + (name + [13] + ([10] + rest)))
    ensures |line| == |indent| + |name| + 2
  {
  }

  lemma PlainName(name: Name, level: nat, tabs: nat)
    requires level == tabs + 1 && 13 !in name && 124 !in name && 0 !in name
    requires name != [] ==> name[0] != 9 && (level == 1 ==> name[0] != 10)
    ensures Raw(name, tabs) && CString(name) == name
  {
    WholeCString(name);
  }

  // The line of a file is read back, whatever follows.
  lemma ReadsFileText(level: nat, tabs: nat, name: Name, size: nat, digits: seq<byte>, line: seq<byte>, rest: seq<byte>)
    requires level == tabs + 1 && size < 0x1_0000_0000_0000_0000 && digits == Digits(size)
    requires line == Repeat(9, tabs) + name + [124] + digits + [13, 10]
    requires 13 !in name && 124 !in name && 0 !in name && (name != [] ==> name[0] != 9 && (level == 1 ==> name[0] != 10))
    ensures ReadLine(line + rest) == FileLine(level, name, size, |line|)
  {
    var lfs: nat :| lfs == 0;
    ValueOfDigits(size);
    PlainName(name, level, tabs);
    WholeCString(digits);
    FileTextShape(Repeat(10, lfs), Repeat(9, tabs), name, digits, rest, line);
    ReadAnyFile(line + rest, lfs, tabs, name, digits, [10] + rest, |line|);
  }

  // And that of a directory.
  lemma ReadsDirText(level: nat, tabs: nat, name: Name, line: seq<byte>, rest: seq<byte>)
    requires level == tabs + 1 && name != [] && line == Repeat(9, tabs) + name + [13, 10]
    requires 13 !in name && 124 !in name && 0 !in name && name[0] != 9 && (level == 1 ==> name[0] != 10)
    ensures ReadLine(line + rest) == DirLine(level, name, |line|)
  {
    var lfs: nat :| lfs == 0;
    PlainName(name, level, tabs);
    DirTextShape(Repeat(10, lfs), Repeat(9, tabs), name, rest, line);
    ReadAnyDir(line + rest, lfs, tabs, name, [10] + rest, |line|);
  }

  // ---- A name that occurs twice

  // Adding a file to the only open directory.
  ghost predicate Adds(z: Chain, y: Chain, name: Name, size: nat) {
    |z| == 1 && |y| == 1 && y[0] == Frame(z[0].name, z[0].size + size, z[0].children[name := Reg(FileInfo(size, false, NO_TTH, 0))])
  }

  lemma TopFile(name: Name, size: nat, line: seq<byte>, rest: seq<byte>, z: Chain) returns (y: Chain)
    requires |z| == 1 && Printable(name, 1, false) && size <= UINT64_MAX && line == name + [124] + Digits(size) + [13, 10]
    ensures Run(line + rest, z) == Run(rest, y)
    ensures Adds(z, y, name, size)
  {
    y := RunFileLine(name, size, 1, rest, z);
    assert Indent(1) + (name + [BAR] + Digits(size) + [CR, LF]) == line;
  }

  lemma ParsedTop(text: seq<byte>, z: Chain, none: seq<byte>)
    requires Run(text, START) == Run(none, z) && none == [] && |z| == 1
    ensures ParseSpec(text) == Dir(z[0].size, None, z[0].children)
  {
    assert ReadLine(none).End?;
  }

  lemma AddsTwice(z: Chain, y: Chain, x: Chain, name: Name, a: nat, b: nat)
    requires z == START && Adds(z, y, name, a) && Adds(y, x, name, b)
    ensures x[0].size == a + b && x[0].children == map[name := Reg(FileInfo(b, false, NO_TTH, 0))]
  {
  }

  lemma TwoLines(name: Name, a: nat, b: nat, first: seq<byte>, second: seq<byte>, none: seq<byte>, z: Chain)
    returns (y: Chain, x: Chain)
    requires Printable(name, 1, false) && a <= UINT64_MAX && b <= UINT64_MAX && |z| == 1 && none == []
    requires first == name + [124] + Digits(a) + [13, 10] && second == name + [124] + Digits(b) + [13, 10]
    ensures Run(first + second, z) == Run(none, x) && Adds(z, y, name, a) && Adds(y, x, name, b)
  {
    y := TopFile(name, a, first, second, z);
    x := TopFile(name, b, second, none, y);
    assert second + none == second;
  }

  // Of two files with the same name the second one is kept, and the directory has the size of both.
  lemma RepeatedName(name: Name, a: nat, b: nat, first: seq<byte>, second: seq<byte>)
    requires Printable(name, 1, false) && a <= UINT64_MAX && b <= UINT64_MAX
    requires first == name + [124] + Digits(a) + [13, 10] && second == name + [124] + Digits(b) + [13, 10]
    ensures ParseSpec(first + second) == Dir(a + b, None, map[name := Reg(FileInfo(b, false, NO_TTH, 0))])
  {
    var none: seq<byte> :| none == [];
    var y, x := TwoLines(name, a, b, first, second, none, START);
    AddsTwice(START, y, x, name, a, b);
    ParsedTop(first + second, x, none);
  }
}

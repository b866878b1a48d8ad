/** The DcLst text form of a file list: what filelist_to_string prints, what
    parse_decoded_dclst makes of any text, and why the second undoes the first. */
module DcLst {
  import opened Bytes
  import opened Wrappers
  import opened Decimal
  import opened FileTree

  const TAB: byte := 9
  const LF: byte := 10
  const CR: byte := 13
  const BAR: byte := 124

  // ---- Printing

  // The tabs in front of a node: none for the root and for its children.
  function Indent(level: nat): seq<byte> {
    if level == 0 then [] else Repeat(TAB, level - 1)
  }

  function PrintNode(name: Name, w: Walk, level: nat): seq<byte>
    decreases w
  {
    Indent(level) +
    match w
    case File(info) => name + [BAR] + Digits(info.size) + [CR, LF]
    case Folder(_, entries) => (if level == 0 then [] else name + [CR, LF]) + PrintEntries(entries, level + 1)
  }

  function PrintEntries(entries: seq<Entry>, level: nat): seq<byte>
    decreases entries
  {
    if entries == [] then []
    else PrintNode(entries[0].name, entries[0].walk, level) + PrintEntries(entries[1..], level)
  }

  // ---- Reading one line

  datatype Line =
    | End                                              // the loop stops
    | Blank(len: nat)                                  // nothing but indentation
    | BadSize(depth: nat, len: nat)                    // a file line without a number
    | FileLine(depth: nat, name: Name, size: nat, len: nat)
    | DirLine(depth: nat, name: Name, len: nat)

  // The position of the first CR, or of the first bar when bars count too; |s| if there is none.
  function Find(s: seq<byte>, bars: bool): (n: nat)
    ensures n <= |s|
    ensures n < |s| ==> s[n] == CR || (bars && s[n] == BAR)
    ensures forall i :: 0 <= i < n ==> s[i] != CR && (bars ==> s[i] != BAR)
  {
    if s == [] || s[0] == CR || (bars && s[0] == BAR) then 0 else 1 + Find(s[1..], bars)
  }

  ghost predicate WellFormedLine(line: Line) {
    && (!line.End? ==> line.len >= 2)
    && (line.BadSize? || line.FileLine? || line.DirLine? ==> line.depth >= 1)
  }

  // A line is read in three steps: the line feeds and tabs in front, the name, the size.
  ghost function ReadLine(s: seq<byte>): (line: Line)
    ensures WellFormedLine(line) && (s == [] ==> line.End?)
  {
    ReadIndent(s[CountLeading(s, LF)..], CountLeading(s, LF))
  }

  ghost function ReadIndent(s: seq<byte>, lfs: nat): (line: Line)
    ensures WellFormedLine(line) && (s == [] ==> line.End?)
  {
    ReadName(s[CountLeading(s, TAB)..], CountLeading(s, TAB), lfs)
  }

  ghost function ReadName(s: seq<byte>, tabs: nat, lfs: nat): (line: Line)
    ensures WellFormedLine(line) && (s == [] ==> line.End?)
  {
    if s == [] then End
    else if s[0] == CR then Blank(lfs + tabs + 2)
    else
      var stop := Find(s, true);
      if stop == |s| then End
      else if s[stop] == CR then DirLine(1 + tabs, CString(s[..stop]), lfs + tabs + stop + 2)
      else ReadSize(s[stop + 1..], tabs, lfs, CString(s[..stop]), stop)
  }

  // The size, behind a name that took stop bytes and a bar.
  ghost function ReadSize(s: seq<byte>, tabs: nat, lfs: nat, name: Name, stop: nat): (line: Line)
    ensures WellFormedLine(line)
  {
    var end := Find(s, false);
    var len := lfs + tabs + stop + 1 + end + 2;
    if end == |s| then End
    else if Parses(CString(s[..end])) then FileLine(1 + tabs, name, Value(CString(s[..end])), len)
    else BadSize(1 + tabs, len)
  }

  // ---- The directories that are open: from the root to the current one

  // A directory under construction; a child directory that is itself open is not in children.
  datatype Frame = Frame(name: Name, size: nat, children: map<Name, Tree>)

  type Chain = z: seq<Frame> | z != [] witness [Frame([], 0, map[])]

  function Top(z: Chain): Frame {
    z[|z| - 1]
  }

  function PlainFile(size: nat): Tree {
    Reg(PlainInfo(size))
  }

  function Closed(f: Frame): Tree {
    Dir(f.size, None, f.children)
  }

  function PutChild(z: Chain, name: Name, t: Tree): (r: Chain)
    ensures |r| == |z|
  {
    z[|z| - 1 := Top(z).(children := Top(z).children[name := t])]
  }

  function CloseTop(z: Chain): (r: Chain)
    requires |z| >= 2
    ensures |r| == |z| - 1
  {
    PutChild(z[..|z| - 1], Top(z).name, Closed(Top(z)))
  }

  function PopTo(z: Chain, depth: nat): (r: Chain)
    requires depth >= 1
    ensures |r| == if |z| < depth then |z| else depth
    decreases |z|
  {
    if |z| <= depth then z else PopTo(CloseTop(z), depth)
  }

  function AddSize(z: Chain, size: nat): (r: Chain)
    ensures |r| == |z|
    ensures forall i :: 0 <= i < |z| ==> r[i] == z[i].(size := z[i].size + size)
  {
    seq(|z|, i requires 0 <= i < |z| => z[i].(size := z[i].size + size))
  }

  function OpenDir(z: Chain, name: Name): Chain {
    z[|z| - 1 := Top(z).(children := Top(z).children - {name})] + [Frame(name, 0, map[])]
  }

  function Apply(z: Chain, line: Line): Chain
    requires line.BadSize? || line.FileLine? || line.DirLine? ==> line.depth >= 1
  {
    match line
    case BadSize(depth, _) => PopTo(z, depth)
    case FileLine(depth, name, size, _) => AddSize(PutChild(PopTo(z, depth), name, PlainFile(size)), size)
    case DirLine(depth, name, _) => OpenDir(PopTo(z, depth), name)
    case _ => z
  }

  function Advance(s: seq<byte>, len: nat): seq<byte> {
    if len <= |s| then s[len..] else []
  }

  ghost function Run(s: seq<byte>, z: Chain): Chain
    decreases |s|
  {
    var line := ReadLine(s);
    if line.End? then z else Run(Advance(s, line.len), Apply(z, line))
  }

  const START: Chain := [Frame([], 0, map[])]

  // The tree parse_decoded_dclst returns for any text.
  ghost function ParseSpec(text: seq<byte>): Tree {
    Closed(PopTo(Run(text, START), 1)[0])
  }

  // ---- Reading a printed line

  // A name that survives the text form at this level.
  predicate Printable(name: Name, level: nat, isDir: bool) {
    && (forall i :: 0 <= i < |name| ==> name[i] != CR && name[i] != BAR && name[i] != 0)
    && (name != [] ==> name[0] != TAB && (level == 1 ==> name[0] != LF))
    && (isDir ==> name != [])
  }

  lemma {:induction false} LeadingTabs(tabs: nat, rest: seq<byte>)
    requires rest != [] && rest[0] != TAB
    ensures CountLeading(Repeat(TAB, tabs) + rest, TAB) == tabs
  {
    var s := Repeat(TAB, tabs) + rest;
    if tabs == 0 {
      assert s == rest;
    } else {
      assert s[1..] == Repeat(TAB, tabs - 1) + rest;
      LeadingTabs(tabs - 1, rest);
    }
  }

  lemma {:induction false} FindAfter(name: seq<byte>, rest: seq<byte>, bars: bool)
    requires rest != [] && (rest[0] == CR || (bars && rest[0] == BAR))
    requires forall i :: 0 <= i < |name| ==> name[i] != CR && (bars ==> name[i] != BAR)
    ensures Find(name + rest, bars) == |name|
  {
    if name == [] {
      assert name + rest == rest;
    } else {
      assert (name + rest)[1..] == name[1..] + rest;
      FindAfter(name[1..], rest, bars);
    }
  }

  // The indentation of a printed line, then the name.
  lemma ReadIndented(level: nat, tabs: nat, rest: seq<byte>)
    requires level == tabs + 1 && rest != [] && rest[0] != TAB && (level == 1 ==> rest[0] != LF)
    ensures |Indent(level)| == tabs && ReadLine(Indent(level) + rest) == ReadName(rest, tabs, 0)
  {
    var s := Indent(level) + rest;
    LeadingTabs(tabs, rest);
    assert s[tabs..] == rest;
    assert s[0] != LF by {
      if level >= 2 {
        assert Indent(level)[0] == TAB;
      } else {
        assert s == rest;
      }
    }
    NoLineFeeds(s);
    BehindTabs(s, tabs, rest);
  }

  lemma NoLineFeeds(s: seq<byte>)
    requires s != [] && s[0] != LF
    ensures ReadLine(s) == ReadIndent(s, 0)
  {
    assert s[0..] == s;
  }

  lemma BehindTabs(s: seq<byte>, tabs: nat, rest: seq<byte>)
    requires tabs == CountLeading(s, TAB) && rest == s[tabs..]
    ensures forall lfs: nat :: ReadIndent(s, lfs) == ReadName(rest, tabs, lfs)
  {
  }

  lemma ReadNameThen(name: Name, stop: byte, rest: seq<byte>, tabs: nat, lfs: nat)
    requires (stop == CR || stop == BAR) && (stop == CR ==> name != [])
    requires forall i :: 0 <= i < |name| ==> name[i] != CR && name[i] != BAR && name[i] != 0
    ensures ReadName(name + [stop] + rest, tabs, lfs)
         == if stop == CR then DirLine(1 + tabs, name, lfs + tabs + |name| + 2) else ReadSize(rest, tabs, lfs, name, |name|)
  {
    var s := name + ([stop] + rest);
    assert s == name + [stop] + rest;
    FindAfter(name, [stop] + rest, true);
    assert s[..|name|] == name && s[|name| + 1..] == rest && s[|name|] == stop;
    WholeCString(name);
  }

  lemma ReadIndentedName(level: nat, tabs: nat, name: Name, stop: byte, rest: seq<byte>)
    requires level == tabs + 1 && Printable(name, level, false) && (stop == CR || stop == BAR)
    ensures |Indent(level)| == tabs
    ensures ReadLine(Indent(level) + (name + [stop] + rest)) == ReadName(name + [stop] + rest, tabs, 0)
  {
    var tail := name + [stop] + rest;
    assert tail[0] == if name == [] then stop else name[0];
    ReadIndented(level, tabs, tail);
  }

  lemma ReadSizeThen(size: nat, rest: seq<byte>, tabs: nat, lfs: nat, name: Name, stop: nat)
    requires size <= UINT64_MAX
    ensures ReadSize(Digits(size) + [CR] + rest, tabs, lfs, name, stop)
         == FileLine(1 + tabs, name, size, lfs + tabs + stop + 1 + |Digits(size)| + 2)
  {
    var digits := Digits(size);
    var s := digits + ([CR] + rest);
    assert s == digits + [CR] + rest;
    ValueOfDigits(size);
    FindAfter(digits, [CR] + rest, false);
    assert s[..|digits|] == digits;
    WholeCString(digits);
  }

  lemma AdvanceOver(line: seq<byte>, rest: seq<byte>)
    ensures Advance(line + rest, |line|) == rest
  {
  }

  // The same line as three pieces.
  lemma DirLineShape(indent: seq<byte>, name: Name, rest: seq<byte>)
    ensures indent + (name + [CR, LF]) + rest == indent + (name + [CR] + ([LF] + rest))
  {
  }

  lemma ReadDirLine(level: nat, tabs: nat, name: Name, rest: seq<byte>, line: seq<byte>)
    requires level == tabs + 1 && Printable(name, level, true) && line == Indent(level) + (name + [CR, LF])
    ensures ReadLine(line + rest) == DirLine(level, name, |line|)
  {
    var indent, more := Indent(level), [LF] + rest;
    DirLineShape(indent, name, rest);
    ReadIndentedName(level, tabs, name, CR, more);
    ReadNameThen(name, CR, more, tabs, 0);
    assert |line| == tabs + |name| + 2;
  }

  lemma FileLineShape(indent: seq<byte>, name: Name, digits: seq<byte>, rest: seq<byte>)
    ensures indent + (name + [BAR] + digits + [CR, LF]) + rest
         == indent + (name + [BAR] + (digits + [CR] + ([LF] + rest)))
  {
  }

  lemma ReadFileLine(level: nat, tabs: nat, name: Name, size: nat, digits: seq<byte>, rest: seq<byte>, line: seq<byte>)
    requires level == tabs + 1 && Printable(name, level, false) && size <= UINT64_MAX && digits == Digits(size)
    requires line == Indent(level) + (name + [BAR] + digits + [CR, LF])
    ensures ReadLine(line + rest) == FileLine(level, name, size, |line|)
  {
    var sizeTail := digits + [CR] + ([LF] + rest);
    FileLineShape(Indent(level), name, digits, rest);
    ReadIndentedName(level, tabs, name, BAR, sizeTail);
    ReadNameThen(name, BAR, sizeTail, tabs, 0);
    ReadSizeThen(size, [LF] + rest, tabs, 0, name, |name|);
    assert |line| == tabs + |name| + 1 + |digits| + 2;
  }

  // One turn of the loop over a line that was read.
  lemma RunStep(line: seq<byte>, rest: seq<byte>, z: Chain, read: Line) returns (y: Chain)
    requires ReadLine(line + rest) == read && !read.End? && read.len == |line|
    ensures y == Apply(z, read) && Run(line + rest, z) == Run(rest, y)
  {
    y := Apply(z, read);
    AdvanceOver(line, rest);
  }
}

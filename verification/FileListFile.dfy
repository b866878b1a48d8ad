/** MyList.DcLst files: a file list printed and compressed, then read back. */
module FileListFile {
  import opened Bytes
  import opened Wrappers
  import opened Decimal
  import opened PrefixCodes
  import opened HuffmanTree
  import opened HuffmanCode
  import opened HuffmanEncode
  import opened HuffmanDecode
  import opened HuffmanRoundTrip
  import opened FileTree
  import opened FileWalk
  import opened FileNodes
  import opened DcLst
  import opened DcLstRoundTrip
  import opened DcLstExact
  import opened DcLstPrint
  import opened DcLstParse

  // What a file list file keeps of a tree: names, kinds and sizes.
  function BareTree(t: Tree): Tree
    decreases t
  {
    match t
    case Reg(info) => PlainFile(info.size)
    case Dir(size, _, children) => Dir(size, None, map name | name in children :: BareTree(children[name]))
  }

  // Every name below t, t at this level, survives the text form, and every file size is 64-bit.
  predicate PrintableTree(t: Tree, level: nat)
    decreases t
  {
    match t
    case Reg(info) => info.size <= UINT64_MAX
    case Dir(_, _, children) =>
      forall name :: name in children ==>
        Printable(name, level + 1, children[name].Dir?) && PrintableTree(children[name], level + 1)
  }

  lemma {:induction false} WalkIsPrintable(w: Walk, t: Tree, level: nat)
    requires Walks(w, t) && PrintableTree(t, level)
    ensures PrintableWalk(w, level)
    decreases w
  {
    if w.Folder? {
      EntriesArePrintable(w.entries, t.children, level + 1);
    }
  }

  lemma {:induction false} EntriesArePrintable(entries: seq<Entry>, children: map<Name, Tree>, level: nat)
    requires Visits(entries, children)
    requires forall name :: name in children ==>
               Printable(name, level, children[name].Dir?) && PrintableTree(children[name], level)
    ensures PrintableEntries(entries, level)
    decreases entries
  {
    if entries != [] {
      var name := entries[0].name;
      WalkIsPrintable(entries[0].walk, children[name], level);
      EntriesArePrintable(entries[1..], children - {name}, level);
    }
  }

  // Every traversal of t keeps the bare tree.
  lemma {:induction false} WalkIsBare(w: Walk, t: Tree)
    requires Walks(w, t) && Additive(t)
    ensures TreeOf(Bare(w)) == BareTree(t)
    decreases w
  {
    if w.Folder? {
      EntriesAreBare(w.entries, t.children);
    }
  }

  function BareChildren(children: map<Name, Tree>): map<Name, Tree> {
    map name | name in children :: BareTree(children[name])
  }

  lemma {:induction false} EntriesAreBare(entries: seq<Entry>, children: map<Name, Tree>)
    requires Visits(entries, children) && forall name :: name in children ==> Additive(children[name])
    ensures ChildrenOf(BareEntries(entries)) == BareChildren(children)
    ensures EntriesSize(BareEntries(entries)) == SumOf(children)
    decreases entries
  {
    if entries != [] {
      var name := entries[0].name;
      WalkIsBare(entries[0].walk, children[name]);
      SizeOfTree(Bare(entries[0].walk));
      EntriesAreBare(entries[1..], children - {name});
      SumWithout(children, name);
      assert BareEntries(entries)[1..] == BareEntries(entries[1..]);
      BareWith(children, name);
    }
  }

  lemma BareWith(children: map<Name, Tree>, name: Name)
    requires name in children
    ensures BareChildren(children - {name})[name := BareTree(children[name])] == BareChildren(children)
  {
  }

  // The converse: what a traversal of t shows to be printable is all of t.
  lemma {:induction false} TreeIsPrintable(w: Walk, t: Tree, level: nat)
    requires Walks(w, t) && PrintableWalk(w, level)
    ensures PrintableTree(t, level)
    decreases w
  {
    if w.Folder? {
      ChildrenArePrintable(w.entries, t.children, level + 1);
    }
  }

  lemma {:induction false} ChildrenArePrintable(entries: seq<Entry>, children: map<Name, Tree>, level: nat)
    requires Visits(entries, children) && PrintableEntries(entries, level)
    ensures forall name :: name in children ==>
              Printable(name, level, children[name].Dir?) && PrintableTree(children[name], level)
    decreases entries
  {
    if entries != [] {
      var first := entries[0].name;
      TreeIsPrintable(entries[0].walk, children[first], level);
      ChildrenArePrintable(entries[1..], children - {first}, level);
      forall name | name in children
        ensures Printable(name, level, children[name].Dir?) && PrintableTree(children[name], level)
      {
        assert name != first ==> name in children - {first} && children[name] == (children - {first})[name];
      }
    }
  }

  // In whatever order the hash maps are iterated, the codec can store the text.
  ghost predicate Storable(name: Name, t: Tree) {
    forall w :: Walks(w, t) ==> RoundTrips(PrintNode(name, w, 0))
  }

  lemma ShortTextsStorable(name: Name, t: Tree)
    requires forall w :: Walks(w, t) ==> |PrintNode(name, w, 0)| < CODEC_LIMIT
    ensures Storable(name, t)
  {
    forall w | Walks(w, t)
      ensures RoundTrips(PrintNode(name, w, 0))
    {
      ShortTextsRoundTrip(PrintNode(name, w, 0));
    }
  }

  // The part of write_filelist_file that makes the contents of the file.
  method WriteFilelist(root: FileNode, ghost t: Tree, ghost repr: set<FileNode>)
    returns (out: seq<byte>, ghost w: Walk, ghost codes: seq<Code>)
    requires Denotes(root, t, repr) && Storable(root.name, t)
    ensures Walks(w, t) && Compresses(out, PrintNode(root.name, w, 0), codes)
    ensures Minimal(Counts(PrintNode(root.name, w, 0)), codes)
  {
    var sb := new StrBuf();
    w := FilelistToString(root, sb, 0, t, repr);
    assert [] + PrintNode(root.name, w, 0) == PrintNode(root.name, w, 0);
    out, codes := Encode(sb.text);
  }

  // The part of filelist_open behind reading the file. Where the codec reads a bit behind the
  // contents, nothing is said about the outcome.
  method OpenFilelist(contents: seq<byte>) returns (root: FileNode?, ghost repr: set<FileNode>)
    ensures DecodeSpec(contents).Decoded? ==> root != null && Denotes(root, ParseSpec(DecodeSpec(contents).output), repr)
    ensures DecodeSpec(contents).Rejected? ==> root == null
  {
    var outcome, parityMatches := Decode(contents);
    if !outcome.Decoded? {
      return null, {};
    }
    var text := outcome.output;
    var buffer := new byte[|text| + 1](i => if 0 <= i < |text| then text[i] else 0);
    assert buffer[..|text|] == text;
    root, repr := ParseDecodedDclst(buffer, text);
  }

  // For every tree whose directory sizes are the sums of the files beneath, the file written for it
  // opens, and as the same tree of names, kinds and sizes if and only if these are printable.
  method WriteThenOpen(root: FileNode, ghost t: Tree, ghost repr: set<FileNode>)
    returns (result: FileNode?, ghost readBack: Tree, ghost newRepr: set<FileNode>)
    requires Denotes(root, t, repr) && t.Dir? && Additive(t) && Storable(root.name, t)
    ensures result != null && Denotes(result, readBack, newRepr)
    ensures readBack == BareTree(t) <==> PrintableTree(t, 0)
  {
    var out;
    ghost var w, codes;
    out, w, codes := WriteFilelist(root, t, repr);
    ghost var text := PrintNode(root.name, w, 0);
    assert RoundTrips(text);
    FileSize(out, text, codes);
    CodecRoundTrip(out, text, codes);
    FileRoundTrip(w, t, root.name);
    readBack := ParseSpec(text);
    result, newRepr := OpenFilelist(out);
  }

  lemma FileRoundTrip(w: Walk, t: Tree, name: Name)
    requires Walks(w, t) && t.Dir? && Additive(t)
    ensures ParseSpec(PrintNode(name, w, 0)) == BareTree(t) <==> PrintableTree(t, 0)
  {
    WalkIsDistinct(w, t);
    TextRoundTripExactly(w, name);
    WalkIsBare(w, t);
    if PrintableTree(t, 0) {
      WalkIsPrintable(w, t, 0);
    } else if PrintableWalk(w, 0) {
      TreeIsPrintable(w, t, 0);
    }
  }
}

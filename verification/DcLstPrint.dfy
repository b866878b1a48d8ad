/** filelist_to_string: printing a file list held in memory. */
module DcLstPrint {
  import opened Bytes
  import opened Decimal
  import opened FileTree
  import opened FileNodes
  import opened FileWalk
  import opened DcLst

  class StrBuf {
    var text: seq<byte>

    constructor ()
      ensures text == []
    {
      text := [];
    }

    method AppendCharN(times: nat, c: byte)
      modifies this
      ensures text == old(text) + Repeat(c, times)
    {
      text := text + Repeat(c, times);
    }

    method Append(s: seq<byte>)
      modifies this
      ensures text == old(text) + s
    {
      text := text + s;
    }
  }

  lemma {:induction false} PrintAppend(entries: seq<Entry>, e: Entry, level: nat)
    ensures PrintEntries(entries + [e], level) == PrintEntries(entries, level) + PrintNode(e.name, e.walk, level)
    decreases entries
  {
    if entries == [] {
      assert entries + [e] == [e] && [e][1..] == [];
    } else {
      assert (entries + [e])[1..] == entries[1..] + [e];
      PrintAppend(entries[1..], e, level);
    }
  }

  lemma PrintNext(start: seq<byte>, entries: seq<Entry>, e: Entry, level: nat)
    ensures start + PrintEntries(entries, level) + PrintNode(e.name, e.walk, level)
         == start + PrintEntries(entries + [e], level)
  {
    PrintAppend(entries, e, level);
  }

  // The iteration order of every hash map is arbitrary; w records the one that was met.
  method FilelistToString(node: FileNode, sb: StrBuf, level: nat, ghost t: Tree, ghost repr: set<FileNode>)
    returns (ghost w: Walk)
    requires Denotes(node, t, repr)
    modifies sb
    ensures Walks(w, t)
    ensures sb.text == old(sb.text) + PrintNode(node.name, w, level)
    decreases t, 1
  {
    if level != 0 {
      sb.AppendCharN(level - 1, TAB);
    }
    assert sb.text == old(sb.text) + Indent(level);
    if !node.isDir {
      sb.Append(node.name + [BAR] + Digits(node.size) + [CR, LF]);
      w := File(t.info);
    } else {
      if level != 0 {
        sb.Append(node.name + [CR, LF]);
      }
      ghost var entries := ChildrenToString(node, sb, level + 1, t, repr);
      w := Folder(t.realPath, entries);
    }
  }

  // The loop over the children.
  method ChildrenToString(node: FileNode, sb: StrBuf, level: nat, ghost t: Tree, ghost repr: set<FileNode>)
    returns (ghost entries: seq<Entry>)
    requires t.Dir? && Denotes(node, t, repr)
    modifies sb
    ensures Visits(entries, t.children)
    ensures sb.text == old(sb.text) + PrintEntries(entries, level)
    decreases t, 0
  {
    entries := [];
    var rest := node.children.Keys;
    VisitedNone(t.children);
    while rest != {}
      invariant Visited(entries, t.children, rest)
      invariant sb.text == old(sb.text) + PrintEntries(entries, level)
      decreases |rest|
    {
      var name :| name in rest;
      assert IsChild(node, name, repr);
      ghost var w := FilelistToString(node.children[name], sb, level, t.children[name], repr);
      VisitNext(entries, t.children, rest, Entry(name, w));
      PrintNext(old(sb.text), entries, Entry(name, w), level);
      rest := rest - {name};
      entries := entries + [Entry(name, w)];
    }
    VisitedAll(entries, t.children);
  }
}

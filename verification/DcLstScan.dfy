/** The scanning half of parse_decoded_dclst: reading one line of the buffer in place. */
module DcLstScan {
  import opened Bytes
  import opened Decimal
  import opened FileTree
  import opened DcLst

  // ---- Scanning one line of the buffer

  // From pos on, the buffer holds the text.
  ghost predicate Unread(buffer: seq<byte>, text: seq<byte>, pos: nat) {
    |buffer| == |text| + 1 && (pos <= |text| ==> buffer[pos..|text|] == text[pos..])
  }

  lemma {:induction false} LeadingAre(s: seq<byte>, b: byte, n: nat)
    requires n <= |s| && (forall i :: 0 <= i < n ==> s[i] == b) && (n < |s| ==> s[n] != b)
    ensures CountLeading(s, b) == n
  {
  }

  lemma {:induction false} FoundAt(s: seq<byte>, bars: bool, n: nat)
    requires n <= |s| && (n < |s| ==> s[n] == CR || (bars && s[n] == BAR))
    requires forall i :: 0 <= i < n ==> s[i] != CR && (bars ==> s[i] != BAR)
    ensures Find(s, bars) == n
  {
  }

  // Move over a run of one byte.
  method Skip(buffer: array<byte>, start: nat, b: byte, ghost text: seq<byte>) returns (c: nat)
    requires start <= |text| && Unread(buffer[..], text, start)
    ensures c == start + CountLeading(text[start..], b)
  {
    c := start;
    while c < buffer.Length - 1 && buffer[c] == b
      invariant start <= c <= |text|
      invariant forall i :: start <= i < c ==> text[i] == b
    {
      c := c + 1;
    }
    LeadingAre(text[start..], b, c - start);
  }

  // Move to the next CR, or to the next bar when bars count too.
  method Seek(buffer: array<byte>, start: nat, bars: bool, ghost text: seq<byte>) returns (c: nat)
    requires start <= |text| && Unread(buffer[..], text, start)
    ensures c == start + Find(text[start..], bars)
  {
    c := start;
    while c < buffer.Length - 1 && buffer[c] != CR && !(bars && buffer[c] == BAR)
      invariant start <= c <= |text|
      invariant forall i :: start <= i < c ==> text[i] != CR && (bars ==> text[i] != BAR)
    {
      c := c + 1;
    }
    FoundAt(text[start..], bars, c - start);
  }

  lemma UnreadLater(buffer: seq<byte>, text: seq<byte>, pos: nat, later: nat)
    requires Unread(buffer, text, pos) && pos <= later
    ensures Unread(buffer, text, later)
  {
    if later <= |text| {
      assert buffer[later..|text|] == buffer[pos..|text|][later - pos..];
    }
  }

  // A NUL stored at end makes the bytes from pos to end a C string.
  lemma Terminated(buffer: seq<byte>, text: seq<byte>, pos: nat, end: nat)
    requires pos <= end < |text| && Unread(buffer, text, pos)
    ensures CString(buffer[end := 0][pos..]) == CString(text[pos..][..end - pos])
    ensures Unread(buffer[end := 0], text, end + 1)
  {
    var after := buffer[end := 0];
    CStringStops(after[pos..], end - pos);
    assert after[pos..][..end - pos] == buffer[pos..|text|][..end - pos];
    assert after[end + 1..|text|] == buffer[pos..|text|][end + 1 - pos..];
  }

  // A second NUL behind it changes neither the string nor what follows.
  lemma TerminatedTwice(buffer: seq<byte>, text: seq<byte>, pos: nat, end: nat)
    requires pos <= end < |text| && Unread(buffer, text, pos)
    ensures CString(buffer[end := 0][end + 1 := 0][pos..]) == CString(text[pos..][..end - pos])
    ensures Unread(buffer[end := 0][end + 1 := 0], text, end + 2)
  {
    var one := buffer[end := 0];
    var two := one[end + 1 := 0];
    Terminated(buffer, text, pos, end);
    CStringStops(one[pos..], end - pos);
    CStringStops(two[pos..], end - pos);
    assert one[pos..][..end - pos] == two[pos..][..end - pos];
    UnreadLater(one, text, end + 1, end + 2);
    if end + 2 <= |text| {
      assert one[end + 2..|text|] == two[end + 2..|text|];
    }
  }

  method Terminate(buffer: array<byte>, pos: nat, end: nat, ghost text: seq<byte>) returns (s: seq<byte>)
    requires pos <= end < |text| && Unread(buffer[..], text, pos)
    modifies buffer
    ensures s == CString(text[pos..][..end - pos]) && Unread(buffer[..], text, end + 1)
  {
    Terminated(buffer[..], text, pos, end);
    ghost var before := buffer[..];
    buffer[end] := 0;
    assert buffer[..] == before[end := 0];
    s := CString(buffer[pos..]);
  }

  method TerminateLine(buffer: array<byte>, pos: nat, end: nat, ghost text: seq<byte>) returns (s: seq<byte>)
    requires pos <= end < |text| && Unread(buffer[..], text, pos)
    modifies buffer
    ensures s == CString(text[pos..][..end - pos]) && Unread(buffer[..], text, end + 2)
  {
    TerminatedTwice(buffer[..], text, pos, end);
    ghost var before := buffer[..];
    buffer[end] := 0;
    buffer[end + 1] := 0;
    assert buffer[..] == before[end := 0][end + 1 := 0];
    s := CString(buffer[pos..]);
  }

  lemma UnreadAt(buffer: seq<byte>, text: seq<byte>, pos: nat, i: nat)
    requires Unread(buffer, text, pos) && pos <= i < |text|
    ensures buffer[i] == text[i] == text[pos..][i - pos]
  {
    assert buffer[i] == buffer[pos..|text|][i - pos];
  }

  lemma Suffix(text: seq<byte>, pos: nat, later: nat, len: nat)
    requires later == pos + len <= |text|
    ensures text[pos..][len..] == text[later..]
  {
  }

  lemma ReadsFile(s: seq<byte>, stop: nat, rest: seq<byte>, tabs: nat, lfs: nat, name: Name)
    requires s != [] && s[0] != CR && stop == Find(s, true) < |s| && s[stop] == BAR
    requires name == CString(s[..stop]) && rest == s[stop + 1..]
    ensures ReadName(s, tabs, lfs) == ReadSize(rest, tabs, lfs, name, stop)
  {
  }

  lemma ReadsDir(s: seq<byte>, stop: nat, tabs: nat, lfs: nat, name: Name)
    requires s != [] && s[0] != CR && stop == Find(s, true) < |s| && s[stop] == CR
    requires name == CString(s[..stop])
    ensures ReadName(s, tabs, lfs) == DirLine(1 + tabs, name, lfs + tabs + stop + 2)
  {
  }

  // The name and what follows.
  method ScanName(buffer: array<byte>, start: nat, tabs: nat, lineStart: nat, ghost text: seq<byte>, ghost lfs: nat)
    returns (line: Line)
    requires lineStart + lfs + tabs == start <= |text| && Unread(buffer[..], text, start)
    modifies buffer
    ensures line == ReadName(text[start..], tabs, lfs)
    ensures !line.End? ==> Unread(buffer[..], text, lineStart + line.len)
  {
    if start >= buffer.Length - 1 {
      return End;
    }
    UnreadAt(buffer[..], text, start, start);
    if buffer[start] == CR {
      UnreadLater(buffer[..], text, start, start + 2);
      return Blank(start + 2 - lineStart);
    }
    var c := Seek(buffer, start, true, text);
    if c >= buffer.Length - 1 {
      return End;
    }
    UnreadAt(buffer[..], text, start, c);
    if buffer[c] == BAR {
      line := ScanFileLine(buffer, start, c, tabs, lineStart, text, lfs);
    } else {
      line := ScanDirLine(buffer, start, c, tabs, lineStart, text, lfs);
    }
  }

  // A name that ends in a bar.
  method ScanFileLine(buffer: array<byte>, start: nat, c: nat, tabs: nat, lineStart: nat, ghost text: seq<byte>, ghost lfs: nat)
    returns (line: Line)
    requires lineStart + lfs + tabs == start <= c < |text| && Unread(buffer[..], text, start)
    requires text[start] != CR && text[c] == BAR && c - start == Find(text[start..], true)
    modifies buffer
    ensures line == ReadName(text[start..], tabs, lfs)
    ensures !line.End? ==> Unread(buffer[..], text, lineStart + line.len)
  {
    ghost var stop := c - start;
    var name := Terminate(buffer, start, c, text);
    Suffix(text, start, c + 1, stop + 1);
    ReadsFile(text[start..], stop, text[c + 1..], tabs, lfs, name);
    line := ScanSize(buffer, c + 1, tabs, name, lineStart, text, lfs, stop);
  }

  // A name that ends the line.
  method ScanDirLine(buffer: array<byte>, start: nat, c: nat, tabs: nat, lineStart: nat, ghost text: seq<byte>, ghost lfs: nat)
    returns (line: Line)
    requires lineStart + lfs + tabs == start <= c < |text| && Unread(buffer[..], text, start)
    requires text[start] != CR && text[c] == CR && c - start == Find(text[start..], true)
    modifies buffer
    ensures line == ReadName(text[start..], tabs, lfs)
    ensures !line.End? ==> Unread(buffer[..], text, lineStart + line.len)
  {
    ghost var stop := c - start;
    var name := TerminateLine(buffer, start, c, text);
    ReadsDir(text[start..], stop, tabs, lfs, name);
    line := DirLine(1 + tabs, name, c + 2 - lineStart);
    assert lfs + tabs + stop + 2 == c + 2 - lineStart;
  }

  method ScanSize(buffer: array<byte>, start: nat, tabs: nat, name: Name, lineStart: nat, ghost text: seq<byte>,
                  ghost lfs: nat, ghost stop: nat)
    returns (line: Line)
    requires lineStart + lfs + tabs + stop + 1 == start <= |text| && Unread(buffer[..], text, start)
    modifies buffer
    ensures line == ReadSize(text[start..], tabs, lfs, name, stop)
    ensures !line.End? ==> Unread(buffer[..], text, lineStart + line.len)
  {
    var c := Seek(buffer, start, false, text);
    if c >= buffer.Length - 1 {
      return End;
    }
    var digits := TerminateLine(buffer, start, c, text);
    var ok, size := ParseUint64(digits);
    var len := c + 2 - lineStart;
    assert len == lfs + tabs + stop + 1 + (c - start) + 2;
    line := if ok then FileLine(1 + tabs, name, size, len) else BadSize(1 + tabs, len);
  }

  lemma ReadsLine(s: seq<byte>, afterLfs: seq<byte>, afterTabs: seq<byte>, lfs: nat, tabs: nat)
    requires lfs == CountLeading(s, LF) && afterLfs == s[lfs..]
    requires tabs == CountLeading(afterLfs, TAB) && afterTabs == afterLfs[tabs..]
    ensures ReadLine(s) == ReadName(afterTabs, tabs, lfs)
  {
    BehindTabs(afterLfs, tabs, afterTabs);
  }

  method ScanLine(buffer: array<byte>, start: nat, ghost text: seq<byte>) returns (line: Line)
    requires start <= |text| && Unread(buffer[..], text, start)
    modifies buffer
    ensures line == ReadLine(text[start..])
    ensures !line.End? ==> Unread(buffer[..], text, start + line.len)
  {
    var afterLfs := Skip(buffer, start, LF, text);
    UnreadLater(buffer[..], text, start, afterLfs);
    var c := Skip(buffer, afterLfs, TAB, text);
    UnreadLater(buffer[..], text, afterLfs, c);
    var tabs := c - afterLfs;
    ghost var lfs := afterLfs - start;
    Suffix(text, start, afterLfs, lfs);
    Suffix(text, afterLfs, c, tabs);
    ReadsLine(text[start..], text[afterLfs..], text[c..], lfs, tabs);
    line := ScanName(buffer, c, tabs, start, text, lfs);
  }
}

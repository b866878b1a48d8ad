/** When huffman_decode reads a bit behind the data: exactly when the data ends inside a code word. */
module HuffmanCutOff {
  import opened Bytes
  import opened PrefixCodes
  import opened HuffmanDecode

  // ---- What it means that bits end inside a code word

  function Flatten(ws: seq<Code>): seq<bool> {
    if ws == [] then [] else ws[0] + Flatten(ws[1..])
  }

  ghost predicate IsWord(trie: Trie, w: Code) {
    Walked(trie, w) && w in trie.chars
  }

  ghost predicate IsPart(trie: Trie, w: Code) {
    Walked(trie, w) && w !in trie.chars
  }

  // Fewer than count whole code words, and then a code word that has only begun.
  ghost predicate Splits(trie: Trie, bits: seq<bool>, count: nat, ws: seq<Code>, tail: Code) {
    |ws| < count && (forall w :: w in ws ==> IsWord(trie, w)) && IsPart(trie, tail) && bits == Flatten(ws) + tail
  }

  // The bits end inside a code word before count symbols are found.
  ghost predicate EndsInWord(trie: Trie, bits: seq<bool>, count: nat) {
    exists ws, tail :: Splits(trie, bits, count, ws, tail)
  }

  // The same found step by step; path is what was read of the current code word.
  ghost predicate CutOff(trie: Trie, bits: seq<bool>, path: Code, count: nat)
    decreases count, |bits|
  {
    count > 0 &&
    if path in trie.chars then CutOff(trie, bits, [], count - 1)
    else bits == [] || (path + [bits[0]] in trie.paths && CutOff(trie, bits[1..], path + [bits[0]], count))
  }

  lemma WalkedLonger(trie: Trie, path: Code, b: bool)
    requires Walked(trie, path) && path !in trie.chars && path + [b] in trie.paths
    ensures Walked(trie, path + [b])
  {
    var longer := path + [b];
    forall i | 0 <= i <= |longer|
      ensures longer[..i] in trie.paths && (i < |longer| ==> longer[..i] !in trie.chars)
    {
      if i <= |path| {
        assert longer[..i] == path[..i];
      }
      assert path[..|path|] == path && longer[..|longer|] == longer;
    }
  }

  lemma WalkedNothing(trie: Trie)
    requires [] in trie.paths
    ensures Walked(trie, [])
  {
  }

  lemma {:induction false} CutOffSplits(trie: Trie, bits: seq<bool>, path: Code, count: nat) returns (ws: seq<Code>, tail: Code)
    requires [] in trie.paths && Walked(trie, path) && CutOff(trie, bits, path, count)
    ensures Splits(trie, path + bits, count, ws, tail)
    decreases count, |bits|
  {
    if path in trie.chars {
      var more;
      more, tail := CutOffSplits(trie, bits, [], count - 1);
      ws := [path] + more;
      assert [] + bits == bits && ws[1..] == more && IsWord(trie, path);
      assert path + (Flatten(more) + tail) == path + Flatten(more) + tail;
    } else if bits == [] {
      ws, tail := [], path;
      assert path + bits == path && [] + path == path;
    } else {
      WalkedLonger(trie, path, bits[0]);
      ws, tail := CutOffSplits(trie, bits[1..], path + [bits[0]], count);
      assert path + [bits[0]] + bits[1..] == path + bits;
    }
  }

  // Two walks along the same bits: one that has ended in a value cannot be the longer one.
  lemma WordsAreNoPrefixes(trie: Trie, w: Code, v: Code)
    requires IsWord(trie, w) && Walked(trie, v) && |w| < |v|
    ensures v[..|w|] != w
  {
  }

  lemma FirstPart(w: Code, rest: seq<bool>, path: Code, bits: seq<bool>)
    requires w + rest == path + bits
    ensures |w| <= |path| ==> path[..|w|] == w
    ensures |w| >= |path| ==> w[..|path|] == path
    ensures |w| == |path| ==> w == path && rest == bits
    ensures |w| > |path| ==> bits != [] && w[..|path| + 1] == path + [bits[0]]
  {
    var all := w + rest;
    assert |w| <= |path| ==> path[..|w|] == all[..|w|] == w;
    assert |w| >= |path| ==> w[..|path|] == all[..|path|] == path;
    assert |w| == |path| ==> rest == all[|w|..] == bits && w == w[..|w|];
  }

  // The first of the words, or the part that is left, and what follows it.
  lemma FirstOf(bits: seq<bool>, ws: seq<Code>, tail: Code) returns (first: Code, rest: seq<bool>)
    requires bits == Flatten(ws) + tail
    ensures first + rest == bits
    ensures if ws == [] then first == tail && rest == [] else first == ws[0] && ws[0] in ws && rest == Flatten(ws[1..]) + tail
  {
    first, rest := if ws == [] then tail else ws[0], if ws == [] then [] else Flatten(ws[1..]) + tail;
  }

  // A path that ends in a value is the first word.
  lemma ValueEndsWord(trie: Trie, bits: seq<bool>, path: Code, count: nat, ws: seq<Code>, tail: Code)
    requires Walked(trie, path) && path in trie.chars && Splits(trie, path + bits, count, ws, tail)
    ensures ws != [] && bits == Flatten(ws[1..]) + tail
  {
    var first, rest := FirstOf(path + bits, ws, tail);
    FirstPart(first, rest, path, bits);
    if |path| < |first| {
      WordsAreNoPrefixes(trie, path, first);
    }
    if |first| < |path| && ws != [] {
      WordsAreNoPrefixes(trie, first, path);
    }
  }

  // A path without a value goes on with the next bit.
  lemma PathGoesOn(trie: Trie, bits: seq<bool>, path: Code, count: nat, ws: seq<Code>, tail: Code)
    requires Walked(trie, path) && path !in trie.chars && bits != [] && Splits(trie, path + bits, count, ws, tail)
    ensures path + [bits[0]] in trie.paths
  {
    var first, rest := FirstOf(path + bits, ws, tail);
    FirstPart(first, rest, path, bits);
    if |first| < |path| && ws != [] {
      WordsAreNoPrefixes(trie, first, path);
    }
    assert first[..|path| + 1] == path + [bits[0]];
  }

  lemma {:induction false} SplitsCutOff(trie: Trie, bits: seq<bool>, path: Code, count: nat, ws: seq<Code>, tail: Code)
    requires Walked(trie, []) && Walked(trie, path) && Splits(trie, path + bits, count, ws, tail)
    ensures CutOff(trie, bits, path, count)
    decreases count, |bits|
  {
    if path in trie.chars {
      ValueEndsWord(trie, bits, path, count, ws, tail);
      assert [] + bits == bits;
      SplitsCutOff(trie, bits, [], count - 1, ws[1..], tail);
    } else if bits != [] {
      PathGoesOn(trie, bits, path, count, ws, tail);
      WalkedLonger(trie, path, bits[0]);
      assert path + [bits[0]] + bits[1..] == path + bits;
      SplitsCutOff(trie, bits[1..], path + [bits[0]], count, ws, tail);
    }
  }

  lemma CutOffExactly(trie: Trie, bits: seq<bool>, count: nat)
    requires [] in trie.paths
    ensures CutOff(trie, bits, [], count) <==> EndsInWord(trie, bits, count)
  {
    WalkedNothing(trie);
    assert [] + bits == bits;
    if CutOff(trie, bits, [], count) {
      var ws, tail := CutOffSplits(trie, bits, [], count);
    } else if EndsInWord(trie, bits, count) {
      var ws, tail :| Splits(trie, bits, count, ws, tail);
      SplitsCutOff(trie, bits, [], count, ws, tail);
    }
  }

  // ---- The decoder

  // The bits of the data from a position on.
  function From(data: seq<byte>, pos: nat): seq<bool>
    requires pos <= 8 * |data|
  {
    Bits(data)[pos..]
  }

  lemma FromNext(data: seq<byte>, pos: nat, next: nat)
    requires pos < 8 * |data| && next == pos + 1
    ensures From(data, pos) != [] && From(data, pos)[0] == BitAt(data, pos) && From(data, pos)[1..] == From(data, next)
  {
  }

  lemma ReadsNext(data: seq<byte>, pos: nat)
    requires pos <= 8 * |data| < TWO_32
    ensures ReadBit(data, pos) == if pos == 8 * |data| then NoBit(PastEnd) else Bit(BitAt(data, pos), pos + 1)
  {
    assert ByteBoundary(pos) <= 8 * |data|;
  }

  // What is left to do after a walk.
  ghost predicate CutAfter(trie: Trie, data: seq<byte>, step: Step, count: nat) {
    match step
    case Stuck(reason) => reason == PastEnd
    case Found(_, next) => next <= 8 * |data| && count > 0 && CutOff(trie, From(data, next), [], count - 1)
  }

  lemma {:induction false} WalkStays(data: seq<byte>, trie: Trie, pos: nat, path: Code)
    requires Usable(trie) && path in trie.paths && pos <= 8 * |data| < TWO_32
    ensures var step := WalkFrom(data, trie, pos, path); step.Found? ==> step.pos <= 8 * |data|
    decreases 256 - |path|
  {
    ReadsNext(data, pos);
    if path !in trie.chars && pos < 8 * |data| && path + [BitAt(data, pos)] in trie.paths {
      WalkStays(data, trie, pos + 1, path + [BitAt(data, pos)]);
    }
  }

  lemma {:induction false} WalkCut(data: seq<byte>, trie: Trie, pos: nat, path: Code, count: nat)
    requires Usable(trie) && path in trie.paths && pos <= 8 * |data| < TWO_32 && count > 0
    ensures CutOff(trie, From(data, pos), path, count) <==> CutAfter(trie, data, WalkFrom(data, trie, pos, path), count)
    decreases 256 - |path|
  {
    ReadsNext(data, pos);
    if path !in trie.chars && pos < 8 * |data| {
      var next, longer := pos + 1, path + [BitAt(data, pos)];
      FromNext(data, pos, next);
      if longer in trie.paths {
        WalkCut(data, trie, next, longer, count);
      }
    }
  }

  lemma {:induction false} TextCut(data: seq<byte>, trie: Trie, pos: nat, count: nat, sofar: seq<byte>)
    requires Usable(trie) && pos <= 8 * |data| < TWO_32
    ensures DecodeText(data, trie, pos, count, sofar) == PastEnd <==> CutOff(trie, From(data, pos), [], count)
    decreases count
  {
    if count > 0 {
      var step := WalkFrom(data, trie, pos, []);
      WalkStays(data, trie, pos, []);
      WalkCut(data, trie, pos, [], count);
      if step.Found? {
        TextCut(data, trie, step.pos, count - 1, sofar + [step.chr]);
      }
    }
  }

  lemma TextInside(data: seq<byte>)
    requires ReadPreamble(data).Good?
    ensures ReadPreamble(data).textPos <= 8 * |data|
  {
    var tableEnd := 11 + FromLittleEndian(data[9..11]) * 2;
    var keyLength := TotalLength(Leaves(data[11..tableEnd]));
    assert NextSection(8 * tableEnd, keyLength) == 8 * tableEnd + ByteBoundary(keyLength);
  }

  // A file whose preamble is accepted is read behind its end if and only if its bits end inside
  // a code word before all symbols are found.
  lemma PastEndExactly(data: seq<byte>)
    requires 8 * |data| < TWO_32
    ensures ReadPreamble(data).Good? ==> ReadPreamble(data).textPos <= 8 * |data|
    ensures DecodeSpec(data) == PastEnd
       <==> var p := ReadPreamble(data); p.Good? && EndsInWord(TrieOf(data, p), From(data, p.textPos), p.size)
  {
    var p := ReadPreamble(data);
    if p.Good? {
      TextInside(data);
      TextCut(data, TrieOf(data, p), p.textPos, p.size, []);
      CutOffExactly(TrieOf(data, p), From(data, p.textPos), p.size);
    }
  }

  // One symbol with a code word of one bit, and no text behind the tables.
  const CUT_FILE: seq<byte> := [0x48, 0x45, 0x33, 0x0D, 0, 1, 0, 0, 0, 1, 0, 65, 1, 0]

  lemma CutPreamble(leaves: seq<LeafNode>)
    requires leaves == [LeafNode(65, 1)]
    ensures ReadPreamble(CUT_FILE) == Good(1, 104, 112, leaves)
  {
    var data := CUT_FILE;
    assert data[5..9] == [1, 0, 0, 0] && data[9..11] == [1, 0];
    assert FromLittleEndian([1, 0, 0, 0]) == 1 by {
      assert FromLittleEndian([1, 0, 0, 0][1..]) == 0 by {
        assert [1, 0, 0, 0][1..] == [0, 0, 0] && [0, 0, 0][1..] == [0, 0] && [0, 0][1..] == [0] && [0][1..] == [];
      }
    }
    assert FromLittleEndian([1, 0]) == 1 by {
      assert [1, 0][1..] == [0] && [0][1..] == [];
    }
    assert data[11..13] == [65, 1] && Leaves([65, 1]) == leaves by {
      assert [65, 1][2..] == [];
    }
    assert leaves[1..] == [];
    assert TotalLength(leaves) == 1;
  }

  lemma PastEndHappens()
    ensures DecodeSpec(CUT_FILE) == PastEnd
  {
    var leaves := [LeafNode(65, 1)];
    var p := ReadPreamble(CUT_FILE);
    CutPreamble(leaves);
    PastEndExactly(CUT_FILE);
    var bits := Bits(CUT_FILE);
    assert leaves[1..] == [];
    var code := bits[104..105];
    assert TrieOf(CUT_FILE, p) == AddLeaf(EMPTY_TRIE, code, 65);
    assert From(CUT_FILE, 112) == [];
    assert code != [];
    CutOffExactly(TrieOf(CUT_FILE, p), [], 1);
  }
}

/** What huffman_decode makes of any data, by the leaf table and the bits. */
module HuffmanExact {
  import opened Bytes
  import opened InNumbers
  import opened PrefixCodes
  import opened HuffmanDecode
  import opened HuffmanRoundTrip
  import opened HuffmanCutOff

  // ---- The header and the leaf table

  // Where the code word of a leaf starts, counted from the first one.
  function Start(leaves: seq<LeafNode>, i: nat): nat
    requires i <= |leaves|
  {
    TotalLength(leaves[..i])
  }

  lemma StartNext(leaves: seq<LeafNode>, i: nat)
    requires i < |leaves|
    ensures Start(leaves, 0) == 0 && Start(leaves, i + 1) == Start(leaves, i) + leaves[i].len
  {
    assert leaves[..i + 1] == leaves[..i] + [leaves[i]];
    TotalLengthAppend(leaves[..i], leaves[i]);
  }

  lemma {:induction false} StartGrows(leaves: seq<LeafNode>, i: nat)
    requires i <= |leaves|
    ensures Start(leaves, i) <= TotalLength(leaves) == Start(leaves, |leaves|)
    decreases |leaves| - i
  {
    assert leaves[..|leaves|] == leaves;
    if i < |leaves| {
      StartNext(leaves, i);
      StartGrows(leaves, i + 1);
    }
  }

  lemma {:induction false} LeafAtIndex(table: seq<byte>, i: nat)
    requires 2 * i + 1 < |table|
    ensures i < |Leaves(table)| && Leaves(table)[i] == LeafNode(table[2 * i], table[2 * i + 1])
  {
    if i > 0 {
      LeafAtIndex(table[2..], i - 1);
    }
  }

  lemma TableInData(data: seq<byte>, n: nat, leaves: seq<LeafNode>)
    requires 11 + 2 * n <= |data| && leaves == Leaves(data[11..11 + 2 * n])
    ensures |leaves| == n && forall i :: 0 <= i < n ==> leaves[i] == LeafNode(data[11 + 2 * i], data[12 + 2 * i])
  {
    forall i | 0 <= i < n
      ensures leaves[i] == LeafNode(data[11 + 2 * i], data[12 + 2 * i])
    {
      LeafAtIndex(data[11..11 + 2 * n], i);
    }
  }

  lemma WordsInData(data: seq<byte>)
    requires |data| >= 11
    ensures FromLittleEndian(data[5..9]) == data[5] as int + 256 * data[6] as int + 65536 * data[7] as int + 16777216 * data[8] as int
    ensures FromLittleEndian(data[9..11]) == data[9] as int + 256 * data[10] as int
  {
    WordInNumbers(data[5..9]);
    WordInNumbers(data[9..11]);
  }

  // The places of the code words in the first bit section.
  ghost predicate Places(data: seq<byte>, starts: seq<nat>, n: nat) {
    && 11 + 2 * n <= |data| && |starts| == n + 1 && starts[0] == 0
    && forall i :: 0 <= i < n ==> starts[i + 1] == starts[i] + data[12 + 2 * i]
  }

  lemma PlacesOf(data: seq<byte>, n: nat, leaves: seq<LeafNode>) returns (starts: seq<nat>)
    requires 11 + 2 * n <= |data| && leaves == Leaves(data[11..11 + 2 * n])
    ensures |leaves| == n && |starts| == n + 1 && starts[n] == TotalLength(leaves)
    ensures Places(data, starts, n) && forall i :: 0 <= i <= n ==> starts[i] == Start(leaves, i)
  {
    TableInData(data, n, leaves);
    starts := seq(n + 1, i requires 0 <= i <= n => Start(leaves, i));
    forall i | 0 <= i < n
      ensures starts[i + 1] == starts[i] + data[12 + 2 * i]
    {
      StartNext(leaves, i);
    }
    StartGrows(leaves, n);
  }

  // The checks of the header, in numbers: starts are the places of the code words.
  lemma PreambleExactly(data: seq<byte>, starts: seq<nat>, n: nat)
    requires |data| >= 11 && n == data[9] as int + 256 * data[10] as int && (11 + 2 * n <= |data| ==> Places(data, starts, n))
    ensures var p := ReadPreamble(data);
            && (p.Good? <==> data[0] == 72 && data[1] == 69 && (data[2] == 51 || data[2] == 48)
                             && 11 + 2 * n <= |data| && 11 + 2 * n + (starts[n] + 7) / 8 <= |data|)
            && (p.Good? ==>
                  && p.size == data[5] as int + 256 * data[6] as int + 65536 * data[7] as int + 16777216 * data[8] as int
                  && p.keyPos == 8 * (11 + 2 * n) && p.textPos == p.keyPos + (starts[n] + 7) / 8 * 8
                  && |p.leaves| == n && forall i :: 0 <= i < n ==> p.leaves[i] == LeafNode(data[11 + 2 * i], data[12 + 2 * i]))
  {
    WordsInData(data);
    if 11 + 2 * n <= |data| {
      var leaves := Leaves(data[11..11 + 2 * n]);
      TableInData(data, n, leaves);
      var places := PlacesOf(data, n, leaves);
      SamePlaces(data, starts, places, n);
    }
  }

  lemma {:induction false} SamePlaces(data: seq<byte>, a: seq<nat>, b: seq<nat>, n: nat)
    requires Places(data, a, n) && Places(data, b, n)
    ensures a == b
  {
    if n > 0 {
      SamePlaces(data, a[..n], b[..n], n - 1);
      assert a[n] == a[n - 1 + 1] && b[n] == b[n - 1 + 1] && a[n - 1] == a[..n][n - 1] && b[n - 1] == b[..n][n - 1];
      assert a == a[..n] + [a[n]] && b == b[..n] + [b[n]];
    }
  }

  lemma ShortIsRejected(data: seq<byte>)
    requires |data| < 11
    ensures DecodeSpec(data) == Rejected
  {
  }

  // ---- The code words of the leaves

  function KeyAt(bits: seq<bool>, pos: nat, leaves: seq<LeafNode>, i: nat): Code
    requires i < |leaves| && pos + TotalLength(leaves) <= |bits|
  {
    StartNext(leaves, i);
    StartGrows(leaves, i + 1);
    bits[pos + Start(leaves, i)..pos + Start(leaves, i + 1)]
  }

  lemma StartOfRest(leaves: seq<LeafNode>, i: nat)
    requires i < |leaves|
    ensures Start(leaves, i + 1) == leaves[0].len + Start(leaves[1..], i)
  {
    assert leaves[..i + 1][1..] == leaves[1..][..i];
  }

  lemma KeyOfRest(bits: seq<bool>, pos: nat, leaves: seq<LeafNode>, i: nat, next: nat)
    requires i + 1 < |leaves| && pos + TotalLength(leaves) <= |bits| && next == pos + leaves[0].len
    ensures KeyAt(bits, next, leaves[1..], i) == KeyAt(bits, pos, leaves, i + 1)
  {
    StartOfRest(leaves, i);
    StartOfRest(leaves, i + 1);
    StartGrows(leaves[1..], i + 1);
    StartGrows(leaves, i + 2);
    StartNext(leaves[1..], i);
    StartNext(leaves, i + 1);
  }

  lemma FirstKey(bits: seq<bool>, pos: nat, leaves: seq<LeafNode>)
    requires leaves != [] && pos + TotalLength(leaves) <= |bits|
    ensures KeyAt(bits, pos, leaves, 0) == bits[pos..pos + leaves[0].len]
  {
    StartNext(leaves, 0);
  }

  ghost predicate HasKey(bits: seq<bool>, pos: nat, leaves: seq<LeafNode>, p: Code)
    requires pos + TotalLength(leaves) <= |bits|
  {
    exists i :: 0 <= i < |leaves| && KeyAt(bits, pos, leaves, i) == p
  }

  // i is the last leaf with its code word.
  ghost predicate LastWith(bits: seq<bool>, pos: nat, leaves: seq<LeafNode>, i: nat)
    requires pos + TotalLength(leaves) <= |bits|
  {
    i < |leaves| && forall j :: i < j < |leaves| ==> KeyAt(bits, pos, leaves, j) != KeyAt(bits, pos, leaves, i)
  }

  lemma {:induction false} CharsWithout(bits: seq<bool>, pos: nat, leaves: seq<LeafNode>, trie: Trie, p: Code)
    requires pos + TotalLength(leaves) <= |bits| && !HasKey(bits, pos, leaves, p)
    ensures var r := ReadTrie(bits, pos, leaves, trie);
            (p in r.chars <==> p in trie.chars) && (p in trie.chars ==> r.chars[p] == trie.chars[p])
    decreases leaves
  {
    if leaves != [] {
      var code, next, rest := bits[pos..pos + leaves[0].len], pos + leaves[0].len, leaves[1..];
      FirstKey(bits, pos, leaves);
      if HasKey(bits, next, rest, p) {
        var i :| 0 <= i < |rest| && KeyAt(bits, next, rest, i) == p;
        KeyOfRest(bits, pos, leaves, i, next);
        assert false;
      }
      CharsWithout(bits, next, rest, AddLeaf(trie, code, leaves[0].chr), p);
    }
  }

  lemma {:induction false} CharsLast(bits: seq<bool>, pos: nat, leaves: seq<LeafNode>, trie: Trie, i: nat)
    requires pos + TotalLength(leaves) <= |bits| && LastWith(bits, pos, leaves, i)
    ensures var r, p := ReadTrie(bits, pos, leaves, trie), KeyAt(bits, pos, leaves, i); p in r.chars && r.chars[p] == leaves[i].chr
    decreases leaves
  {
    var code, next, rest := bits[pos..pos + leaves[0].len], pos + leaves[0].len, leaves[1..];
    LastInRest(bits, pos, leaves, i, next);
    if i == 0 {
      FirstKey(bits, pos, leaves);
      CharsWithout(bits, next, rest, AddLeaf(trie, code, leaves[0].chr), code);
    } else {
      CharsLast(bits, next, rest, AddLeaf(trie, code, leaves[0].chr), i - 1);
    }
  }

  // A path with a value is the code word of a leaf.
  lemma CharsAreKeysOf(bits: seq<bool>, p: Preamble, w: Code)
    requires p.Good? && p.keyPos + TotalLength(p.leaves) <= |bits|
    requires w in ReadTrie(bits, p.keyPos, p.leaves, EMPTY_TRIE).chars
    ensures HasKey(bits, p.keyPos, p.leaves, w)
  {
    if !HasKey(bits, p.keyPos, p.leaves, w) {
      CharsWithout(bits, p.keyPos, p.leaves, EMPTY_TRIE, w);
    }
  }

  lemma LastInRest(bits: seq<bool>, pos: nat, leaves: seq<LeafNode>, i: nat, next: nat)
    requires leaves != [] && pos + TotalLength(leaves) <= |bits| && LastWith(bits, pos, leaves, i) && next == pos + leaves[0].len
    ensures i > 0 ==> LastWith(bits, next, leaves[1..], i - 1)
                      && KeyAt(bits, next, leaves[1..], i - 1) == KeyAt(bits, pos, leaves, i)
    ensures i == 0 ==> !HasKey(bits, next, leaves[1..], KeyAt(bits, pos, leaves, 0))
  {
    forall j | 0 <= j < |leaves| - 1
      ensures KeyAt(bits, next, leaves[1..], j) == KeyAt(bits, pos, leaves, j + 1)
    {
      KeyOfRest(bits, pos, leaves, j, next);
    }
  }

  lemma {:induction false} PathsOf(bits: seq<bool>, pos: nat, leaves: seq<LeafNode>, trie: Trie, q: Code)
    requires pos + TotalLength(leaves) <= |bits|
    ensures q in ReadTrie(bits, pos, leaves, trie).paths
       <==> q in trie.paths || exists i :: 0 <= i < |leaves| && q <= KeyAt(bits, pos, leaves, i)
    decreases leaves
  {
    if leaves != [] {
      var code, next, rest := bits[pos..pos + leaves[0].len], pos + leaves[0].len, leaves[1..];
      FirstKey(bits, pos, leaves);
      PathsOf(bits, next, rest, AddLeaf(trie, code, leaves[0].chr), q);
      PrefixIsPath(code, q);
      if i :| 0 <= i < |rest| && q <= KeyAt(bits, next, rest, i) {
        KeyOfRest(bits, pos, leaves, i, next);
      }
      if i :| 0 < i < |leaves| && q <= KeyAt(bits, pos, leaves, i) {
        KeyOfRest(bits, pos, leaves, i - 1, next);
      }
    }
  }

  lemma PrefixIsPath(code: Code, q: Code)
    ensures q in Prefixes(code) <==> q <= code
  {
    if q <= code {
      assert q == code[..|q|];
    }
  }

  // ---- The code words of the text

  lemma WalkedPrefix(trie: Trie, w: Code, k: nat)
    requires Walked(trie, w) && k <= |w|
    ensures Walked(trie, w[..k])
  {
    forall i | 0 <= i <= k
      ensures w[..k][..i] == w[..i]
    {
    }
  }

  // A walk that finds a symbol has read the rest of a code word.
  lemma {:induction false} WalkGives(data: seq<byte>, trie: Trie, pos: nat, path: Code, chr: byte, next: nat) returns (w: Code)
    requires Usable(trie) && Walked(trie, path) && path in trie.paths && pos <= 8 * |data| < TWO_32
    requires WalkFrom(data, trie, pos, path) == Found(chr, next)
    ensures Walked(trie, w) && w in trie.chars && trie.chars[w] == chr && path <= w
    ensures next == pos + |w| - |path| <= 8 * |data| && Bits(data)[pos..next] == w[|path|..]
    decreases 256 - |path|
  {
    if path in trie.chars {
      w := path;
    } else {
      ReadsNext(data, pos);
      var bit := BitAt(data, pos);
      WalkedLonger(trie, path, bit);
      w := WalkGives(data, trie, pos + 1, path + [bit], chr, next);
      assert w[|path|..] == [bit] + w[|path| + 1..];
      assert Bits(data)[pos..next] == [bit] + Bits(data)[pos + 1..next];
    }
  }

  // These are code words of the trie, and these the symbols they stand for.
  ghost predicate Means(trie: Trie, ws: seq<Code>, s: seq<byte>) {
    |ws| == |s| && forall i :: 0 <= i < |ws| ==> Walked(trie, ws[i]) && ws[i] in trie.chars && trie.chars[ws[i]] == s[i]
  }

  lemma TextNext(data: seq<byte>, trie: Trie, pos: nat, count: nat, sofar: seq<byte>, out: seq<byte>) returns (chr: byte, next: nat)
    requires Usable(trie) && count > 0 && DecodeText(data, trie, pos, count, sofar) == Decoded(out)
    ensures WalkFrom(data, trie, pos, []) == Found(chr, next)
    ensures DecodeText(data, trie, next, count - 1, sofar + [chr]) == Decoded(out)
  {
    match WalkFrom(data, trie, pos, [])
    case Found(c, n) => chr, next := c, n;
    case Stuck(reason) =>
      WalkStops(data, trie, pos, []);
      assert false;
  }

  lemma {:induction false} WalkStops(data: seq<byte>, trie: Trie, pos: nat, path: Code)
    requires Usable(trie) && path in trie.paths
    ensures var step := WalkFrom(data, trie, pos, path); step.Stuck? ==> !step.reason.Decoded?
    decreases 256 - |path|
  {
    if path !in trie.chars {
      var read := ReadBit(data, pos);
      if read.Bit? && path + [read.value] in trie.paths {
        WalkStops(data, trie, read.next, path + [read.value]);
      }
    }
  }

  lemma FirstWord(trie: Trie, w: Code, b: byte, ws: seq<Code>, s: seq<byte>)
    requires Means(trie, ws, s) && Walked(trie, w) && w in trie.chars && trie.chars[w] == b
    ensures Means(trie, [w] + ws, [b] + s) && Flatten([w] + ws) == w + Flatten(ws)
  {
    assert ([w] + ws)[1..] == ws;
  }

  lemma {:induction false} TextGives(data: seq<byte>, trie: Trie, pos: nat, count: nat, sofar: seq<byte>, out: seq<byte>)
    returns (ws: seq<Code>, s: seq<byte>)
    requires Usable(trie) && pos <= 8 * |data| < TWO_32 && DecodeText(data, trie, pos, count, sofar) == Decoded(out)
    ensures Means(trie, ws, s) && |s| == count && out == sofar + s
    ensures BitsAt(data, pos, Flatten(ws))
    decreases count
  {
    if count == 0 {
      ws, s := [], [];
      assert sofar + [] == sofar;
    } else {
      var chr, next := TextNext(data, trie, pos, count, sofar, out);
      WalkedNothing(trie);
      var w := WalkGives(data, trie, pos, [], chr, next);
      var more, rest := TextGives(data, trie, next, count - 1, sofar + [chr], out);
      ws, s := [w] + more, [chr] + rest;
      assert sofar + s == sofar + [chr] + rest;
      FirstWord(trie, w, chr, more, rest);
      JoinSlices(Bits(data), pos, w, Flatten(more));
    }
  }

  lemma JoinSlices(bits: seq<bool>, pos: nat, a: seq<bool>, b: seq<bool>)
    requires pos + |a| + |b| <= |bits| && bits[pos..pos + |a|] == a && bits[pos + |a|..pos + |a| + |b|] == b
    ensures bits[pos..pos + |a + b|] == a + b
  {
    assert bits[pos..pos + |a + b|] == bits[pos..pos + |a|] + bits[pos + |a|..pos + |a| + |b|];
  }

  lemma WordFound(data: seq<byte>, trie: Trie, pos: nat, w: Code, b: byte)
    requires Usable(trie) && 8 * |data| < TWO_32 && Walked(trie, w) && w in trie.chars && trie.chars[w] == b && BitsAt(data, pos, w)
    ensures WalkFrom(data, trie, pos, []) == Found(b, pos + |w|)
  {
    assert w[..0] == [];
    WalkFindsSymbol(data, trie, w, b, pos, 0, pos);
  }

  lemma RestMeans(trie: Trie, ws: seq<Code>, s: seq<byte>)
    requires Means(trie, ws, s) && ws != []
    ensures Means(trie, ws[1..], s[1..])
  {
  }

  lemma {:induction false} TextFound(data: seq<byte>, trie: Trie, pos: nat, s: seq<byte>, ws: seq<Code>, sofar: seq<byte>)
    requires Usable(trie) && 8 * |data| < TWO_32 && Means(trie, ws, s) && BitsAt(data, pos, Flatten(ws))
    ensures DecodeText(data, trie, pos, |s|, sofar) == Decoded(sofar + s)
    decreases |s|
  {
    if s == [] {
      assert sofar + s == sofar;
    } else {
      var w, rest, next := ws[0], ws[1..], pos + |ws[0]|;
      SliceOfTwo(Bits(data), pos, w, Flatten(rest));
      WordFound(data, trie, pos, w, s[0]);
      RestMeans(trie, ws, s);
      TextFound(data, trie, next, s[1..], rest, sofar + [s[0]]);
      assert sofar + [s[0]] + s[1..] == sofar + s;
    }
  }

  // The nodes of a rebuilt trie are the prefixes of its code words.
  lemma WordsAreWalked(data: seq<byte>, p: Preamble, w: Code)
    requires Sound(p, data) && w in TrieOf(data, p).chars
    ensures Walked(TrieOf(data, p), w) <==> forall k :: 0 <= k < |w| ==> w[..k] !in TrieOf(data, p).chars
  {
    var bits, trie := Bits(data), TrieOf(data, p);
    CharsAreKeysOf(bits, p, w);
    var i :| 0 <= i < |p.leaves| && KeyAt(bits, p.keyPos, p.leaves, i) == w;
    forall k | 0 <= k <= |w|
      ensures w[..k] in trie.paths
    {
      PathsOf(bits, p.keyPos, p.leaves, EMPTY_TRIE, w[..k]);
    }
  }

  // A code word with this symbol, and no shorter code word in front of it.
  ghost predicate Spells(chars: map<Code, byte>, w: Code, b: byte) {
    w in chars && chars[w] == b && forall k :: 0 <= k < |w| ==> w[..k] !in chars
  }

  // What the decoder returns: the symbols of code words that stand one behind the other in the second
  // bit section.
  lemma DecodedText(data: seq<byte>, s: seq<byte>) returns (ws: seq<Code>)
    requires 8 * |data| < TWO_32 && DecodeSpec(data) == Decoded(s)
    ensures var p := ReadPreamble(data);
            && p.Good? && |ws| == |s| == p.size && BitsAt(data, p.textPos, Flatten(ws))
            && forall i :: 0 <= i < |ws| ==> Spells(TrieOf(data, p).chars, ws[i], s[i])
  {
    var p := ReadPreamble(data);
    TextInside(data);
    var rest;
    ws, rest := TextGives(data, TrieOf(data, p), p.textPos, p.size, [], s);
    assert [] + rest == rest;
  }

  // And whenever there are such code words, their symbols are returned.
  lemma TextDecodes(data: seq<byte>, p: Preamble, s: seq<byte>, ws: seq<Code>)
    requires 8 * |data| < TWO_32 && p == ReadPreamble(data) && p.Good?
    requires |ws| == |s| == p.size && BitsAt(data, p.textPos, Flatten(ws))
    requires forall i :: 0 <= i < |ws| ==> Spells(TrieOf(data, p).chars, ws[i], s[i])
    ensures DecodeSpec(data) == Decoded(s)
  {
    var trie := TrieOf(data, p);
    forall i | 0 <= i < |ws|
      ensures Walked(trie, ws[i])
    {
      assert Spells(trie.chars, ws[i], s[i]);
      WordsAreWalked(data, p, ws[i]);
    }
    TextFound(data, trie, p.textPos, s, ws, []);
    assert [] + s == s;
  }

  // The code word of leaf i has the bits from its place to the next one.
  ghost predicate CutAt(bits: seq<bool>, starts: seq<nat>, keys: seq<Code>, i: nat)
    requires i < |keys| && |starts| == |keys| + 1
  {
    starts[i] + |keys[i]| == starts[i + 1] <= |bits| && keys[i] == bits[starts[i]..starts[i] + |keys[i]|]
  }

  lemma KeyIsCut(bits: seq<bool>, pos: nat, leaves: seq<LeafNode>, starts: seq<nat>, keys: seq<Code>, i: nat)
    requires pos + TotalLength(leaves) <= |bits| && i < |keys| == |leaves| && |starts| == |keys| + 1
    requires starts[i] == Start(leaves, i) && starts[i + 1] == Start(leaves, i + 1) && keys[i] == KeyAt(bits, pos, leaves, i)
    ensures CutAt(bits[pos..], starts, keys, i)
  {
    StartNext(leaves, i);
    StartGrows(leaves, i + 1);
  }

  lemma KeysOf(data: seq<byte>, starts: seq<nat>, n: nat, p: Preamble) returns (keys: seq<Code>)
    requires p == ReadPreamble(data) && p.Good? && n == data[9] as int + 256 * data[10] as int && Places(data, starts, n)
    ensures |keys| == n == |p.leaves| && forall i :: 0 <= i < n ==> p.leaves[i].chr == data[11 + 2 * i]
    ensures p.keyPos <= 8 * |data| && forall i :: 0 <= i < n ==> CutAt(Bits(data)[p.keyPos..], starts, keys, i)
    ensures forall i :: 0 <= i < n ==> keys[i] == KeyAt(Bits(data), p.keyPos, p.leaves, i)
  {
    PreambleExactly(data, starts, n);
    var places := PlacesOf(data, n, p.leaves);
    SamePlaces(data, starts, places, n);
    keys := seq(n, i requires 0 <= i < n => KeyAt(Bits(data), p.keyPos, p.leaves, i));
    forall i | 0 <= i < n
      ensures CutAt(Bits(data)[p.keyPos..], starts, keys, i)
    {
      KeyIsCut(Bits(data), p.keyPos, p.leaves, starts, keys, i);
    }
  }

  // A later leaf with the same code word takes it over.
  lemma CodeWordsOf(data: seq<byte>, starts: seq<nat>, n: nat, p: Preamble) returns (keys: seq<Code>)
    requires p == ReadPreamble(data) && p.Good? && n == data[9] as int + 256 * data[10] as int && Places(data, starts, n)
    ensures |keys| == n && p.keyPos <= 8 * |data|
    ensures forall i :: 0 <= i < n ==> CutAt(Bits(data)[p.keyPos..], starts, keys, i)
    ensures forall w :: w in TrieOf(data, p).chars <==> w in keys
    ensures forall i :: 0 <= i < n && keys[i] !in keys[i + 1..] ==> TrieOf(data, p).chars[keys[i]] == data[11 + 2 * i]
  {
    keys := KeysOf(data, starts, n, p);
    CharsAreKeys(Bits(data), p, TrieOf(data, p), keys);
  }

  lemma CharsAreKeys(bits: seq<bool>, p: Preamble, trie: Trie, keys: seq<Code>)
    requires p.Good? && p.keyPos + TotalLength(p.leaves) <= |bits| && |keys| == |p.leaves|
    requires trie == ReadTrie(bits, p.keyPos, p.leaves, EMPTY_TRIE)
    requires forall j :: 0 <= j < |keys| ==> keys[j] == KeyAt(bits, p.keyPos, p.leaves, j)
    ensures forall w :: w in trie.chars <==> w in keys
    ensures forall i :: 0 <= i < |keys| && keys[i] !in keys[i + 1..] ==> trie.chars[keys[i]] == p.leaves[i].chr
  {
    forall i | 0 <= i < |keys| && keys[i] !in keys[i + 1..]
      ensures keys[i] in trie.chars && trie.chars[keys[i]] == p.leaves[i].chr
    {
      LastKey(bits, p, keys, i);
      CharsLast(bits, p.keyPos, p.leaves, EMPTY_TRIE, i);
    }
    forall w
      ensures w in trie.chars <==> w in keys
    {
      if w in trie.chars {
        CharsAreKeysOf(bits, p, w);
        var i :| 0 <= i < |p.leaves| && KeyAt(bits, p.keyPos, p.leaves, i) == w;
        assert keys[i] == w;
      } else if w in keys {
        var i := LastIndex(keys, w);
        assert false;
      }
    }
  }

  lemma {:induction false} LastIndex(keys: seq<Code>, w: Code) returns (i: nat)
    requires w in keys
    ensures i < |keys| && keys[i] == w && w !in keys[i + 1..]
  {
    var n := |keys| - 1;
    if keys[n] == w {
      i := n;
    } else {
      i := LastIndex(keys[..n], w);
      assert keys[i + 1..] == keys[..n][i + 1..] + [keys[n]];
    }
  }

  lemma LastKey(bits: seq<bool>, p: Preamble, keys: seq<Code>, i: nat)
    requires p.Good? && p.keyPos + TotalLength(p.leaves) <= |bits| && |keys| == |p.leaves| && i < |keys|
    requires forall j :: 0 <= j < |keys| ==> keys[j] == KeyAt(bits, p.keyPos, p.leaves, j)
    requires keys[i] !in keys[i + 1..]
    ensures LastWith(bits, p.keyPos, p.leaves, i)
  {
    forall j | i < j < |keys|
      ensures keys[j] != keys[i]
    {
      assert keys[j] == keys[i + 1..][j - i - 1];
    }
  }
}

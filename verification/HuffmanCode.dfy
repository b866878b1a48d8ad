/** From the tree to the code words, and the shape of a compressed file. */
module HuffmanCode {
  import opened Bytes
  import opened PrefixCodes
  import opened HuffmanTree
  import opened HuffmanMerge

  // Shorter texts have no tree deeper than 32; for this size there is one.
  const CODEC_LIMIT: nat := 11405773

  // ---- The code of a tree

  function PathTo(t: EncodeNode, v: nat): Code {
    match t
    case Leaf(_, _) => []
    case Branch(_, l, r) => if v in Symbols(l) then [false] + PathTo(l, v) else [true] + PathTo(r, v)
  }

  function TreeCode(t: EncodeNode): (codes: seq<Code>)
    ensures |codes| == ALPHABET
  {
    seq(ALPHABET, v requires 0 <= v < ALPHABET => if v in Symbols(t) then PathTo(t, v) else [])
  }

  lemma {:induction false} PathReachesLeaf(t: EncodeNode, v: nat)
    requires v in Symbols(t)
    ensures LeafAt(t, PathTo(t, v), v) && |PathTo(t, v)| <= Depth(t)
  {
    if t.Branch? {
      PathReachesLeaf(if v in Symbols(t.left) then t.left else t.right, v);
    }
  }

  lemma {:induction false} LeafHasSymbol(t: EncodeNode, p: Code, v: nat)
    requires LeafAt(t, p, v)
    ensures v in Symbols(t)
  {
    if t.Branch? {
      LeafHasSymbol(if p[0] then t.right else t.left, p[1..], v);
    }
  }

  // Distinct symbols: the only way to a leaf for v is PathTo.
  lemma {:induction false} LeafIsUnique(t: EncodeNode, p: Code, v: nat)
    requires LeafAt(t, p, v) && Symbols(t)[v] == 1
    ensures p == PathTo(t, v)
  {
    if t.Branch? {
      LeafHasSymbol(if p[0] then t.right else t.left, p[1..], v);
      LeafIsUnique(if p[0] then t.right else t.left, p[1..], v);
    }
  }

  lemma {:induction false} LeavesAreNotPrefixes(t: EncodeNode, p: Code, v: nat, q: Code, w: nat)
    requires LeafAt(t, p, v) && LeafAt(t, q, w) && v != w
    ensures !Comparable(p, q)
  {
    if t.Branch? && p[0] == q[0] {
      LeavesAreNotPrefixes(if p[0] then t.right else t.left, p[1..], v, q[1..], w);
      assert p == [p[0]] + p[1..] && q == [q[0]] + q[1..];
    }
  }

  // lens gives every leaf below t its distance from a root d levels above t.
  predicate Measures(lens: seq<nat>, t: EncodeNode, d: nat) {
    match t
    case Leaf(_, v) => v < |lens| && lens[v] == d
    case Branch(_, l, r) => Measures(lens, l, d + 1) && Measures(lens, r, d + 1)
  }

  lemma {:induction false} PathsMeasure(t: EncodeNode, lens: seq<nat>, d: nat)
    requires forall p, v: nat | LeafAt(t, p, v) :: v < |lens| && lens[v] == d + |p|
    ensures Measures(lens, t, d)
  {
    match t
    case Leaf(_, v) =>
      assert LeafAt(t, [], v);
    case Branch(_, l, r) =>
      forall p, v: nat | LeafAt(l, p, v) || LeafAt(r, p, v)
        ensures v < |lens| && lens[v] == d + 1 + |p|
      {
        var bit := !LeafAt(l, p, v);
        assert ([bit] + p)[1..] == p;
        assert LeafAt(t, [bit] + p, v);
      }
      PathsMeasure(l, lens, d + 1);
      PathsMeasure(r, lens, d + 1);
  }

  lemma {:induction false} LeafSumIsCost(t: EncodeNode, lens: seq<nat>, d: nat)
    requires WellFormed(t) && |lens| == ALPHABET && Measures(lens, t, d)
    ensures LeafSum(t, lens) == Cost(t) + d * t.count
  {
    match t
    case Leaf(count, v) =>
      assert lens[v] == d;
    case Branch(count, l, r) =>
      LeafSumIsCost(l, lens, d + 1);
      LeafSumIsCost(r, lens, d + 1);
      OneLevelDeeper(d, l.count, r.count);
      assert d * count == d * (l.count + r.count);
  }

  lemma OneLevelDeeper(d: nat, a: nat, b: nat)
    ensures (d + 1) * a + (d + 1) * b == d * (a + b) + a + b
  {
  }

  // ---- What the encoder promises of its code words

  ghost predicate Minimal(counts: seq<nat>, codes: seq<Code>)
    requires |counts| == |codes| == ALPHABET
  {
    forall other: seq<Code> :: |other| == ALPHABET && PrefixFreeOn(counts, other) ==>
      CodeCost(counts, codes) <= CodeCost(counts, other)
  }

  ghost predicate FitsWord(codes: seq<Code>) {
    |codes| == ALPHABET && forall v :: 0 <= v < ALPHABET ==> |codes[v]| <= 32
  }

  lemma TreeCodeIsPrefixFree(t: EncodeNode, counts: seq<nat>)
    requires |counts| == ALPHABET && Symbols(t) == Present(counts, ALPHABET)
    ensures PrefixFreeOn(counts, TreeCode(t))
  {
    forall v, w | 0 <= v < w < ALPHABET && counts[v] > 0 && counts[w] > 0
      ensures !Comparable(TreeCode(t)[v], TreeCode(t)[w])
    {
      PresentCount(counts, ALPHABET, v);
      PresentCount(counts, ALPHABET, w);
      PathReachesLeaf(t, v);
      PathReachesLeaf(t, w);
      LeavesAreNotPrefixes(t, PathTo(t, v), v, PathTo(t, w), w);
    }
  }

  lemma TreeCodeCost(t: EncodeNode, counts: seq<nat>)
    requires |counts| == ALPHABET && WellFormed(t) && Symbols(t) == Present(counts, ALPHABET)
    requires LeafSum(t, Lengths(TreeCode(t))) == CodeCost(counts, TreeCode(t))
    ensures CodeCost(counts, TreeCode(t)) == Cost(t)
  {
    forall p, v: nat | LeafAt(t, p, v)
      ensures v < ALPHABET && Lengths(TreeCode(t))[v] == 0 + |p|
    {
      LeafHasSymbol(t, p, v);
      PresentCount(counts, ALPHABET, v);
      LeafIsUnique(t, p, v);
    }
    PathsMeasure(t, Lengths(TreeCode(t)), 0);
    LeafSumIsCost(t, Lengths(TreeCode(t)), 0);
  }

  lemma {:induction false} DeepestLeaf(t: EncodeNode) returns (p: Code, v: nat)
    ensures LeafAt(t, p, v) && |p| == Depth(t)
  {
    match t
    case Leaf(_, w) =>
      p, v := [], w;
    case Branch(_, l, r) =>
      var bit := Depth(r) >= Depth(l);
      var q;
      q, v := DeepestLeaf(if bit then r else l);
      p := [bit] + q;
      assert p[1..] == q;
  }

  // The code words fit their fields if and only if the tree is not too deep.
  lemma TreeCodeFitsExactly(t: EncodeNode)
    requires WellFormed(t) && forall v :: Symbols(t)[v] <= 1
    ensures FitsWord(TreeCode(t)) <==> Depth(t) <= 32
  {
    forall v | 0 <= v < ALPHABET
      ensures |TreeCode(t)[v]| <= Depth(t)
    {
      if v in Symbols(t) {
        PathReachesLeaf(t, v);
      }
    }
    var p, v := DeepestLeaf(t);
    LeafHasSymbol(t, p, v);
    SymbolBelow(t, v);
    LeafIsUnique(t, p, v);
    assert |TreeCode(t)[v]| == Depth(t);
  }

  lemma {:induction false} SymbolBelow(t: EncodeNode, v: nat)
    requires WellFormed(t) && v in Symbols(t)
    ensures v < ALPHABET
  {
    if t.Branch? {
      SymbolBelow(if v in Symbols(t.left) then t.left else t.right, v);
    }
  }

  // ---- Code words as machine words

  // Reading the bits of a code from the root, most significant first.
  function Word(code: Code): nat {
    if code == [] then 0
    else 2 * Word(code[..|code| - 1]) + if code[|code| - 1] then 1 else 0
  }

  // The C expression x >> k.
  function ShiftRight(x: nat, k: nat): nat {
    if k == 0 then x else ShiftRight(x / 2, k - 1)
  }

  lemma {:induction false} WordFits(code: Code)
    ensures Word(code) < Pow2(|code|)
  {
    if code != [] {
      WordFits(code[..|code| - 1]);
    }
  }

  lemma Pow2Of32()
    ensures Pow2(32) == TWO_32
  {
    assert Pow2(8) == 256 && Pow2(16) == 0x1_0000 && Pow2(24) == 0x100_0000;
  }

  lemma {:induction false} Pow2Monotone(m: nat, n: nat)
    requires m <= n
    ensures Pow2(m) <= Pow2(n)
  {
    if m < n {
      Pow2Monotone(m, n - 1);
    }
  }

  // No bit of a code word is lost in 32 bits.
  lemma WordFits32(code: Code)
    requires |code| <= 32
    ensures Word(code) < TWO_32
  {
    WordFits(code);
    Pow2Monotone(|code|, 32);
    Pow2Of32();
  }

  lemma {:induction false} BitOfWord(code: Code, i: nat)
    requires i < |code|
    ensures (ShiftRight(Word(code), |code| - i - 1) % 2 == 1) <==> code[i]
  {
    var shorter := code[..|code| - 1];
    if i < |code| - 1 {
      BitOfWord(shorter, i);
      assert Word(code) / 2 == Word(shorter);
    }
  }

  // ---- The compressed file

  function Concat(codes: seq<Code>, symbols: seq<byte>): seq<bool>
    requires |codes| == ALPHABET
  {
    if symbols == [] then [] else codes[symbols[0]] + Concat(codes, symbols[1..])
  }

  lemma {:induction false} ConcatAppend(codes: seq<Code>, symbols: seq<byte>, b: byte)
    requires |codes| == ALPHABET
    ensures Concat(codes, symbols + [b]) == Concat(codes, symbols) + codes[b]
  {
    if symbols == [] {
      assert symbols + [b] == [b];
      assert Concat(codes, [b]) == codes[b] + Concat(codes, []);
    } else {
      assert (symbols + [b])[1..] == symbols[1..] + [b];
      ConcatAppend(codes, symbols[1..], b);
    }
  }

  // The byte values below n that occur, ascending.
  function Alphabet(counts: seq<nat>, n: nat): (r: seq<byte>)
    requires |counts| == ALPHABET && n <= ALPHABET
  {
    if n == 0 then []
    else Alphabet(counts, n - 1) + if counts[n - 1] != 0 then [n - 1] else []
  }

  // The leaf table: each value with the length of its code word.
  function LeafTable(codes: seq<Code>, symbols: seq<byte>): (r: seq<byte>)
    requires FitsWord(codes)
    ensures |r| == 2 * |symbols|
  {
    if symbols == [] then []
    else LeafTable(codes, symbols[..|symbols| - 1])
         + [symbols[|symbols| - 1], |codes[symbols[|symbols| - 1]]|]
  }

  function Header(s: seq<byte>, distinct: nat): (r: seq<byte>)
    ensures |r| == 11
  {
    [0x48, 0x45, 0x33, 0x0D, Parity(s)] + LittleEndian(|s|, 4) + LittleEndian(distinct, 2)
  }

  // out is s compressed with these code words: header, leaf table, then the code words of the
  // alphabet and the code words of the text, each section padded to a byte boundary.
  ghost predicate Layout(out: seq<byte>, s: seq<byte>, codes: seq<Code>)
    requires FitsWord(codes)
  {
    var symbols := Alphabet(Counts(s), ALPHABET);
    Framed(out, Header(s, |symbols|) + LeafTable(codes, symbols), Concat(codes, symbols), Concat(codes, s))
  }

  // ---- Counting a text symbol by symbol

  lemma CountStep(s: seq<byte>, b: byte)
    ensures Counts(s + [b]) == Counts(s)[b := Counts(s)[b] + 1]
  {
    assert (s + [b])[..|s|] == s;
  }

  lemma {:induction false} SymbolSumUpdate(counts: seq<nat>, lens: seq<nat>, v: nat, n: nat)
    requires |counts| == |lens| == ALPHABET && v < ALPHABET && n <= ALPHABET
    ensures SymbolSum(counts[v := counts[v] + 1], lens, n)
         == SymbolSum(counts, lens, n) + if v < n then lens[v] else 0
  {
    if n > 0 {
      SymbolSumUpdate(counts, lens, v, n - 1);
    }
  }

  lemma {:induction false} SymbolSumOfNothing(lens: seq<nat>, n: nat)
    requires |lens| == ALPHABET && n <= ALPHABET
    ensures SymbolSum(Counts([]), lens, n) == 0
  {
    if n > 0 {
      SymbolSumOfNothing(lens, n - 1);
    }
  }

  // The number of bits spent on a text is the weighted length of the code.
  lemma {:induction false} ConcatLength(codes: seq<Code>, s: seq<byte>)
    requires |codes| == ALPHABET
    ensures |Concat(codes, s)| == CodeCost(Counts(s), codes)
  {
    if s == [] {
      SymbolSumOfNothing(Lengths(codes), ALPHABET);
    } else {
      var t, b := s[..|s| - 1], s[|s| - 1];
      assert s == t + [b];
      ConcatLength(codes, t);
      ConcatAppend(codes, t, b);
      CountStep(t, b);
      SymbolSumUpdate(Counts(t), Lengths(codes), b, ALPHABET);
    }
  }

  lemma {:induction false} TotalCount(s: seq<byte>)
    ensures SymbolSum(Counts(s), Ones(), ALPHABET) == |s|
  {
    if s == [] {
      SymbolSumOfNothing(Ones(), ALPHABET);
    } else {
      var t, b := s[..|s| - 1], s[|s| - 1];
      assert s == t + [b];
      TotalCount(t);
      CountStep(t, b);
      SymbolSumUpdate(Counts(t), Ones(), b, ALPHABET);
    }
  }
}

/** Kraft sums of code word lengths, and the two facts the optimality proof needs of them:
    every prefix code satisfies the inequality, and among all length assignments that satisfy
    it one of the best gives the two lightest weights the same length. */
module PrefixCodes {
  import opened Bytes

  type Code = seq<bool>

  predicate Comparable(a: Code, b: Code) {
    a <= b || b <= a
  }

  ghost predicate PrefixFree(codes: seq<Code>) {
    forall i, j :: 0 <= i < j < |codes| ==> !Comparable(codes[i], codes[j])
  }

  function Lengths(codes: seq<Code>): (ls: seq<nat>)
    ensures |ls| == |codes|
    ensures forall i :: 0 <= i < |codes| ==> ls[i] == |codes[i]|
  {
    seq(|codes|, i requires 0 <= i < |codes| => |codes[i]|)
  }

  ghost predicate Bounded(ls: seq<nat>, max: nat) {
    forall i :: 0 <= i < |ls| ==> ls[i] <= max
  }

  // The Kraft sum scaled by 2^max.
  function KraftSum(ls: seq<nat>, max: nat): nat
    requires forall i :: 0 <= i < |ls| ==> ls[i] <= max
  {
    if ls == [] then 0 else Pow2(max - ls[0]) + KraftSum(ls[1..], max)
  }

  ghost predicate Fits(ls: seq<nat>, max: nat) {
    Bounded(ls, max) && KraftSum(ls, max) <= Pow2(max)
  }

  ghost predicate Kraft(ls: seq<nat>) {
    exists max :: Fits(ls, max)
  }

  function Weighted(ws: seq<nat>, ls: seq<nat>): nat
    requires |ws| == |ls|
  {
    if ws == [] then 0 else ws[0] * ls[0] + Weighted(ws[1..], ls[1..])
  }

  // ---- Sums over sequences

  lemma {:induction false} KraftSumConcat(a: seq<nat>, b: seq<nat>, max: nat)
    requires Bounded(a, max) && Bounded(b, max)
    ensures Bounded(a + b, max)
    ensures KraftSum(a + b, max) == KraftSum(a, max) + KraftSum(b, max)
  {
    if a == [] {
      assert a + b == b;
    } else {
      assert (a + b)[1..] == a[1..] + b;
      KraftSumConcat(a[1..], b, max);
    }
  }

  lemma {:induction false} WeightedConcat(ws: seq<nat>, ls: seq<nat>, vs: seq<nat>, ks: seq<nat>)
    requires |ws| == |ls| && |vs| == |ks|
    ensures Weighted(ws + vs, ls + ks) == Weighted(ws, ls) + Weighted(vs, ks)
  {
    if ws == [] {
      assert ws + vs == vs && ls + ks == ks;
    } else {
      assert (ws + vs)[1..] == ws[1..] + vs && (ls + ks)[1..] == ls[1..] + ks;
      WeightedConcat(ws[1..], ls[1..], vs, ks);
    }
  }

  lemma {:induction false} KraftSumUpdate(ls: seq<nat>, i: nat, l: nat, max: nat)
    requires i < |ls| && Bounded(ls, max) && l <= max
    ensures Bounded(ls[i := l], max)
    ensures KraftSum(ls[i := l], max) == KraftSum(ls, max) - Pow2(max - ls[i]) + Pow2(max - l)
  {
    if i == 0 {
      assert ls[i := l][1..] == ls[1..];
    } else {
      assert ls[i := l][1..] == ls[1..][i - 1 := l];
      KraftSumUpdate(ls[1..], i - 1, l, max);
    }
  }

  lemma {:induction false} WeightedUpdate(ws: seq<nat>, ls: seq<nat>, i: nat, l: nat)
    requires |ws| == |ls| && i < |ls|
    ensures Weighted(ws, ls[i := l]) == Weighted(ws, ls) - ws[i] * ls[i] + ws[i] * l
  {
    if i == 0 {
      assert ls[i := l][1..] == ls[1..];
    } else {
      assert ls[i := l][1..] == ls[1..][i - 1 := l];
      WeightedUpdate(ws[1..], ls[1..], i - 1, l);
    }
  }

  lemma {:induction false} KraftSumScale(ls: seq<nat>, max: nat)
    requires Bounded(ls, max)
    ensures Bounded(ls, max + 1) && KraftSum(ls, max + 1) == 2 * KraftSum(ls, max)
  {
    if ls != [] {
      KraftSumScale(ls[1..], max);
    }
  }

  // ---- Every prefix code satisfies Kraft's inequality

  // The codes that start with `bit`, with that bit dropped.
  function Strip(codes: seq<Code>, bit: bool): (r: seq<Code>)
    requires [] !in codes
    ensures forall c :: c in r ==> [bit] + c in codes
  {
    if codes == [] then []
    else
      var rest := Strip(codes[1..], bit);
      if codes[0][0] == bit then
        assert [bit] + codes[0][1..] == codes[0];
        [codes[0][1..]] + rest
      else rest
  }

  lemma {:induction false} StripPrefixFree(codes: seq<Code>, bit: bool)
    requires PrefixFree(codes) && [] !in codes
    ensures PrefixFree(Strip(codes, bit))
  {
    if codes != [] {
      StripPrefixFree(codes[1..], bit);
      if codes[0][0] == bit {
        var rest := Strip(codes[1..], bit);
        forall c | c in rest
          ensures !Comparable(codes[0][1..], c)
        {
          assert [bit] + c in codes[1..];
          assert codes[0] == [bit] + codes[0][1..];
        }
      }
    }
  }

  lemma StripBounded(codes: seq<Code>, bit: bool, max: nat)
    requires [] !in codes && max > 0
    requires Bounded(Lengths(codes), max)
    ensures Bounded(Lengths(Strip(codes, bit)), max - 1)
  {
    var stripped := Strip(codes, bit);
    forall i | 0 <= i < |stripped|
      ensures |stripped[i]| <= max - 1
    {
      var c := stripped[i];
      assert c in stripped;
      var j :| 0 <= j < |codes| && codes[j] == [bit] + c;
      assert Lengths(codes)[j] <= max;
    }
  }

  lemma {:induction false} StripKraftSum(codes: seq<Code>, max: nat)
    requires [] !in codes && max > 0 && Bounded(Lengths(codes), max)
    requires Bounded(Lengths(Strip(codes, false)), max - 1) && Bounded(Lengths(Strip(codes, true)), max - 1)
    ensures KraftSum(Lengths(codes), max)
         == KraftSum(Lengths(Strip(codes, false)), max - 1) + KraftSum(Lengths(Strip(codes, true)), max - 1)
  {
    if codes != [] {
      var bit := codes[0][0];
      var rest := Strip(codes[1..], bit);
      assert Lengths(codes)[1..] == Lengths(codes[1..]);
      StripBounded(codes[1..], false, max);
      StripBounded(codes[1..], true, max);
      StripKraftSum(codes[1..], max);
      assert Strip(codes, !bit) == Strip(codes[1..], !bit);
      assert Strip(codes, bit) == [codes[0][1..]] + rest;
      assert Lengths(Strip(codes, bit))[1..] == Lengths(rest);
    }
  }

  // The empty word is a prefix of every other.
  lemma EmptyCodeIsAlone(codes: seq<Code>, i: nat)
    requires i < |codes| && codes[i] == [] && PrefixFree(codes)
    ensures |codes| == 1
  {
    var j := if i == 0 then |codes| - 1 else 0;
    assert Comparable(codes[i], codes[j]) && Comparable(codes[j], codes[i]);
    assert i == j;
  }

  lemma {:induction false} KraftInequality(codes: seq<Code>, max: nat)
    requires PrefixFree(codes) && Bounded(Lengths(codes), max)
    ensures Fits(Lengths(codes), max)
    decreases max
  {
    var ls := Lengths(codes);
    if i :| 0 <= i < |codes| && codes[i] == [] {
      EmptyCodeIsAlone(codes, i);
      assert KraftSum(ls, max) == Pow2(max) + KraftSum(ls[1..], max);
    } else if codes != [] {
      assert ls[0] <= max;
      assert max > 0;
      StripBounded(codes, false, max);
      StripBounded(codes, true, max);
      StripKraftSum(codes, max);
      StripPrefixFree(codes, false);
      StripPrefixFree(codes, true);
      KraftInequality(Strip(codes, false), max - 1);
      KraftInequality(Strip(codes, true), max - 1);
    }
  }

  // ---- The exchange argument

  lemma SwapNotWorse(w0: nat, w1: nat, l0: nat, l1: nat)
    requires w0 <= w1 && l0 <= l1
    ensures w0 * l1 + w1 * l0 <= w0 * l0 + w1 * l1
  {
    assert (w1 - w0) * (l1 - l0) >= 0;
  }

  // Give position i, the lighter one, the longer length of position j.
  lemma Swap(ws: seq<nat>, ls: seq<nat>, i: nat, j: nat, max: nat) returns (ks: seq<nat>)
    requires |ws| == |ls| && i < |ls| && j < |ls| && Fits(ls, max)
    requires ws[i] <= ws[j] && ls[i] <= ls[j]
    ensures |ks| == |ls| && ks == ls[i := ls[j]][j := ls[i]]
    ensures Fits(ks, max) && Weighted(ws, ks) <= Weighted(ws, ls)
  {
    ks := ls[i := ls[j]];
    KraftSumUpdate(ls, i, ls[j], max);
    WeightedUpdate(ws, ls, i, ls[j]);
    KraftSumUpdate(ks, j, ls[i], max);
    WeightedUpdate(ws, ks, j, ls[i]);
    ks := ks[j := ls[i]];
    if i != j {
      SwapNotWorse(ws[i], ws[j], ls[i], ls[j]);
    }
  }

  lemma LowerMax(ls: seq<nat>, max: nat)
    requires max > 0 && Bounded(ls, max - 1) && KraftSum(ls, max) <= Pow2(max)
    ensures Fits(ls, max - 1)
  {
    KraftSumScale(ls, max - 1);
  }

  // Every length assignment that fits can be improved to one that gives the two lightest
  // weights (the first two) a common, positive length.
  lemma {:induction false} Balance(ws: seq<nat>, ls: seq<nat>, max: nat) returns (ks: seq<nat>)
    requires |ws| == |ls| >= 2 && Fits(ls, max)
    requires forall i :: 0 <= i < |ws| ==> ws[0] <= ws[i]
    requires forall i :: 1 <= i < |ws| ==> ws[1] <= ws[i]
    ensures |ks| == |ls| && ks[0] == ks[1] > 0
    ensures Kraft(ks) && Weighted(ws, ks) <= Weighted(ws, ls)
    decreases max
  {
    if i :| 0 <= i < |ls| && ls[i] == max {
      ks := Swap(ws, ls, 0, i, max);
      if j :| 1 <= j < |ks| && ks[j] == max {
        ks := Swap(ws, ks, 1, j, max);
        if max == 0 {
          assert false;
        }
      } else {
        assert max > 0 by { assert ks[1] <= max; }
        KraftSumScale(ks[1..], max - 1);
        assert KraftSum(ks, max) == Pow2(0) + KraftSum(ks[1..], max);
        var shorter := ks[0 := max - 1];
        KraftSumUpdate(ks, 0, max - 1, max);
        WeightedUpdate(ws, ks, 0, max - 1);
        assert Pow2(1) == 2 * Pow2(0);
        assert KraftSum(shorter, max) <= Pow2(max);
        assert ws[0] * (max - 1) <= ws[0] * max;
        LowerMax(shorter, max);
        ks := Balance(ws, shorter, max - 1);
      }
    } else {
      assert max > 0 by { assert ls[0] <= max; }
      LowerMax(ls, max);
      ks := Balance(ws, ls, max - 1);
    }
  }
}

/** Matching a file name against a pattern (POSIX.1 Shell Command Language, section 2.13), with
    FNM_PERIOD and without bracket expressions. */
module Fnmatch {

  // ---- The notation

  datatype Token = Lit(c: char) | AnyChar | AnyString | TrailingEscape

  function Tokens(pattern: string): seq<Token> {
    if pattern == [] then []
    else if pattern[0] == '\\' then
      if |pattern| == 1 then [TrailingEscape] else [Lit(pattern[1])] + Tokens(pattern[2..])
    else
      [if pattern[0] == '?' then AnyChar else if pattern[0] == '*' then AnyString else Lit(pattern[0])] + Tokens(pattern[1..])
  }

  // The pattern describes the whole of s.
  ghost predicate Matches(ts: seq<Token>, s: string) {
    if ts == [] then s == []
    else
      match ts[0]
      case Lit(c) => s != [] && s[0] == c && Matches(ts[1..], s[1..])
      case AnyChar => s != [] && Matches(ts[1..], s[1..])
      case AnyString => exists k: nat :: k <= |s| && Matches(ts[1..], s[k..])
      case TrailingEscape => false
  }

  predicate StartsLiteral(ts: seq<Token>) {
    ts != [] && ts[0].Lit?
  }

  // A leading period needs an explicit period in the pattern.
  predicate PeriodOk(ts: seq<Token>, s: string, noLeadingPeriod: bool) {
    noLeadingPeriod && s != [] && s[0] == '.' ==> StartsLiteral(ts)
  }

  ghost predicate Accepts(pattern: string, s: string, noLeadingPeriod: bool) {
    Matches(Tokens(pattern), s) && PeriodOk(Tokens(pattern), s, noLeadingPeriod)
  }

  // No bracket that is not escaped.
  predicate BracketFree(pattern: string) {
    if pattern == [] then true
    else if pattern[0] == '\\' then |pattern| == 1 || BracketFree(pattern[2..])
    else pattern[0] != '[' && BracketFree(pattern[1..])
  }

  // ---- Runs of wildcards

  lemma StarThenAny(ts: seq<Token>, s: string)
    ensures Matches([AnyString, AnyChar] + ts, s) <==> s != [] && Matches([AnyString] + ts, s[1..])
  {
    var long, short := [AnyString, AnyChar] + ts, [AnyString] + ts;
    assert long[1..] == [AnyChar] + ts && short[1..] == ts && ([AnyChar] + ts)[1..] == ts;
    if Matches(long, s) {
      var k: nat :| k <= |s| && Matches(long[1..], s[k..]);
      assert s[k..][1..] == s[1..][k..];
    }
    if s != [] && Matches(short, s[1..]) {
      var k: nat :| k <= |s[1..]| && Matches(short[1..], s[1..][k..]);
      assert s[k..][1..] == s[1..][k..];
      assert Matches(long[1..], s[k..]);
    }
  }

  lemma StarThenStar(ts: seq<Token>, s: string)
    ensures Matches([AnyString, AnyString] + ts, s) <==> Matches([AnyString] + ts, s)
  {
    var long, short := [AnyString, AnyString] + ts, [AnyString] + ts;
    assert long[1..] == short && short[1..] == ts;
    if Matches(long, s) {
      var k: nat :| k <= |s| && Matches(short, s[k..]);
      var m: nat :| m <= |s[k..]| && Matches(ts, s[k..][m..]);
      assert s[k..][m..] == s[k + m..];
    }
    if Matches(short, s) {
      assert s[0..] == s;
      assert Matches(long[1..], s[0..]);
    }
  }

  // A star first tries the empty string.
  lemma StarTries(ts: seq<Token>, s: string)
    ensures Matches([AnyString] + ts, s) <==> Matches(ts, s) || (s != [] && Matches([AnyString] + ts, s[1..]))
  {
    var star := [AnyString] + ts;
    assert star[1..] == ts && s[0..] == s;
    if Matches(star, s) {
      var k: nat :| k <= |s| && Matches(ts, s[k..]);
      if k > 0 {
        assert s[1..][k - 1..] == s[k..];
        assert Matches(star, s[1..]);
      }
    }
    if s != [] && Matches(star, s[1..]) {
      var k: nat :| k <= |s[1..]| && Matches(ts, s[1..][k..]);
      assert s[1..][k..] == s[k + 1..];
      assert Matches(star[1..], s[k + 1..]);
    }
  }

  // A question mark or star behind a star.
  lemma StarNext(pattern: string, s: string)
    requires pattern != [] && (pattern[0] == '?' || pattern[0] == '*')
    ensures var star, rest := [AnyString] + Tokens(pattern), [AnyString] + Tokens(pattern[1..]);
            Matches(star, s) <==> if pattern[0] == '?' then s != [] && Matches(rest, s[1..]) else Matches(rest, s)
  {
    var ts := Tokens(pattern[1..]);
    if pattern[0] == '?' {
      assert [AnyString] + Tokens(pattern) == [AnyString, AnyChar] + ts;
      StarThenAny(ts, s);
    } else {
      assert [AnyString] + Tokens(pattern) == [AnyString, AnyString] + ts;
      StarThenStar(ts, s);
    }
  }

  // ---- The matcher

  method Match(pattern: string, name: string, leading: bool) returns (matches: bool)
    requires BracketFree(pattern)
    ensures matches == Accepts(pattern, name, leading)
    decreases |pattern|, 0
  {
    var p: nat, n: nat, noLeadingPeriod := 0, 0, leading;
    assert pattern[0..] == pattern && name[0..] == name;
    while p < |pattern|
      invariant p <= |pattern| && n <= |name| && BracketFree(pattern[p..])
      invariant Accepts(pattern[p..], name[n..], noLeadingPeriod) == Accepts(pattern, name, leading)
    {
      ghost var at, nameAt := pattern[p..], name[n..];
      var c := pattern[p];
      p := p + 1;
      if c == '?' {
        if n == |name| {
          return false;
        } else if name[n] == '.' && noLeadingPeriod {
          return false;
        }
      } else if c == '\\' {
        if p == |pattern| {
          return false;
        }
        c := pattern[p];
        p := p + 1;
        if n == |name| || name[n] != c {
          return false;
        }
      } else if c == '*' {
        matches := MatchStar(pattern[p..], name[n..], noLeadingPeriod);
        return;
      } else {
        if n == |name| || c != name[n] {
          return false;
        }
      }
      noLeadingPeriod := false;
      n := n + 1;
    }
    matches := n == |name|;
  }

  // The rest of the pattern behind a star.
  method MatchStar(pattern: string, name: string, noLeadingPeriod: bool) returns (matches: bool)
    requires BracketFree(pattern)
    ensures matches == (Matches([AnyString] + Tokens(pattern), name)
                        && PeriodOk([AnyString] + Tokens(pattern), name, noLeadingPeriod))
    decreases |pattern|, 2
  {
    if name != [] && name[0] == '.' && noLeadingPeriod {
      return false;
    }
    var p: nat, n: nat := 0, 0;
    assert pattern[0..] == pattern && name[0..] == name;
    while p < |pattern| && (pattern[p] == '?' || pattern[p] == '*')
      invariant p <= |pattern| && n <= |name| && BracketFree(pattern[p..])
      invariant Matches([AnyString] + Tokens(pattern[p..]), name[n..]) == Matches([AnyString] + Tokens(pattern), name)
    {
      StarNext(pattern[p..], name[n..]);
      assert pattern[p..][1..] == pattern[p + 1..];
      if pattern[p] == '?' {
        if n == |name| {
          return false;
        }
        n := n + 1;
      }
      p := p + 1;
    }
    if p == |pattern| {
      StarMatchesAll(name[n..]);
      return true;
    }
    matches := TryAll(pattern[p..], name[n..], noLeadingPeriod);
  }

  lemma StarMatchesAll(s: string)
    ensures Matches([AnyString], s)
  {
    assert [AnyString][1..] == [] && s[|s|..] == [];
    assert Matches([AnyString][1..], s[|s|..]);
  }

  // Try the rest of the pattern, which starts with an ordinary character or an escape, at every
  // position of the name.
  method TryAll(pattern: string, name: string, noLeadingPeriod: bool) returns (matches: bool)
    requires BracketFree(pattern) && pattern != [] && pattern[0] != '?' && pattern[0] != '*'
    ensures matches == Matches([AnyString] + Tokens(pattern), name)
    decreases |pattern|, 1
  {
    var c := if pattern[0] != '\\' then pattern[0] else if |pattern| == 1 then '\0' else pattern[1];
    var n: nat, noLeadingPeriod2 := 0, noLeadingPeriod;
    assert name[0..] == name;
    while n < |name|
      invariant n <= |name|
      invariant Matches([AnyString] + Tokens(pattern), name[n..]) == Matches([AnyString] + Tokens(pattern), name)
    {
      StarTries(Tokens(pattern), name[n..]);
      assert name[n..][1..] == name[n + 1..];
      if name[n] == c {
        matches := Match(pattern, name[n..], noLeadingPeriod2);
        if matches {
          return true;
        }
      }
      n, noLeadingPeriod2 := n + 1, false;
    }
    StarTries(Tokens(pattern), []);
    assert name[n..] == [];
    matches := false;
  }

  // fnmatch(pattern, name, FNM_PERIOD): the result is 0.
  method FnmatchPeriod(pattern: string, name: string) returns (matches: bool)
    requires BracketFree(pattern)
    ensures matches <==> Matches(Tokens(pattern), name)
                         && (name != [] && name[0] == '.' ==> "." <= pattern || "\\." <= pattern)
  {
    matches := Match(pattern, name, true);
    if name != [] && name[0] == '.' && Matches(Tokens(pattern), name) {
      FirstLiteral(pattern, name);
    }
  }

  // A pattern that describes a name with a period in front starts with a literal only if that is
  // the period.
  lemma FirstLiteral(pattern: string, name: string)
    requires name != [] && name[0] == '.' && Matches(Tokens(pattern), name)
    ensures StartsLiteral(Tokens(pattern)) <==> "." <= pattern || "\\." <= pattern
  {
  }

  // ---- The notation, pattern by pattern

  // The pattern does not end inside an escape.
  predicate Complete(pattern: string) {
    pattern == "" || if pattern[0] == '\\' then |pattern| > 1 && Complete(pattern[2..]) else Complete(pattern[1..])
  }

  // A question mark describes any one character, a star anything, a character itself; a backslash
  // makes any character an ordinary one.
  lemma OneCharacter(c: char, s: string)
    ensures Matches(Tokens(""), s) <==> s == ""
    ensures Matches(Tokens("?"), s) <==> |s| == 1
    ensures Matches(Tokens("*"), s)
    ensures c != '?' && c != '*' && c != '\\' ==> (Matches(Tokens([c]), s) <==> s == [c])
    ensures Matches(Tokens(['\\', c]), s) <==> s == [c]
    ensures !Matches(Tokens("\\"), s)
  {
    assert Tokens("") == [] && "?"[1..] == "" && "*"[1..] == "" && [c][1..] == "" && ['\\', c][2..] == "";
    OneToken(AnyChar, s);
    OneToken(Lit(c), s);
    StarMatchesAll(s);
    TrailingEscapeNeverMatches([TrailingEscape], s);
    assert Tokens("*") == [AnyString];
  }

  lemma OneToken(t: Token, s: string)
    requires t.AnyChar? || t.Lit?
    ensures Matches([t], s) <==> |s| == 1 && (t.Lit? ==> s[0] == t.c)
  {
    assert [t][1..] == [];
  }

  lemma {:induction false} TokensOfTwo(p: string, q: string)
    requires Complete(p)
    ensures Tokens(p + q) == Tokens(p) + Tokens(q)
    decreases |p|
  {
    if p == "" {
      assert p + q == q;
    } else if p[0] == '\\' {
      TokensOfTwo(p[2..], q);
      assert (p + q)[2..] == p[2..] + q;
    } else {
      TokensOfTwo(p[1..], q);
      assert (p + q)[1..] == p[1..] + q;
    }
  }

  // One pattern behind another describes what is made of a part for each.
  lemma TwoPatterns(p: string, q: string, s: string)
    requires Complete(p)
    ensures Matches(Tokens(p + q), s) <==> exists k: nat :: k <= |s| && Matches(Tokens(p), s[..k]) && Matches(Tokens(q), s[k..])
  {
    TokensOfTwo(p, q);
    if Matches(Tokens(p + q), s) {
      var k := SplitMatch(Tokens(p), Tokens(q), s);
    }
    if k: nat :| k <= |s| && Matches(Tokens(p), s[..k]) && Matches(Tokens(q), s[k..]) {
      JoinMatch(Tokens(p), Tokens(q), s, k);
    }
  }

  lemma Slices(s: string, m: nat, n: nat)
    requires m + n <= |s|
    ensures s[..m + n][m..] == s[m..][..n] && s[m..][n..] == s[m + n..]
  {
  }

  lemma {:induction false} SplitMatch(a: seq<Token>, b: seq<Token>, s: string) returns (k: nat)
    requires Matches(a + b, s)
    ensures k <= |s| && Matches(a, s[..k]) && Matches(b, s[k..])
    decreases |a|
  {
    if a == [] {
      assert a + b == b && s[0..] == s;
      k := 0;
    } else {
      var rest := a[1..];
      assert (a + b)[1..] == rest + b;
      if a[0].AnyString? {
        var m: nat :| m <= |s| && Matches(rest + b, s[m..]);
        var n := SplitMatch(rest, b, s[m..]);
        k := m + n;
        Slices(s, m, n);
        assert Matches(rest, s[..k][m..]);
      } else {
        var n := SplitMatch(rest, b, s[1..]);
        k := 1 + n;
        Slices(s, 1, n);
      }
    }
  }

  lemma {:induction false} JoinMatch(a: seq<Token>, b: seq<Token>, s: string, k: nat)
    requires k <= |s| && Matches(a, s[..k]) && Matches(b, s[k..])
    ensures Matches(a + b, s)
    decreases |a|
  {
    if a == [] {
      assert a + b == b && s[k..] == s;
    } else {
      var rest := a[1..];
      assert (a + b)[1..] == rest + b;
      if a[0].AnyString? {
        var m: nat :| m <= k && Matches(rest, s[..k][m..]);
        Slices(s, m, k - m);
        JoinMatch(rest, b, s[m..], k - m);
        assert Matches((a + b)[1..], s[m..]);
      } else {
        Slices(s, 1, k - 1);
        JoinMatch(rest, b, s[1..], k - 1);
      }
    }
  }

  // A trailing backslash never matches.
  lemma {:induction false} TrailingEscapeNeverMatches(ts: seq<Token>, s: string)
    requires TrailingEscape in ts
    ensures !Matches(ts, s)
    decreases |ts|
  {
    if ts[0].AnyString? {
      forall k: nat | k <= |s|
        ensures !Matches(ts[1..], s[k..])
      {
        TrailingEscapeNeverMatches(ts[1..], s[k..]);
      }
    } else if s != [] && !ts[0].TrailingEscape? {
      TrailingEscapeNeverMatches(ts[1..], s[1..]);
    }
  }
}

/** getopt in PERMUTE mode with short options: the non-options move behind the options. */
module Getopt {
  import opened Wrappers

  // ---- Exchanging two adjacent blocks in place

  // s with the blocks of length len at a and at b exchanged.
  function Swapped<T>(s: seq<T>, a: nat, b: nat, len: nat): (r: seq<T>)
    requires a + len <= b && b + len <= |s|
    ensures |r| == |s|
  {
    seq(|s|, k requires 0 <= k < |s| =>
      if a <= k < a + len then s[b + (k - a)] else if b <= k < b + len then s[a + (k - b)] else s[k])
  }

  lemma SwappedNext<T>(s: seq<T>, a: nat, b: nat, len: nat)
    requires a + len + 1 <= b && b + len + 1 <= |s|
    ensures var r := Swapped(s, a, b, len);
            Swapped(s, a, b, len + 1) == r[a + len := r[b + len]][b + len := r[a + len]]
  {
    var r, q := Swapped(s, a, b, len), Swapped(s, a, b, len + 1);
    forall k | 0 <= k < |s|
      ensures q[k] == r[a + len := r[b + len]][b + len := r[a + len]][k]
    {
    }
  }

  // The two inner loops of exchange.
  method SwapBlocks<T>(argv: array<T>, a: nat, b: nat, len: nat)
    requires a + len <= b && b + len <= argv.Length
    modifies argv
    ensures argv[..] == Swapped(old(argv[..]), a, b, len)
  {
    ghost var s := argv[..];
    assert s == Swapped(s, a, b, 0);
    for i := 0 to len
      invariant argv[..] == Swapped(s, a, b, i)
    {
      SwappedNext(s, a, b, i);
      ghost var before := argv[..];
      argv[a + i], argv[b + i] := argv[b + i], argv[a + i];
      assert argv[..] == before[a + i := before[b + i]][b + i := before[a + i]];
    }
  }

  // s with the blocks from bottom to middle and from middle to top exchanged.
  function Exchanged<T>(s: seq<T>, bottom: nat, middle: nat, top: nat): (r: seq<T>)
    requires bottom <= middle <= top <= |s|
    ensures |r| == |s|
  {
    s[..bottom] + s[middle..top] + s[bottom..middle] + s[top..]
  }

  lemma ShorterBottom<T>(s: seq<T>, bottom: nat, middle: nat, top: nat, len: nat, newTop: nat)
    requires bottom < middle < newTop < top <= |s| && len == middle - bottom == top - newTop
    ensures Exchanged(Swapped(s, bottom, newTop, len), bottom, middle, newTop) == Exchanged(s, bottom, middle, top)
  {
    var r := Swapped(s, bottom, newTop, len);
    assert r[..bottom] == s[..bottom] && r[bottom..middle] == s[newTop..top];
    assert r[middle..newTop] == s[middle..newTop] && r[newTop..] == s[bottom..middle] + s[top..];
    assert s[middle..top] == s[middle..newTop] + s[newTop..top];
  }

  lemma ShorterTop<T>(s: seq<T>, bottom: nat, middle: nat, top: nat, len: nat, newBottom: nat)
    requires bottom < newBottom <= middle < top <= |s| && len == top - middle == newBottom - bottom
    ensures Exchanged(Swapped(s, bottom, middle, len), newBottom, middle, top) == Exchanged(s, bottom, middle, top)
  {
    var r := Swapped(s, bottom, middle, len);
    assert r[..newBottom] == s[..bottom] + s[middle..top] && r[newBottom..middle] == s[newBottom..middle];
    assert r[middle..top] == s[bottom..newBottom] && r[top..] == s[top..];
    assert s[bottom..middle] == s[bottom..newBottom] + s[newBottom..middle];
  }

  method ExchangeBlocks<T>(argv: array<T>, bottom0: nat, middle: nat, top0: nat)
    requires bottom0 <= middle <= top0 <= argv.Length
    modifies argv
    ensures argv[..] == Exchanged(old(argv[..]), bottom0, middle, top0)
  {
    var bottom: nat, top: nat := bottom0, top0;
    ghost var target := Exchanged(argv[..], bottom, middle, top);
    while top > middle && middle > bottom
      invariant bottom <= middle <= top <= argv.Length
      invariant Exchanged(argv[..], bottom, middle, top) == target
      decreases top - bottom
    {
      ghost var before := argv[..];
      if top - middle > middle - bottom {
        var len, newTop := middle - bottom, top - (middle - bottom);
        SwapBlocks(argv, bottom, newTop, len);
        ShorterBottom(before, bottom, middle, top, len, newTop);
        top := newTop;
      } else {
        var len, newBottom := top - middle, bottom + (top - middle);
        SwapBlocks(argv, bottom, middle, len);
        ShorterTop(before, bottom, middle, top, len, newBottom);
        bottom := newBottom;
      }
    }
    assert Exchanged(argv[..], bottom, middle, top) == argv[..];
  }

  // ---- What a command line means

  datatype Kind = Unknown | NoArgument | OptionalArgument | RequiredArgument

  // The part of optstring from the first occurrence of c; the empty string if there is none.
  function StrChr(optstring: string, c: char): string {
    if optstring == [] || optstring[0] == c then optstring else StrChr(optstring[1..], c)
  }

  function KindOf(optstring: string, c: char): Kind {
    var temp := StrChr(optstring, c);
    if temp == [] || c == ':' then Unknown
    else if |temp| > 2 && temp[1] == ':' && temp[2] == ':' then OptionalArgument
    else if |temp| > 1 && temp[1] == ':' then RequiredArgument
    else NoArgument
  }

  function MissingArgument(optstring: string): char {
    if optstring != [] && optstring[0] == ':' then ':' else '?'
  }

  // One result of getopt: the character and the argument.
  datatype Event = Event(c: char, arg: Option<string>)

  // A whole command line: the results in order, the options with their arguments and the "--",
  // the non-options in front of the "--", and what follows the "--".
  datatype Parsed = Parsed(events: seq<Event>, options: seq<string>, others: seq<string>, rest: seq<string>)

  function Prepend(events: seq<Event>, options: seq<string>, others: seq<string>, p: Parsed): Parsed {
    Parsed(events + p.events, options + p.options, others + p.others, p.rest)
  }

  predicate IsNonOption(arg: string) {
    |arg| < 2 || arg[0] != '-'
  }

  function Parse(optstring: string, args: seq<string>): Parsed
    decreases |args|, 1, 0
  {
    if args == [] then Parsed([], [], [], [])
    else if IsNonOption(args[0]) then Prepend([], [], [args[0]], Parse(optstring, args[1..]))
    else if args[0] == "--" then Parsed([], [args[0]], [], args[1..])
    else ParseElement(optstring, args[0][1..], args)
  }

  // The option characters chars are still to come in the element args[0].
  function ParseElement(optstring: string, chars: string, args: seq<string>): Parsed
    requires chars != [] && args != []
    decreases |args|, 0, |chars|
  {
    var c, more := chars[0], chars[1..];
    match KindOf(optstring, c)
    case OptionalArgument =>
      Prepend([Event(c, if more == [] then None else Some(more))], [args[0]], [], Parse(optstring, args[1..]))
    case RequiredArgument =>
      if more != [] then Prepend([Event(c, Some(more))], [args[0]], [], Parse(optstring, args[1..]))
      else if |args| == 1 then Parsed([Event(MissingArgument(optstring), None)], [args[0]], [], [])
      else Prepend([Event(c, Some(args[1]))], [args[0], args[1]], [], Parse(optstring, args[2..]))
    case kind =>
      var e := Event(if kind.Unknown? then '?' else c, None);
      if more == [] then Prepend([e], [args[0]], [], Parse(optstring, args[1..]))
      else Prepend([e], [], [], ParseElement(optstring, more, args))
  }

  // ---- The data between two calls

  class GetoptData {
    var optind: nat
    var nextchar: string        // the rest of the current element; NULL is the empty string here
    var optarg: Option<string>
    var optopt: char
    var initialized: bool
    var firstNonopt: nat
    var lastNonopt: nat

    constructor ()
      ensures optind == 1 && !initialized
    {
      optind, nextchar, optarg, optopt, initialized := 1, [], None, '?', false;
      firstNonopt, lastNonopt := 1, 1;
    }
  }

  // What the rest of the command line adds.
  function Remaining(optstring: string, nextchar: string, args: seq<string>): Parsed
    requires nextchar != [] ==> args != []
  {
    if nextchar == [] then Parse(optstring, args) else ParseElement(optstring, nextchar, args)
  }

  // Between two calls: the options found first, the non-options skipped, the options found since,
  // and the elements still to come. Together with the results so far they make up total.
  ghost predicate Midway(s: seq<string>, optstring: string, first: nat, last: nat, optind: nat, nextchar: string,
                         events: seq<Event>, total: Parsed)
  {
    && 1 <= first <= last <= optind <= |s| && (nextchar != [] ==> optind < |s|)
    && total == Prepend(events, s[1..first] + s[last..optind], s[first..last], Remaining(optstring, nextchar, s[optind..]))
  }

  // After the last call: options, non-options, rest, and optind in front of the non-options.
  ghost predicate Finished(s: seq<string>, program: string, optind: nat, events: seq<Event>, total: Parsed) {
    && s == [program] + total.options + total.others + total.rest
    && optind == 1 + |total.options| && events == total.events
  }

  ghost predicate Inv(s: seq<string>, d: GetoptData, optstring: string, program: string, events: seq<Event>, total: Parsed)
    reads d
  {
    && |s| > 0 && s[0] == program
    && if d.initialized then Midway(s, optstring, d.firstNonopt, d.lastNonopt, d.optind, d.nextchar, events, total)
       else d.optind <= 1 && events == [] && total == Parse(optstring, s[1..])
  }

  // ---- The call

  method Exchange(argv: array<string>, d: GetoptData)
    requires d.firstNonopt <= d.lastNonopt <= d.optind <= argv.Length
    modifies argv, d`firstNonopt, d`lastNonopt
    ensures argv[..] == Exchanged(old(argv[..]), old(d.firstNonopt), old(d.lastNonopt), d.optind)
    ensures d.firstNonopt == old(d.firstNonopt) + (d.optind - old(d.lastNonopt)) && d.lastNonopt == d.optind
  {
    ExchangeBlocks(argv, d.firstNonopt, d.lastNonopt, d.optind);
    d.firstNonopt := d.firstNonopt + (d.optind - d.lastNonopt);
    d.lastNonopt := d.optind;
  }

  // All options so far in front, then the skipped non-options, then the elements to come.
  ghost predicate Sorted(s: seq<string>, optstring: string, first: nat, optind: nat, events: seq<Event>, total: Parsed) {
    && 1 <= first <= optind <= |s|
    && total == Prepend(events, s[1..first], s[first..optind], Parse(optstring, s[optind..]))
  }

  lemma ExchangedIsSorted(s: seq<string>, optstring: string, first: nat, last: nat, optind: nat,
                          events: seq<Event>, total: Parsed, newFirst: nat)
    requires Midway(s, optstring, first, last, optind, [], events, total) && newFirst == first + (optind - last)
    ensures Sorted(Exchanged(s, first, last, optind), optstring, newFirst, optind, events, total)
    ensures Exchanged(s, first, last, optind)[0] == s[0]
  {
    var r := Exchanged(s, first, last, optind);
    assert r[1..newFirst] == s[1..first] + s[last..optind];
    assert r[newFirst..optind] == s[first..last];
    assert r[optind..] == s[optind..];
  }

  // Nothing to exchange: no non-options were skipped, or no options were found since.
  lemma AlreadySorted(s: seq<string>, optstring: string, first: nat, last: nat, optind: nat, events: seq<Event>, total: Parsed)
    requires Midway(s, optstring, first, last, optind, [], events, total) && (first == last || last == optind)
    ensures Sorted(s, optstring, if last != optind then optind else first, optind, events, total)
  {
    if last != optind {
      assert s[1..optind] == s[1..first] + s[last..optind] && s[optind..optind] == s[first..last];
    } else {
      assert s[1..first] + s[last..optind] == s[1..first];
    }
  }

  lemma SkipNonOption(s: seq<string>, optstring: string, first: nat, optind: nat, events: seq<Event>, total: Parsed, next: nat)
    requires Sorted(s, optstring, first, optind, events, total) && optind < |s| && IsNonOption(s[optind]) && next == optind + 1
    ensures Sorted(s, optstring, first, next, events, total)
  {
    assert s[optind..][1..] == s[next..];
    assert s[first..next] == s[first..optind] + [s[optind]];
  }

  // Exchange what was processed since the last call, then skip more non-options.
  method SkipNonOptions(argv: array<string>, optstring: string, d: GetoptData, ghost events: seq<Event>, ghost total: Parsed)
    requires Midway(argv[..], optstring, d.firstNonopt, d.lastNonopt, d.optind, [], events, total)
    modifies argv, d`firstNonopt, d`lastNonopt, d`optind
    ensures Sorted(argv[..], optstring, d.firstNonopt, d.optind, events, total) && d.lastNonopt == d.optind
    ensures d.optind < argv.Length ==> !IsNonOption(argv[d.optind])
    ensures argv[0] == old(argv[0])
  {
    if d.firstNonopt != d.lastNonopt && d.lastNonopt != d.optind {
      ExchangedIsSorted(argv[..], optstring, d.firstNonopt, d.lastNonopt, d.optind, events, total,
                        d.firstNonopt + (d.optind - d.lastNonopt));
      Exchange(argv, d);
    } else {
      AlreadySorted(argv[..], optstring, d.firstNonopt, d.lastNonopt, d.optind, events, total);
      if d.lastNonopt != d.optind {
        d.firstNonopt := d.optind;
      }
    }
    while d.optind < argv.Length && IsNonOption(argv[d.optind])
      invariant Sorted(argv[..], optstring, d.firstNonopt, d.optind, events, total)
      invariant argv[0] == old(argv[0])
      decreases argv.Length - d.optind
    {
      SkipNonOption(argv[..], optstring, d.firstNonopt, d.optind, events, total, d.optind + 1);
      d.optind := d.optind + 1;
    }
    d.lastNonopt := d.optind;
  }

  lemma DashesFinish(s: seq<string>, optstring: string, first: nat, optind: nat, events: seq<Event>, total: Parsed)
    requires Sorted(s, optstring, first, optind, events, total) && optind < |s| && s[optind] == "--"
    ensures var r := Exchanged(s, first, optind, optind + 1); Finished(r, s[0], first + 1, events, total)
    ensures first == optind ==> Exchanged(s, first, optind, optind + 1) == s
  {
    var r := Exchanged(s, first, optind, optind + 1);
    assert s[optind..][1..] == s[optind + 1..] && s[optind..][0] == "--";
    assert total == Parsed(events, s[1..first] + ["--"], s[first..optind], s[optind + 1..]);
    assert r == [s[0]] + total.options + total.others + total.rest;
  }

  lemma EndFinishes(s: seq<string>, optstring: string, first: nat, events: seq<Event>, total: Parsed)
    requires Sorted(s, optstring, first, |s|, events, total)
    ensures Finished(s, s[0], first, events, total)
  {
    assert s[|s|..] == [];
    assert total == Parsed(events, s[1..first], s[first..], []);
    assert s == [s[0]] + total.options + total.others + total.rest;
  }

  // The end of the scan: "--", or the end of the command line.
  method FinishScan(argv: array<string>, optstring: string, d: GetoptData, ghost events: seq<Event>, ghost total: Parsed)
    returns (done: bool)
    requires Sorted(argv[..], optstring, d.firstNonopt, d.optind, events, total) && d.lastNonopt == d.optind
    modifies argv, d`firstNonopt, d`lastNonopt, d`optind
    ensures done ==> Finished(argv[..], old(argv[0]), d.optind, events, total)
    ensures !done ==> argv[..] == old(argv[..]) && d.optind == old(d.optind) < argv.Length && argv[d.optind] != "--"
    ensures !done ==> d.firstNonopt == old(d.firstNonopt) && d.lastNonopt == old(d.lastNonopt)
  {
    ghost var s, first, at := argv[..], d.firstNonopt, d.optind;
    if d.optind != argv.Length && argv[d.optind] == "--" {
      DashesFinish(s, optstring, first, at, events, total);
      d.optind := d.optind + 1;
      if d.firstNonopt != d.lastNonopt && d.lastNonopt != d.optind {
        Exchange(argv, d);
      } else if d.firstNonopt == d.lastNonopt {
        d.firstNonopt := d.optind;
      }
      d.lastNonopt := argv.Length;
      d.optind := argv.Length;
    } else if d.optind == argv.Length {
      EndFinishes(s, optstring, first, events, total);
    }
    if d.optind == argv.Length {
      if d.firstNonopt != d.lastNonopt {
        d.optind := d.firstNonopt;
      }
      return true;
    }
    return false;
  }

  // Midway, one result further, after the current element was used up.
  lemma ElementDone(s: seq<string>, optstring: string, first: nat, last: nat, optind: nat, next: nat, events: seq<Event>,
                    total: Parsed, e: Event, now: Parsed)
    requires 1 <= first <= last <= optind < next <= |s|
    requires total == Prepend(events, s[1..first] + s[last..optind], s[first..last], now)
    requires now == Prepend([e], s[optind..next], [], Parse(optstring, s[next..]))
    ensures Midway(s, optstring, first, last, next, [], events + [e], total)
  {
    assert s[last..next] == s[last..optind] + s[optind..next];
  }

  // Midway, one result further, inside the same element.
  lemma CharacterDone(s: seq<string>, optstring: string, first: nat, last: nat, optind: nat, more: string, events: seq<Event>,
                      total: Parsed, e: Event, now: Parsed)
    requires 1 <= first <= last <= optind < |s| && more != []
    requires total == Prepend(events, s[1..first] + s[last..optind], s[first..last], now)
    requires now == Prepend([e], [], [], ParseElement(optstring, more, s[optind..]))
    ensures Midway(s, optstring, first, last, optind, more, events + [e], total)
  {
  }

  // The option character in front of chars gives e; more and then the arguments from end on are left.
  ghost predicate Taken(s: seq<string>, optstring: string, chars: string, at: nat, e: Event, more: string, end: nat) {
    && chars != [] && at < |s|
    && var now := ParseElement(optstring, chars, s[at..]);
       if more != [] then end == at && now == Prepend([e], [], [], ParseElement(optstring, more, s[at..]))
       else at < end <= |s| && now == Prepend([e], s[at..end], [], Parse(optstring, s[end..]))
  }

  lemma OptionDone(s: seq<string>, optstring: string, first: nat, last: nat, at: nat, chars: string, events: seq<Event>,
                   total: Parsed, e: Event, more: string, end: nat)
    requires Midway(s, optstring, first, last, at, chars, events, total) && Taken(s, optstring, chars, at, e, more, end)
    ensures Midway(s, optstring, first, last, end, more, events + [e], total)
  {
    var now := ParseElement(optstring, chars, s[at..]);
    if more != [] {
      CharacterDone(s, optstring, first, last, at, more, events, total, e, now);
    } else {
      ElementDone(s, optstring, first, last, at, end, events, total, e, now);
    }
  }

  // The next short option character.
  method ShortOption(argv: array<string>, optstring: string, d: GetoptData, ghost events: seq<Event>, ghost total: Parsed)
    returns (c: char)
    requires d.nextchar != [] && d.optarg == None
    requires Midway(argv[..], optstring, d.firstNonopt, d.lastNonopt, d.optind, d.nextchar, events, total)
    modifies d`optind, d`nextchar, d`optarg, d`optopt
    ensures Midway(argv[..], optstring, d.firstNonopt, d.lastNonopt, d.optind, d.nextchar, events + [Event(c, d.optarg)], total)
  {
    ghost var s, first, last, at, chars := argv[..], d.firstNonopt, d.lastNonopt, d.optind, d.nextchar;
    c := d.nextchar[0];
    var temp := StrChr(optstring, c);
    d.nextchar := d.nextchar[1..];
    if d.nextchar == [] {
      d.optind := d.optind + 1;
    }
    if temp == [] || c == ':' {
      d.optopt := c;
      c := '?';
    } else if |temp| > 1 && temp[1] == ':' {
      if |temp| > 2 && temp[2] == ':' {
        if d.nextchar != [] {
          d.optarg := Some(d.nextchar);
          d.optind := d.optind + 1;
        } else {
          d.optarg := None;
        }
      } else {
        if d.nextchar != [] {
          d.optarg := Some(d.nextchar);
          d.optind := d.optind + 1;
        } else if d.optind == argv.Length {
          d.optopt := c;
          c := MissingArgument(optstring);
        } else {
          d.optarg := Some(argv[d.optind]);
          d.optind := d.optind + 1;
        }
      }
      d.nextchar := [];
    }
    ghost var e := Event(c, d.optarg);
    if d.nextchar == [] {
      ElementShape(s, at, d.optind);
    }
    assert Taken(s, optstring, chars, at, e, d.nextchar, d.optind);
    OptionDone(s, optstring, first, last, at, chars, events, total, e, d.nextchar, d.optind);
  }

  lemma ElementShape(s: seq<string>, optind: nat, next: nat)
    requires optind < |s| && optind + 1 <= next <= optind + 2 && next <= |s|
    ensures s[optind..][0] == s[optind] && s[optind..][next - optind..] == s[next..]
    ensures s[optind..next] == if next == optind + 1 then [s[optind]] else [s[optind], s[optind + 1]]
    ensures next == optind + 2 ==> s[optind..][1] == s[optind + 1]
  {
  }

  // PERMUTE ordering, and no "W;" convenience for long options.
  predicate Permutes(optstring: string) {
    && (optstring != [] ==> optstring[0] != '-' && optstring[0] != '+')
    && forall i :: 0 <= i < |optstring| - 1 ==> !(optstring[i] == 'W' && optstring[i + 1] == ';')
  }

  method Initialize(argv: array<string>, optstring: string, d: GetoptData, ghost total: Parsed)
    requires argv.Length > 0 && d.optind == 1 && total == Parse(optstring, argv[..][1..])
    modifies d`firstNonopt, d`lastNonopt, d`nextchar
    ensures Midway(argv[..], optstring, d.firstNonopt, d.lastNonopt, d.optind, d.nextchar, [], total)
  {
    d.firstNonopt, d.lastNonopt := d.optind, d.optind;
    d.nextchar := [];
    assert argv[..][1..1] == [];
  }

  // Advance to the next option element, if there is one.
  method NextElement(argv: array<string>, optstring: string, d: GetoptData, ghost events: seq<Event>, ghost total: Parsed)
    returns (done: bool)
    requires Midway(argv[..], optstring, d.firstNonopt, d.lastNonopt, d.optind, [], events, total)
    modifies argv, d`firstNonopt, d`lastNonopt, d`optind, d`nextchar
    ensures done ==> Finished(argv[..], old(argv[0]), d.optind, events, total)
    ensures !done ==> Midway(argv[..], optstring, d.firstNonopt, d.lastNonopt, d.optind, d.nextchar, events, total)
    ensures !done ==> d.nextchar != [] && argv[0] == old(argv[0])
  {
    SkipNonOptions(argv, optstring, d, events, total);
    done := FinishScan(argv, optstring, d, events, total);
    if !done {
      StartElement(argv[..], optstring, d.firstNonopt, d.optind, events, total);
      d.nextchar := argv[d.optind][1..];
    }
  }

  // One call; None is the result -1.
  method GetoptInternalR(argv: array<string>, optstring: string, d: GetoptData, ghost program: string,
                         ghost events: seq<Event>, ghost total: Parsed)
    returns (result: Option<char>)
    requires Permutes(optstring) && (argv.Length > 0 ==> Inv(argv[..], d, optstring, program, events, total))
    modifies argv, d
    ensures argv.Length == 0 ==> result.None?
    ensures result.Some? ==> d.initialized && Inv(argv[..], d, optstring, program, events + [Event(result.value, d.optarg)], total)
    ensures result.None? && argv.Length > 0 ==> Finished(argv[..], program, d.optind, events, total)
  {
    if argv.Length < 1 {
      return None;
    }
    d.optarg := None;
    if d.optind == 0 || !d.initialized {
      if d.optind == 0 {
        d.optind := 1;
      }
      Initialize(argv, optstring, d, total);
      d.initialized := true;
    }
    if d.nextchar == [] {
      var done := NextElement(argv, optstring, d, events, total);
      if done {
        return None;
      }
    }
    var c := ShortOption(argv, optstring, d, events, total);
    result := Some(c);
  }

  lemma StartElement(s: seq<string>, optstring: string, first: nat, optind: nat, events: seq<Event>, total: Parsed)
    requires Sorted(s, optstring, first, optind, events, total)
    requires optind < |s| && !IsNonOption(s[optind]) && s[optind] != "--"
    ensures Midway(s, optstring, first, optind, optind, s[optind][1..], events, total)
  {
    assert s[1..first] + s[optind..optind] == s[1..first];
  }

  // The whole run. Repeated calls deliver the results of the command line one by one and end with
  // -1; then argv holds the program name, the options with their arguments and the "--", the
  // skipped non-options in their order, and what followed the "--", and optind stands in front
  // of the non-options.
  method RunGetopt(argv: array<string>, optstring: string, d: GetoptData) returns (results: seq<Event>)
    requires Permutes(optstring) && argv.Length > 0 && !d.initialized && d.optind <= 1
    modifies argv, d
    ensures var p := Parse(optstring, old(argv[1..]));
            && results == p.events
            && argv[..] == [old(argv[0])] + p.options + p.others + p.rest
            && d.optind == 1 + |p.options|
  {
    ghost var program, total := argv[0], Parse(optstring, argv[1..]);
    results := [];
    assert argv[..][1..] == argv[1..];
    while true
      invariant Inv(argv[..], d, optstring, program, results, total)
      decreases |total.events| - |results|
    {
      var result := GetoptInternalR(argv, optstring, d, program, results, total);
      if result.None? {
        break;
      }
      results := results + [Event(result.value, d.optarg)];
    }
  }

  // ---- What the final order keeps

  // s is made of a and b, both in order.
  ghost predicate Interleaved(s: seq<string>, a: seq<string>, b: seq<string>)
    decreases |s|
  {
    if s == [] then a == [] && b == []
    else
      || (a != [] && a[0] == s[0] && Interleaved(s[1..], a[1..], b))
      || (b != [] && b[0] == s[0] && Interleaved(s[1..], a, b[1..]))
  }

  // The command line is its options and non-options, both in order, and then the rest.
  ghost predicate Merges(args: seq<string>, p: Parsed) {
    && |p.rest| <= |args| && args[|args| - |p.rest|..] == p.rest
    && Interleaved(args[..|args| - |p.rest|], p.options, p.others)
    && forall other :: other in p.others ==> IsNonOption(other)
  }

  lemma MergesOption(args: seq<string>, events: seq<Event>, q: Parsed)
    requires args != [] && Merges(args[1..], q)
    ensures Merges(args, Prepend(events, [args[0]], [], q))
  {
    var p, n := Prepend(events, [args[0]], [], q), |args| - |q.rest|;
    assert args[n..] == args[1..][n - 1..] && args[..n][1..] == args[1..][..n - 1];
    assert p.options[1..] == q.options && p.others == q.others;
  }

  lemma MergesSame(args: seq<string>, p: Parsed, q: Parsed)
    requires Merges(args, q) && p.options == q.options && p.others == q.others && p.rest == q.rest
    ensures Merges(args, p)
  {
  }

  lemma MergesTwo(args: seq<string>, events: seq<Event>, q: Parsed)
    requires |args| > 1 && Merges(args[2..], q)
    ensures Merges(args, Prepend(events, [args[0], args[1]], [], q))
  {
    var r := Prepend([], [args[1]], [], q);
    assert args[1..][1..] == args[2..];
    MergesOption(args[1..], [], q);
    MergesOption(args, events, r);
    assert [args[0], args[1]] + q.options == [args[0]] + ([args[1]] + q.options);
    assert [] + q.others == [] + ([] + q.others);
  }

  lemma MergesOther(args: seq<string>, q: Parsed)
    requires args != [] && Merges(args[1..], q) && IsNonOption(args[0])
    ensures Merges(args, Prepend([], [], [args[0]], q))
  {
    var p, n := Prepend([], [], [args[0]], q), |args| - |q.rest|;
    assert args[n..] == args[1..][n - 1..] && args[..n][1..] == args[1..][..n - 1];
    assert p.others[1..] == q.others && p.options == q.options;
  }

  lemma {:induction false} ParseMerges(optstring: string, args: seq<string>)
    ensures Merges(args, Parse(optstring, args))
    decreases |args|, 1, 0
  {
    if args != [] {
      if IsNonOption(args[0]) {
        ParseMerges(optstring, args[1..]);
        MergesOther(args, Parse(optstring, args[1..]));
      } else if args[0] == "--" {
        assert args[..1] == ["--"] && ["--"][1..] == [];
        assert Interleaved([], [], []);
      } else {
        ElementMerges(optstring, args[0][1..], args);
      }
    }
  }

  lemma {:induction false} ElementMerges(optstring: string, chars: string, args: seq<string>)
    requires chars != [] && args != []
    ensures Merges(args, ParseElement(optstring, chars, args))
    decreases |args|, 0, |chars|
  {
    var p, more, kind := ParseElement(optstring, chars, args), chars[1..], KindOf(optstring, chars[0]);
    if GoesOn(more, kind) {
      ElementMerges(optstring, more, args);
      MoreOfElement(optstring, chars, args);
      MergesSame(args, p, ParseElement(optstring, more, args));
    } else if TakesNext(more, kind, args) {
      ParseMerges(optstring, args[2..]);
      MergesTwo(args, [], Parse(optstring, args[2..]));
      EndOfElement(optstring, chars, args);
      MergesSame(args, p, Prepend([], [args[0], args[1]], [], Parse(optstring, args[2..])));
    } else {
      ParseMerges(optstring, args[1..]);
      MergesOption(args, [], Parse(optstring, args[1..]));
      EndOfElement(optstring, chars, args);
      MergesSame(args, p, Prepend([], [args[0]], [], Parse(optstring, args[1..])));
    }
  }

  predicate GoesOn(more: string, kind: Kind) {
    more != [] && (kind.Unknown? || kind.NoArgument?)
  }

  predicate TakesNext(more: string, kind: Kind, args: seq<string>) {
    more == [] && kind.RequiredArgument? && |args| > 1
  }

  lemma MoreOfElement(optstring: string, chars: string, args: seq<string>)
    requires chars != [] && args != [] && GoesOn(chars[1..], KindOf(optstring, chars[0]))
    ensures var p, q := ParseElement(optstring, chars, args), ParseElement(optstring, chars[1..], args);
            p.options == q.options && p.others == q.others && p.rest == q.rest
  {
  }

  // Where the rest of the command line goes on.
  lemma EndOfElement(optstring: string, chars: string, args: seq<string>)
    requires chars != [] && args != [] && !GoesOn(chars[1..], KindOf(optstring, chars[0]))
    ensures var p, taken := ParseElement(optstring, chars, args), TakesNext(chars[1..], KindOf(optstring, chars[0]), args);
            if taken then
              var q := Parse(optstring, args[2..]);
              p.options == [args[0], args[1]] + q.options && p.others == [] + q.others && p.rest == q.rest
            else
              var q := Parse(optstring, args[1..]);
              p.options == [args[0]] + q.options && p.others == [] + q.others && p.rest == q.rest
  {
  }

  // Nothing is lost, doubled or changed.
  lemma {:induction false} InterleavedElements(s: seq<string>, a: seq<string>, b: seq<string>)
    requires Interleaved(s, a, b)
    ensures multiset(s) == multiset(a) + multiset(b)
    decreases |s|
  {
    if s != [] {
      assert s == [s[0]] + s[1..];
      if a != [] && a[0] == s[0] && Interleaved(s[1..], a[1..], b) {
        assert a == [a[0]] + a[1..];
        InterleavedElements(s[1..], a[1..], b);
      } else {
        assert b == [b[0]] + b[1..];
        InterleavedElements(s[1..], a, b[1..]);
      }
    }
  }

  lemma RunIsPermutation(optstring: string, args: seq<string>)
    ensures var p := Parse(optstring, args); multiset(p.options + p.others + p.rest) == multiset(args)
  {
    var p := Parse(optstring, args);
    var n := |args| - |p.rest|;
    ParseMerges(optstring, args);
    InterleavedElements(args[..n], p.options, p.others);
    assert args == args[..n] + args[n..];
  }
}

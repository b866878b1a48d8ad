/** What getopt delivers: any results, written out as arguments in any of the ways there are, come
    back one by one. */
module GetoptEvents {
  import opened Wrappers
  import opened Getopt

  // ---- The option string

  // An option character and the number of colons behind it: none for a plain option, one for an
  // option with an argument, two for one that may have an argument.
  datatype OptionSpec = OptionSpec(c: char, colons: nat)

  function Colons(n: nat): (r: string)
    ensures |r| == n && forall i :: 0 <= i < n ==> r[i] == ':'
  {
    seq(n, i => ':')
  }

  function OptString(specs: seq<OptionSpec>): string {
    if specs == [] then "" else [specs[0].c] + Colons(specs[0].colons) + OptString(specs[1..])
  }

  ghost predicate WellFormed(specs: seq<OptionSpec>) {
    && (forall o :: o in specs ==> o.c != ':' && o.colons <= 2)
    && forall i, j :: 0 <= i < j < |specs| ==> specs[i].c != specs[j].c
  }

  // A colon in front of all option characters.
  ghost predicate Describes(optstring: string, specs: seq<OptionSpec>) {
    WellFormed(specs) && (optstring == OptString(specs) || optstring == ":" + OptString(specs))
  }

  lemma {:induction false} SkipColons(n: nat, rest: string, c: char)
    requires c != ':'
    ensures StrChr(Colons(n) + rest, c) == StrChr(rest, c)
  {
    if n == 0 {
      assert Colons(n) + rest == rest;
    } else {
      assert (Colons(n) + rest)[1..] == Colons(n - 1) + rest;
      SkipColons(n - 1, rest, c);
    }
  }

  lemma SkipSpec(specs: seq<OptionSpec>, c: char)
    requires specs != [] && specs[0].c != c && c != ':'
    ensures StrChr(OptString(specs), c) == StrChr(OptString(specs[1..]), c)
  {
    var s := OptString(specs);
    assert s[1..] == Colons(specs[0].colons) + OptString(specs[1..]);
    SkipColons(specs[0].colons, OptString(specs[1..]), c);
  }

  lemma {:induction false} FindsSpec(specs: seq<OptionSpec>, o: OptionSpec) returns (more: seq<OptionSpec>)
    requires WellFormed(specs) && o in specs
    ensures WellFormed(more) && StrChr(OptString(specs), o.c) == [o.c] + Colons(o.colons) + OptString(more)
  {
    if specs[0] == o {
      more := specs[1..];
    } else {
      assert o in specs[1..];
      more := FindsSpec(specs[1..], o);
      SkipSpec(specs, o.c);
    }
  }

  lemma {:induction false} FindsNone(specs: seq<OptionSpec>, c: char)
    requires c != ':' && forall o :: o in specs ==> o.c != c
    ensures StrChr(OptString(specs), c) == ""
  {
    if specs != [] {
      SkipSpec(specs, c);
      FindsNone(specs[1..], c);
    }
  }

  lemma FrontColon(optstring: string, specs: seq<OptionSpec>, c: char)
    requires Describes(optstring, specs) && c != ':'
    ensures StrChr(optstring, c) == StrChr(OptString(specs), c)
  {
    if optstring == ":" + OptString(specs) {
      assert optstring[1..] == OptString(specs);
    }
  }

  lemma KindIs(optstring: string, specs: seq<OptionSpec>, o: OptionSpec)
    requires Describes(optstring, specs) && o in specs
    ensures KindOf(optstring, o.c) == [NoArgument, RequiredArgument, OptionalArgument][o.colons]
  {
    var more := FindsSpec(specs, o);
    FrontColon(optstring, specs, o.c);
    var temp := StrChr(optstring, o.c);
    assert more != [] ==> OptString(more)[0] == more[0].c != ':';
    assert |temp| > 1 + o.colons ==> temp[1 + o.colons] == OptString(more)[0];
  }

  lemma KindUnknown(optstring: string, specs: seq<OptionSpec>, c: char)
    requires Describes(optstring, specs) && forall o :: o in specs ==> o.c != c
    ensures KindOf(optstring, c) == Unknown
  {
    if c != ':' {
      FrontColon(optstring, specs, c);
      FindsNone(specs, c);
    }
  }

  // ---- Results and how they are written

  // How an element ends, behind the option characters without arguments.
  datatype End =
    | Nothing
    | Without(c: char)                    // an option that may have an argument and has none
    | Attached(c: char, value: string)    // an argument in the same element
    | Separate(c: char, value: string)    // an argument in the next one

  datatype Word =
    | Other(arg: string)
    | Element(flags: string, end: End)

  // The end of the element, and the argument behind it.
  function EndText(end: End): string {
    match end
    case Nothing => ""
    case Without(c) => [c]
    case Attached(c, value) => [c] + value
    case Separate(c, _) => [c]
  }

  function Behind(end: End): seq<string> {
    if end.Separate? then [end.value] else []
  }

  function Spelled(w: Word): seq<string> {
    match w
    case Other(arg) => [arg]
    case Element(flags, end) => ["-" + (flags + EndText(end))] + Behind(end)
  }

  function Args(words: seq<Word>): seq<string> {
    if words == [] then [] else Spelled(words[0]) + Args(words[1..])
  }

  // Which of them are options with their arguments, and which are not.
  function OptionArgs(words: seq<Word>): seq<string> {
    if words == [] then [] else (if words[0].Other? then [] else Spelled(words[0])) + OptionArgs(words[1..])
  }

  function OtherArgs(words: seq<Word>): seq<string> {
    if words == [] then [] else (if words[0].Other? then Spelled(words[0]) else []) + OtherArgs(words[1..])
  }

  // The results: a plain option gives its character, an unknown one a question mark.
  function FlagResults(specs: seq<OptionSpec>, flags: string): (r: seq<Event>)
    ensures |r| == |flags|
  {
    seq(|flags|, i requires 0 <= i < |flags| => Event(if OptionSpec(flags[i], 0) in specs then flags[i] else '?', None))
  }

  function EndResults(end: End): seq<Event> {
    match end
    case Nothing => []
    case Without(c) => [Event(c, None)]
    case Attached(c, value) => [Event(c, Some(value))]
    case Separate(c, value) => [Event(c, Some(value))]
  }

  function WordResults(specs: seq<OptionSpec>, w: Word): seq<Event> {
    match w
    case Other(_) => []
    case Element(flags, end) => FlagResults(specs, flags) + EndResults(end)
  }

  function Results(specs: seq<OptionSpec>, words: seq<Word>): seq<Event> {
    if words == [] then [] else WordResults(specs, words[0]) + Results(specs, words[1..])
  }

  // A bundle of characters without arguments.
  predicate Flags(specs: seq<OptionSpec>, flags: string) {
    forall f :: f in flags ==> OptionSpec(f, 1) !in specs && OptionSpec(f, 2) !in specs
  }

  // The word can be written like this.
  predicate Proper(specs: seq<OptionSpec>, w: Word) {
    match w
    case Other(arg) => |arg| < 2 || arg[0] != '-'
    case Element(flags, end) =>
      Flags(specs, flags) && ProperEnd(specs, end) && flags + EndText(end) != "" && flags + EndText(end) != "-"
  }

  lemma FlagKind(optstring: string, specs: seq<OptionSpec>, f: char)
    requires Describes(optstring, specs) && OptionSpec(f, 1) !in specs && OptionSpec(f, 2) !in specs
    ensures KindOf(optstring, f) == if OptionSpec(f, 0) in specs then NoArgument else Unknown
  {
    if OptionSpec(f, 0) in specs {
      KindIs(optstring, specs, OptionSpec(f, 0));
    } else {
      forall o | o in specs
        ensures o.c != f
      {
        assert o == OptionSpec(o.c, o.colons);
      }
      KindUnknown(optstring, specs, f);
    }
  }

  lemma PrependTwice(a: seq<Event>, b: seq<string>, c: seq<string>, d: seq<Event>, e: seq<string>, f: seq<string>, p: Parsed)
    ensures Prepend(a, b, c, Prepend(d, e, f, p)) == Prepend(a + d, b + e, c + f, p)
  {
    assert a + (d + p.events) == a + d + p.events;
    assert b + (e + p.options) == b + e + p.options && c + (f + p.others) == c + f + p.others;
  }

  lemma PrependNothing(p: Parsed)
    ensures Prepend([], [], [], p) == p
  {
  }

  // What the rest of an element and the arguments behind it give.
  function RestParsed(optstring: string, more: string, args: seq<string>): Parsed
    requires args != []
  {
    if more == "" then Prepend([], [args[0]], [], Parse(optstring, args[1..])) else ParseElement(optstring, more, args)
  }

  lemma FlagNext(optstring: string, specs: seq<OptionSpec>, f: char, more: string, args: seq<string>)
    requires Describes(optstring, specs) && OptionSpec(f, 1) !in specs && OptionSpec(f, 2) !in specs && args != []
    ensures RestParsed(optstring, [f] + more, args)
         == Prepend([Event(if OptionSpec(f, 0) in specs then f else '?', None)], [], [], RestParsed(optstring, more, args))
  {
    var e := Event(if OptionSpec(f, 0) in specs then f else '?', None);
    FlagKind(optstring, specs, f);
    assert ([f] + more)[1..] == more;
    if more == "" {
      PrependTwice([e], [], [], [], [args[0]], [], Parse(optstring, args[1..]));
    }
  }

  lemma FlagsCons(specs: seq<OptionSpec>, flags: string)
    requires flags != ""
    ensures FlagResults(specs, flags)
         == [Event(if OptionSpec(flags[0], 0) in specs then flags[0] else '?', None)] + FlagResults(specs, flags[1..])
  {
  }

  lemma FirstChar(flags: string, more: string)
    requires flags != ""
    ensures flags + more == [flags[0]] + (flags[1..] + more)
  {
  }

  // The characters in front are delivered one by one.
  lemma {:induction false} FlagsParse(optstring: string, specs: seq<OptionSpec>, flags: string, more: string, args: seq<string>)
    requires Describes(optstring, specs) && Flags(specs, flags) && args != []
    ensures RestParsed(optstring, flags + more, args)
         == Prepend(FlagResults(specs, flags), [], [], RestParsed(optstring, more, args))
    decreases |flags|
  {
    if flags == "" {
      assert flags + more == more;
      PrependNothing(RestParsed(optstring, more, args));
    } else {
      FlagsParse(optstring, specs, flags[1..], more, args);
      FlagNext(optstring, specs, flags[0], flags[1..] + more, args);
      FirstChar(flags, more);
      FlagsCons(specs, flags);
      PrependTwice([Event(if OptionSpec(flags[0], 0) in specs then flags[0] else '?', None)], [], [],
                   FlagResults(specs, flags[1..]), [], [], RestParsed(optstring, more, args));
    }
  }

  // What has to hold of the end for it to be read back.
  predicate ProperEnd(specs: seq<OptionSpec>, end: End) {
    match end
    case Nothing => true
    case Without(c) => OptionSpec(c, 2) in specs
    case Attached(c, value) => value != "" && (OptionSpec(c, 1) in specs || OptionSpec(c, 2) in specs)
    case Separate(c, _) => OptionSpec(c, 1) in specs
  }

  lemma EndParses(optstring: string, specs: seq<OptionSpec>, end: End, args: seq<string>, tail: seq<string>)
    requires Describes(optstring, specs) && ProperEnd(specs, end) && args != [] && args[1..] == Behind(end) + tail
    ensures RestParsed(optstring, EndText(end), args)
         == Prepend(EndResults(end), [args[0]] + Behind(end), [], Parse(optstring, tail))
  {
    match end
    case Nothing =>
      assert args[1..] == tail;
    case Without(c) =>
      KindIs(optstring, specs, OptionSpec(c, 2));
      assert args[1..] == tail;
    case Attached(c, value) =>
      KindIs(optstring, specs, if OptionSpec(c, 1) in specs then OptionSpec(c, 1) else OptionSpec(c, 2));
      assert ([c] + value)[1..] == value && args[1..] == tail;
    case Separate(c, value) =>
      KindIs(optstring, specs, OptionSpec(c, 1));
      assert args[1] == args[1..][0] == value && args[2..] == args[1..][1..] == tail;
      assert [args[0], args[1]] == [args[0]] + Behind(end);
  }

  lemma ElementStarts(optstring: string, args: seq<string>, text: string)
    requires args != [] && args[0] == "-" + text && text != "" && text != "-"
    ensures Parse(optstring, args) == RestParsed(optstring, text, args)
  {
    assert args[0][1..] == text && args[0][0] == '-';
  }

  lemma ElementParses(optstring: string, specs: seq<OptionSpec>, flags: string, end: End, tail: seq<string>)
    requires Describes(optstring, specs) && Proper(specs, Element(flags, end))
    ensures Parse(optstring, Spelled(Element(flags, end)) + tail)
         == Prepend(FlagResults(specs, flags) + EndResults(end), Spelled(Element(flags, end)), [], Parse(optstring, tail))
  {
    var text := flags + EndText(end);
    var args := ["-" + text] + Behind(end) + tail;
    assert args[0] == "-" + text && args[1..] == Behind(end) + tail;
    ElementStarts(optstring, args, text);
    FlagsParse(optstring, specs, flags, EndText(end), args);
    EndParses(optstring, specs, end, args, tail);
    PrependTwice(FlagResults(specs, flags), [], [], EndResults(end), [args[0]] + Behind(end), [], Parse(optstring, tail));
  }

  lemma WordParses(optstring: string, specs: seq<OptionSpec>, w: Word, tail: seq<string>)
    requires Describes(optstring, specs) && Proper(specs, w)
    ensures Parse(optstring, Spelled(w) + tail)
         == Prepend(WordResults(specs, w), if w.Other? then [] else Spelled(w), if w.Other? then Spelled(w) else [],
                    Parse(optstring, tail))
  {
    match w
    case Other(arg) =>
      var args := [arg] + tail;
      assert args[0] == arg && args[1..] == tail;
    case Element(flags, end) =>
      ElementParses(optstring, specs, flags, end, tail);
  }

  lemma ArgsCons(words: seq<Word>, tail: seq<string>)
    requires words != []
    ensures Args(words) + tail == Spelled(words[0]) + (Args(words[1..]) + tail)
  {
  }

  // However results are written, and whatever follows them, they are delivered first.
  lemma {:induction false} WordsParse(optstring: string, specs: seq<OptionSpec>, words: seq<Word>, tail: seq<string>)
    requires Describes(optstring, specs) && forall w :: w in words ==> Proper(specs, w)
    ensures Parse(optstring, Args(words) + tail)
         == Prepend(Results(specs, words), OptionArgs(words), OtherArgs(words), Parse(optstring, tail))
  {
    if words == [] {
      assert Args(words) + tail == tail;
      PrependNothing(Parse(optstring, tail));
    } else {
      var w, rest := words[0], words[1..];
      WordsParse(optstring, specs, rest, tail);
      WordParses(optstring, specs, w, Args(rest) + tail);
      ArgsCons(words, tail);
      PrependTwice(WordResults(specs, w), if w.Other? then [] else Spelled(w), if w.Other? then Spelled(w) else [],
                   Results(specs, rest), OptionArgs(rest), OtherArgs(rest), Parse(optstring, tail));
    }
  }

  // ---- How a command line ends

  // Nothing is delivered for the end or for what follows a "--".
  lemma NothingBehindDashes(optstring: string, rest: seq<string>)
    ensures Parse(optstring, []) == Parsed([], [], [], []) && Parse(optstring, ["--"] + rest) == Parsed([], ["--"], [], rest)
  {
  }

  // An argument that is missing at the end gives a colon if the option string starts with one, and
  // a question mark otherwise.
  lemma MissingAtEnd(optstring: string, specs: seq<OptionSpec>, flags: string, c: char)
    requires Describes(optstring, specs) && Flags(specs, flags) && OptionSpec(c, 1) in specs && (flags == "" ==> c != '-')
    ensures Parse(optstring, ["-" + (flags + [c])]).events
         == FlagResults(specs, flags) + [Event(if optstring == ":" + OptString(specs) then ':' else '?', None)]
  {
    var args := ["-" + (flags + [c])];
    assert (flags + [c])[|flags|] == c;
    assert flags + [c] == "-" ==> flags == "";
    ElementStarts(optstring, args, flags + [c]);
    FlagsParse(optstring, specs, flags, [c], args);
    KindIs(optstring, specs, OptionSpec(c, 1));
    assert specs[0] in specs && OptString(specs)[0] == specs[0].c;
  }

  // ---- The run

  lemma OneResult(specs: seq<OptionSpec>, e: Event) returns (w: Word)
    requires Writable(specs, e)
    ensures WordResults(specs, w) == [e] && Proper(specs, w)
  {
    if e.arg.None? {
      w := Element([e.c], Nothing);
      assert [e.c] + EndText(Nothing) == [e.c] && [e.c][0] != '-';
    } else {
      w := Element("", Separate(e.c, e.arg.value));
      assert "" + EndText(w.end) == [e.c] && [e.c][0] != '-';
      assert FlagResults(specs, "") == [];
    }
  }

  // A plain option, or one with an argument.
  ghost predicate Writable(specs: seq<OptionSpec>, e: Event) {
    && e.c != '-'
    && if e.arg.Some? then OptionSpec(e.c, 1) in specs
       else OptionSpec(e.c, 0) in specs && OptionSpec(e.c, 1) !in specs && OptionSpec(e.c, 2) !in specs
  }

  // Any list of such results can be written out.
  lemma {:induction false} AnyResults(specs: seq<OptionSpec>, results: seq<Event>) returns (words: seq<Word>)
    requires forall e :: e in results ==> Writable(specs, e)
    ensures Results(specs, words) == results && forall w :: w in words ==> Proper(specs, w)
  {
    if results == [] {
      words := [];
    } else {
      var more := AnyResults(specs, results[1..]);
      var w := OneResult(specs, results[0]);
      words := [w] + more;
      assert words[1..] == more;
    }
  }

  // A whole command line: words, and then perhaps "--" and a rest.
  lemma LineParses(optstring: string, specs: seq<OptionSpec>, words: seq<Word>, dashes: seq<string>, rest: seq<string>)
    requires Describes(optstring, specs) && forall w :: w in words ==> Proper(specs, w)
    requires dashes == ["--"] || (dashes == [] && rest == [])
    ensures Parse(optstring, Args(words) + (dashes + rest))
         == Parsed(Results(specs, words), OptionArgs(words) + dashes, OtherArgs(words), rest)
  {
    WordsParse(optstring, specs, words, dashes + rest);
    NothingBehindDashes(optstring, rest);
  }

  // The run on such a command line. Its results are delivered, and in the end the arguments stand
  // in order: the program, the options with their arguments, the "--", the others, the rest.
  method RunWritten(argv: array<string>, optstring: string, d: GetoptData, ghost specs: seq<OptionSpec>,
                    ghost words: seq<Word>, ghost dashes: seq<string>, ghost rest: seq<string>)
    returns (results: seq<Event>)
    requires Permutes(optstring) && Describes(optstring, specs) && !d.initialized && d.optind <= 1
    requires argv.Length > 0 && argv[1..] == Args(words) + (dashes + rest) && forall w :: w in words ==> Proper(specs, w)
    requires dashes == ["--"] || (dashes == [] && rest == [])
    modifies argv, d
    ensures results == Results(specs, words)
    ensures argv[..] == [old(argv[0])] + (OptionArgs(words) + dashes) + OtherArgs(words) + rest
    ensures d.optind == 1 + |OptionArgs(words) + dashes|
  {
    LineParses(optstring, specs, words, dashes, rest);
    results := RunGetopt(argv, optstring, d);
  }

  // The same when the last option lacks its argument.
  method RunMissing(argv: array<string>, optstring: string, d: GetoptData, ghost specs: seq<OptionSpec>,
                    ghost words: seq<Word>, ghost flags: string, ghost c: char)
    returns (results: seq<Event>)
    requires Permutes(optstring) && Describes(optstring, specs) && !d.initialized && d.optind <= 1
    requires argv.Length > 0 && argv[1..] == Args(words) + ["-" + (flags + [c])] && forall w :: w in words ==> Proper(specs, w)
    requires Flags(specs, flags) && OptionSpec(c, 1) in specs && (flags == "" ==> c != '-')
    modifies argv, d
    ensures results == Results(specs, words) + FlagResults(specs, flags)
                       + [Event(if optstring == ":" + OptString(specs) then ':' else '?', None)]
  {
    WordsParse(optstring, specs, words, ["-" + (flags + [c])]);
    MissingAtEnd(optstring, specs, flags, c);
    results := RunGetopt(argv, optstring, d);
  }
}

/** Escaping of chat messages, and a chat line as one command of the hub stream. */
module Messages {
  import opened Bytes
  import opened HubStream

  const DOLLAR: byte := 36
  const AMPERSAND: byte := 38
  const AMP: seq<byte> := [38, 97, 109, 112, 59]           // &amp;
  const DOLLAR_CODE: seq<byte> := [38, 35, 51, 54, 59]     // &#36;
  const BAR_CODE: seq<byte> := [38, 35, 49, 50, 52, 59]    // &#124;

  function EscapedByte(b: byte): seq<byte> {
    if b == DOLLAR then DOLLAR_CODE else if b == AMPERSAND then AMP else if b == BAR then BAR_CODE else [b]
  }

  function Escaped(s: seq<byte>): seq<byte> {
    if s == [] then [] else EscapedByte(s[0]) + Escaped(s[1..])
  }

  predicate StartsWith(s: seq<byte>, prefix: seq<byte>) {
    |prefix| <= |s| && s[..|prefix|] == prefix
  }

  // The first character of an escaped text and the number of bytes it takes.
  function FirstUnescaped(s: seq<byte>): (r: (byte, nat))
    requires s != []
    ensures 1 <= r.1 <= |s|
  {
    if StartsWith(s, AMP) then (AMPERSAND, 5)
    else if StartsWith(s, DOLLAR_CODE) then (DOLLAR, 5)
    else if StartsWith(s, BAR_CODE) then (BAR, 6)
    else (s[0], 1)
  }

  function Unescaped(s: seq<byte>): seq<byte>
    decreases |s|
  {
    if s == [] then [] else [FirstUnescaped(s).0] + Unescaped(s[FirstUnescaped(s).1..])
  }

  lemma {:induction false} EscapedAppend(s: seq<byte>, b: byte)
    ensures Escaped(s + [b]) == Escaped(s) + EscapedByte(b)
  {
    if s == [] {
      assert s + [b] == [b] && [b][1..] == [];
    } else {
      assert (s + [b])[1..] == s[1..] + [b];
      EscapedAppend(s[1..], b);
    }
  }

  method EscapeMessage(str: seq<byte>) returns (out: seq<byte>)
    ensures out == Escaped(str)
  {
    out := [];
    for i := 0 to |str|
      invariant out == Escaped(str[..i])
    {
      EscapedAppend(str[..i], str[i]);
      assert str[..i + 1] == str[..i] + [str[i]];
      if str[i] == DOLLAR {
        out := out + DOLLAR_CODE;
      } else if str[i] == AMPERSAND {
        out := out + AMP;
      } else if str[i] == BAR {
        out := out + BAR_CODE;
      } else {
        out := out + [str[i]];
      }
    }
    assert str[..|str|] == str;
  }

  // The output never outgrows the input, so it fits the buffer of that size.
  method UnescapeMessage(str: seq<byte>) returns (out: seq<byte>)
    ensures out == Unescaped(str) && |out| <= |str|
  {
    out := [];
    var i: nat := 0;
    assert str[0..] == str;
    while i < |str|
      invariant i <= |str| && |out| <= i
      invariant out + Unescaped(str[i..]) == Unescaped(str)
    {
      var rest := str[i..];
      ghost var first := FirstUnescaped(rest);
      assert rest[first.1..] == str[i + first.1..];
      assert out + ([first.0] + Unescaped(rest[first.1..])) == out + [first.0] + Unescaped(rest[first.1..]);
      if StartsWith(rest, AMP) {
        out, i := out + [AMPERSAND], i + 5;
      } else if StartsWith(rest, DOLLAR_CODE) {
        out, i := out + [DOLLAR], i + 5;
      } else if StartsWith(rest, BAR_CODE) {
        out, i := out + [BAR], i + 6;
      } else {
        out, i := out + [str[i]], i + 1;
      }
    }
  }

  lemma CodesDiffer(rest: seq<byte>)
    ensures StartsWith(AMP + rest, AMP)
    ensures StartsWith(DOLLAR_CODE + rest, DOLLAR_CODE) && !StartsWith(DOLLAR_CODE + rest, AMP)
    ensures StartsWith(BAR_CODE + rest, BAR_CODE) && !StartsWith(BAR_CODE + rest, AMP) && !StartsWith(BAR_CODE + rest, DOLLAR_CODE)
  {
    assert (DOLLAR_CODE + rest)[..5][1] == 35 && (BAR_CODE + rest)[..5][1] == 35 && AMP[1] == 97;
    assert (BAR_CODE + rest)[..5][2] == 49 && DOLLAR_CODE[2] == 51;
    assert (AMP + rest)[..5] == AMP && (DOLLAR_CODE + rest)[..5] == DOLLAR_CODE && (BAR_CODE + rest)[..6] == BAR_CODE;
  }

  // Only an ampersand starts a code.
  lemma NoCode(s: seq<byte>, code: seq<byte>)
    requires s != [] && code != [] && s[0] != code[0]
    ensures !StartsWith(s, code)
  {
    if |code| <= |s| {
      assert s[..|code|][0] == s[0];
    }
  }

  lemma FirstOfEscaped(b: byte, rest: seq<byte>)
    ensures FirstUnescaped(EscapedByte(b) + rest) == (b, |EscapedByte(b)|)
  {
    CodesDiffer(rest);
    var s := EscapedByte(b) + rest;
    if b != DOLLAR && b != AMPERSAND && b != BAR {
      assert s[0] == b;
      NoCode(s, AMP);
      NoCode(s, DOLLAR_CODE);
      NoCode(s, BAR_CODE);
    }
  }

  lemma UnescapesFirst(b: byte, rest: seq<byte>)
    ensures Unescaped(EscapedByte(b) + rest) == [b] + Unescaped(rest)
  {
    var code := EscapedByte(b);
    FirstOfEscaped(b, rest);
    assert (code + rest)[|code|..] == rest;
  }

  // Unescaping undoes escaping.
  lemma {:induction false} UnescapeOfEscape(s: seq<byte>)
    ensures Unescaped(Escaped(s)) == s
  {
    if s != [] {
      UnescapesFirst(s[0], Escaped(s[1..]));
      UnescapeOfEscape(s[1..]);
    }
  }

  // An escaped text can stand inside a command.
  lemma {:induction false} EscapedIsSafe(s: seq<byte>)
    ensures DOLLAR !in Escaped(s) && BAR !in Escaped(s)
  {
    if s != [] {
      EscapedIsSafe(s[1..]);
    }
  }

  // "<nick> text|"; the separator marks the character set.
  function ChatLine(nick: seq<byte>, separator: byte, text: seq<byte>): seq<byte> {
    [60] + nick + [62, separator] + Escaped(text)
  }

  lemma SafeParts(nick: seq<byte>, separator: byte, text: seq<byte>)
    requires BAR !in nick && separator != BAR
    ensures BAR !in ChatLine(nick, separator, text)
  {
    EscapedIsSafe(text);
  }

  // A chat line is received as exactly one command, whatever its text, as long as the nick has
  // no bar; a nick with a bar breaks it up.
  lemma ChatLineIsOneCommand(nick: seq<byte>, separator: byte, text: seq<byte>)
    requires separator == 32 || separator == 0xA0
    ensures var line := ChatLine(nick, separator, text);
            Commands(line + [BAR]) == [line] <==> BAR !in nick
    ensures BAR !in nick ==> Unfinished(ChatLine(nick, separator, text) + [BAR]) == []
  {
    var line := ChatLine(nick, separator, text);
    if BAR in nick {
      var i :| 0 <= i < |nick| && nick[i] == BAR;
      assert line[i + 1] == BAR && (line + [BAR])[i + 1] == BAR;
      var all, n := line + [BAR], FindBar(line + [BAR]);
      assert n <= i + 1;
      assert Commands(all)[0] == all[..n] && |all[..n]| < |line|;
    } else {
      SafeParts(nick, separator, text);
      EndOfCommand(line);
    }
  }

  // ---- The codes byte by byte

  // An escaped text: "&#36;" for a dollar, "&amp;" for an ampersand, "&#124;" for a bar, and every
  // other byte as it is.
  lemma EscapedInBytes(s: seq<byte>, b: byte)
    ensures Escaped([]) == [] && Escaped(s + [b]) == Escaped(s) + Escaped([b])
    ensures Escaped([36]) == [38, 35, 51, 54, 59] && Escaped([38]) == [38, 97, 109, 112, 59]
    ensures Escaped([124]) == [38, 35, 49, 50, 52, 59]
    ensures b != 36 && b != 38 && b != 124 ==> Escaped([b]) == [b]
  {
    EscapedAppend(s, b);
    assert [b][1..] == [] && [36][1..] == [] && [38][1..] == [] && [124][1..] == [];
  }

  // Any text unescaped: each of the three codes gives its character, anything else stays.
  lemma UnescapedInBytes(rest: seq<byte>, b: byte)
    ensures Unescaped([]) == []
    ensures Unescaped([38, 35, 51, 54, 59] + rest) == [36] + Unescaped(rest)
    ensures Unescaped([38, 97, 109, 112, 59] + rest) == [38] + Unescaped(rest)
    ensures Unescaped([38, 35, 49, 50, 52, 59] + rest) == [124] + Unescaped(rest)
    ensures [38, 35, 51, 54, 59] <= [b] + rest || [38, 97, 109, 112, 59] <= [b] + rest || [38, 35, 49, 50, 52, 59] <= [b] + rest
            || Unescaped([b] + rest) == [b] + Unescaped(rest)
  {
    UnescapesFirst(DOLLAR, rest);
    UnescapesFirst(AMPERSAND, rest);
    UnescapesFirst(BAR, rest);
    PlainFirst(b, rest);
  }

  lemma PlainFirst(b: byte, rest: seq<byte>)
    ensures !StartsWith([b] + rest, AMP) && !StartsWith([b] + rest, DOLLAR_CODE) && !StartsWith([b] + rest, BAR_CODE) ==>
              Unescaped([b] + rest) == [b] + Unescaped(rest)
  {
    assert ([b] + rest)[1..] == rest;
  }

  // A line of chat: the nick in angle brackets, the separator, the escaped text.
  lemma ChatLineInBytes(nick: seq<byte>, separator: byte, text: seq<byte>)
    ensures ChatLine(nick, separator, text) == [60] + nick + [62] + [separator] + Escaped(text)
  {
  }
}

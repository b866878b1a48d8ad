/** The hub byte stream: commands that end in '|', cut from reads of any size. */
module HubStream {
  import opened Bytes

  const BAR: byte := 124

  // ---- The whole stream

  // The position of the first bar, or |s|.
  function FindBar(s: seq<byte>): (n: nat)
    ensures n <= |s| && (n < |s| ==> s[n] == BAR)
    ensures forall i :: 0 <= i < n ==> s[i] != BAR
  {
    if s == [] || s[0] == BAR then 0 else 1 + FindBar(s[1..])
  }

  // The pieces that end in a bar, without it.
  function Commands(s: seq<byte>): seq<seq<byte>>
    decreases |s|
  {
    var n := FindBar(s);
    if n == |s| then [] else [s[..n]] + Commands(s[n + 1..])
  }

  // The piece behind the last bar.
  function Unfinished(s: seq<byte>): (r: seq<byte>)
    decreases |s|
  {
    var n := FindBar(s);
    if n == |s| then s else Unfinished(s[n + 1..])
  }

  lemma {:induction false} FoundBar(a: seq<byte>, b: seq<byte>)
    requires BAR !in a
    ensures FindBar(a + [BAR] + b) == |a| && FindBar(a) == |a|
  {
    if a != [] {
      assert (a + [BAR] + b)[1..] == a[1..] + [BAR] + b;
      FoundBar(a[1..], b);
    }
  }

  lemma {:induction false} UnfinishedHasNoBar(s: seq<byte>)
    ensures BAR !in Unfinished(s)
    decreases |s|
  {
    var n := FindBar(s);
    if n < |s| {
      UnfinishedHasNoBar(s[n + 1..]);
    }
  }

  // Cutting may stop anywhere and go on with the unfinished piece.
  lemma {:induction false} CutInParts(a: seq<byte>, b: seq<byte>)
    ensures Commands(a + b) == Commands(a) + Commands(Unfinished(a) + b)
    ensures Unfinished(a + b) == Unfinished(Unfinished(a) + b)
    decreases |a|
  {
    var n := FindBar(a);
    if n < |a| {
      assert a == a[..n] + [BAR] + a[n + 1..];
      assert a + b == a[..n] + [BAR] + (a[n + 1..] + b);
      FoundBar(a[..n], a[n + 1..] + b);
      assert (a + b)[..n] == a[..n] && (a + b)[n + 1..] == a[n + 1..] + b;
      CutInParts(a[n + 1..], b);
    }
  }

  lemma PlainByte(s: seq<byte>, b: byte)
    requires BAR !in s && b != BAR
    ensures Commands(s + [b]) == [] && Unfinished(s + [b]) == s + [b]
  {
    FindNone(s + [b]);
  }

  lemma {:induction false} FindNone(s: seq<byte>)
    requires BAR !in s
    ensures FindBar(s) == |s|
  {
    if s != [] {
      FindNone(s[1..]);
    }
  }

  lemma EndOfCommand(s: seq<byte>)
    requires BAR !in s
    ensures Commands(s + [BAR]) == [s] && Unfinished(s + [BAR]) == []
  {
    FoundBar(s, []);
    assert s + [BAR] + [] == s + [BAR];
    assert (s + [BAR])[..|s|] == s && (s + [BAR])[|s| + 1..] == [];
  }

  // The pieces, each with a bar behind it.
  function Rejoined(pieces: seq<seq<byte>>): seq<byte> {
    if pieces == [] then [] else pieces[0] + [124] + Rejoined(pieces[1..])
  }

  // Together the commands and the unfinished piece are the stream, and none of them holds a bar.
  lemma {:induction false} PiecesOfStream(s: seq<byte>)
    ensures Rejoined(Commands(s)) + Unfinished(s) == s
    ensures (forall piece :: piece in Commands(s) ==> 124 !in piece) && 124 !in Unfinished(s)
    decreases |s|
  {
    var n := FindBar(s);
    if n == |s| {
      assert Rejoined([]) + s == s;
    } else {
      var rest := s[n + 1..];
      PiecesOfStream(rest);
      FirstPiece(s[..n], Commands(rest), Unfinished(rest));
      assert s == s[..n] + [124] + rest;
    }
  }

  lemma FirstPiece(piece: seq<byte>, pieces: seq<seq<byte>>, tail: seq<byte>)
    ensures Rejoined([piece] + pieces) + tail == piece + [124] + (Rejoined(pieces) + tail)
  {
    assert ([piece] + pieces)[1..] == pieces;
  }

  // And nothing else is: these are the only such pieces.
  lemma {:induction false} OnlyPieces(s: seq<byte>, pieces: seq<seq<byte>>, tail: seq<byte>)
    requires s == Rejoined(pieces) + tail && 124 !in tail && forall piece :: piece in pieces ==> 124 !in piece
    ensures Commands(s) == pieces && Unfinished(s) == tail
    decreases |pieces|
  {
    if pieces == [] {
      assert s == tail;
      FindNone(tail);
    } else {
      var rest := Rejoined(pieces[1..]) + tail;
      assert s == pieces[0] + [124] + rest;
      FoundBar(pieces[0], rest);
      assert s[..|pieces[0]|] == pieces[0] && s[|pieces[0]| + 1..] == rest;
      OnlyPieces(rest, pieces[1..], tail);
    }
  }

  // Looking at one more byte of the queue.
  lemma ScanStep(queue: seq<byte>, start: nat, c: nat, next: nat)
    requires start <= c < |queue| && next == c + 1 && queue[start..c] == Unfinished(queue[..c])
    ensures queue[c] == BAR ==>
      Commands(queue[..next]) == Commands(queue[..c]) + [queue[start..c]] && Unfinished(queue[..next]) == []
    ensures queue[c] != BAR ==>
      Commands(queue[..next]) == Commands(queue[..c]) && Unfinished(queue[..next]) == queue[start..next]
  {
    var piece := queue[start..c];
    UnfinishedHasNoBar(queue[..c]);
    assert queue[..next] == queue[..c] + [queue[c]];
    CutInParts(queue[..c], [queue[c]]);
    if queue[c] == BAR {
      EndOfCommand(piece);
    } else {
      PlainByte(piece, queue[c]);
      assert queue[start..next] == piece + [queue[c]];
    }
  }

  // A queue without a bar is one unfinished piece.
  lemma NoBarYet(s: seq<byte>)
    requires BAR !in s
    ensures Commands(s) == [] && Unfinished(s) == s
  {
    FindNone(s);
  }

  // From pos on, the buffer still holds the queue.
  predicate Behind(buffer: seq<byte>, queue: seq<byte>, pos: nat) {
    |buffer| == |queue| && pos <= |queue| && forall i :: pos <= i < |queue| ==> buffer[i] == queue[i]
  }

  lemma BehindSame(buffer: seq<byte>, queue: seq<byte>, pos: nat, c: nat)
    requires Behind(buffer, queue, pos) && pos <= c < |queue|
    ensures buffer[c] == queue[c] && buffer[c := 0][pos..c] == queue[pos..c]
    ensures Behind(buffer[c := 0], queue, c + 1)
  {
  }

  // ---- The receiving side

  class Hub {
    var recvq: seq<byte>
    var recvqLast: nat
    ghost var dispatched: seq<seq<byte>>
    ghost var received: seq<byte>

    // Everything received so far was cut at its bars; the queue holds the rest.
    ghost predicate Valid()
      reads this
    {
      dispatched == Commands(received) && recvq == Unfinished(received) && recvqLast == |recvq|
    }

    constructor ()
      ensures Valid() && received == [] && dispatched == []
    {
      recvq, recvqLast := [], 0;
      dispatched, received := [], [];
    }

    // hub_handle_command, of which only the argument matters here.
    ghost method HandleCommand(command: seq<byte>)
      modifies this`dispatched
      ensures dispatched == old(dispatched) + [command]
    {
      dispatched := dispatched + [command];
    }

    // The loop over the queue, from the first byte that was not yet looked at.
    method CutQueue() returns (start: nat)
      requires recvqLast <= |recvq| && BAR !in recvq[..recvqLast]
      modifies this`recvq, this`dispatched
      ensures start <= |recvq| && recvq[start..] == Unfinished(old(recvq))
      ensures dispatched == old(dispatched) + Commands(old(recvq))
    {
      ghost var queue, done: seq<seq<byte>> := recvq, [];
      var c := recvqLast;
      start := 0;
      assert queue[..c] == queue[0..c];
      NoBarYet(queue[..c]);
      while c < |recvq|
        invariant start <= c <= |recvq| && Behind(recvq, queue, start)
        invariant done == Commands(queue[..c]) && queue[start..c] == Unfinished(queue[..c])
        invariant dispatched == old(dispatched) + done
      {
        ghost var piece := queue[start..c];
        ScanStep(queue, start, c, c + 1);
        BehindSame(recvq, queue, start, c);
        if recvq[c] == BAR {
          done := done + [piece];
          recvq := recvq[c := 0];
          HandleCommand(recvq[start..c]);
          start := c + 1;
        }
        c := c + 1;
      }
      assert queue[..c] == queue && queue[start..c] == recvq[start..];
    }

    // One read delivered data; the hub does not disconnect.
    method InputAvailable(data: seq<byte>)
      requires Valid()
      modifies this
      ensures Valid() && received == old(received) + data
    {
      CutInParts(received, data);
      UnfinishedHasNoBar(received);
      recvq := recvq + data;
      assert recvq[..recvqLast] == Unfinished(received);
      var start := CutQueue();
      if start != 0 {
        recvq := recvq[start..];
      }
      recvqLast := |recvq|;
      received := received + data;
    }
  }

  function Joined(chunks: seq<seq<byte>>): seq<byte> {
    if chunks == [] then [] else Joined(chunks[..|chunks| - 1]) + chunks[|chunks| - 1]
  }

  // However the stream is divided into reads, the commands are the pieces of the whole stream,
  // and the queue keeps the unfinished tail.
  method Receive(chunks: seq<seq<byte>>) returns (hub: Hub)
    ensures fresh(hub) && hub.dispatched == Commands(Joined(chunks))
    ensures hub.recvq == Unfinished(Joined(chunks)) && hub.recvqLast == |hub.recvq|
  {
    hub := new Hub();
    for i := 0 to |chunks|
      invariant hub.Valid() && hub.received == Joined(chunks[..i])
    {
      hub.InputAvailable(chunks[i]);
      assert chunks[..i + 1][..i] == chunks[..i];
    }
    assert chunks[..|chunks|] == chunks;
  }
}

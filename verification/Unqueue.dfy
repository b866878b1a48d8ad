/** Removing files from a download queue while one of them may be downloading. */
module Unqueue {
  class QueuedFile {
    const filename: string

    constructor (filename: string)
      ensures this.filename == filename
    {
      this.filename := filename;
    }
  }

  class DownloadQueue {
    var buf: array<QueuedFile?>
    var cur: nat

    ghost predicate Valid()
      reads this
    {
      cur <= buf.Length
    }

    constructor (capacity: nat)
      ensures Valid() && fresh(buf) && buf.Length == capacity && cur == 0
    {
      buf := new QueuedFile?[capacity](_ => null);
      cur := 0;
    }
  }

  class UserConn {
    var queuePos: nat
    var queuedValid: bool

    constructor ()
      ensures queuePos == 0 && !queuedValid
    {
      queuePos, queuedValid := 0, false;
    }
  }

  // The entries that are left, in order.
  function Left(s: seq<QueuedFile?>): (r: seq<QueuedFile?>)
    ensures |r| <= |s|
  {
    if s == [] then []
    else if s[|s| - 1] == null then Left(s[..|s| - 1])
    else Left(s[..|s| - 1]) + [s[|s| - 1]]
  }

  lemma LeftNext(s: seq<QueuedFile?>, c: nat)
    requires c < |s|
    ensures Left(s[..c + 1]) == if s[c] == null then Left(s[..c]) else Left(s[..c]) + [s[c]]
  {
    assert s[..c + 1][..c] == s[..c];
  }

  // The number of entries left in front of an entry that is left is its new position.
  lemma {:induction false} LeftAt(s: seq<QueuedFile?>, pos: nat)
    requires pos < |s|
    ensures |Left(s[..pos])| <= |Left(s)|
    ensures s[pos] != null ==> |Left(s[..pos])| < |Left(s)| && Left(s)[|Left(s[..pos])|] == s[pos]
    decreases |s|
  {
    var front := s[..|s| - 1];
    if pos < |s| - 1 {
      LeftAt(front, pos);
      assert front[..pos] == s[..pos];
    }
  }

  // Where they stood.
  function Kept(s: seq<QueuedFile?>): (r: seq<nat>)
    ensures |r| == |Left(s)| && forall i :: 0 <= i < |r| ==> r[i] < |s|
  {
    if s == [] then []
    else if s[|s| - 1] == null then Kept(s[..|s| - 1])
    else Kept(s[..|s| - 1]) + [|s| - 1]
  }

  // Exactly the entries that are not empty are kept, in their order.
  lemma {:induction false} KeptInOrder(s: seq<QueuedFile?>)
    ensures forall c :: c in Kept(s) <==> 0 <= c < |s| && s[c] != null
    ensures forall i, j :: 0 <= i < j < |Kept(s)| ==> Kept(s)[i] < Kept(s)[j]
    ensures forall i :: 0 <= i < |Kept(s)| ==> Left(s)[i] == s[Kept(s)[i]]
  {
    if s != [] {
      var front, kept := s[..|s| - 1], Kept(s);
      KeptInOrder(front);
      forall i | 0 <= i < |kept|
        ensures Left(s)[i] == s[kept[i]] && (forall j :: i < j < |kept| ==> kept[i] < kept[j])
      {
        if i < |Kept(front)| {
          assert kept[i] == Kept(front)[i];
        }
      }
    }
  }

  // The number of entries left in front of a place.
  lemma {:induction false} RankInOrder(s: seq<QueuedFile?>, pos: nat)
    requires pos < |s|
    ensures var rank, kept := |Left(s[..pos])|, Kept(s);
            && rank <= |kept| && (forall i :: 0 <= i < rank ==> kept[i] < pos) && forall i :: rank <= i < |kept| ==> kept[i] >= pos
    decreases |s|
  {
    var front := s[..|s| - 1];
    if pos < |s| - 1 {
      RankInOrder(front, pos);
      assert front[..pos] == s[..pos];
    }
  }

  // A range of the command counts from 1 and includes both ends.
  datatype Range = Range(sp: nat, ep: nat)

  predicate Covers(ranges: seq<Range>, c: nat) {
    exists r :: r in ranges && r.sp <= c + 1 <= r.ep
  }

  predicate Bounded(ranges: seq<Range>, cur: nat) {
    forall r :: r in ranges ==> 1 <= r.sp <= cur && 1 <= r.ep <= cur
  }

  function Removed(s: seq<QueuedFile?>, ranges: seq<Range>): (r: seq<QueuedFile?>)
    ensures |r| == |s|
  {
    seq(|s|, c requires 0 <= c < |s| => if Covers(ranges, c) then null else s[c])
  }

  method RemoveQueuedByRange(queue: DownloadQueue, r: Range)
    requires queue.Valid() && 1 <= r.sp && r.ep <= queue.cur
    modifies queue.buf
    ensures forall c :: 0 <= c < queue.buf.Length ==> queue.buf[c] == if r.sp <= c + 1 <= r.ep then null else old(queue.buf[c])
  {
    var c := r.sp - 1;
    while c < r.ep
      invariant r.sp - 1 <= c && (c <= r.ep || c == r.sp - 1)
      invariant forall k :: 0 <= k < queue.buf.Length ==> queue.buf[k] == if r.sp <= k + 1 <= c then null else old(queue.buf[k])
    {
      if queue.buf[c] != null {
        queue.buf[c] := null;
      }
      c := c + 1;
    }
  }

  lemma CoversAppend(ranges: seq<Range>, r: Range, c: nat)
    ensures Covers(ranges + [r], c) <==> Covers(ranges, c) || r.sp <= c + 1 <= r.ep
  {
    if Covers(ranges, c) {
      var q :| q in ranges && q.sp <= c + 1 <= q.ep;
      assert q in ranges + [r];
    }
    assert r in ranges + [r];
  }

  method RemoveAll(queue: DownloadQueue, ranges: seq<Range>)
    requires queue.Valid() && Bounded(ranges, queue.cur)
    modifies queue.buf
    ensures queue.buf[..queue.cur] == Removed(old(queue.buf[..queue.cur]), ranges)
  {
    ghost var s := queue.buf[..queue.cur];
    assert s == Removed(s, ranges[..0]);
    for i := 0 to |ranges|
      invariant queue.buf[..queue.cur] == Removed(s, ranges[..i])
    {
      assert ranges[i] in ranges;
      assert ranges[..i + 1] == ranges[..i] + [ranges[i]];
      ghost var before := queue.buf[..queue.cur];
      RemoveQueuedByRange(queue, ranges[i]);
      forall c | 0 <= c < queue.cur
        ensures queue.buf[c] == Removed(s, ranges[..i + 1])[c]
      {
        CoversAppend(ranges[..i], ranges[i], c);
        assert before[c] == Removed(s, ranges[..i])[c];
      }
    }
    assert ranges[..|ranges|] == ranges;
  }

  // The first empty slot from start on, or c when there is none in front of c.
  method NextFree(queue: DownloadQueue, start: nat, c: nat) returns (firstFree: nat)
    requires queue.Valid() && start <= c < queue.cur
    ensures start <= firstFree <= c && (firstFree < c ==> queue.buf[firstFree] == null)
    ensures forall k :: start <= k < firstFree ==> queue.buf[k] != null
  {
    firstFree := start;
    while firstFree < c
      invariant start <= firstFree <= c && forall k :: start <= k < firstFree ==> queue.buf[k] != null
    {
      if queue.buf[firstFree] == null {
        break;
      }
      firstFree := firstFree + 1;
    }
  }

  // The first c entries of s are compacted into the first f slots of the buffer.
  predicate Compacted(buf: seq<QueuedFile?>, s: seq<QueuedFile?>, f: nat, c: nat) {
    && f <= c <= |s| <= |buf| && buf[..f] == Left(s[..c])
    && (forall k :: f <= k < c ==> buf[k] == null)
    && forall k :: c <= k < |s| ==> buf[k] == s[k]
  }

  lemma CompactNull(buf: seq<QueuedFile?>, s: seq<QueuedFile?>, f: nat, c: nat)
    requires Compacted(buf, s, f, c) && c < |s| && s[c] == null
    ensures Compacted(buf, s, f, c + 1)
  {
    LeftNext(s, c);
  }

  lemma CompactMove(buf: seq<QueuedFile?>, s: seq<QueuedFile?>, f: nat, c: nat)
    requires Compacted(buf, s, f, c) && c < |s| && s[c] != null
    ensures f < c ==> Compacted(buf[f := buf[c]][c := null], s, f + 1, c + 1)
    ensures f == c ==> Compacted(buf, s, f + 1, c + 1)
  {
    LeftNext(s, c);
    assert buf[c] == s[c];
    if f < c {
      var after := buf[f := buf[c]][c := null];
      assert after[..f + 1] == buf[..f] + [s[c]];
    } else {
      assert buf[..f + 1] == buf[..f] + [s[c]];
    }
  }

  // In place: what is left moves to the front, in order.
  method CompactQueue(queue: DownloadQueue)
    requires queue.Valid()
    modifies queue`cur, queue.buf
    ensures queue.Valid() && queue.buf == old(queue.buf)
    ensures queue.buf[..queue.cur] == Left(old(queue.buf[..queue.cur])) && queue.cur <= old(queue.cur)
  {
    var firstFree: int := -1;
    ghost var s := queue.buf[..queue.cur];
    for c := 0 to queue.cur
      invariant queue.buf == old(queue.buf) && queue.cur == old(queue.cur)
      invariant -1 <= firstFree < c || firstFree == -1
      invariant Compacted(queue.buf[..], s, if firstFree == -1 then c else firstFree, c)
    {
      ghost var buf, f := queue.buf[..], if firstFree == -1 then c else firstFree;
      assert buf[c] == s[c];
      if queue.buf[c] == null {
        CompactNull(buf, s, f, c);
        if firstFree == -1 {
          firstFree := c;
        }
      } else {
        CompactMove(buf, s, f, c);
        if firstFree != -1 {
          queue.buf[firstFree] := queue.buf[c];
          queue.buf[c] := null;
          assert queue.buf[..] == buf[f := buf[c]][c := null];
          assert f + 1 <= c ==> queue.buf[..][f + 1] == null;
          firstFree := NextFree(queue, firstFree + 1, c);
        }
      }
    }
    assert s[..|s|] == s;
    if firstFree != -1 {
      queue.cur := firstFree;
    }
  }

  method Rank(queue: DownloadQueue, pos: nat) returns (rank: nat)
    requires queue.Valid() && pos <= queue.cur
    ensures rank == |Left(queue.buf[..pos])|
  {
    rank := 0;
    for c := 0 to pos
      invariant rank == |Left(queue.buf[..c])|
    {
      assert queue.buf[..c + 1][..c] == queue.buf[..c];
      if queue.buf[c] != null {
        rank := rank + 1;
      }
    }
  }

  // The position of the connection, before the queue is compacted.
  method UpdatePosition(queue: DownloadQueue, conn: UserConn)
    requires queue.Valid()
    modifies conn
    ensures old(conn.queuePos) >= queue.cur ==> conn.queuePos == old(conn.queuePos) && conn.queuedValid == old(conn.queuedValid)
    ensures old(conn.queuePos) < queue.cur ==>
      && conn.queuePos == |Left(queue.buf[..old(conn.queuePos)])|
      && conn.queuedValid == (old(conn.queuedValid) && queue.buf[old(conn.queuePos)] != null)
  {
    if conn.queuePos < queue.cur {
      if queue.buf[conn.queuePos] == null {
        conn.queuedValid := false;
      }
      conn.queuePos := Rank(queue, conn.queuePos);
    }
  }

  // A slot is emptied exactly by the ranges that reach it.
  lemma StaysWhere(s: seq<QueuedFile?>, ranges: seq<Range>, c: nat)
    requires c < |s|
    ensures Removed(s, ranges)[c] != null <==> s[c] != null && forall r :: r in ranges ==> c + 1 < r.sp || r.ep < c + 1
    ensures Removed(s, ranges)[c] != null ==> Removed(s, ranges)[c] == s[c]
  {
    if Covers(ranges, c) {
      var r :| r in ranges && r.sp <= c + 1 <= r.ep;
    }
  }

  // What the command leaves of s: the entries at these places, in order.
  lemma LeftBehind(s: seq<QueuedFile?>, ranges: seq<Range>, left: seq<QueuedFile?>, kept: seq<nat>)
    requires left == Removed(s, ranges) && kept == Kept(left)
    ensures forall c :: c in kept <==> 0 <= c < |s| && s[c] != null && forall r :: r in ranges ==> c + 1 < r.sp || r.ep < c + 1
    ensures forall i, j :: 0 <= i < j < |kept| ==> kept[i] < kept[j]
    ensures |Left(left)| == |kept| && forall i :: 0 <= i < |kept| ==> kept[i] < |s| && Left(left)[i] == s[kept[i]]
  {
    KeptInOrder(left);
    forall c | 0 <= c < |s|
      ensures left[c] != null <==> s[c] != null && forall r :: r in ranges ==> c + 1 < r.sp || r.ep < c + 1
    {
      StaysWhere(s, ranges, c);
    }
    forall i | 0 <= i < |kept|
      ensures kept[i] < |s| && Left(left)[i] == s[kept[i]]
    {
      assert kept[i] in kept;
      StaysWhere(s, ranges, kept[i]);
    }
  }

  // The position in front of which now entries are left; if its own entry is, it is the next one.
  lemma RankIs(left: seq<QueuedFile?>, kept: seq<nat>, pos: nat, now: nat)
    requires pos < |left| && kept == Kept(left) && now == |Left(left[..pos])|
    ensures now <= |kept| && (forall i :: 0 <= i < now ==> kept[i] < pos) && forall i :: now <= i < |kept| ==> kept[i] >= pos
    ensures if left[pos] != null then pos in kept && now < |kept| && kept[now] == pos else pos !in kept
  {
    KeptInOrder(left);
    RankInOrder(left, pos);
    if left[pos] != null {
      var i :| 0 <= i < |kept| && kept[i] == pos;
      assert i >= now;
      assert now == i;
    }
  }

  // Remove, and move the position of the connection.
  method RemoveEntries(queue: DownloadQueue, ranges: seq<Range>, conn: UserConn?, ghost s: seq<QueuedFile?>)
    requires queue.Valid() && Bounded(ranges, queue.cur) && s == queue.buf[..queue.cur]
    modifies queue.buf, conn
    ensures queue.buf[..queue.cur] == Removed(s, ranges)
    ensures conn != null && old(conn.queuePos) < |s| ==>
      && conn.queuePos == |Left(Removed(s, ranges)[..old(conn.queuePos)])|
      && conn.queuedValid == (old(conn.queuedValid) && Removed(s, ranges)[old(conn.queuePos)] != null)
    ensures conn != null && old(conn.queuePos) >= |s| ==>
      conn.queuePos == old(conn.queuePos) && conn.queuedValid == old(conn.queuedValid)
  {
    RemoveAll(queue, ranges);
    if conn != null {
      ghost var left, pos := queue.buf[..queue.cur], conn.queuePos;
      UpdatePosition(queue, conn);
      if pos < queue.cur {
        assert left[..pos] == queue.buf[..pos];
      }
    }
  }

  // The part of cmd_unqueue behind parsing the ranges; conn is the connection that receives
  // from the user, if there is one. kept are the places of the entries that no range reaches.
  method CmdUnqueue(queue: DownloadQueue, ranges: seq<Range>, conn: UserConn?) returns (ghost kept: seq<nat>)
    requires queue.Valid() && Bounded(ranges, queue.cur)
    modifies queue`cur, queue.buf, conn
    ensures queue.Valid() && queue.buf == old(queue.buf)
    ensures var s := old(queue.buf[..queue.cur]);
            && (forall c :: c in kept <==> 0 <= c < |s| && s[c] != null && forall r :: r in ranges ==> c + 1 < r.sp || r.ep < c + 1)
            && (forall i, j :: 0 <= i < j < |kept| ==> kept[i] < kept[j])
            && queue.cur == |kept| && forall i :: 0 <= i < |kept| ==> kept[i] < |s| && queue.buf[..queue.cur][i] == s[kept[i]]
    ensures conn != null && old(conn.queuePos) < old(queue.cur) ==>
      var pos, now := old(conn.queuePos), conn.queuePos;
      && now <= |kept| && (forall i :: 0 <= i < now ==> kept[i] < pos) && (forall i :: now <= i < |kept| ==> kept[i] >= pos)
      && conn.queuedValid == (old(conn.queuedValid) && pos in kept)
    ensures conn != null && old(conn.queuePos) >= old(queue.cur) ==>
      conn.queuePos == old(conn.queuePos) && conn.queuedValid == old(conn.queuedValid)
  {
    ghost var s := queue.buf[..queue.cur];
    ghost var left := Removed(s, ranges);
    kept := Kept(left);
    LeftBehind(s, ranges, left, kept);
    ghost var pos := if conn == null then 0 else conn.queuePos;
    RemoveEntries(queue, ranges, conn, s);
    if conn != null && pos < |s| {
      RankIs(left, kept, pos, conn.queuePos);
    }
    CompactQueue(queue);
  }
}

/** The one-shot reply: what it is, and when it depends on how the socket cuts the stream. */
module NdjsonReplies {
  import opened Common
  import opened Ndjson
  import opened NdjsonTheorems

  // ----- Chunks ----------------------------------------------------------------------------

  function AllBytes(ts: seq<Received>): seq<byte>
  {
    if ts == [] then [] else (if ts[0].Data? then ts[0].chunk else []) + AllBytes(ts[1..])
  }

  /** Non-empty chunks as `recv` delivers them. */
  ghost predicate AreChunks(ts: seq<Received>)
  {
    forall t :: t in ts ==> t.Data? && 0 < |t.chunk| <= RECV_BYTES
  }

  ghost predicate IsChunking(ts: seq<Received>, s: seq<byte>)
  {
    AreChunks(ts) && AllBytes(ts) == s
  }

  lemma {:induction false} AllBytesConcat(a: seq<Received>, b: seq<Received>)
    ensures AllBytes(a + b) == AllBytes(a) + AllBytes(b)
  {
    if a == [] {
      assert a + b == b;
    } else {
      assert (a + b)[1..] == a[1..] + b;
      AllBytesConcat(a[1..], b);
    }
  }

  /** One way to cut some bytes into chunks. */
  function Pieces(s: seq<byte>): seq<Received>
    decreases |s|
  {
    if s == [] then []
    else
      var n := if |s| < RECV_BYTES then |s| else RECV_BYTES;
      [Data(s[..n])] + Pieces(s[n..])
  }

  lemma {:induction false} PiecesAreChunks(s: seq<byte>)
    ensures IsChunking(Pieces(s), s)
    decreases |s|
  {
    if s != [] {
      var n := if |s| < RECV_BYTES then |s| else RECV_BYTES;
      PiecesAreChunks(s[n..]);
      assert Pieces(s)[1..] == Pieces(s[n..]);
      assert s[..n] + s[n..] == s;
    }
  }

  // ----- The lines that were read --------------------------------------------------------------

  /** A buffer that holds the first newline of the stream holds its first line. */
  lemma FirstLine(s: seq<byte>, e: nat)
    requires NewlineIndex(s) < e <= |s|
    ensures var i := NewlineIndex(s);
            Lines(s[..e]) == [s[..i]] + Lines(s[i + 1..e]) && NEWLINE in s[..e]
  {
    hide NewlineIndex, Lines, Tail;
    NewlineFirst(s);
    var i := NewlineIndex(s);
    BeforeFirstLine(s, i);
    LineThen(s[..i], s[i + 1..e]);
    SplitAround(s, i, e);
  }

  lemma PastFirstLine(s: seq<byte>, e: nat)
    requires e <= |s| && NEWLINE in s[..e]
    ensures NewlineIndex(s) < e
  {
    hide NewlineIndex;
    NewlineFirst(s);
    var k :| 0 <= k < e && s[..e][k] == NEWLINE;
    assert s[k] == NEWLINE;
  }

  lemma SplitAround(s: seq<byte>, i: nat, e: nat)
    requires i < e <= |s|
    ensures s[..e] == s[..i] + [s[i]] + s[i + 1..e] && s[i] in s[..e]
  {
    assert s[..e][i] == s[i];
  }

  lemma BeforeFirstLine(s: seq<byte>, e: nat)
    requires e <= NewlineIndex(s)
    ensures NEWLINE !in s[..e]
  {
    hide NewlineIndex;
    NewlineFirst(s);
  }

  lemma FirstMessage<M>(s: seq<byte>, e: nat, decode: seq<byte> -> Option<M>)
    requires NewlineIndex(s) < e <= |s|
    ensures var first := LineMessage(s[..NewlineIndex(s)], decode);
            first != [] ==> FirstReply(s[..e], decode) == Message(first[0])
  {
    hide NewlineIndex, Lines, LineMessage;
    var i := NewlineIndex(s);
    FirstLine(s, e);
    ParsedConcat([s[..i]], Lines(s[i + 1..e]), decode);
    ParsedOne(s[..i], decode);
  }

  /** What a shorter buffer holds, a longer one holds. */
  lemma NoMessageBefore<M>(s: seq<byte>, e: nat, end: nat, decode: seq<byte> -> Option<M>)
    requires e <= end <= |s| && Parsed(Lines(s[..end]), decode) == []
    ensures FirstReply(s[..e], decode) == NoReply
  {
    hide Lines, Tail;
    assert s[..end] == s[..e] + s[e..end];
    LinesAppend(s[..e], s[e..end]);
    ParsedConcat(Lines(s[..e]), Lines(Tail(s[..e]) + s[e..end]), decode);
  }

  lemma ParsedOne<M>(line: seq<byte>, decode: seq<byte> -> Option<M>)
    ensures Parsed([line], decode) == LineMessage(line, decode)
  {
    hide LineMessage;
    var none: seq<seq<byte>> := [];
    assert [line][1..] == none && Parsed(none, decode) == [];
  }

  // ----- Where the read loop stops ----------------------------------------------------------------

  lemma ReplyStep<M>(b: seq<byte>, ts: seq<Received>, decode: seq<byte> -> Option<M>)
    requires ts != [] && ts[0].Data? && ts[0].chunk != [] && NEWLINE !in b
    ensures var buf := b + ts[0].chunk;
            ReplyFrom(b, ts, decode) == if |buf| > MAX_REPLY_BYTES then TooLong else ReplyFrom(buf, ts[1..], decode)
  {
  }

  lemma ReplyStops<M>(b: seq<byte>, ts: seq<Received>, decode: seq<byte> -> Option<M>)
    requires NEWLINE in b || ts == []
    ensures ReplyFrom(b, ts, decode) == FirstReply(b, decode)
  {
  }

  /** The reply when the loop has read `e` bytes and the first newline is among them. */
  function ReplyAfter<M>(s: seq<byte>, e: nat, decode: seq<byte> -> Option<M>): Reply<M>
    requires e <= |s|
  {
    if e > MAX_REPLY_BYTES then TooLong else FirstReply(s[..e], decode)
  }

  /** How far a read can get: less than a chunk behind the first newline. */
  function ReadEnd(s: seq<byte>): (end: nat)
    requires NewlineIndex(s) < |s|
    ensures NewlineIndex(s) < end <= |s|
  {
    if NewlineIndex(s) + RECV_BYTES < |s| then NewlineIndex(s) + RECV_BYTES else |s|
  }

  lemma ShortOfNewline(s: seq<byte>, b: seq<byte>, rest: seq<byte>)
    requires s == b + rest && NEWLINE !in b && NewlineIndex(s) < |s|
    ensures |b| <= NewlineIndex(s) && rest != []
  {
    hide NewlineIndex;
    NewlineFirst(s);
    assert forall k :: 0 <= k < |b| ==> s[k] == b[k];
  }

  lemma {:induction false} ReadsPastNewline<M>(s: seq<byte>, b: seq<byte>, ts: seq<Received>, decode: seq<byte> -> Option<M>)
    returns (e: nat)
    requires b + AllBytes(ts) == s && AreChunks(ts) && NEWLINE !in b && NewlineIndex(s) < |s|
    ensures NewlineIndex(s) < e <= ReadEnd(s) && ReplyFrom(b, ts, decode) == ReplyAfter(s, e, decode)
    decreases |ts|
  {
    hide NewlineIndex, FirstReply, ReplyFrom;
    var i := NewlineIndex(s);
    ShortOfNewline(s, b, AllBytes(ts));
    assert ts[0] in ts;
    var buf := b + ts[0].chunk;
    assert s == buf + AllBytes(ts[1..]);
    assert s[..|buf|] == buf;
    ReplyStep(b, ts, decode);
    if i < |buf| {
      e := |buf|;
      FirstLine(s, e);
      ReplyStops(buf, ts[1..], decode);
    } else if |buf| > MAX_REPLY_BYTES {
      e := i + 1;
    } else {
      BeforeFirstLine(s, |buf|);
      e := ReadsPastNewline(s, buf, ts[1..], decode);
    }
  }

  /** Chunks without a newline are only collected, up to the cap. */
  lemma {:induction false} Collects<M>(b: seq<byte>, ts: seq<Received>, us: seq<Received>, decode: seq<byte> -> Option<M>)
    requires AreChunks(ts) && NEWLINE !in b + AllBytes(ts) && |b| <= MAX_REPLY_BYTES
    ensures var all := b + AllBytes(ts);
            ReplyFrom(b, ts + us, decode) == if |all| > MAX_REPLY_BYTES then TooLong else ReplyFrom(all, us, decode)
    decreases |ts|
  {
    hide ReplyFrom;
    if ts == [] {
      assert ts + us == us && b + [] == b;
    } else {
      assert ts[0] in ts;
      var c := ts[0].chunk;
      assert b + AllBytes(ts) == (b + c) + AllBytes(ts[1..]);
      assert (ts + us)[0] == ts[0] && (ts + us)[1..] == ts[1..] + us;
      assert b <= b + AllBytes(ts);
      ReplyStep(b, ts + us, decode);
      if |b + c| <= MAX_REPLY_BYTES {
        Collects(b + c, ts[1..], us, decode);
      }
    }
  }

  /** The chunking that makes the loop stop after exactly `e` bytes. */
  function CutAt(s: seq<byte>, i: nat, e: nat): seq<Received>
    requires i < e <= |s|
  {
    Pieces(s[..i]) + ([Data(s[i..e])] + Pieces(s[e..]))
  }

  lemma CutIsChunking(s: seq<byte>, i: nat, e: nat)
    requires i < e <= |s| && e - i <= RECV_BYTES
    ensures IsChunking(CutAt(s, i, e), s)
  {
    hide Pieces;
    PiecesAreChunks(s[..i]);
    PiecesAreChunks(s[e..]);
    var behind := [Data(s[i..e])] + Pieces(s[e..]);
    assert behind[1..] == Pieces(s[e..]);
    AllBytesConcat(Pieces(s[..i]), behind);
    assert s[..i] + (s[i..e] + s[e..]) == s;
  }

  lemma ReadThrough<M>(head: seq<byte>, mid: seq<byte>, us: seq<Received>, decode: seq<byte> -> Option<M>)
    requires NEWLINE !in head && |head| <= MAX_REPLY_BYTES && mid != [] && NEWLINE in head + mid
    ensures ReplyFrom([], Pieces(head) + ([Data(mid)] + us), decode)
         == if |head + mid| > MAX_REPLY_BYTES then TooLong else FirstReply(head + mid, decode)
  {
    hide Pieces, ReplyFrom, FirstReply;
    PiecesAreChunks(head);
    assert [] + head == head;
    var behind := [Data(mid)] + us;
    Collects([], Pieces(head), behind, decode);
    ReplyStep(head, behind, decode);
    ReplyStops(head + mid, behind[1..], decode);
  }

  lemma CutReply<M>(s: seq<byte>, e: nat, decode: seq<byte> -> Option<M>)
    requires NewlineIndex(s) < |s| && NewlineIndex(s) < e <= ReadEnd(s) && NewlineIndex(s) < MAX_REPLY_BYTES
    ensures IsChunking(CutAt(s, NewlineIndex(s), e), s)
    ensures ReplyFrom([], CutAt(s, NewlineIndex(s), e), decode) == ReplyAfter(s, e, decode)
  {
    hide Pieces, NewlineIndex, ReplyFrom, FirstReply, IsChunking, Lines;
    var i := NewlineIndex(s);
    CutIsChunking(s, i, e);
    BeforeFirstLine(s, i);
    FirstLine(s, e);
    assert s[..i] + s[i..e] == s[..e];
    ReadThrough(s[..i], s[i..e], Pieces(s[e..]), decode);
  }

  // ----- When the reply is one ---------------------------------------------------------------------

  ghost predicate SameReply<M(!new)>(s: seq<byte>, decode: seq<byte> -> Option<M>)
  {
    forall ts, us :: IsChunking(ts, s) && IsChunking(us, s) ==> ReplyFrom([], ts, decode) == ReplyFrom([], us, decode)
  }

  /** There is no newline; or it comes behind the cap; or every read fits below the cap, and either
      the first line is a message or nothing that can be read with it is. */
  predicate HasOneReply<M>(s: seq<byte>, decode: seq<byte> -> Option<M>)
  {
    var i := NewlineIndex(s);
    || i == |s| || i >= MAX_REPLY_BYTES
    || (ReadEnd(s) <= MAX_REPLY_BYTES
        && (LineMessage(s[..i], decode) != [] || Parsed(Lines(s[..ReadEnd(s)]), decode) == []))
  }

  /** The one reply of such a stream. */
  function OneReply<M>(s: seq<byte>, decode: seq<byte> -> Option<M>): Reply<M>
  {
    var i := NewlineIndex(s);
    if i >= MAX_REPLY_BYTES && (i < |s| || i > MAX_REPLY_BYTES) then TooLong
    else
      var first := LineMessage(s[..i], decode);
      if i == |s| || first == [] then NoReply else Message(first[0])
  }

  lemma OneReplyAlways<M>(s: seq<byte>, ts: seq<Received>, decode: seq<byte> -> Option<M>)
    requires HasOneReply(s, decode) && IsChunking(ts, s)
    ensures ReplyFrom([], ts, decode) == OneReply(s, decode)
  {
    hide NewlineIndex, ReplyFrom, LineMessage, Lines, FirstReply;
    assert [] + AllBytes(ts) == s;
    if NewlineIndex(s) == |s| {
      NewlineFirst(s);
      assert ts + [] == ts && NEWLINE !in s;
      Collects([], ts, [], decode);
      NothingToReply(s, decode);
    } else {
      var e := ReadsPastNewline(s, [], ts, decode);
      FirstMessage(s, e, decode);
      if Parsed(Lines(s[..ReadEnd(s)]), decode) == [] {
        NoMessageBefore(s, e, ReadEnd(s), decode);
      }
    }
  }

  lemma NothingToReply<M>(s: seq<byte>, decode: seq<byte> -> Option<M>)
    requires NEWLINE !in s
    ensures ReplyFrom(s, [], decode) == NoReply
  {
    TailOfTail(s);
  }

  /** Otherwise, stopping right behind the newline and reading as far as possible differ. */
  lemma TwoReplies<M>(s: seq<byte>, decode: seq<byte> -> Option<M>)
    requires !HasOneReply(s, decode)
    ensures var i := NewlineIndex(s);
            && i < |s|
            && IsChunking(CutAt(s, i, i + 1), s) && IsChunking(CutAt(s, i, ReadEnd(s)), s)
            && ReplyFrom([], CutAt(s, i, i + 1), decode) != ReplyFrom([], CutAt(s, i, ReadEnd(s)), decode)
  {
    hide NewlineIndex, ReplyFrom, LineMessage, Lines, CutAt, IsChunking;
    var i, end := NewlineIndex(s), ReadEnd(s);
    CutReply(s, i + 1, decode);
    CutReply(s, end, decode);
    FirstLineAlone(s, decode);
  }

  lemma FirstLineAlone<M>(s: seq<byte>, decode: seq<byte> -> Option<M>)
    requires NewlineIndex(s) < |s|
    ensures var i := NewlineIndex(s);
            Parsed(Lines(s[..i + 1]), decode) == LineMessage(s[..i], decode)
  {
    hide NewlineIndex, LineMessage, Lines, Parsed;
    var i := NewlineIndex(s);
    FirstLine(s, i + 1);
    assert s[i + 1..i + 1] == [];
    NoLines(s[..i]);
    ParsedOne(s[..i], decode);
  }

  lemma NoLines(line: seq<byte>)
    ensures [line] + Lines([]) == [line]
  {
    TailOfTail([]);
  }

  /** All ways of cutting a stream give the same reply if and only if it is such a stream. */
  lemma ReplyExactness<M(!new)>(s: seq<byte>, decode: seq<byte> -> Option<M>)
    ensures SameReply(s, decode) <==> HasOneReply(s, decode)
  {
    hide ReplyFrom, IsChunking, HasOneReply, OneReply, CutAt;
    if HasOneReply(s, decode) {
      forall ts, us | IsChunking(ts, s) && IsChunking(us, s)
        ensures ReplyFrom([], ts, decode) == ReplyFrom([], us, decode)
      {
        OneReplyAlways(s, ts, decode);
        OneReplyAlways(s, us, decode);
      }
    } else {
      TwoReplies(s, decode);
    }
  }

  /** When the first line of the stream is a message, it is the reply under every chunking. */
  lemma ReplyIsFirstLine<M>(b: seq<byte>, ts: seq<Received>, line: seq<byte>, rest: seq<byte>,
                            m: M, decode: seq<byte> -> Option<M>)
    requires AreChunks(ts)
    requires b + AllBytes(ts) == line + [NEWLINE] + rest && NEWLINE !in line
    requires |line| <= MAX_REPLY_BYTES - RECV_BYTES && LineMessage(line, decode) == [m]
    ensures ReplyFrom(b, ts, decode) == Message(m)
  {
    hide NewlineIndex, LineMessage, FirstReply, ReplyFrom, Lines;
    var s := b + AllBytes(ts);
    LineThen(line, rest);
    assert s[..|line|] == line;
    if NEWLINE in b {
      assert s[..|b|] == b;
      PastFirstLine(s, |b|);
      ReplyStops(b, ts, decode);
      FirstMessage(s, |b|, decode);
    } else {
      var e := ReadsPastNewline(s, b, ts, decode);
      FirstMessage(s, e, decode);
    }
  }

  /** A family of streams without one reply: a message right behind a blank or malformed line is
      found only if it arrives in the same chunk. */
  lemma ReplyDependsOnChunking<M>(bad: seq<byte>, good: seq<byte>, m: M, decode: seq<byte> -> Option<M>)
    requires NEWLINE !in bad && NEWLINE !in good && |bad| + |good| + 2 <= RECV_BYTES
    requires LineMessage(bad, decode) == [] && LineMessage(good, decode) == [m]
    ensures ReplyFrom([], [Data(bad + [NEWLINE]), Data(good + [NEWLINE])], decode) == NoReply
    ensures ReplyFrom([], [Data(bad + [NEWLINE] + (good + [NEWLINE]))], decode) == Message(m)
  {
    hide LineMessage, ReplyFrom, FirstReply;
    var first, second := bad + [NEWLINE], good + [NEWLINE];
    TwoLines(bad, good, decode);
    assert [] + first == first && [] + (first + second) == first + second;
    assert first[|bad|] == NEWLINE && (first + second)[|bad|] == NEWLINE;
    var two, one := [Data(first), Data(second)], [Data(first + second)];
    ReplyStep([], two, decode);
    ReplyStops(first, two[1..], decode);
    ReplyStep([], one, decode);
    ReplyStops(first + second, one[1..], decode);
  }

  lemma TwoLines<M>(a: seq<byte>, b: seq<byte>, decode: seq<byte> -> Option<M>)
    requires NEWLINE !in a && NEWLINE !in b
    requires LineMessage(a, decode) == []
    ensures FirstReply(a + [NEWLINE], decode) == NoReply
    ensures LineMessage(b, decode) != [] ==>
              FirstReply(a + [NEWLINE] + (b + [NEWLINE]), decode) == Message(LineMessage(b, decode)[0])
  {
    hide LineMessage, Lines, NewlineIndex;
    LineThen(a, []);
    LineThen(b, []);
    LineThen(a, b + [NEWLINE]);
    TailOfTail([]);
    assert a + [NEWLINE] + [] == a + [NEWLINE] && b + [NEWLINE] + [] == b + [NEWLINE];
    assert [a] + [] == [a] && [b] + [] == [b];
    ParsedOne(a, decode);
    ParsedOne(b, decode);
    ParsedConcat([a], [b], decode);
  }

  /** How a read ends that never meets a newline or the cap: with the socket's error, or without a
      reply at the end of the stream. */
  lemma ReplyEnds<M>(ts: seq<Received>, last: Received, later: seq<Received>, decode: seq<byte> -> Option<M>)
    requires AreChunks(ts) && NEWLINE !in AllBytes(ts) && |AllBytes(ts)| <= MAX_REPLY_BYTES
    ensures last in {Timeout, Failed} ==> ReplyFrom([], ts + [last] + later, decode) == SocketError
    ensures last in {Closed, Data([])} ==> ReplyFrom([], ts + [last] + later, decode) == NoReply
  {
    hide Lines;
    var behind := [last] + later;
    assert ts + [last] + later == ts + behind && [] + AllBytes(ts) == AllBytes(ts);
    Collects([], ts, behind, decode);
    assert behind[0] == last;
    NothingToReply(AllBytes(ts), decode);
  }
}

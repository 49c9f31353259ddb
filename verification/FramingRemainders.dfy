/** When the bytes kept by the Basic protocol parser depend on how the stream was cut. */
module FramingRemainders {
  import opened Common
  import opened Framing
  import opened FramingTheorems

  // ----- Walks over a longer stream ------------------------------------------------------

  /** With enough bytes ahead, the parser stops at the same place wherever on its path it starts. */
  lemma {:induction false} SettleAgrees(s: seq<byte>, p: nat, q: nat)
    requires p <= q && |s| - q >= 7 && Reaches(s, p, q)
    ensures Settle(s, p) == Settle(s, q)
    decreases q - p
  {
    hide Decide, Settle, NextStart;
    if p < q {
      SettleStep(s, p);
      NextStartStep(s, p);
      match Decide(s, p)
      case Skip =>
        SettleStep(s, p + 1);
        SettleAgrees(s, p + 1, q);
      case Emit(n, _) =>
        SettleAgrees(s, p + n, q);
    }
  }

  lemma NextStartStep(s: seq<byte>, p: nat)
    requires p < |s|
    ensures NextStart(s, p) == if s[p] == MESSAGE_START_BYTE then p else NextStart(s, p + 1)
  {
  }

  lemma {:induction false} ReachesInLonger(s: seq<byte>, t: seq<byte>, p: nat, q: nat)
    requires p <= q <= |s| && Reaches(s, p, q)
    ensures Reaches(s + t, p, q)
    decreases q - p
  {
    hide Decide;
    if p < q {
      DecideStable(s, t, p);
      match Decide(s, p)
      case Skip => ReachesInLonger(s, t, p + 1, q);
      case Emit(n, _) => ReachesInLonger(s, t, p + n, q);
    }
  }

  // ----- One more chunk ------------------------------------------------------------------

  /** The last place where the loop's guard was looked at. */
  function LastHead(s: seq<byte>, p: nat): (h: nat)
    requires p <= |s|
    ensures p <= h <= |s|
    decreases |s| - p
  {
    var i := NextStart(s, p);
    if |s| - p < 7 || i == |s| then p
    else match Decide(s, i)
      case NeedMore => p
      case Skip => LastHead(s, i + 1)
      case Emit(n, _) => LastHead(s, i + n)
  }

  /** The loop ended because its guard found fewer than seven bytes, not by a `break`. */
  predicate EndsByGuard(s: seq<byte>)
  {
    |s| - LastHead(s, 0) < 7
  }

  /** Bytes at which the parser, once it has looked at them, waits without dropping any: none, or
      a start byte whose frame has a possible length and is not yet complete. */
  predicate Waits(r: seq<byte>)
  {
    r == [] || (r[0] == MESSAGE_START_BYTE && (|r| < 4 || |r| < 4 + Le16(r[1], r[2]) <= MAX_BASIC_FRAME))
  }

  lemma WaitsIs(s: seq<byte>, i: nat)
    requires i < |s|
    ensures Waits(s[i..]) <==> Decide(s, i) == NeedMore
  {
    hide ParseBasicMessage;
  }

  lemma ShortNeverEmits(s: seq<byte>, i: nat)
    requires i < |s| && |s| - i < 7
    ensures !Decide(s, i).Emit?
  {
    hide ParseBasicMessage;
  }

  /** Where the loop stops in a stream with fewer than seven bytes behind `i`, a start byte it
      looks at. */
  lemma SettleLooked(s: seq<byte>, p: nat, i: nat)
    requires p <= i < |s| && |s| - p >= 7 && |s| - i < 7 && NextStart(s, p) == i
    ensures Settle(s, p) == if Waits(s[i..]) then i else i + 1
  {
    hide Decide, NextStart, Settle, Waits;
    WaitsIs(s, i);
    ShortNeverEmits(s, i);
    SettleStep(s, p);
    SettleStep(s, i + 1);
  }

  lemma {:induction false} SettleInLonger(s: seq<byte>, t: seq<byte>, p: nat)
    requires p <= |s| && |s + t| - Settle(s, p) < 7
    ensures Settle(s + t, p) == Settle(s, p) <==> |s| - LastHead(s, p) < 7 || Waits((s + t)[Settle(s, p)..])
    decreases |s| - p
  {
    hide Decide, NextStart, Settle, Waits;
    var u, i := s + t, NextStart(s, p);
    SettleStep(s, p);
    SettleStep(u, p);
    NextStartFirst(s, p);
    if |s| - p >= 7 {
      NextStartLonger(s, t, p);
      if i == |s| {
        JunkThen(s, t, p);
      } else {
        if Decide(s, i) != NeedMore {
          DecideStable(s, t, i);
        }
        match Decide(s, i)
        case NeedMore => SettleLooked(u, p, i);
        case Skip => SettleInLonger(s, t, i + 1);
        case Emit(n, _) => SettleInLonger(s, t, i + n);
      }
    }
  }

  lemma NextStartLonger(s: seq<byte>, t: seq<byte>, p: nat)
    requires p <= |s|
    ensures NextStart(s + t, p) == if NextStart(s, p) < |s| then NextStart(s, p) else |s| + NextStart(t, 0)
  {
    hide NextStart;
    NextStartFirst(s, p);
    NextStartFirst(t, 0);
    NextStartIs(s + t, p, if NextStart(s, p) < |s| then NextStart(s, p) else |s| + NextStart(t, 0));
  }

  /** Bytes that follow dropped junk: they are kept whole if and only if the parser waits there. */
  lemma JunkThen(s: seq<byte>, t: seq<byte>, p: nat)
    requires p <= |s| && |s| - p >= 7 && NextStart(s, p) == |s| && |t| < 7
    ensures Settle(s + t, p) == |s| <==> Waits((s + t)[|s|..])
  {
    hide Decide, NextStart, Settle;
    var u, j := s + t, NextStart(t, 0);
    NextStartLonger(s, t, p);
    NextStartFirst(t, 0);
    SettleStep(u, p);
    assert u[|s|..] == t;
    if j < |t| {
      SettleLooked(u, p, |s| + j);
    }
  }

  /** Parsing what was kept plus a chunk keeps what parsing everything at once keeps, if and only
      if there are seven bytes to look at, or the first loop ended by its guard, or the bytes are
      ones the parser waits at. */
  lemma RemainderAgrees(s: seq<byte>, t: seq<byte>)
    ensures var r := Remainder(s) + t;
            Remainder(r) == Remainder(s + t) <==> |r| >= 7 || EndsByGuard(s) || Waits(r)
  {
    hide Decide, Settle, Waits, LastHead;
    var u, q := s + t, Settle(s, 0);
    assert u[q..] == Remainder(s) + t;
    SettleReached(s, 0);
    ReachesInLonger(s, t, 0, q);
    SettleShift(u, q, q);
    assert Remainder(u[q..]) == u[Settle(u, q)..];
    assert Remainder(u[q..]) == Remainder(u) <==> Settle(u, q) == Settle(u, 0);
    if |u| - q >= 7 {
      SettleAgrees(u, 0, q);
    } else {
      TooShort(u, q);
      SettleInLonger(s, t, 0);
    }
  }

  // ----- Any chunking -----------------------------------------------------------------------

  /** The stream up to the last call that found seven bytes and entered the loop; `looked` when no
      call from here on does. `received` is all that has come so far. */
  function LastLooked(looked: seq<byte>, received: seq<byte>, kept: seq<byte>, chunks: seq<seq<byte>>): seq<byte>
    decreases |chunks|
  {
    if chunks == [] then looked
    else
      var buf, now := kept + chunks[0], received + chunks[0];
      LastLooked(if |buf| >= 7 then now else looked, now, Remainder(buf), chunks[1..])
  }

  lemma FeedStep(looked: seq<byte>, received: seq<byte>, kept: seq<byte>, chunks: seq<seq<byte>>)
    requires chunks != []
    ensures var buf, now := kept + chunks[0], received + chunks[0];
            && Feed(kept, chunks).1 == Feed(Remainder(buf), chunks[1..]).1
            && LastLooked(looked, received, kept, chunks)
               == LastLooked(if |buf| >= 7 then now else looked, now, Remainder(buf), chunks[1..])
            && received + Flatten(chunks) == now + Flatten(chunks[1..])
  {
    hide Settle, Messages;
    assert received + (chunks[0] + Flatten(chunks[1..])) == (received + chunks[0]) + Flatten(chunks[1..]);
  }

  lemma {:induction false} SettledWaits(s: seq<byte>, p: nat)
    requires p <= |s|
    ensures |s| - LastHead(s, p) < 7 || Waits(s[Settle(s, p)..])
    decreases |s| - p
  {
    hide Decide, NextStart, Settle, Waits;
    var i := NextStart(s, p);
    SettleStep(s, p);
    if |s| - p >= 7 {
      if i == |s| {
        NothingWaits(s);
      } else {
        WaitsIs(s, i);
        match Decide(s, i)
        case NeedMore =>
        case Skip => SettledWaits(s, i + 1);
        case Emit(n, _) => SettledWaits(s, i + n);
      }
    }
  }

  lemma NothingWaits(s: seq<byte>)
    ensures Waits(s[|s|..])
  {
  }

  lemma ShortKept(r: seq<byte>)
    requires |r| < 7
    ensures Remainder(r) == r
  {
    TooShort(r, 0);
  }

  /** Bytes `t` that came behind `s` and were never looked at. */
  lemma KeptAgrees(s: seq<byte>, t: seq<byte>)
    requires t == [] || |Remainder(s) + t| < 7
    ensures var r := Remainder(s) + t;
            r == Remainder(s + t) <==> EndsByGuard(s) || Waits(r)
  {
    hide Settle, LastHead, Waits;
    if t == [] {
      assert Remainder(s) + t == Remainder(s) && s + t == s;
      SettledWaits(s, 0);
    } else {
      RemainderAgrees(s, t);
      ShortKept(Remainder(s) + t);
    }
  }

  lemma {:induction false} FeedRemainderFrom(s: seq<byte>, t: seq<byte>, chunks: seq<seq<byte>>)
    requires t == [] || |Remainder(s) + t| < 7
    ensures var kept := Remainder(s) + t;
            var r := Feed(kept, chunks).1;
            r == Remainder((s + t) + Flatten(chunks)) <==> EndsByGuard(LastLooked(s, s + t, kept, chunks)) || Waits(r)
    decreases |chunks|
  {
    hide Settle, Messages, EndsByGuard, Waits, Remainder;
    var kept := Remainder(s) + t;
    if chunks == [] {
      assert (s + t) + Flatten(chunks) == s + t;
      KeptAgrees(s, t);
    } else {
      var c := chunks[0];
      var now := (s + t) + c;
      FeedStep(s, s + t, kept, chunks);
      assert kept + c == Remainder(s) + (t + c) && now == s + (t + c);
      if |kept + c| < 7 {
        ShortKept(kept + c);
        FeedRemainderFrom(s, t + c, chunks[1..]);
      } else {
        RemainderAgrees(s, t + c);
        assert Remainder(now) + [] == Remainder(now) && now + [] == now;
        FeedRemainderFrom(now, [], chunks[1..]);
      }
    }
  }

  /** For every stream and every way of cutting it: the bytes kept at the end are those that one
      call on the whole stream keeps, if and only if the last call that entered the loop left it
      by its guard, or the kept bytes are ones the parser waits at. */
  lemma FeedRemainder(chunks: seq<seq<byte>>)
    ensures var r := Feed([], chunks).1;
            r == Remainder(Flatten(chunks)) <==> EndsByGuard(LastLooked([], [], [], chunks)) || Waits(r)
  {
    hide Settle, EndsByGuard, Waits, Feed, Flatten, LastLooked;
    var none: seq<byte> := [];
    NothingYet(Flatten(chunks));
    FeedRemainderFrom(none, none, chunks);
  }

  lemma NothingYet(s: seq<byte>)
    ensures var none: seq<byte> := [];
            Remainder(none) + none == none && none + none == none && (none + none) + s == s
  {
    ShortKept([]);
    assert ([] + []) + s == s;
  }

  /** So it can fail: five bytes of junk are kept when they come behind seven others that were
      dropped, and are dropped together with them. */
  lemma RemaindersDiffer()
    ensures var junk: seq<byte> := [9, 9, 9, 9, 9, 9, 9];
            Feed([], [junk, junk[..5]]).1 != Feed([], [junk + junk[..5]]).1
  {
    var junk: seq<byte> := [9, 9, 9, 9, 9, 9, 9];
    var five := junk[..5];
    NextStartIs(junk, 0, 7);
    assert Remainder(junk) == [];
    assert [] + junk == junk && [] + five == five;
    NextStartIs(junk + five, 0, 12);
    assert Remainder(junk + five) == [];
    assert Feed([], [junk + five]) == (Messages(junk + five) + [], []) by {
      assert [] + (junk + five) == junk + five;
      assert [junk + five][1..] == [];
    }
    var last: seq<seq<byte>> := [five];
    assert [junk, five][1..] == last && last[1..] == [];
    assert Feed([], [five]).1 == five;
  }
}

/** Messages do not depend on how the socket cuts the stream. */
module NdjsonTheorems {
  import opened Common
  import opened Ndjson

  // ----- Lines ------------------------------------------------------------------------------

  lemma {:induction false} NewlineFirst(s: seq<byte>)
    ensures var i := NewlineIndex(s);
            (i < |s| ==> s[i] == NEWLINE) && forall k :: 0 <= k < i ==> s[k] != NEWLINE
  {
    if s != [] && s[0] != NEWLINE {
      NewlineFirst(s[1..]);
    }
  }

  lemma NewlineIs(s: seq<byte>, i: nat)
    requires i <= |s| && (i < |s| ==> s[i] == NEWLINE)
    requires forall k :: 0 <= k < i ==> s[k] != NEWLINE
    ensures NewlineIndex(s) == i
  {
    hide NewlineIndex;
    NewlineFirst(s);
  }

  /** A buffer with a newline is a line, the newline and the rest. */
  lemma FirstSplit(s: seq<byte>) returns (line: seq<byte>, rest: seq<byte>)
    requires NEWLINE in s
    ensures s == line + [NEWLINE] + rest && NEWLINE !in line && |line| == NewlineIndex(s)
  {
    hide NewlineIndex;
    NewlineFirst(s);
    var i := NewlineIndex(s);
    line, rest := s[..i], s[i + 1..];
  }

  lemma LineThen(line: seq<byte>, rest: seq<byte>)
    requires NEWLINE !in line
    ensures var s := line + [NEWLINE] + rest;
            NewlineIndex(s) == |line| && Lines(s) == [line] + Lines(rest) && Tail(s) == Tail(rest)
  {
    hide NewlineIndex;
    var s := line + [NEWLINE] + rest;
    NewlineIs(s, |line|);
    assert s[..|line|] == line && s[|line| + 1..] == rest;
  }

  lemma TailOfTail(s: seq<byte>)
    requires NEWLINE !in s
    ensures NewlineIndex(s) == |s| && Lines(s) == [] && Tail(s) == s
  {
    hide NewlineIndex;
    NewlineIs(s, |s|);
  }

  /** Bytes that arrive later only continue the unfinished line. */
  lemma {:induction false} LinesAppend(s: seq<byte>, t: seq<byte>)
    ensures Lines(s + t) == Lines(s) + Lines(Tail(s) + t)
    ensures Tail(s + t) == Tail(Tail(s) + t)
    decreases |s|
  {
    hide NewlineIndex, Lines, Tail;
    if NEWLINE in s {
      var line, rest := FirstSplit(s);
      LineThen(line, rest);
      LineThen(line, rest + t);
      LinesAppend(rest, t);
      assert s + t == line + [NEWLINE] + (rest + t);
      assert [line] + (Lines(rest) + Lines(Tail(rest) + t)) == [line] + Lines(rest) + Lines(Tail(rest) + t);
    } else {
      TailOfTail(s);
      assert [] + Lines(s + t) == Lines(s + t);
    }
  }

  // ----- Lines and stripping, by what they mean ----------------------------------------

  /** Lines with their newlines, and the unfinished line behind them. */
  function Rejoined(lines: seq<seq<byte>>, tail: seq<byte>): seq<byte>
  {
    if lines == [] then tail else lines[0] + [NEWLINE] + Rejoined(lines[1..], tail)
  }

  lemma {:induction false} RejoinedLines(s: seq<byte>)
    ensures Rejoined(Lines(s), Tail(s)) == s
    ensures NEWLINE !in Tail(s) && forall line :: line in Lines(s) ==> NEWLINE !in line
    decreases |s|
  {
    hide NewlineIndex, Lines, Tail;
    if NEWLINE in s {
      var line, rest := FirstSplit(s);
      LineThen(line, rest);
      RejoinedLines(rest);
      assert Lines(s)[1..] == Lines(rest);
    } else {
      TailOfTail(s);
    }
  }

  lemma {:induction false} LinesOfRejoined(lines: seq<seq<byte>>, tail: seq<byte>)
    requires NEWLINE !in tail && forall line :: line in lines ==> NEWLINE !in line
    ensures Lines(Rejoined(lines, tail)) == lines && Tail(Rejoined(lines, tail)) == tail
  {
    hide NewlineIndex, Lines, Tail;
    if lines == [] {
      TailOfTail(tail);
    } else {
      LinesOfRejoined(lines[1..], tail);
      LineThen(lines[0], Rejoined(lines[1..], tail));
    }
  }

  /** Splitting at newlines is the one way to cut a buffer into pieces without newlines. */
  lemma SplitExactly(s: seq<byte>, lines: seq<seq<byte>>, tail: seq<byte>)
    ensures lines == Lines(s) && tail == Tail(s)
       <==> Rejoined(lines, tail) == s && NEWLINE !in tail && forall line :: line in lines ==> NEWLINE !in line
  {
    hide Lines, Tail, Rejoined;
    RejoinedLines(s);
    if Rejoined(lines, tail) == s && NEWLINE !in tail && forall line :: line in lines ==> NEWLINE !in line {
      LinesOfRejoined(lines, tail);
    }
  }

  /** Stripping removes exactly the white space at both ends. */
  lemma {:induction false} StripExactly(s: seq<byte>) returns (lo: nat, hi: nat)
    ensures lo <= hi <= |s| && Strip(s) == s[lo..hi]
    ensures forall k :: 0 <= k < lo || hi <= k < |s| ==> IsSpace(s[k])
    ensures lo < hi ==> !IsSpace(s[lo]) && !IsSpace(s[hi - 1])
    decreases |s|
  {
    hide IsSpace, Strip;
    StripStep(s);
    if s == [] {
      lo, hi := 0, 0;
    } else if IsSpace(s[0]) {
      var t := s[1..];
      var a, b := StripExactly(t);
      lo, hi := a + 1, b + 1;
      assert t[a..b] == s[lo..hi];
      forall k | 0 <= k < lo || hi <= k < |s|
        ensures IsSpace(s[k])
      {
        assert k > 0 ==> s[k] == t[k - 1];
      }
      assert a < b ==> s[lo] == t[a] && s[hi - 1] == t[b - 1];
    } else if IsSpace(s[|s| - 1]) {
      var t := s[..|s| - 1];
      lo, hi := StripExactly(t);
      assert t[lo..hi] == s[lo..hi];
      forall k | 0 <= k < lo || hi <= k < |s|
        ensures IsSpace(s[k])
      {
        assert k < |t| ==> s[k] == t[k];
      }
    } else {
      lo, hi := 0, |s|;
    }
  }

  lemma StripStep(s: seq<byte>)
    ensures Strip(s) ==
              if s == [] then []
              else if IsSpace(s[0]) then Strip(s[1..])
              else if IsSpace(s[|s| - 1]) then Strip(s[..|s| - 1])
              else s
  {
  }

  lemma {:induction false} AllSpace(s: seq<byte>)
    requires forall k :: 0 <= k < |s| ==> IsSpace(s[k])
    ensures Strip(s) == []
    decreases |s|
  {
    hide IsSpace, Strip;
    StripStep(s);
    if s != [] {
      AllSpace(s[1..]);
    }
  }

  /** What is left is the one stretch with white space around it and none at its ends. */
  lemma {:induction false} StripIs(s: seq<byte>, lo: nat, hi: nat)
    requires lo < hi <= |s| && !IsSpace(s[lo]) && !IsSpace(s[hi - 1])
    requires forall k :: 0 <= k < lo || hi <= k < |s| ==> IsSpace(s[k])
    ensures Strip(s) == s[lo..hi]
    decreases |s|
  {
    hide IsSpace, Strip;
    StripStep(s);
    if lo > 0 {
      var t := s[1..];
      assert forall k :: 0 <= k < |t| ==> t[k] == s[k + 1];
      StripIs(t, lo - 1, hi - 1);
      assert t[lo - 1..hi - 1] == s[lo..hi];
    } else if hi < |s| {
      var t := s[..|s| - 1];
      StripIs(t, lo, hi);
      assert t[lo..hi] == s[lo..hi];
    } else {
      assert s[lo..hi] == s;
    }
  }

  /** A line carries a message if and only if what is left between white space at its ends is
      non-empty and decodes to it. */
  lemma LineMessageExactly<M>(line: seq<byte>, m: M, decode: seq<byte> -> Option<M>)
    ensures LineMessage(line, decode) == [m]
       <==> exists lo: nat, hi: nat :: IsCore(line, lo, hi) && decode(line[lo..hi]) == Some(m)
    ensures |LineMessage(line, decode)| <= 1
  {
    hide Strip, IsSpace;
    var lo, hi := StripExactly(line);
    forall k | 0 <= k < |line|
      ensures IsSpace(line[k]) <==> line[k] in WHITE
    {
      SpaceExactly(line[k]);
    }
    if lo < hi {
      assert IsCore(line, lo, hi);
    }
    forall a: nat, b: nat | IsCore(line, a, b)
      ensures Strip(line) == line[a..b]
    {
      StripIs(line, a, b);
    }
  }

  /** Tab, newline, vertical tab, form feed, carriage return and blank. */
  const WHITE: set<byte> := {9, 10, 11, 12, 13, 32}

  lemma SpaceExactly(b: byte)
    ensures IsSpace(b) <==> b in WHITE
  {
  }

  ghost predicate IsCore(line: seq<byte>, lo: nat, hi: nat)
  {
    && lo < hi <= |line| && line[lo] !in WHITE && line[hi - 1] !in WHITE
    && forall k :: 0 <= k < lo || hi <= k < |line| ==> line[k] in WHITE
  }

  lemma {:induction false} ParsedConcat<M>(a: seq<seq<byte>>, b: seq<seq<byte>>, decode: seq<byte> -> Option<M>)
    ensures Parsed(a + b, decode) == Parsed(a, decode) + Parsed(b, decode)
  {
    hide LineMessage;
    if a == [] {
      assert a + b == b;
    } else {
      assert (a + b)[1..] == a[1..] + b;
      ParsedConcat(a[1..], b, decode);
    }
  }

  /** The kept buffer never holds a newline. */
  lemma TailHasNoNewline(s: seq<byte>)
    ensures NEWLINE !in Tail(s)
  {
    RejoinedLines(s);
  }

  ghost predicate PiecesAtMost(s: seq<byte>, n: nat)
  {
    |Tail(s)| <= n && forall line :: line in Lines(s) ==> |line| <= n
  }

  /** An unfinished line is part of one of the lines of the whole stream. */
  lemma UnfinishedLine(p: seq<byte>, t: seq<byte>, n: nat)
    requires PiecesAtMost(p + t, n)
    ensures |Tail(p)| <= n
  {
    hide Lines, Tail;
    LinesAppend(p, t);
    TailHasNoNewline(p);
    FirstPiece(Tail(p), t, n);
  }

  lemma FirstPiece(u: seq<byte>, t: seq<byte>, n: nat)
    requires NEWLINE !in u && |Tail(u + t)| <= n && forall line :: line in Lines(u + t) ==> |line| <= n
    ensures |u| <= n
  {
    hide NewlineIndex, Lines, Tail;
    if NEWLINE in u + t {
      var line, rest := FirstSplit(u + t);
      LineThen(line, rest);
      assert Lines(u + t)[0] == line;
      assert forall k :: 0 <= k < |u| ==> (u + t)[k] == u[k];
      assert (u + t)[|line|] == NEWLINE;
    } else {
      TailOfTail(u + t);
    }
  }

  // ----- Event streams ----------------------------------------------------------------------

  predicate Continues(t: Turn)
  {
    !t.stop && (t.received.Timeout? || (t.received.Data? && t.received.chunk != []))
  }

  /** Everything received until the turn that ends the subscription. */
  function Arrived(ts: seq<Turn>): seq<byte>
    decreases |ts|
  {
    if ts == [] || !Continues(ts[0]) then []
    else (if ts[0].received.Data? then ts[0].received.chunk else []) + Arrived(ts[1..])
  }

  lemma {:induction false} ExactFrom<M>(d: seq<M>, b: seq<byte>, ts: seq<Turn>, decode: seq<byte> -> Option<M>)
    requires NEWLINE !in b
    ensures var r := Steps(Subscription(d, b, Running), ts, decode);
            r.outcome != OverCap ==>
              && r.delivered == d + Parsed(Lines(b + Arrived(ts)), decode)
              && r.buf == Tail(b + Arrived(ts))
    decreases |ts|
  {
    hide Lines, Tail, Parsed;
    var s, all := Subscription(d, b, Running), b + Arrived(ts);
    TailOfTail(b);
    ParsedNone(decode);
    assert d + [] == d && b + [] == b;
    if ts != [] {
      var t := ts[0];
      if !Continues(t) {
        Finished(Step(s, t, decode), ts[1..], decode);
      } else if t.received.Timeout? {
        assert [] + Arrived(ts[1..]) == Arrived(ts[1..]);
        ExactFrom(d, b, ts[1..], decode);
      } else {
        var buf := b + t.received.chunk;
        assert all == buf + Arrived(ts[1..]);
        if |buf| > MAX_REPLY_BYTES {
          Finished(Step(s, t, decode), ts[1..], decode);
        } else {
          LinesAppend(buf, Arrived(ts[1..]));
          ParsedConcat(Lines(buf), Lines(Tail(buf) + Arrived(ts[1..])), decode);
          TailHasNoNewline(buf);
          ExactFrom(d + Parsed(Lines(buf), decode), Tail(buf), ts[1..], decode);
        }
      }
    }
  }

  /** Unless the cap cuts it off, a subscription delivers the messages of the whole stream in
      order, for every way the stream is cut into chunks, and keeps the unfinished line. */
  lemma EventExactness<M>(ts: seq<Turn>, decode: seq<byte> -> Option<M>)
    requires Subscribed(ts, decode).outcome != OverCap
    ensures Subscribed(ts, decode).delivered == Parsed(Lines(Arrived(ts)), decode)
    ensures Subscribed(ts, decode).buf == Tail(Arrived(ts))
  {
    hide Lines, Tail, Parsed, Steps;
    ExactFrom([], [], ts, decode);
    assert [] + Arrived(ts) == Arrived(ts);
  }

  /** The first turn that ends the subscription by itself: a stop, the end of the stream, an empty
      chunk, or a failure. */
  ghost predicate EndsAt(ts: seq<Turn>, k: nat)
  {
    && k < |ts|
    && (ts[k].stop || ts[k].received in {Closed, Failed, Data([])})
    && forall j :: 0 <= j < k ==> !ts[j].stop && ts[j].received !in {Closed, Failed, Data([])}
  }

  lemma EndsStep(ts: seq<Turn>, k: nat)
    requires ts != [] && !EndsAt(ts, 0)
    ensures EndsAt(ts, k) <==> k > 0 && EndsAt(ts[1..], k - 1)
  {
    if k > 0 && k < |ts| {
      assert ts[1..][k - 1] == ts[k];
      assert forall j :: 0 <= j < |ts| - 1 ==> ts[1..][j] == ts[j + 1];
      if forall j :: 0 <= j < k - 1 ==> !ts[1..][j].stop && ts[1..][j].received !in {Closed, Failed, Data([])} {
        assert forall j :: 0 < j < k ==> ts[j] == ts[1..][j - 1];
      }
    }
  }

  lemma ContinuesIff(ts: seq<Turn>)
    requires ts != []
    ensures EndsAt(ts, 0) <==> !Continues(ts[0])
  {
  }

  lemma {:induction false} OutcomeFrom<M>(d: seq<M>, b: seq<byte>, ts: seq<Turn>, decode: seq<byte> -> Option<M>)
    requires Steps(Subscription(d, b, Running), ts, decode).outcome != OverCap
    ensures var outcome := Steps(Subscription(d, b, Running), ts, decode).outcome;
            && (outcome == Running <==> forall k: nat :: !EndsAt(ts, k))
            && (forall k: nat :: EndsAt(ts, k) ==>
                  outcome == if !ts[k].stop && ts[k].received == Failed then Unreachable else Connected)
    decreases |ts|
  {
    hide Lines, Tail, Parsed, EndsAt;
    if ts == [] {
      NoEnd();
    } else {
      var s := Step(Subscription(d, b, Running), ts[0], decode);
      ContinuesIff(ts);
      if EndsAt(ts, 0) {
        Finished(s, ts[1..], decode);
        forall k: nat | EndsAt(ts, k)
          ensures k == 0
        {
          OneEnd(ts, 0, k);
        }
      } else {
        if s.outcome == OverCap {
          Finished(s, ts[1..], decode);
        }
        OutcomeFrom(s.delivered, s.buf, ts[1..], decode);
        forall k: nat
          ensures EndsAt(ts, k) <==> k > 0 && EndsAt(ts[1..], k - 1)
        {
          EndsStep(ts, k);
        }
        if k: nat :| EndsAt(ts[1..], k) {
          assert EndsAt(ts, k + 1);
        }
        forall k: nat | EndsAt(ts, k)
          ensures k < |ts| && ts[1..][k - 1] == ts[k]
        {
          EndWithin(ts, k);
        }
      }
    }
  }

  lemma EndWithin(ts: seq<Turn>, k: nat)
    requires EndsAt(ts, k)
    ensures k < |ts|
  {
  }

  lemma NoEnd()
    ensures forall k: nat :: !EndsAt([], k)
  {
  }

  lemma OneEnd(ts: seq<Turn>, j: nat, k: nat)
    requires EndsAt(ts, j) && EndsAt(ts, k)
    ensures j == k
  {
  }

  /** The cap aside, a subscription goes on until the first turn that ends it, and says that it was
      connected unless that turn is a socket failure. */
  lemma OutcomeExactly<M>(ts: seq<Turn>, decode: seq<byte> -> Option<M>)
    requires Subscribed(ts, decode).outcome != OverCap
    ensures var outcome := Subscribed(ts, decode).outcome;
            && (outcome == Running <==> forall k: nat :: !EndsAt(ts, k))
            && (forall k: nat :: EndsAt(ts, k) ==>
                  outcome == if !ts[k].stop && ts[k].received == Failed then Unreachable else Connected)
  {
    hide Steps, EndsAt;
    OutcomeFrom([], [], ts, decode);
  }

  /** Turn `k` brings a chunk that does not fit beside the unfinished line. */
  ghost predicate TripsAt(b: seq<byte>, ts: seq<Turn>, k: nat)
  {
    && k < |ts| && Continues(ts[k]) && ts[k].received.Data?
    && (forall j :: 0 <= j < k ==> Continues(ts[j]))
    && |Tail(b + Arrived(ts[..k]))| + |ts[k].received.chunk| > MAX_REPLY_BYTES
  }

  lemma TripsLater(b: seq<byte>, ts: seq<Turn>, k: nat)
    requires ts != [] && Continues(ts[0]) && NEWLINE !in b
    ensures var c := if ts[0].received.Data? then ts[0].received.chunk else [];
            TripsAt(b, ts, k + 1) <==> TripsAt(Tail(b + c), ts[1..], k)
  {
    hide Tail, Continues;
    var c := if ts[0].received.Data? then ts[0].received.chunk else [];
    if k + 1 < |ts| {
      assert ts[..k + 1][0] == ts[0] && ts[..k + 1][1..] == ts[1..][..k];
      assert b + (c + Arrived(ts[1..][..k])) == (b + c) + Arrived(ts[1..][..k]);
      LinesAppend(b + c, Arrived(ts[1..][..k]));
      assert Arrived(ts[..k + 1]) == c + Arrived(ts[1..][..k]);
      assert ts[1..][k] == ts[k + 1];
      if forall j :: 0 <= j < k + 1 ==> Continues(ts[j]) {
        assert forall j :: 0 <= j < k ==> ts[1..][j] == ts[j + 1];
      }
      if forall j :: 0 <= j < k ==> Continues(ts[1..][j]) {
        assert forall j :: 0 < j < k + 1 ==> ts[j] == ts[1..][j - 1];
      }
    }
  }

  lemma {:induction false} CapFrom<M>(d: seq<M>, b: seq<byte>, ts: seq<Turn>, decode: seq<byte> -> Option<M>)
    requires NEWLINE !in b
    ensures Steps(Subscription(d, b, Running), ts, decode).outcome == OverCap <==> exists k: nat :: TripsAt(b, ts, k)
    decreases |ts|
  {
    hide Lines, Tail, Parsed, TripsAt;
    if ts == [] || !Continues(ts[0]) {
      NoTrip(b, ts);
      if ts != [] {
        Finished(Step(Subscription(d, b, Running), ts[0], decode), ts[1..], decode);
      }
    } else {
      var c := if ts[0].received.Data? then ts[0].received.chunk else [];
      var s := Step(Subscription(d, b, Running), ts[0], decode);
      TailOfTail(b);
      assert b + [] == b;
      TripsNow(b, ts);
      forall k: nat
        ensures TripsAt(b, ts, k + 1) <==> TripsAt(Tail(b + c), ts[1..], k)
      {
        TripsLater(b, ts, k);
      }
      if s.outcome == OverCap {
        Finished(s, ts[1..], decode);
        assert TripsAt(b, ts, 0);
      } else {
        TailHasNoNewline(b + c);
        CapFrom(s.delivered, s.buf, ts[1..], decode);
        if exists k: nat :: TripsAt(b, ts, k) {
          var k: nat :| TripsAt(b, ts, k);
          assert TripsAt(Tail(b + c), ts[1..], k - 1);
        }
      }
    }
  }

  lemma NoTrip(b: seq<byte>, ts: seq<Turn>)
    requires ts == [] || !Continues(ts[0])
    ensures !exists k: nat :: TripsAt(b, ts, k)
  {
    hide Tail;
  }

  lemma TripsNow(b: seq<byte>, ts: seq<Turn>)
    requires ts != [] && Continues(ts[0]) && NEWLINE !in b
    ensures TripsAt(b, ts, 0) <==> ts[0].received.Data? && |b| + |ts[0].received.chunk| > MAX_REPLY_BYTES
  {
    TailOfTail(b);
    assert b + [] == b;
  }

  /** The cap cuts a subscription off exactly when some chunk does not fit beside the line that
      is unfinished when it comes. */
  lemma CapExactly<M>(ts: seq<Turn>, decode: seq<byte> -> Option<M>)
    ensures Subscribed(ts, decode).outcome == OverCap <==> exists k: nat :: TripsAt([], ts, k)
  {
    CapFrom([], [], ts, decode);
  }

  lemma ArrivedStep(t: Turn, ts: seq<Turn>)
    requires Continues(t)
    ensures Arrived([t] + ts) == (if t.received.Data? then t.received.chunk else []) + Arrived(ts)
  {
    hide Continues;
    assert ([t] + ts)[1..] == ts;
  }

  lemma NothingArrived(s: seq<byte>)
    ensures Arrived([]) + s == s
  {
  }

  lemma {:induction false} ArrivedConcat(a: seq<Turn>, b: seq<Turn>)
    requires forall j :: 0 <= j < |a| ==> Continues(a[j])
    ensures Arrived(a + b) == Arrived(a) + Arrived(b)
  {
    hide Continues, Arrived;
    if a == [] {
      NothingArrived(Arrived(b));
      assert a + b == b;
    } else {
      var t, rest := a[0], a[1..];
      assert a == [t] + rest && Continues(t);
      ArrivedConcat(rest, b);
      ArrivedStep(t, rest);
      ArrivedStep(t, rest + b);
      Associative([t], rest, b);
      Associative(if t.received.Data? then t.received.chunk else [], Arrived(rest), Arrived(b));
    }
  }

  lemma ArrivedSplit(ts: seq<Turn>, k: nat)
    requires k <= |ts| && forall j :: 0 <= j < k ==> Continues(ts[j])
    ensures Arrived(ts) == Arrived(ts[..k]) + Arrived(ts[k..])
  {
    hide Continues, Arrived;
    assert ts == ts[..k] + ts[k..];
    ArrivedConcat(ts[..k], ts[k..]);
  }

  /** So it never does when chunks have at most 4096 bytes and lines leave that much room. */
  lemma CapNeverFires<M>(ts: seq<Turn>, decode: seq<byte> -> Option<M>)
    requires forall k :: 0 <= k < |ts| && ts[k].received.Data? ==> |ts[k].received.chunk| <= RECV_BYTES
    requires PiecesAtMost(Arrived(ts), MAX_REPLY_BYTES - RECV_BYTES)
    ensures Subscribed(ts, decode).outcome != OverCap
  {
    hide PiecesAtMost, Steps, Tail;
    CapExactly(ts, decode);
    if Subscribed(ts, decode).outcome == OverCap {
      var k: nat :| TripsAt([], ts, k);
      ArrivedSplit(ts, k);
      assert [] + Arrived(ts[..k]) == Arrived(ts[..k]);
      UnfinishedLine(Arrived(ts[..k]), Arrived(ts[k..]), MAX_REPLY_BYTES - RECV_BYTES);
    }
  }

  // ----- Encoded messages -------------------------------------------------------------------

  /** What the JSON encoder guarantees: one line, nothing to strip, decodable. */
  ghost predicate IsCodec<M(!new)>(encode: M -> seq<byte>, decode: seq<byte> -> Option<M>)
  {
    forall m :: && NEWLINE !in encode(m) && encode(m) != [] && Strip(encode(m)) == encode(m)
                && decode(encode(m)) == Some(m)
  }

  function EncodeMessages<M>(ms: seq<M>, encode: M -> seq<byte>): seq<byte>
  {
    if ms == [] then [] else encode(ms[0]) + [NEWLINE] + EncodeMessages(ms[1..], encode)
  }

  /** Encoded messages come back, and leave nothing behind. */
  lemma {:induction false} RoundTrip<M(!new)>(ms: seq<M>, encode: M -> seq<byte>, decode: seq<byte> -> Option<M>)
    requires IsCodec(encode, decode)
    ensures Parsed(Lines(EncodeMessages(ms, encode)), decode) == ms
    ensures Tail(EncodeMessages(ms, encode)) == []
  {
    hide NewlineIndex, IsCodec;
    if ms != [] {
      var line, rest := encode(ms[0]), EncodeMessages(ms[1..], encode);
      var s := line + [NEWLINE] + rest;
      OneLine(ms[0], encode, decode);
      NewlineIs(s, |line|);
      assert s[..|line|] == line && s[|line| + 1..] == rest;
      RoundTrip(ms[1..], encode, decode);
      ParsedConcat([line], Lines(rest), decode);
      assert ms == [ms[0]] + ms[1..];
    }
  }

  lemma OneLine<M(!new)>(m: M, encode: M -> seq<byte>, decode: seq<byte> -> Option<M>)
    requires IsCodec(encode, decode)
    ensures NEWLINE !in encode(m) && Parsed([encode(m)], decode) == [m]
  {
    hide Strip;
    assert [encode(m)][1..] == [];
  }

  /** However the socket cuts them, the events a daemon encodes are the events delivered. */
  lemma EventsDelivered<M(!new)>(ms: seq<M>, ts: seq<Turn>, encode: M -> seq<byte>, decode: seq<byte> -> Option<M>)
    requires IsCodec(encode, decode) && Arrived(ts) == EncodeMessages(ms, encode)
    requires Subscribed(ts, decode).outcome != OverCap
    ensures Subscribed(ts, decode).delivered == ms && Subscribed(ts, decode).buf == []
  {
    EventExactness(ts, decode);
    RoundTrip(ms, encode, decode);
  }
}

/** What the Basic protocol parser guarantees over whole streams, however they are cut up. */
module FramingTheorems {
  import opened Common
  import opened Framing

  // ----- The path walked by the parser ---------------------------------------

  /** Walking verdict by verdict from `p` arrives at `q` without ever waiting. */
  ghost predicate Reaches(s: seq<byte>, p: nat, q: nat)
    requires p <= q <= |s|
    decreases q - p
  {
    p == q ||
    match Decide(s, p)
    case Skip => Reaches(s, p + 1, q)
    case NeedMore => false
    case Emit(n, _) => p + n <= q && Reaches(s, p + n, q)
  }

  lemma {:induction false} SkipReaches(s: seq<byte>, p: nat, i: nat, q: nat)
    requires p <= i <= q <= |s|
    requires forall k :: p <= k < i ==> s[k] != MESSAGE_START_BYTE
    requires Reaches(s, i, q)
    ensures Reaches(s, p, q)
    decreases i - p
  {
    hide Decide;
    if p < i {
      SkipReaches(s, p + 1, i, q);
    }
  }

  /** The parser's stopping point lies on the path, and no frame is known beyond it. */
  lemma {:induction false} SettleReached(s: seq<byte>, p: nat)
    requires p <= |s|
    ensures Reaches(s, p, Settle(s, p))
    ensures Scan(s, Settle(s, p)) == []
    decreases |s| - p
  {
    hide Decide, NextStart, Settle, Scan, Reaches;
    SettleStep(s, p);
    if |s| - p < 7 {
      TooShort(s, p);
      ReachesHere(s, p);
    } else {
      var i := NextStart(s, p);
      NextStartFirst(s, p);
      if i == |s| {
        TooShort(s, i);
        ReachesHere(s, i);
      } else {
        ScanStep(s, i);
        match Decide(s, i)
        case NeedMore => ReachesHere(s, i);
        case Skip => SettleReached(s, i + 1); ReachesStep(s, i, Settle(s, p));
        case Emit(n, _) => SettleReached(s, i + n); ReachesStep(s, i, Settle(s, p));
      }
      SkipReaches(s, p, i, Settle(s, p));
    }
  }

  lemma ReachesHere(s: seq<byte>, p: nat)
    requires p <= |s|
    ensures Reaches(s, p, p)
  {
  }

  lemma ReachesStep(s: seq<byte>, p: nat, q: nat)
    requires p < q <= |s|
    ensures Reaches(s, p, q) <==>
              match Decide(s, p)
              case Skip => Reaches(s, p + 1, q)
              case NeedMore => false
              case Emit(n, _) => p + n <= q && Reaches(s, p + n, q)
  {
    hide Decide;
  }

  /** More bytes never change a verdict that has been given. */
  lemma DecideStable(s: seq<byte>, t: seq<byte>, p: nat)
    requires p < |s| && Decide(s, p) != NeedMore
    ensures Decide(s + t, p) == Decide(s, p)
  {
    if |s| - p >= 4 {
      var total := 4 + Le16(s[p + 1], s[p + 2]);
      if total <= |s| - p {
        assert (s + t)[p..p + total] == s[p..p + total];
      }
    }
  }

  /** Everything up to a reached position is final; a longer stream only continues from there. */
  lemma {:induction false} ScanExtends(s: seq<byte>, t: seq<byte>, p: nat, q: nat)
    requires p <= q <= |s| && Reaches(s, p, q) && Scan(s, q) == []
    ensures Scan(s + t, p) == Scan(s, p) + Scan(s + t, q)
    decreases q - p
  {
    hide Decide, Scan;
    if p == q {
      assert [] + Scan(s + t, q) == Scan(s + t, q);
    } else {
      DecideStable(s, t, p);
      ScanStep(s, p);
      ScanStep(s + t, p);
      match Decide(s, p)
      case Skip => ScanExtends(s, t, p + 1, q);
      case Emit(n, m) =>
        ScanExtends(s, t, p + n, q);
        assert [Frame(p, n, m)] + (Scan(s, p + n) + Scan(s + t, q)) == Scan(s, p) + Scan(s + t, q);
    }
  }

  function Shifted(fs: seq<Frame>, offset: nat): (r: seq<Frame>)
    ensures |r| == |fs|
    ensures forall i :: 0 <= i < |fs| ==> r[i] == Frame(fs[i].start + offset, fs[i].size, fs[i].message)
  {
    seq(|fs|, i requires 0 <= i < |fs| => Frame(fs[i].start + offset, fs[i].size, fs[i].message))
  }

  lemma ShiftedCons(f: Frame, fs: seq<Frame>, offset: nat)
    ensures Shifted([f] + fs, offset) == [Frame(f.start + offset, f.size, f.message)] + Shifted(fs, offset)
  {
  }

  lemma {:induction false} ScanShift(s: seq<byte>, q: nat, p: nat)
    requires q <= p <= |s|
    ensures Scan(s, p) == Shifted(Scan(s[q..], p - q), q)
    decreases |s| - p
  {
    hide Decide, Shifted, Scan;
    if p == |s| {
      TooShort(s, p);
      TooShort(s[q..], p - q);
    } else {
      DecideShift(s, q, p);
      ScanStep(s, p);
      ScanStep(s[q..], p - q);
      match Decide(s, p)
      case NeedMore =>
      case Skip => ScanShift(s, q, p + 1);
      case Emit(n, m) =>
        ScanShift(s, q, p + n);
        ShiftedCons(Frame(p - q, n, m), Scan(s[q..], p + n - q), q);
    }
  }

  lemma NextStartDrop(s: seq<byte>, q: nat, p: nat)
    requires q <= p <= |s|
    ensures NextStart(s, p) == q + NextStart(s[q..], p - q)
  {
    NextStartFirst(s, p);
    NextStartIs(s[q..], p - q, NextStart(s, p) - q);
  }

  lemma {:induction false} SettleShift(s: seq<byte>, q: nat, p: nat)
    requires q <= p <= |s|
    ensures Settle(s, p) == q + Settle(s[q..], p - q)
    decreases |s| - p
  {
    hide Decide, NextStart, Settle;
    var i := NextStart(s, p);
    NextStartDrop(s, q, p);
    SettleStep(s, p);
    SettleStep(s[q..], p - q);
    if |s| - p >= 7 && i < |s| {
      DecideShift(s, q, i);
      match Decide(s, i)
      case NeedMore =>
      case Skip => SettleShift(s, q, i + 1);
      case Emit(n, m) => SettleShift(s, q, i + n);
    }
  }

  // ----- Chunking invariance -----------------------------------------------------

  /** Re-feeding the remainder plus the next chunk: messages so far, and the buffer kept. */
  function Feed(kept: seq<byte>, chunks: seq<seq<byte>>): (seq<BasicMessage>, seq<byte>)
    decreases |chunks|
  {
    if chunks == [] then ([], kept)
    else
      var buf := kept + chunks[0];
      var (ms, r) := Feed(Remainder(buf), chunks[1..]);
      (Messages(buf) + ms, r)
  }

  lemma MessagesContinue(s: seq<byte>, t: seq<byte>)
    ensures Messages(s + t) == Messages(s) + Messages(Remainder(s) + t)
  {
    hide Scan, Decide;
    var q := Settle(s, 0);
    SettleReached(s, 0);
    ScanExtends(s, t, 0, q);
    ScanShift(s + t, q, q);
    assert (s + t)[q..] == Remainder(s) + t;
  }

  lemma {:induction false} ChunkingInvarianceFrom(kept: seq<byte>, chunks: seq<seq<byte>>)
    requires Messages(kept) == [] || chunks != []
    ensures Feed(kept, chunks).0 == Messages(kept + Flatten(chunks))
    decreases |chunks|
  {
    hide Messages, Settle;
    if chunks == [] {
      assert kept + Flatten(chunks) == kept;
    } else {
      var buf := kept + chunks[0];
      var rest := Flatten(chunks[1..]);
      RemainderIsSilent(buf);
      ChunkingInvarianceFrom(Remainder(buf), chunks[1..]);
      MessagesContinue(buf, rest);
      assert kept + Flatten(chunks) == buf + rest;
    }
  }

  lemma RemainderIsSilent(s: seq<byte>)
    ensures Messages(Remainder(s)) == []
  {
    hide Scan, Settle;
    SettleReached(s, 0);
    ScanShift(s, Settle(s, 0), Settle(s, 0));
  }

  /** For every stream and every way of cutting it, the messages are those of one call on
      the whole stream. (When the remainders agree too: see FramingRemainders.) */
  lemma ChunkingInvariance(chunks: seq<seq<byte>>)
    ensures Feed([], chunks).0 == Messages(Flatten(chunks))
  {
    ChunkingInvarianceFrom([], chunks);
    assert [] + Flatten(chunks) == Flatten(chunks);
  }

  // ----- Bounded buffer, bounded delay ----------------------------------------------

  lemma WaitIsBounded(s: seq<byte>, i: nat)
    requires i < |s| && Decide(s, i) == NeedMore
    ensures |s| - i < MAX_BASIC_FRAME
  {
    hide ParseBasicMessage;
  }

  lemma {:induction false} SettleBound(s: seq<byte>, p: nat)
    requires p <= |s|
    ensures |s| - Settle(s, p) < MAX_BASIC_FRAME
    decreases |s| - p
  {
    hide Decide, NextStart, Settle;
    var i := NextStart(s, p);
    SettleStep(s, p);
    if |s| - p >= 7 && i < |s| {
      match Decide(s, i)
      case NeedMore => WaitIsBounded(s, i);
      case Skip => SettleBound(s, i + 1);
      case Emit(n, _) => SettleBound(s, i + n);
    }
  }

  /** Once `p + 8192` bytes have arrived, position `p` is behind the parser, and which frames
      start at or before it is the same in every longer stream. */
  lemma BoundedDelay(s: seq<byte>, t: seq<byte>, p: nat)
    requires p + MAX_BASIC_FRAME <= |s|
    ensures p < Settle(s, 0)
    ensures forall f: Frame :: f.start <= p ==> (f in Scan(s, 0) <==> f in Scan(s + t, 0))
  {
    hide Scan, Decide;
    SettleBound(s, 0);
    SettleReached(s, 0);
    ScanExtends(s, t, 0, Settle(s, 0));
  }

  // ----- Greedy exactness -----------------------------------------------------------

  /** A frame of the wire format, as the protocol defines it, lies at `s[p..p + n]`. */
  ghost predicate ValidFrameAt(s: seq<byte>, p: nat, n: nat)
  {
    && 7 <= n <= 8192 && p + n <= |s|
    && s[p] == 0x01 && s[p + n - 1] == 0x02
    && Le16(s[p + 1], s[p + 2]) == n - 4
    && Le16(s[p + n - 3], s[p + n - 2]) == Sum(s[p + 1..p + n - 3]) % 0x1_0000
  }

  ghost predicate IsFrameOf(s: seq<byte>, f: Frame)
  {
    && ValidFrameAt(s, f.start, f.size)
    && ParseBasicMessage(s[f.start..f.End()]) == Some(f.message)
  }

  lemma SliceOfSlice<T>(s: seq<T>, p: nat, q: nat, lo: nat, hi: nat)
    requires p <= q <= |s| && lo <= hi <= q - p
    ensures s[p..q][lo..hi] == s[p + lo..p + hi]
  {
    var a, b := s[p..q][lo..hi], s[p + lo..p + hi];
    assert forall k :: 0 <= k < |a| ==> a[k] == s[p..q][lo + k] == s[p + lo + k] == b[k];
  }

  lemma ParsesIff(m: seq<byte>)
    ensures ParseBasicMessage(m).Some? <==>
              var n := |m|;
              && n >= 7 && m[n - 1] == MESSAGE_END_BYTE
              && Le16(m[n - 3], m[n - 2]) == Sum(m[1..n - 3]) % 0x1_0000
  {
    hide Sum;
  }

  lemma ValidIffParses(s: seq<byte>, p: nat, n: nat)
    requires 7 <= n <= MAX_BASIC_FRAME && p + n <= |s|
    ensures ValidFrameAt(s, p, n)
       <==> s[p] == MESSAGE_START_BYTE && Le16(s[p + 1], s[p + 2]) == n - 4 && ParseBasicMessage(s[p..p + n]).Some?
  {
    hide ParseBasicMessage, Sum, Le16;
    var m := s[p..p + n];
    ParsesIff(m);
    SliceOfSlice(s, p, p + n, 1, n - 3);
    assert m[n - 1] == s[p + n - 1] && m[n - 2] == s[p + n - 2] && m[n - 3] == s[p + n - 3];
  }

  lemma EmitIffValid(s: seq<byte>, p: nat, n: nat)
    requires p < |s|
    ensures ValidFrameAt(s, p, n) <==> Decide(s, p).Emit? && Decide(s, p).size == n
  {
    if 7 <= n <= MAX_BASIC_FRAME && n <= |s| - p {
      ValidIffParses(s, p, n);
      hide ParseBasicMessage, ValidFrameAt, Le16;
    }
  }

  lemma FrameIffEmit(s: seq<byte>, f: Frame)
    requires f.start < |s|
    ensures IsFrameOf(s, f) <==> Decide(s, f.start) == Emit(f.size, f.message)
  {
    hide ParseBasicMessage, ValidFrameAt;
    EmitIffValid(s, f.start, f.size);
  }

  /** `fs` lists valid frames that start in `[from, limit)`, in order and without overlap,
      such that every valid frame starting there is listed or starts inside a listed one. */
  ghost predicate IsGreedyCover(s: seq<byte>, fs: seq<Frame>, from: nat, limit: nat)
  {
    && (forall i :: 0 <= i < |fs| ==> from <= fs[i].start < limit && IsFrameOf(s, fs[i]))
    && (forall i, j :: 0 <= i < j < |fs| ==> fs[i].End() <= fs[j].start)
    && (forall p, n :: from <= p < limit && ValidFrameAt(s, p, n) ==> Covered(fs, p))
  }

  ghost predicate Covered(fs: seq<Frame>, p: nat)
  {
    exists i :: 0 <= i < |fs| && fs[i].start <= p < fs[i].End()
  }

  lemma {:induction false} GreedyFrom(s: seq<byte>, fs: seq<Frame>, p: nat, q: nat)
    requires p <= q <= |s| && Reaches(s, p, q) && Scan(s, q) == []
    ensures IsGreedyCover(s, fs, p, q) <==> fs == Scan(s, p)
    decreases q - p
  {
    hide Decide, IsGreedyCover;
    if p == q {
      GreedyEmpty(s, fs, p);
    } else {
      match Decide(s, p)
      case Skip =>
        GreedySkip(s, fs, p, q);
        GreedyFrom(s, fs, p + 1, q);
      case Emit(n, m) =>
        GreedyStep(s, fs, p, q);
        if fs != [] {
          GreedyFrom(s, fs[1..], p + n, q);
        }
    }
  }

  lemma GreedyEmpty(s: seq<byte>, fs: seq<Frame>, p: nat)
    ensures IsGreedyCover(s, fs, p, p) <==> fs == []
  {
    hide IsFrameOf, ValidFrameAt;
    if fs != [] {
      assert !(p <= fs[0].start < p);
    }
  }

  lemma GreedySkip(s: seq<byte>, fs: seq<Frame>, p: nat, q: nat)
    requires p < q <= |s| && Decide(s, p) == Skip
    ensures IsGreedyCover(s, fs, p, q) <==> IsGreedyCover(s, fs, p + 1, q)
  {
    hide Decide, ParseBasicMessage, ValidFrameAt;
    forall n {:trigger ValidFrameAt(s, p, n)}
      ensures !ValidFrameAt(s, p, n)
    {
      EmitIffValid(s, p, n);
    }
  }

  /** Where a frame is emitted, a cover is that frame followed by a cover of what comes after. */
  lemma GreedyStep(s: seq<byte>, fs: seq<Frame>, p: nat, q: nat)
    requires p < q <= |s| && Decide(s, p).Emit? && p + Decide(s, p).size <= q
    ensures var f := Frame(p, Decide(s, p).size, Decide(s, p).message);
            IsGreedyCover(s, fs, p, q) <==>
            fs != [] && fs[0] == f && IsGreedyCover(s, fs[1..], f.End(), q)
  {
    hide Decide, IsGreedyCover;
    var f := Frame(p, Decide(s, p).size, Decide(s, p).message);
    FrameIffEmit(s, f);
    if IsGreedyCover(s, fs, p, q) {
      GreedyHead(s, fs, f, q);
      GreedyTail(s, fs, q);
    }
    if fs != [] && fs[0] == f && IsGreedyCover(s, fs[1..], f.End(), q) {
      GreedyCons(s, fs, q);
    }
  }

  lemma CoverStarts(s: seq<byte>, fs: seq<Frame>, from: nat, limit: nat, n: nat)
    requires IsGreedyCover(s, fs, from, limit) && from < limit && ValidFrameAt(s, from, n)
    ensures fs != [] && from == fs[0].start && IsFrameOf(s, fs[0])
  {
    hide IsFrameOf, ValidFrameAt;
    assert Covered(fs, from);
    var i :| 0 <= i < |fs| && fs[i].start <= from < fs[i].End();
    assert 0 < i ==> fs[0].End() <= fs[i].start;
    assert from <= fs[0].start;
  }

  lemma GreedyHead(s: seq<byte>, fs: seq<Frame>, f: Frame, q: nat)
    requires f.start < q <= |s| && IsFrameOf(s, f)
    requires IsGreedyCover(s, fs, f.start, q)
    ensures fs != [] && fs[0] == f
  {
    hide Decide, ParseBasicMessage, ValidFrameAt, IsGreedyCover;
    CoverStarts(s, fs, f.start, q, f.size);
    FrameIffEmit(s, fs[0]);
    FrameIffEmit(s, f);
  }

  lemma CoveredStep(fs: seq<Frame>, k: nat)
    requires fs != []
    ensures Covered(fs, k) <==> fs[0].start <= k < fs[0].End() || Covered(fs[1..], k)
  {
    if Covered(fs[1..], k) {
      var i :| 0 <= i < |fs[1..]| && fs[1..][i].start <= k < fs[1..][i].End();
      assert fs[i + 1] == fs[1..][i];
    } else if Covered(fs, k) {
      var i :| 0 <= i < |fs| && fs[i].start <= k < fs[i].End();
      assert 0 < i ==> fs[1..][i - 1] == fs[i];
    }
  }

  lemma GreedyTail(s: seq<byte>, fs: seq<Frame>, q: nat)
    requires fs != [] && IsGreedyCover(s, fs, fs[0].start, q)
    ensures IsGreedyCover(s, fs[1..], fs[0].End(), q)
  {
    hide IsFrameOf, ValidFrameAt, Covered;
    forall k, n | fs[0].End() <= k < q && ValidFrameAt(s, k, n)
      ensures Covered(fs[1..], k)
    {
      CoveredStep(fs, k);
    }
  }

  lemma GreedyCons(s: seq<byte>, fs: seq<Frame>, q: nat)
    requires fs != [] && IsFrameOf(s, fs[0]) && 7 <= fs[0].size && fs[0].End() <= q
    requires IsGreedyCover(s, fs[1..], fs[0].End(), q)
    ensures IsGreedyCover(s, fs, fs[0].start, q)
  {
    hide IsFrameOf, ValidFrameAt, Covered;
    var rest := fs[1..];
    forall i | 0 < i < |fs|
      ensures fs[0].End() <= fs[i].start < q && IsFrameOf(s, fs[i])
    {
      assert fs[i] == rest[i - 1];
    }
    forall k, n | fs[0].start <= k < q && ValidFrameAt(s, k, n)
      ensures Covered(fs, k)
    {
      CoveredStep(fs, k);
    }
  }

  /** The parser's frames are the one leftmost, non-overlapping cover of the bytes it consumed:
      no valid frame is swallowed by a false start byte, none is invented. */
  lemma GreedyExactness(s: seq<byte>, fs: seq<Frame>)
    ensures IsGreedyCover(s, fs, 0, Settle(s, 0)) <==> fs == Scan(s, 0)
  {
    SettleReached(s, 0);
    GreedyFrom(s, fs, 0, Settle(s, 0));
  }
}

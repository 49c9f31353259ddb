/** The receive side of the Divoom Basic protocol: the resynchronising stream parser. */
module Framing {
  import opened Common

  const MESSAGE_START_BYTE: byte := 0x01
  const MESSAGE_END_BYTE: byte := 0x02
  const ACK_PATTERN_BYTE_1: byte := 0x04
  const ACK_PATTERN_BYTE_3: byte := 0x55
  const MAX_BASIC_FRAME := 8192

  datatype BasicMessage = BasicMessage(commandId: byte, payload: seq<byte>)

  predicate IsAckShaped(message: seq<byte>)
    requires |message| >= 7
  {
    message[3] == ACK_PATTERN_BYTE_1 && message[5] == ACK_PATTERN_BYTE_3
  }

  /** Validates one candidate span (start byte to end byte). */
  function ParseBasicMessage(message: seq<byte>): Option<BasicMessage>
  {
    var n := |message|;
    if n < 7 then None
    else if message[n - 1] != MESSAGE_END_BYTE then None
    else
      var parsed := if IsAckShaped(message)
                    then BasicMessage(message[4], Slice(message, 6, n - 3))
                    else BasicMessage(message[3], message[4..n - 3]);
      if Le16(message[n - 3], message[n - 2]) != Sum(message[1..n - 3]) % 0x1_0000 then None
      else Some(parsed)
  }

  // ----- The position-based specification ----------------------------------

  /** What the bytes received so far say about one stream position. */
  datatype Verdict = Skip | NeedMore | Emit(size: nat, message: BasicMessage)

  function Decide(s: seq<byte>, p: nat): (v: Verdict)
    requires p < |s|
    ensures v.Emit? ==> 7 <= v.size <= MAX_BASIC_FRAME && p + v.size <= |s|
    ensures s[p] != MESSAGE_START_BYTE ==> v == Skip
  {
    if s[p] != MESSAGE_START_BYTE then Skip
    else if |s| - p < 4 then NeedMore
    else
      var total := 4 + Le16(s[p + 1], s[p + 2]);
      if total > MAX_BASIC_FRAME then Skip
      else if |s| - p < total then NeedMore
      else match ParseBasicMessage(s[p..p + total])
        case None => Skip
        case Some(m) => Emit(total, m)
  }

  datatype Frame = Frame(start: nat, size: nat, message: BasicMessage) {
    function End(): nat { start + size }
  }

  /** The frames found by walking the stream from position `p`, verdict by verdict. */
  function Scan(s: seq<byte>, p: nat): (fs: seq<Frame>)
    requires p <= |s|
    ensures forall i :: 0 <= i < |fs| ==> p <= fs[i].start
    decreases |s| - p
  {
    if p == |s| then []
    else match Decide(s, p)
      case Skip => Scan(s, p + 1)
      case NeedMore => []
      case Emit(n, m) => [Frame(p, n, m)] + Scan(s, p + n)
  }

  function MessagesOf(fs: seq<Frame>): (ms: seq<BasicMessage>)
    ensures |ms| == |fs|
    ensures forall i :: 0 <= i < |fs| ==> ms[i] == fs[i].message
  {
    seq(|fs|, i requires 0 <= i < |fs| => fs[i].message)
  }

  function Messages(s: seq<byte>): seq<BasicMessage>
  {
    MessagesOf(Scan(s, 0))
  }

  /** The first start byte at or after `p`, or the end of the stream. */
  function NextStart(s: seq<byte>, p: nat): (i: nat)
    requires p <= |s|
    ensures p <= i <= |s|
    decreases |s| - p
  {
    if p == |s| || s[p] == MESSAGE_START_BYTE then p else NextStart(s, p + 1)
  }

  /** Where the parser stops when its loop head stands at `p`: it looks at nothing
      once fewer than 7 bytes are left, so trailing junk may or may not be dropped. */
  function Settle(s: seq<byte>, p: nat): (q: nat)
    requires p <= |s|
    ensures p <= q <= |s|
    decreases |s| - p
  {
    if |s| - p < 7 then p
    else
      var i := NextStart(s, p);
      if i == |s| then i
      else match Decide(s, i)
        case NeedMore => i
        case Skip => Settle(s, i + 1)
        case Emit(n, _) => Settle(s, i + n)
  }

  function Remainder(s: seq<byte>): seq<byte>
  {
    s[Settle(s, 0)..]
  }

  // ----- The parser ----------------------------------------------------------

  /** A mutable byte array, as handed from call to call. */
  class ByteBuffer {
    var data: seq<byte>

    constructor (bytes: seq<byte>)
      ensures data == bytes
    {
      data := bytes;
    }

    method Extend(chunk: seq<byte>)
      modifies this
      ensures data == old(data) + chunk
    {
      data := data + chunk;
    }

    method DropFirst(n: nat)
      requires n <= |data|
      modifies this
      ensures data == old(data)[n..]
    {
      data := data[n..];
    }
  }

  /** At the loop's guard: `b` is what follows position `p`, `messages` were found before it, and what
      a walk over all of `s` finds besides, and where it stops, is what a walk from `p` does. */
  ghost predicate AtGuard(s: seq<byte>, p: nat, messages: seq<BasicMessage>, b: seq<byte>)
  {
    && p <= |s| && b == s[p..]
    && Messages(s) == messages + MessagesOf(Scan(s, p))
    && Settle(s, 0) == Settle(s, p)
  }

  /** In the loop's body, once `b` begins with a start byte. */
  ghost predicate AtStartByte(s: seq<byte>, p: nat, messages: seq<BasicMessage>, b: seq<byte>)
  {
    && p < |s| && b == s[p..] && s[p] == MESSAGE_START_BYTE
    && Messages(s) == messages + MessagesOf(Scan(s, p))
    && Settle(s, 0) == match Decide(s, p)
                       case NeedMore => p
                       case Skip => Settle(s, p + 1)
                       case Emit(n, _) => Settle(s, p + n)
  }

  /** The loop is over. */
  ghost predicate IsOver(s: seq<byte>, messages: seq<BasicMessage>, b: seq<byte>)
  {
    messages == Messages(s) && b == Remainder(s)
  }

  /** The in-place loop: the messages found, and what stays in the buffer. */
  method ParseBasicProtocolFrames(buf: ByteBuffer) returns (messages: seq<BasicMessage>)
    modifies buf
    ensures messages == Messages(old(buf.data))
    ensures buf.data == Remainder(old(buf.data))
  {
    hide Scan, Settle, NextStart, Decide, ParseBasicMessage, MessagesOf, AtGuard, AtStartByte;
    ghost var s := buf.data;
    ghost var p: nat := 0;
    messages := [];
    LoopBegins(s);
    while |buf.data| >= 7
      invariant AtGuard(s, p, messages, buf.data)
      decreases |buf.data|
    {
      var startIndex := NextStart(buf.data, 0);
      LooksForStart(s, p, messages, buf.data);
      p := p + startIndex;
      if startIndex == |buf.data| {
        buf.data := [];
        break;
      }
      if startIndex > 0 {
        buf.DropFirst(startIndex);
      }
      Verdicts(s, p, messages, buf.data);
      if |buf.data| < 4 {
        break;
      }
      var total := 4 + Le16(buf.data[1], buf.data[2]);
      if total > MAX_BASIC_FRAME {
        buf.DropFirst(1);
        p := p + 1;
        continue;
      }
      if |buf.data| < total {
        break;
      }
      var message := buf.data[..total];
      var parsed := ParseBasicMessage(message);
      if parsed.None? {
        buf.DropFirst(1);
        p := p + 1;
        continue;
      }
      buf.DropFirst(total);
      p := p + total;
      messages := messages + [parsed.value];
    }
    GuardFails(s, p, messages, buf.data);
  }

  // ----- Walking lemmas ---------------------------------------------------------

  lemma {:induction false} NextStartIs(s: seq<byte>, p: nat, i: nat)
    requires p <= i <= |s|
    requires i < |s| ==> s[i] == MESSAGE_START_BYTE
    requires forall k :: p <= k < i ==> s[k] != MESSAGE_START_BYTE
    ensures NextStart(s, p) == i
    decreases i - p
  {
    if p < i {
      NextStartIs(s, p + 1, i);
    }
  }

  lemma {:induction false} NextStartFirst(s: seq<byte>, p: nat)
    requires p <= |s|
    ensures var i := NextStart(s, p);
            && (i < |s| ==> s[i] == MESSAGE_START_BYTE)
            && forall k :: p <= k < i ==> s[k] != MESSAGE_START_BYTE
    decreases |s| - p
  {
    if p < |s| && s[p] != MESSAGE_START_BYTE {
      NextStartFirst(s, p + 1);
    }
  }

  lemma {:induction false} SkipRun(s: seq<byte>, p: nat, i: nat)
    requires p <= i <= |s|
    requires forall k :: p <= k < i ==> s[k] != MESSAGE_START_BYTE
    ensures Scan(s, p) == Scan(s, i)
    decreases i - p
  {
    hide Decide;
    if p < i {
      SkipRun(s, p + 1, i);
    }
  }

  lemma {:induction false} TooShort(s: seq<byte>, p: nat)
    requires p <= |s| && |s| - p < 7
    ensures Scan(s, p) == [] && Settle(s, p) == p
    decreases |s| - p
  {
    hide ParseBasicMessage;
    if p < |s| {
      TooShort(s, p + 1);
    }
  }

  // ----- One turn of the loop ------------------------------------------------------

  lemma LoopBegins(s: seq<byte>)
    ensures AtGuard(s, 0, [], s)
  {
    hide Scan, Settle;
    assert [] + Messages(s) == Messages(s);
  }

  lemma GuardFails(s: seq<byte>, p: nat, messages: seq<BasicMessage>, b: seq<byte>)
    ensures |b| < 7 && AtGuard(s, p, messages, b) ==> IsOver(s, messages, b)
  {
    hide Scan, Settle, MessagesOf;
    if |b| < 7 && AtGuard(s, p, messages, b) {
      NoFrames();
      TooShort(s, p);
      assert messages + [] == messages;
    }
  }

  /** At a loop head with enough bytes left, the next start byte is where the walk goes on. */
  lemma LoopHead(s: seq<byte>, p: nat) returns (i: nat)
    requires p <= |s| && |s| - p >= 7
    ensures p <= i <= |s| && NextStart(s, p) == i == p + NextStart(s[p..], 0)
    ensures Scan(s, p) == Scan(s, i)
    ensures i < |s| ==> s[i] == MESSAGE_START_BYTE
  {
    hide NextStart, Scan;
    i := p + NextStart(s[p..], 0);
    NextStartFirst(s[p..], 0);
    forall k | p <= k < i
      ensures s[k] != MESSAGE_START_BYTE
    {
      assert s[k] == s[p..][k - p];
    }
    NextStartIs(s, p, i);
    SkipRun(s, p, i);
  }

  lemma LooksForStart(s: seq<byte>, p: nat, messages: seq<BasicMessage>, b: seq<byte>)
    requires AtGuard(s, p, messages, b) && |b| >= 7
    ensures var i := NextStart(b, 0);
            if i == |b| then IsOver(s, messages, []) else AtStartByte(s, p + i, messages, b[i..])
  {
    hide Decide, Scan, Settle, NextStart, MessagesOf, AtStartByte, IsOver, Messages;
    var i := LoopHead(s, p);
    if i == |s| {
      NoStart(s, messages, p);
    } else {
      SliceSlice(s, p, i - p);
      FoundStart(s, messages, p, i);
    }
  }

  lemma NoStart(s: seq<byte>, messages: seq<BasicMessage>, p: nat)
    requires p <= |s| && |s| - p >= 7 && NextStart(s, p) == |s| && Scan(s, p) == Scan(s, |s|)
    requires Messages(s) == messages + MessagesOf(Scan(s, p)) && Settle(s, 0) == Settle(s, p)
    ensures IsOver(s, messages, [])
  {
    hide Decide, Scan, Settle, NextStart, MessagesOf;
    SettleStep(s, p);
    TooShort(s, |s|);
    NoFrames();
    assert messages + [] == messages;
  }

  lemma FoundStart(s: seq<byte>, messages: seq<BasicMessage>, p: nat, i: nat)
    requires p <= i < |s| && |s| - p >= 7 && NextStart(s, p) == i && s[i] == MESSAGE_START_BYTE
    requires Messages(s) == messages + MessagesOf(Scan(s, i)) && Settle(s, 0) == Settle(s, p)
    ensures AtStartByte(s, i, messages, s[i..])
  {
    hide Decide, Scan, Settle, NextStart, MessagesOf, Messages;
    SettleStep(s, p);
  }

  lemma SliceSlice<T>(s: seq<T>, p: nat, n: nat)
    requires p + n <= |s|
    ensures s[p..][n..] == s[p + n..]
  {
  }

  lemma NoFrames()
    ensures MessagesOf([]) == []
  {
  }

  lemma MessagesCons(f: Frame, fs: seq<Frame>)
    ensures MessagesOf([f] + fs) == [f.message] + MessagesOf(fs)
  {
  }

  /** The verdict at a start byte, read off the bytes from there on as the loop does, and what
      becomes of the loop. */
  lemma Verdicts(s: seq<byte>, p: nat, messages: seq<BasicMessage>, b: seq<byte>)
    requires AtStartByte(s, p, messages, b)
    ensures if |b| < 4 then IsOver(s, messages, b)
            else
              var total := 4 + Le16(b[1], b[2]);
              if total > MAX_BASIC_FRAME then AtGuard(s, p + 1, messages, b[1..])
              else if |b| < total then IsOver(s, messages, b)
              else match ParseBasicMessage(b[..total])
                case None => AtGuard(s, p + 1, messages, b[1..])
                case Some(m) => AtGuard(s, p + total, messages + [m], b[total..])
  {
    hide Scan, Settle, Decide, ParseBasicMessage, AtGuard, IsOver, Messages, MessagesOf;
    FrontVerdict(s, p);
    AfterVerdict(s, p, messages, b);
  }

  lemma FrontVerdict(s: seq<byte>, p: nat)
    requires p < |s| && s[p] == MESSAGE_START_BYTE
    ensures var b := s[p..];
            Decide(s, p) ==
              if |b| < 4 then NeedMore
              else
                var total := 4 + Le16(b[1], b[2]);
                if total > MAX_BASIC_FRAME then Skip
                else if |b| < total then NeedMore
                else match ParseBasicMessage(b[..total])
                  case None => Skip
                  case Some(m) => Emit(total, m)
  {
    hide ParseBasicMessage;
    var b := s[p..];
    if |b| >= 4 {
      var total := 4 + Le16(b[1], b[2]);
      if total <= |b| {
        assert s[p..p + total] == b[..total];
      }
    }
  }

  lemma AfterVerdict(s: seq<byte>, p: nat, messages: seq<BasicMessage>, b: seq<byte>)
    requires AtStartByte(s, p, messages, b)
    ensures match Decide(s, p)
            case NeedMore => IsOver(s, messages, b)
            case Skip => AtGuard(s, p + 1, messages, b[1..])
            case Emit(n, m) => AtGuard(s, p + n, messages + [m], b[n..])
  {
    hide Decide, Settle, Scan, MessagesOf;
    ScanStep(s, p);
    match Decide(s, p)
    case NeedMore =>
      NoFrames();
      assert messages + [] == messages;
    case Skip =>
      SliceSlice(s, p, 1);
    case Emit(n, m) =>
      SliceSlice(s, p, n);
      MessagesCons(Frame(p, n, m), Scan(s, p + n));
      assert messages + ([m] + MessagesOf(Scan(s, p + n))) == (messages + [m]) + MessagesOf(Scan(s, p + n));
  }

  lemma SettleStep(s: seq<byte>, p: nat)
    requires p <= |s|
    ensures var i := NextStart(s, p);
            Settle(s, p) ==
              if |s| - p < 7 then p
              else if i == |s| then i
              else match Decide(s, i)
                case NeedMore => i
                case Skip => Settle(s, i + 1)
                case Emit(n, _) => Settle(s, i + n)
  {
  }

  lemma ScanStep(s: seq<byte>, p: nat)
    requires p < |s|
    ensures Scan(s, p) ==
              match Decide(s, p)
              case Skip => Scan(s, p + 1)
              case NeedMore => []
              case Emit(n, m) => [Frame(p, n, m)] + Scan(s, p + n)
  {
    hide Decide;
  }

  lemma DecideShift(s: seq<byte>, q: nat, p: nat)
    requires q <= p < |s|
    ensures Decide(s[q..], p - q) == Decide(s, p)
  {
    if |s| - p >= 4 {
      var total := 4 + Le16(s[p + 1], s[p + 2]);
      if total <= |s| - p {
        assert s[q..][p - q..p - q + total] == s[p..p + total];
      }
    }
  }
}

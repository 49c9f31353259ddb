/** Newline-delimited messages over a stream socket: the framing, the event subscription and
    the one-shot reply. JSON is an arbitrary partial decoder of a stripped line. */
module Ndjson {
  import opened Common

  const NEWLINE: byte := 10
  const MAX_REPLY_BYTES := 16 * 1024 * 1024
  const RECV_BYTES := 4096

  predicate IsSpace(b: byte)
  {
    b == 32 || 9 <= b <= 13
  }

  /** Python's `bytes.strip()`. */
  function Strip(s: seq<byte>): seq<byte>
    decreases |s|
  {
    if s == [] then []
    else if IsSpace(s[0]) then Strip(s[1..])
    else if IsSpace(s[|s| - 1]) then Strip(s[..|s| - 1])
    else s
  }

  function NewlineIndex(s: seq<byte>): (i: nat)
    ensures i <= |s|
  {
    if s == [] || s[0] == NEWLINE then 0 else 1 + NewlineIndex(s[1..])
  }

  /** The complete lines of a buffer, and what follows the last newline. */
  function Lines(s: seq<byte>): seq<seq<byte>>
    decreases |s|
  {
    var i := NewlineIndex(s);
    if i == |s| then [] else [s[..i]] + Lines(s[i + 1..])
  }

  function Tail(s: seq<byte>): (t: seq<byte>)
    ensures |t| <= |s|
    decreases |s|
  {
    var i := NewlineIndex(s);
    if i == |s| then s else Tail(s[i + 1..])
  }

  /** The messages of some lines: blank and malformed lines are skipped. */
  function Parsed<M>(lines: seq<seq<byte>>, decode: seq<byte> -> Option<M>): seq<M>
  {
    if lines == [] then []
    else LineMessage(lines[0], decode) + Parsed(lines[1..], decode)
  }

  function LineMessage<M>(line: seq<byte>, decode: seq<byte> -> Option<M>): seq<M>
  {
    var stripped := Strip(line);
    if stripped == [] then []
    else match decode(stripped)
      case None => []
      case Some(m) => [m]
  }

  method IterMessages<M>(buffer: seq<byte>, decode: seq<byte> -> Option<M>) returns (messages: seq<M>, remainder: seq<byte>)
    ensures messages == Parsed(Lines(buffer), decode) && remainder == Tail(buffer)
  {
    hide Lines, Tail, Strip, Parsed;
    var lines := Lines(buffer);
    remainder := Tail(buffer);
    messages := [];
    for i := 0 to |lines|
      invariant messages + Parsed(lines[i..], decode) == Parsed(lines, decode)
    {
      var line := Strip(lines[i]);
      ParsedNext(messages, lines, i, decode);
      assert messages + [] == messages;
      if line == [] {
        continue;
      }
      var decoded := decode(line);
      if decoded.Some? {
        messages := messages + [decoded.value];
      }
    }
    assert lines[|lines|..] == [] && messages + [] == messages;
    ParsedNone(decode);
  }

  lemma ParsedNext<M>(messages: seq<M>, lines: seq<seq<byte>>, i: nat, decode: seq<byte> -> Option<M>)
    requires i < |lines|
    ensures messages + Parsed(lines[i..], decode)
         == (messages + LineMessage(lines[i], decode)) + Parsed(lines[i + 1..], decode)
  {
    hide LineMessage;
    assert lines[i..][0] == lines[i] && lines[i..][1..] == lines[i + 1..];
  }

  lemma ParsedNone<M>(decode: seq<byte> -> Option<M>)
    ensures Parsed([], decode) == []
  {
  }

  // ----- The event subscription -------------------------------------------------------

  datatype Received = Timeout | Closed | Failed | Data(chunk: seq<byte>)

  /** One turn of the read loop: whether `should_stop()` says so, else what `recv` does. */
  datatype Turn = Turn(stop: bool, received: Received)

  datatype Outcome = Running | Connected | Unreachable | OverCap

  /** What a subscription has done after some turns. `Connected` is the source's True;
      `Unreachable` (a socket error) and `OverCap` are its False. */
  datatype Subscription<M> = Subscription(delivered: seq<M>, buf: seq<byte>, outcome: Outcome)

  function Step<M>(s: Subscription<M>, t: Turn, decode: seq<byte> -> Option<M>): Subscription<M>
  {
    if s.outcome != Running then s
    else if t.stop then s.(outcome := Connected)
    else match t.received
      case Timeout => s
      case Failed => s.(outcome := Unreachable)
      case Closed => s.(outcome := Connected)
      case Data(chunk) =>
        var buf := s.buf + chunk;
        if chunk == [] then s.(outcome := Connected)
        else if |buf| > MAX_REPLY_BYTES then s.(buf := buf, outcome := OverCap)
        else Subscription(s.delivered + Parsed(Lines(buf), decode), Tail(buf), Running)
  }

  function Steps<M>(s: Subscription<M>, ts: seq<Turn>, decode: seq<byte> -> Option<M>): Subscription<M>
    decreases |ts|
  {
    if ts == [] then s else Steps(Step(s, ts[0], decode), ts[1..], decode)
  }

  function Subscribed<M>(ts: seq<Turn>, decode: seq<byte> -> Option<M>): Subscription<M>
  {
    Steps(Subscription([], [], Running), ts, decode)
  }

  method Subscribe<M>(ts: seq<Turn>, decode: seq<byte> -> Option<M>) returns (outcome: Outcome, delivered: seq<M>)
    ensures outcome == Subscribed(ts, decode).outcome && delivered == Subscribed(ts, decode).delivered
  {
    hide Lines, Tail, Parsed;
    var buf: seq<byte> := [];
    delivered := [];
    var i := 0;
    while i < |ts|
      invariant 0 <= i <= |ts|
      invariant Steps(Subscription(delivered, buf, Running), ts[i..], decode) == Subscribed(ts, decode)
    {
      var t := ts[i];
      ghost var now := Subscription(delivered, buf, Running);
      StepsNext(now, ts, i, decode);
      i := i + 1;
      if t.stop {
        Finished(now.(outcome := Connected), ts[i..], decode);
        return Connected, delivered;
      }
      match t.received
      case Timeout => continue;
      case Failed =>
        Finished(now.(outcome := Unreachable), ts[i..], decode);
        return Unreachable, delivered;
      case Closed =>
        Finished(now.(outcome := Connected), ts[i..], decode);
        return Connected, delivered;
      case Data(chunk) =>
        if chunk == [] {
          Finished(now.(outcome := Connected), ts[i..], decode);
          return Connected, delivered;
        }
        buf := buf + chunk;
        if |buf| > MAX_REPLY_BYTES {
          Finished(now.(buf := buf, outcome := OverCap), ts[i..], decode);
          return OverCap, delivered;
        }
        var events, rest := IterMessages(buf, decode);
        buf := rest;
        delivered := delivered + events;
    }
    return Running, delivered;
  }

  lemma StepsNext<M>(s: Subscription<M>, ts: seq<Turn>, i: nat, decode: seq<byte> -> Option<M>)
    requires i < |ts|
    ensures Steps(s, ts[i..], decode) == Steps(Step(s, ts[i], decode), ts[i + 1..], decode)
  {
    assert ts[i..][0] == ts[i] && ts[i..][1..] == ts[i + 1..];
  }

  lemma {:induction false} Finished<M>(s: Subscription<M>, ts: seq<Turn>, decode: seq<byte> -> Option<M>)
    requires s.outcome != Running
    ensures Steps(s, ts, decode) == s
    decreases |ts|
  {
    if ts != [] {
      Finished(s, ts[1..], decode);
    }
  }

  // ----- The one-shot reply -----------------------------------------------------------

  datatype Reply<M> = Message(m: M) | NoReply | TooLong | SocketError

  /** The read loop of a request: stop at the first newline, at the end of the stream or at the
      cap; running out of turns is an end of the stream. */
  function ReplyFrom<M>(buf: seq<byte>, ts: seq<Received>, decode: seq<byte> -> Option<M>): Reply<M>
    decreases |ts|
  {
    if NEWLINE in buf || ts == [] || ts[0] == Closed || ts[0] == Data([]) then FirstReply(buf, decode)
    else match ts[0]
      case Data(chunk) =>
        if |buf + chunk| > MAX_REPLY_BYTES then TooLong else ReplyFrom(buf + chunk, ts[1..], decode)
      case _ => SocketError
  }

  function FirstReply<M>(buf: seq<byte>, decode: seq<byte> -> Option<M>): Reply<M>
  {
    var ms := Parsed(Lines(buf), decode);
    if ms == [] then NoReply else Message(ms[0])
  }

  method ReadReply<M>(ts: seq<Received>, decode: seq<byte> -> Option<M>) returns (reply: Reply<M>)
    ensures reply == ReplyFrom([], ts, decode)
  {
    hide Lines, Parsed;
    var buf: seq<byte> := [];
    var i := 0;
    while NEWLINE !in buf && i < |ts|
      invariant 0 <= i <= |ts|
      invariant ReplyFrom(buf, ts[i..], decode) == ReplyFrom([], ts, decode)
      decreases |ts| - i
    {
      assert ts[i..][0] == ts[i] && ts[i..][1..] == ts[i + 1..];
      match ts[i] {
        case Closed => break;
        case Data(chunk) =>
          if chunk == [] {
            break;
          }
          buf := buf + chunk;
          if |buf| > MAX_REPLY_BYTES {
            return TooLong;
          }
        case _ => return SocketError;
      }
      i := i + 1;
    }
    var ms, _ := IterMessages(buf, decode);
    if ms == [] {
      return NoReply;
    }
    return Message(ms[0]);
  }
}

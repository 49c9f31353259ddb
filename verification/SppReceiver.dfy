/** The RFCOMM receive path: two framings share one buffer and one notification queue. */
module SppReceiver {
  import opened Common
  import opened Framing
  import opened FramingTheorems
  import opened FramingCodec

  const IOS_LE_HEADER: seq<byte> := [0xFE, 0xEF, 0xAA, 0x55]
  const IOS_LE_MIN_DATA_LENGTH := 11
  const IOS_LE_PACKET_NUMBER := 6
  const IOS_LE_COMMAND_IDENTIFIER := 7
  const IOS_LE_DATA_OFFSET := 8
  const IOS_LE_CHECKSUM_LENGTH := 2
  const MAX_IOS_LE_FRAME := 8192

  datatype Protocol = IosLe | Basic

  datatype Notification = Notification(commandId: byte, payload: seq<byte>, framing: Protocol,
                                       packetNumber: byte, raw: seq<byte>)

  datatype IosLeMessage = IosLeMessage(commandId: byte, payload: seq<byte>, packetNumber: byte,
                                       checksum: nat)

  /** Reads an iOS-LE notification. The checksum is reported, not verified. */
  function ParseIosLeNotification(data: seq<byte>): Option<IosLeMessage>
  {
    var n := |data|;
    if n < IOS_LE_MIN_DATA_LENGTH then None
    else if data[0..4] != IOS_LE_HEADER then None
    else if data[n - 1] != MESSAGE_END_BYTE then None
    else Some(IosLeMessage(
                data[IOS_LE_COMMAND_IDENTIFIER],
                data[IOS_LE_DATA_OFFSET..n - IOS_LE_CHECKSUM_LENGTH - 1],
                data[IOS_LE_PACKET_NUMBER],
                Le16(data[n - 3], data[n - 2])))
  }

  function FromIosLe(m: IosLeMessage, raw: seq<byte>): Notification
  {
    Notification(m.commandId, m.payload, IosLe, m.packetNumber, raw)
  }

  function FromBasic(m: BasicMessage): Notification
  {
    Notification(m.commandId, m.payload, Basic, 0, [])
  }

  function FromBasics(ms: seq<BasicMessage>): (ns: seq<Notification>)
    ensures |ns| == |ms|
  {
    if ms == [] then [] else [FromBasic(ms[0])] + FromBasics(ms[1..])
  }

  /** Each message becomes one notification with its command and payload, in order. */
  lemma {:induction false} FromBasicsExactly(ms: seq<BasicMessage>)
    ensures forall i :: 0 <= i < |ms| ==>
              FromBasics(ms)[i] == Notification(ms[i].commandId, ms[i].payload, Basic, 0, [])
  {
    if ms != [] {
      FromBasicsExactly(ms[1..]);
    }
  }

  // ----- What one delivery of bytes means ----------------------------------------

  predicate HeaderAtFront(buf: seq<byte>)
  {
    |buf| >= 4 && buf[..4] == IOS_LE_HEADER
  }

  /** The iOS-LE loop: notifications taken from the front, and the bytes left. */
  function DrainIosLe(buf: seq<byte>): (r: (seq<Notification>, seq<byte>))
    decreases |buf|
  {
    if |buf| < IOS_LE_MIN_DATA_LENGTH || !HeaderAtFront(buf) then ([], buf)
    else
      var frameLen := Le16(buf[4], buf[5]) + 7;
      if frameLen > MAX_IOS_LE_FRAME then DrainIosLe(buf[1..])
      else if |buf| < frameLen then ([], buf)
      else match ParseIosLeNotification(buf[..frameLen])
        case None => DrainIosLe(buf[1..])
        case Some(m) =>
          var (ns, rest) := DrainIosLe(buf[frameLen..]);
          ([FromIosLe(m, buf[..frameLen])] + ns, rest)
  }

  /** Everything `_on_data` does with the buffer once the chunk has been appended. */
  function Drain(buf: seq<byte>): (r: (seq<Notification>, seq<byte>))
  {
    var (ns, rest) := DrainIosLe(buf);
    if HeaderAtFront(rest) then (ns, rest)
    else (ns + FromBasics(Messages(rest)), Remainder(rest))
  }

  /** Chunks delivered one after the other, from buffer contents `kept`. */
  function Deliver(kept: seq<byte>, chunks: seq<seq<byte>>): (seq<Notification>, seq<byte>)
    decreases |chunks|
  {
    if chunks == [] then ([], kept)
    else
      var (ns, rest) := Drain(kept + chunks[0]);
      var (more, last) := Deliver(rest, chunks[1..]);
      (ns + more, last)
  }

  // ----- The receiver ---------------------------------------------------------------

  class Receiver {
    var rxBuf: ByteBuffer
    var rxQueue: seq<Notification>

    constructor ()
      ensures rxBuf.data == [] && rxQueue == [] && fresh(rxBuf)
    {
      rxBuf := new ByteBuffer([]);
      rxQueue := [];
    }

    /** The first loop: iOS-LE frames at the front of the buffer. */
    method TakeIosLeFrames()
      modifies this`rxQueue, rxBuf
      ensures var (ns, rest) := DrainIosLe(old(rxBuf.data));
              rxQueue == old(rxQueue) + ns && rxBuf.data == rest
      ensures DrainIosLe(rxBuf.data) == ([], rxBuf.data)
    {
      hide DrainIosLe;
      ghost var whole := rxBuf.data;
      ghost var got: seq<Notification> := [];
      while |rxBuf.data| >= IOS_LE_MIN_DATA_LENGTH && rxBuf.data[..4] == IOS_LE_HEADER
        invariant rxQueue == old(rxQueue) + got
        invariant DrainIosLe(whole).0 == got + DrainIosLe(rxBuf.data).0
        invariant DrainIosLe(whole).1 == DrainIosLe(rxBuf.data).1
        decreases |rxBuf.data|
      {
        var buf := rxBuf.data;
        DrainStep(buf);
        var frameLen := Le16(buf[4], buf[5]) + 7;
        if frameLen > MAX_IOS_LE_FRAME {
          rxBuf.DropFirst(1);
          continue;
        }
        if |buf| < frameLen {
          break;
        }
        var raw := buf[..frameLen];
        var parsed := ParseIosLeNotification(raw);
        if parsed.None? {
          rxBuf.DropFirst(1);
          continue;
        }
        rxBuf.DropFirst(frameLen);
        rxQueue := rxQueue + [FromIosLe(parsed.value, raw)];
        got := got + [FromIosLe(parsed.value, raw)];
      }
      DrainStep(rxBuf.data);
      assert got + [] == got;
    }

    /** The second half: whatever is not an iOS-LE frame goes to the Basic parser. */
    method TakeBasicFrames()
      modifies this
      ensures rxBuf != old(rxBuf) ==> fresh(rxBuf)
      ensures rxBuf.data == Remainder(old(rxBuf.data))
      ensures rxQueue == old(rxQueue) + FromBasics(Messages(old(rxBuf.data)))
    {
      hide FromBasics, Messages, Settle;
      var copy := new ByteBuffer(rxBuf.data);
      var messages := ParseBasicProtocolFrames(copy);
      rxBuf := new ByteBuffer(copy.data);
      for i := 0 to |messages|
        modifies `rxQueue
        invariant rxQueue + FromBasics(messages[i..]) == old(rxQueue) + FromBasics(messages)
      {
        FromBasicsStep(messages[i..]);
        rxQueue := rxQueue + [FromBasic(messages[i])];
      }
      FromBasicsStep(messages[|messages|..]);
      assert rxQueue + [] == rxQueue;
    }

    method OnData(chunk: seq<byte>)
      modifies this, rxBuf
      ensures rxBuf != old(rxBuf) ==> fresh(rxBuf)
      ensures var (ns, rest) := Drain(old(rxBuf.data) + chunk);
              rxQueue == old(rxQueue) + ns && rxBuf.data == rest
    {
      hide Drain, DrainIosLe, FromBasics, Messages, Settle;
      rxBuf.Extend(chunk);
      DrainInTwoParts(rxBuf.data);
      TakeIosLeFrames();
      var rest := rxBuf.data;
      if |rest| > 0 && (|rest| < 4 || rest[..4] != IOS_LE_HEADER) {
        TakeBasicFrames();
        Associative(old(rxQueue), DrainIosLe(old(rxBuf.data) + chunk).0, FromBasics(Messages(rest)));
      }
    }
  }

  lemma DrainInTwoParts(buf: seq<byte>)
    ensures var (ns, rest) := DrainIosLe(buf);
            Drain(buf) == if HeaderAtFront(rest) || rest == [] then (ns, rest)
                          else (ns + FromBasics(Messages(rest)), Remainder(rest))
  {
    EmptyStream();
    var ns := DrainIosLe(buf).0;
    assert ns + FromBasics([]) == ns;
  }

  lemma DrainStep(buf: seq<byte>)
    ensures DrainIosLe(buf) ==
      if |buf| < IOS_LE_MIN_DATA_LENGTH || !HeaderAtFront(buf) then ([], buf)
      else
        var frameLen := Le16(buf[4], buf[5]) + 7;
        if frameLen > MAX_IOS_LE_FRAME then DrainIosLe(buf[1..])
        else if |buf| < frameLen then ([], buf)
        else match ParseIosLeNotification(buf[..frameLen])
          case None => DrainIosLe(buf[1..])
          case Some(m) =>
            var (ns, rest) := DrainIosLe(buf[frameLen..]);
            ([FromIosLe(m, buf[..frameLen])] + ns, rest)
  {
  }

  lemma FromBasicsStep(ms: seq<BasicMessage>)
    ensures FromBasics(ms) == if ms == [] then [] else [FromBasic(ms[0])] + FromBasics(ms[1..])
  {
  }
}

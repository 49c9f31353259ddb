/** What the two-framing receiver delivers, for every way the bytes may arrive. */
module SppTheorems {
  import opened Common
  import opened Framing
  import opened FramingTheorems
  import opened FramingCodec
  import opened SppReceiver

  // ----- The retained buffer --------------------------------------------------------

  /** The iOS-LE loop only ever waits for a frame of possible length. */
  lemma {:induction false} DrainIosLeWaits(buf: seq<byte>)
    ensures var rest := DrainIosLe(buf).1;
            HeaderAtFront(rest) && |rest| >= IOS_LE_MIN_DATA_LENGTH ==>
              |rest| < Le16(rest[4], rest[5]) + 7 <= MAX_IOS_LE_FRAME
    decreases |buf|
  {
    hide ParseIosLeNotification, DrainIosLe;
    DrainStep(buf);
    if |buf| >= IOS_LE_MIN_DATA_LENGTH && HeaderAtFront(buf) {
      var frameLen := Le16(buf[4], buf[5]) + 7;
      if frameLen > MAX_IOS_LE_FRAME {
        DrainIosLeWaits(buf[1..]);
      } else if frameLen <= |buf| {
        DrainIosLeWaits(buf[1..]);
        DrainIosLeWaits(buf[frameLen..]);
      }
    }
  }

  lemma {:induction false} SettleAtStart(s: seq<byte>, p: nat)
    requires p <= |s|
    ensures var q := Settle(s, p); |s| - q >= 7 ==> s[q] == MESSAGE_START_BYTE
    decreases |s| - p
  {
    hide Decide, Settle, NextStart;
    SettleStep(s, p);
    NextStartFirst(s, p);
    var i := NextStart(s, p);
    if |s| - p >= 7 && i < |s| {
      match Decide(s, i)
      case NeedMore =>
      case Skip => SettleAtStart(s, i + 1);
      case Emit(n, _) => SettleAtStart(s, i + n);
    }
  }

  /** Whatever arrives, at most 8191 bytes are kept for the next call, and a corrupt length
      never leaves the receiver waiting behind an iOS-LE header for a frame that cannot come. */
  lemma BoundedBuffer(buf: seq<byte>)
    ensures var rest := Drain(buf).1;
            && |rest| < MAX_BASIC_FRAME
            && (HeaderAtFront(rest) && |rest| >= IOS_LE_MIN_DATA_LENGTH ==>
                  |rest| < Le16(rest[4], rest[5]) + 7 <= MAX_IOS_LE_FRAME)
  {
    hide DrainIosLe, Settle, Messages, FromBasics;
    var s := DrainIosLe(buf).1;
    DrainIosLeWaits(buf);
    SettleBound(s, 0);
    SettleAtStart(s, 0);
    var kept := Remainder(s);
    assert HeaderAtFront(kept) ==> kept[0] == kept[..4][0] == 0xFE;
  }

  // ----- Streams of whole frames -------------------------------------------------------

  /** A whole iOS-LE frame and nothing else. */
  ghost predicate IsIosLeFrame(f: seq<byte>)
  {
    && IOS_LE_MIN_DATA_LENGTH <= |f| <= MAX_IOS_LE_FRAME
    && f[..4] == IOS_LE_HEADER && f[|f| - 1] == MESSAGE_END_BYTE
    && Le16(f[4], f[5]) == |f| - 7
  }

  datatype WireFrame = IosLeFrame(bytes: seq<byte>) | BasicFrame(bytes: seq<byte>) {

    ghost predicate WellFormed() {
      if IosLeFrame? then IsIosLeFrame(bytes) else IsBasicFrame(bytes)
    }

    ghost function Meaning(): Notification
      requires WellFormed()
    {
      match this
      case IosLeFrame(f) => Notification(f[7], f[8..|f| - 3], IosLe, f[6], f)
      case BasicFrame(f) =>
        if f[3] == 0x04 && f[5] == 0x55 then Notification(f[4], Slice(f, 6, |f| - 3), Basic, 0, [])
        else Notification(f[3], f[4..|f| - 3], Basic, 0, [])
    }
  }

  ghost predicate AllWellFormed(fs: seq<WireFrame>)
  {
    forall f :: f in fs ==> f.WellFormed()
  }

  ghost function Stream(fs: seq<WireFrame>): seq<byte>
  {
    if fs == [] then [] else fs[0].bytes + Stream(fs[1..])
  }

  ghost function Meanings(fs: seq<WireFrame>): seq<Notification>
    requires AllWellFormed(fs)
  {
    if fs == [] then [] else [fs[0].Meaning()] + Meanings(fs[1..])
  }

  ghost predicate NoIosLeAfterBasic(fs: seq<WireFrame>)
  {
    forall i, j :: 0 <= i < j < |fs| && fs[i].BasicFrame? ==> fs[j].BasicFrame?
  }

  /** Where a chunk boundary falls: `fs` is cut into the frames wholly received, and the
      frames to come, of which `rest` is a proper part of the first. */
  ghost predicate IsCut(fs: seq<WireFrame>, buf: seq<byte>, later: seq<byte>,
                        done: seq<WireFrame>, rest: seq<byte>, ahead: seq<WireFrame>)
  {
    && fs == done + ahead
    && rest + later == Stream(ahead)
    && if ahead == [] then rest == [] else |rest| < |ahead[0].bytes|
  }

  /** A boundary behind the first frame is a boundary of what follows it. */
  lemma SplitOff(f: seq<byte>, tail: seq<byte>, buf: seq<byte>, later: seq<byte>)
    requires buf + later == f + tail && |f| <= |buf|
    ensures buf == f + buf[|f|..] && buf[|f|..] + later == tail
  {
    assert (buf + later)[..|f|] == (f + tail)[..|f|];
    assert (buf + later)[|f|..] == (f + tail)[|f|..];
  }

  lemma PartOf(f: seq<byte>, tail: seq<byte>, buf: seq<byte>, later: seq<byte>)
    requires buf + later == f + tail && |buf| < |f|
    ensures buf < f
  {
    assert (buf + later)[..|buf|] == (f + tail)[..|buf|];
  }

  /** What the iOS-LE reader accepts, and what it reads; the length field and the checksum are not
      compared with anything. */
  lemma IosLeParsesIff(data: seq<byte>)
    ensures ParseIosLeNotification(data).Some?
       <==> |data| >= 11 && data[..4] == [0xFE, 0xEF, 0xAA, 0x55] && data[|data| - 1] == 0x02
    ensures ParseIosLeNotification(data).Some? ==>
              var m, n := ParseIosLeNotification(data).value, |data|;
              && m.packetNumber == data[6] && m.commandId == data[7] && m.payload == data[8..n - 3]
              && m.checksum == data[n - 3] as int + 0x100 * data[n - 2] as int
  {
    assert |data| >= 4 ==> data[0..4] == data[..4];
  }

  lemma IosLeFrameParsed(f: seq<byte>)
    requires IsIosLeFrame(f)
    ensures ParseIosLeNotification(f).Some?
    ensures FromIosLe(ParseIosLeNotification(f).value, f) == IosLeFrame(f).Meaning()
  {
    hide IsBasicFrame;
    IosLeParsesIff(f);
  }

  lemma WholeIosLeTaken(f: seq<byte>, rest: seq<byte>)
    requires IsIosLeFrame(f)
    ensures DrainIosLe(f + rest) == ([IosLeFrame(f).Meaning()] + DrainIosLe(rest).0, DrainIosLe(rest).1)
  {
    hide DrainIosLe, ParseIosLeNotification, FromIosLe, WireFrame.Meaning;
    var buf := f + rest;
    assert buf[..|f|] == f && buf[|f|..] == rest && buf[..4] == f[..4];
    assert buf[4] == f[4] && buf[5] == f[5];
    IosLeFrameParsed(f);
    DrainStep(buf);
  }

  lemma WholeIosLeDrained(f: seq<byte>, rest: seq<byte>)
    requires IsIosLeFrame(f)
    ensures Drain(f + rest).0 == [IosLeFrame(f).Meaning()] + Drain(rest).0
    ensures Drain(f + rest).1 == Drain(rest).1
  {
    hide Messages, Settle, DrainIosLe, FromBasics, WireFrame.Meaning;
    WholeIosLeTaken(f, rest);
    var (ns, last) := DrainIosLe(rest);
    Associative([IosLeFrame(f).Meaning()], ns, FromBasics(Messages(last)));
  }

  /** Without the iOS-LE header at the front, everything goes to the Basic parser. */
  lemma BasicPath(buf: seq<byte>)
    requires !HeaderAtFront(buf)
    ensures Drain(buf) == (FromBasics(Messages(buf)), Remainder(buf))
  {
    hide Messages, Settle;
    assert [] + FromBasics(Messages(buf)) == FromBasics(Messages(buf));
  }

  lemma PartialIosLeKept(f: seq<byte>, buf: seq<byte>)
    requires IsIosLeFrame(f) && buf < f
    ensures Drain(buf) == ([], buf)
  {
    if |buf| >= 4 {
      assert buf[..4] == f[..4];
    } else {
      TooShort(buf, 0);
      BasicPath(buf);
    }
  }

  lemma PartialBasicKept(f: seq<byte>, buf: seq<byte>)
    requires IsBasicFrame(f) && buf < f
    ensures Messages(buf) == [] && Remainder(buf) == buf
  {
    hide ParseBasicMessage;
    if |buf| < 7 {
      TooShort(buf, 0);
    } else {
      assert Decide(buf, 0) == NeedMore;
    }
  }

  lemma BasicFrameRead(f: seq<byte>)
    requires IsBasicFrame(f)
    ensures ParseBasicMessage(f).Some? && FromBasic(ParseBasicMessage(f).value) == BasicFrame(f).Meaning()
  {
    hide IsIosLeFrame, ParseBasicMessage;
    FrameParses(f);
  }

  lemma {:induction false} BasicsParsed(fs: seq<WireFrame>, buf: seq<byte>, later: seq<byte>)
    returns (done: seq<WireFrame>, rest: seq<byte>, ahead: seq<WireFrame>)
    requires AllWellFormed(fs) && (forall f :: f in fs ==> f.BasicFrame?)
    requires buf + later == Stream(fs)
    ensures IsCut(fs, buf, later, done, rest, ahead) && AllWellFormed(done)
    ensures FromBasics(Messages(buf)) == Meanings(done) && Remainder(buf) == rest
  {
    hide Messages, Settle, IsBasicFrame, Meanings, FromBasics, FromBasic, WireFrame.Meaning, ParseBasicMessage;
    NoMeanings();
    FromBasicsStep([]);
    if fs == [] {
      EmptyStream();
      done, rest, ahead := [], [], [];
    } else {
      var f, tail := fs[0].bytes, Stream(fs[1..]);
      assert fs[0].WellFormed();
      if |buf| < |f| {
        PartOf(f, tail, buf, later);
        PartialBasicKept(f, buf);
        done, rest, ahead := [], buf, fs;
      } else {
        SplitOff(f, tail, buf, later);
        ParseHead(f, buf[|f|..]);
        BasicFrameRead(f);
        FromBasicsStep(Messages(buf));
        done, rest, ahead := BasicsParsed(fs[1..], buf[|f|..], later);
        MeaningsCons(fs[0], done);
        done := [fs[0]] + done;
      }
    }
  }

  lemma NoMeanings()
    ensures Meanings([]) == []
  {
  }

  lemma MeaningsCons(f: WireFrame, fs: seq<WireFrame>)
    requires f.WellFormed() && AllWellFormed(fs)
    ensures AllWellFormed([f] + fs)
    ensures Meanings([f] + fs) == [f.Meaning()] + Meanings(fs)
  {
    assert ([f] + fs)[1..] == fs;
  }

  lemma {:induction false} MeaningsConcat(a: seq<WireFrame>, b: seq<WireFrame>)
    requires AllWellFormed(a) && AllWellFormed(b)
    ensures AllWellFormed(a + b)
    ensures Meanings(a + b) == Meanings(a) + Meanings(b)
  {
    hide WireFrame.WellFormed, WireFrame.Meaning;
    if a == [] {
      assert a + b == b;
    } else {
      assert a + b == [a[0]] + (a[1..] + b) && a == [a[0]] + a[1..];
      MeaningsConcat(a[1..], b);
      MeaningsCons(a[0], a[1..] + b);
      MeaningsCons(a[0], a[1..]);
    }
  }

  lemma {:induction false} MeaningAt(fs: seq<WireFrame>, j: nat)
    requires AllWellFormed(fs) && j < |fs|
    ensures |Meanings(fs)| == |fs| && Meanings(fs)[j] == fs[j].Meaning()
  {
    hide WireFrame.WellFormed, WireFrame.Meaning;
    if j > 0 {
      MeaningAt(fs[1..], j - 1);
    } else if |fs| > 1 {
      MeaningAt(fs[1..], 0);
    }
  }

  lemma BasicStart(fs: seq<WireFrame>, buf: seq<byte>, later: seq<byte>)
    requires AllWellFormed(fs) && fs != [] && fs[0].BasicFrame? && buf + later == Stream(fs)
    ensures !HeaderAtFront(buf)
  {
    assert fs[0].WellFormed();
    if |buf| >= 4 {
      assert buf[..4][0] == Stream(fs)[0] == fs[0].bytes[0];
    }
  }

  /** Any prefix of an ordered stream is drained into its whole frames, in order. */
  lemma {:induction false} PrefixDrained(fs: seq<WireFrame>, buf: seq<byte>, later: seq<byte>)
    returns (done: seq<WireFrame>, rest: seq<byte>, ahead: seq<WireFrame>)
    requires AllWellFormed(fs) && NoIosLeAfterBasic(fs)
    requires buf + later == Stream(fs)
    ensures IsCut(fs, buf, later, done, rest, ahead) && AllWellFormed(done)
    ensures Drain(buf) == (Meanings(done), rest)
  {
    hide Drain, IsBasicFrame, IsIosLeFrame, Meanings;
    NoMeanings();
    if fs == [] {
      EmptyStream();
      BasicPath([]);
      done, rest, ahead := [], [], [];
    } else if fs[0].BasicFrame? {
      BasicStart(fs, buf, later);
      BasicPath(buf);
      done, rest, ahead := BasicsParsed(fs, buf, later);
    } else {
      var f, tail := fs[0].bytes, Stream(fs[1..]);
      assert fs[0].WellFormed();
      if |buf| < |f| {
        PartOf(f, tail, buf, later);
        PartialIosLeKept(f, buf);
        done, rest, ahead := [], buf, fs;
      } else {
        SplitOff(f, tail, buf, later);
        WholeIosLeDrained(f, buf[|f|..]);
        done, rest, ahead := PrefixDrained(fs[1..], buf[|f|..], later);
        MeaningsCons(fs[0], done);
        done := [fs[0]] + done;
      }
    }
  }

  // ----- Delivery under every chunking ---------------------------------------------------

  lemma {:induction false} DeliveredFrom(fs: seq<WireFrame>, kept: seq<byte>, chunks: seq<seq<byte>>)
    requires AllWellFormed(fs) && NoIosLeAfterBasic(fs)
    requires kept + Flatten(chunks) == Stream(fs)
    requires if fs == [] then kept == [] else |kept| < |fs[0].bytes|
    ensures Deliver(kept, chunks) == (Meanings(fs), [])
    decreases |chunks|
  {
    hide Drain, IsBasicFrame, IsIosLeFrame, Meanings;
    NoMeanings();
    if chunks == [] {
      assert kept == Stream(fs);
      assert fs == [];
    } else {
      var buf, later := kept + chunks[0], Flatten(chunks[1..]);
      assert buf + later == Stream(fs);
      var done, rest, ahead := PrefixDrained(fs, buf, later);
      SuffixOrdered(done, ahead);
      DeliveredFrom(ahead, rest, chunks[1..]);
      MeaningsConcat(done, ahead);
    }
  }

  lemma SuffixOrdered(done: seq<WireFrame>, ahead: seq<WireFrame>)
    requires NoIosLeAfterBasic(done + ahead)
    ensures NoIosLeAfterBasic(ahead)
    ensures AllWellFormed(done + ahead) ==> AllWellFormed(ahead)
  {
    var fs, n := done + ahead, |done|;
    assert forall i :: 0 <= i < |ahead| ==> ahead[i] == fs[n + i];
  }

  // ----- What one delivery loses -------------------------------------------------------------

  lemma {:induction false} BasicsOnly(ms: seq<BasicMessage>)
    ensures forall n :: n in FromBasics(ms) ==> n.framing == Basic
  {
    if ms != [] {
      BasicsOnly(ms[1..]);
    }
  }

  /** Whole iOS-LE frames at the front are taken off, whatever follows them. */
  lemma {:induction false} LeadingIosLe(fs: seq<WireFrame>, rest: seq<byte>)
    requires AllWellFormed(fs) && forall f :: f in fs ==> f.IosLeFrame?
    ensures Drain(Stream(fs) + rest) == (Meanings(fs) + Drain(rest).0, Drain(rest).1)
  {
    hide Drain, IsIosLeFrame, IsBasicFrame, WireFrame.Meaning;
    if fs == [] {
      assert Stream(fs) + rest == rest && [] + Drain(rest).0 == Drain(rest).0;
    } else {
      var f, tail := fs[0].bytes, Stream(fs[1..]);
      assert fs[0].WellFormed() && fs[0] == IosLeFrame(f);
      assert Stream(fs) + rest == f + (tail + rest);
      WholeIosLeDrained(f, tail + rest);
      LeadingIosLe(fs[1..], rest);
      assert [fs[0].Meaning()] + (Meanings(fs[1..]) + Drain(rest).0) == Meanings(fs) + Drain(rest).0;
    }
  }

  /** A header whose length is too large, or whose frame is complete and is too short or does not end
      with the end byte. */
  ghost predicate IsDamaged(buf: seq<byte>)
  {
    && |buf| >= IOS_LE_MIN_DATA_LENGTH && HeaderAtFront(buf)
    && var frameLen := Le16(buf[4], buf[5]) + 7;
       || frameLen > 8192
       || (frameLen <= |buf| && (frameLen < IOS_LE_MIN_DATA_LENGTH || buf[frameLen - 1] != MESSAGE_END_BYTE))
  }

  lemma DamageFound(buf: seq<byte>)
    requires IsDamaged(buf)
    ensures var frameLen := Le16(buf[4], buf[5]) + 7;
            frameLen > MAX_IOS_LE_FRAME || (frameLen <= |buf| && ParseIosLeNotification(buf[..frameLen]).None?)
  {
    hide ParseIosLeNotification, HeaderAtFront, Le16;
    var frameLen := Le16(buf[4], buf[5]) + 7;
    if frameLen <= |buf| {
      IosLeParsesIff(buf[..frameLen]);
    }
  }

  /** Dropping one byte takes the header from the front, so all the rest of a damaged frame's
      delivery goes to the Basic parser. */
  lemma DamagedHeader(buf: seq<byte>)
    requires IsDamaged(buf)
    ensures Drain(buf) == (FromBasics(Messages(buf[1..])), Remainder(buf[1..]))
    ensures forall n :: n in Drain(buf).0 ==> n.framing == Basic
  {
    hide Messages, Settle, FromBasics, ParseIosLeNotification;
    DrainStep(buf);
    DrainStep(buf[1..]);
    DamageFound(buf);
    assert buf[1..][..4][0] == buf[..4][1];
    assert [] + FromBasics(Messages(buf[1..])) == FromBasics(Messages(buf[1..]));
    BasicsOnly(Messages(buf[1..]));
  }

  /** So of a delivery of whole iOS-LE frames with damage behind them, exactly those frames arrive
      as iOS-LE; no frame behind the damage does, however sound it is. */
  lemma DamagedDelivery(fs: seq<WireFrame>, buf: seq<byte>)
    requires AllWellFormed(fs) && (forall f :: f in fs ==> f.IosLeFrame?) && IsDamaged(buf)
    ensures Drain(Stream(fs) + buf) == (Meanings(fs) + FromBasics(Messages(buf[1..])), Remainder(buf[1..]))
  {
    hide Drain, Messages, Settle, IsDamaged;
    LeadingIosLe(fs, buf);
    DamagedHeader(buf);
  }

  /** How many iOS-LE frames come before the first Basic one. */
  function LeadingCount(fs: seq<WireFrame>): (k: nat)
    ensures k <= |fs| && (k < |fs| ==> fs[k].BasicFrame?)
    ensures forall i :: 0 <= i < k ==> fs[i].IosLeFrame?
  {
    if fs == [] || fs[0].BasicFrame? then 0 else 1 + LeadingCount(fs[1..])
  }

  /** Of any whole frames that arrive together, those before the first Basic one are delivered, and
      nothing behind it is delivered as iOS-LE. */
  lemma NoIosLeBehindBasic(fs: seq<WireFrame>)
    requires AllWellFormed(fs)
    ensures var k, ns := LeadingCount(fs), Drain(Stream(fs)).0;
            k <= |ns| && ns[..k] == Meanings(fs[..k]) && forall j :: k <= j < |ns| ==> ns[j].framing == Basic
  {
    hide Drain, Messages, Settle, IsBasicFrame, IsIosLeFrame, FromBasics, Meanings, Stream, LeadingCount;
    var k := LeadingCount(fs);
    var run, rest := fs[..k], fs[k..];
    assert fs == run + rest;
    StreamConcat(run, rest);
    LeadingIosLe(run, Stream(rest));
    MeaningsLength(run);
    assert !HeaderAtFront(Stream(rest)) by {
      if rest == [] {
        NoStream();
      } else {
        assert Stream(rest) + [] == Stream(rest);
        BasicStart(rest, Stream(rest), []);
      }
    }
    BasicPath(Stream(rest));
    BasicsOnly(Messages(Stream(rest)));
  }

  lemma NoStream()
    ensures Stream([]) == []
  {
  }

  lemma {:induction false} StreamConcat(a: seq<WireFrame>, b: seq<WireFrame>)
    ensures Stream(a + b) == Stream(a) + Stream(b)
  {
    if a == [] {
      assert a + b == b;
    } else {
      assert (a + b)[1..] == a[1..] + b;
      StreamConcat(a[1..], b);
    }
  }

  lemma MeaningsLength(fs: seq<WireFrame>)
    requires AllWellFormed(fs)
    ensures |Meanings(fs)| == |fs|
  {
    if fs != [] {
      MeaningAt(fs, 0);
    }
  }

  /** An iOS-LE frame behind a Basic one is lost when both arrive in one chunk: behind the first
      Basic frame there is no iOS-LE notification, although some was due. */
  lemma OutOfOrderLost(fs: seq<WireFrame>)
    requires AllWellFormed(fs) && !NoIosLeAfterBasic(fs)
    ensures var k, ns := LeadingCount(fs), Drain(Stream(fs)).0;
            && (forall j :: k <= j < |ns| ==> ns[j].framing == Basic)
            && (exists j :: k < j < |fs| && fs[j].Meaning().framing == IosLe)
            && ns != Meanings(fs)
  {
    hide Drain, Stream, IsBasicFrame, IsIosLeFrame, Meanings;
    var i, j :| 0 <= i < j < |fs| && fs[i].BasicFrame? && !fs[j].BasicFrame?;
    NoIosLeBehindBasic(fs);
    MeaningAt(fs, j);
    assert fs[j] in fs;
  }

  ghost predicate DeliversAll(fs: seq<WireFrame>, chunks: seq<seq<byte>>)
    requires AllWellFormed(fs)
  {
    Flatten(chunks) == Stream(fs) ==> Deliver([], chunks) == (Meanings(fs), [])
  }

  /** A stream of whole frames is delivered exactly, in order and to the last byte, under every
      chunking, if and only if no iOS-LE frame comes after a Basic frame. */
  lemma DeliveryExactness(fs: seq<WireFrame>)
    requires AllWellFormed(fs)
    ensures (forall chunks: seq<seq<byte>> :: DeliversAll(fs, chunks)) <==> NoIosLeAfterBasic(fs)
  {
    hide Drain, NoIosLeAfterBasic;
    if NoIosLeAfterBasic(fs) {
      assert fs != [] ==> fs[0].WellFormed();
      forall chunks: seq<seq<byte>>
        ensures DeliversAll(fs, chunks)
      {
        if Flatten(chunks) == Stream(fs) {
          assert [] + Flatten(chunks) == Stream(fs);
          DeliveredFrom(fs, [], chunks);
        }
      }
    } else {
      var whole := [Stream(fs)];
      assert whole[1..] == [] && [] + whole[0] == whole[0];
      assert Flatten(whole) == Stream(fs);
      OutOfOrderLost(fs);
      assert Deliver([], whole).0 == Drain(Stream(fs)).0 + [];
      assert !DeliversAll(fs, whole);
    }
  }

  /** Streams of a single framing are therefore always delivered exactly. */
  lemma SingleFramingDelivery(fs: seq<WireFrame>, chunks: seq<seq<byte>>)
    requires AllWellFormed(fs) && Flatten(chunks) == Stream(fs)
    requires (forall f :: f in fs ==> f.IosLeFrame?) || (forall f :: f in fs ==> f.BasicFrame?)
    ensures Deliver([], chunks) == (Meanings(fs), [])
  {
    hide Deliver, Flatten, Stream;
    assert forall i :: 0 <= i < |fs| ==> fs[i] in fs;
    DeliveryExactness(fs);
    assert DeliversAll(fs, chunks);
  }

  // ----- Commands ---------------------------------------------------------------------------

  /** The notification due for a command: its own id and payload. */
  function DueFor(c: Command): Notification
  {
    Notification(c.commandId, c.payload, Basic, 0, [])
  }

  function DueForAll(cs: seq<Command>): (ns: seq<Notification>)
    ensures |ns| == |cs| && forall i :: 0 <= i < |cs| ==> ns[i] == DueFor(cs[i])
  {
    seq(|cs|, i requires 0 <= i < |cs| => DueFor(cs[i]))
  }

  function FramesOf(cs: seq<Command>): (fs: seq<WireFrame>)
    requires forall c :: c in cs ==> c.Fits()
    ensures |fs| == |cs| && forall i :: 0 <= i < |cs| ==> fs[i] == BasicFrame(Encode(cs[i]))
  {
    seq(|cs|, i requires 0 <= i < |cs| => BasicFrame(Encode(cs[i])))
  }

  lemma {:induction false} StreamOfCommands(cs: seq<Command>)
    requires forall c :: c in cs ==> c.Fits()
    ensures Stream(FramesOf(cs)) == EncodeAll(cs)
  {
    hide Encode;
    if cs != [] {
      StreamOfCommands(cs[1..]);
      assert FramesOf(cs)[1..] == FramesOf(cs[1..]);
    }
  }

  lemma CommandMeaning(c: Command)
    requires c.Fits()
    ensures BasicFrame(Encode(c)).WellFormed()
    ensures BasicFrame(Encode(c)).Meaning() == DueFor(c) <==> !c.LooksLikeAck()
  {
    hide Encode, ParseBasicMessage, IsBasicFrame;
    OneFrameRoundTrip(c);
    BasicFrameRead(Encode(c));
  }

  /** Encoded commands arrive under every chunking as notifications with their own ids and payloads, in
      order and to the last byte, if and only if none of them looks like an ACK. */
  lemma CommandsDelivered(cs: seq<Command>, chunks: seq<seq<byte>>)
    requires (forall c :: c in cs ==> c.Fits()) && Flatten(chunks) == EncodeAll(cs)
    ensures Deliver([], chunks).1 == []
    ensures Deliver([], chunks).0 == DueForAll(cs) <==> NoneLooksLikeAck(cs)
  {
    hide Deliver, Flatten, Stream, Encode, EncodeAll, Meanings, WireFrame.Meaning, WireFrame.WellFormed, DueFor;
    var fs := FramesOf(cs);
    forall i | 0 <= i < |cs|
      ensures cs[i].Fits() && fs[i].WellFormed() && (fs[i].Meaning() == DueFor(cs[i]) <==> !cs[i].LooksLikeAck())
    {
      assert cs[i] in cs;
      CommandMeaning(cs[i]);
    }
    assert AllWellFormed(fs) && forall f :: f in fs ==> f.BasicFrame?;
    StreamOfCommands(cs);
    SingleFramingDelivery(fs, chunks);
    MeaningsLength(fs);
    forall i | 0 <= i < |fs|
      ensures Meanings(fs)[i] == fs[i].Meaning()
    {
      MeaningAt(fs, i);
    }
    if NoneLooksLikeAck(cs) {
      assert forall i :: 0 <= i < |cs| ==> cs[i] in cs && !cs[i].LooksLikeAck();
      assert Meanings(fs) == DueForAll(cs);
    } else {
      var c :| c in cs && c.LooksLikeAck();
      var i :| 0 <= i < |cs| && cs[i] == c;
      assert Meanings(fs)[i] != DueForAll(cs)[i];
    }
  }

  // ----- Arbitrary bytes without the iOS-LE header ------------------------------------------

  ghost predicate HasHeader(s: seq<byte>)
  {
    exists i :: HeaderAt(s, i)
  }

  ghost predicate HeaderAt(s: seq<byte>, i: nat)
  {
    i + 4 <= |s| && s[i..i + 4] == IOS_LE_HEADER
  }

  lemma HeaderInPart(a: seq<byte>, b: seq<byte>, c: seq<byte>)
    requires HasHeader(b)
    ensures HasHeader(a + b + c)
  {
    var i: nat :| HeaderAt(b, i);
    var s, k := a + b + c, |a| + i;
    assert s[k..k + 4] == b[i..i + 4];
    assert HeaderAt(s, k);
  }

  lemma {:induction false} FromBasicsConcat(a: seq<BasicMessage>, b: seq<BasicMessage>)
    ensures FromBasics(a + b) == FromBasics(a) + FromBasics(b)
  {
    if a == [] {
      assert a + b == b;
    } else {
      assert (a + b)[1..] == a[1..] + b;
      FromBasicsConcat(a[1..], b);
    }
  }

  lemma {:induction false} HeaderlessFrom(kept: seq<byte>, chunks: seq<seq<byte>>)
    requires !HasHeader(kept + Flatten(chunks))
    requires Messages(kept) == [] || chunks != []
    ensures Deliver(kept, chunks).0 == FromBasics(Messages(kept + Flatten(chunks)))
    decreases |chunks|
  {
    hide Drain, Messages, Settle, HasHeader;
    if chunks == [] {
      assert kept + [] == kept;
    } else {
      var buf, later := kept + chunks[0], Flatten(chunks[1..]);
      assert kept + Flatten(chunks) == buf + later;
      HeaderNotInParts(buf, later);
      BasicPath(buf);
      RemainderIsSilent(buf);
      HeaderlessFrom(Remainder(buf), chunks[1..]);
      MessagesContinue(buf, later);
      FromBasicsConcat(Messages(buf), Messages(Remainder(buf) + later));
    }
  }

  lemma HeaderNotInParts(buf: seq<byte>, later: seq<byte>)
    requires !HasHeader(buf + later)
    ensures !HeaderAtFront(buf) && !HasHeader(Remainder(buf) + later)
  {
    hide Settle;
    assert [] + buf + later == buf + later;
    assert HeaderAtFront(buf) ==> HeaderAt(buf, 0);
    if HasHeader(buf) {
      HeaderInPart([], buf, later);
    }
    var q := Settle(buf, 0);
    assert buf[..q] + (buf[q..] + later) + [] == buf + later;
    if HasHeader(buf[q..] + later) {
      HeaderInPart(buf[..q], buf[q..] + later, []);
    }
  }

  /** A stream, noise included, in which the iOS-LE header does not occur is read as a Basic
      stream, however it is cut. */
  lemma HeaderlessStreams(chunks: seq<seq<byte>>)
    requires !HasHeader(Flatten(chunks))
    ensures Deliver([], chunks).0 == FromBasics(Messages(Flatten(chunks)))
  {
    assert [] + Flatten(chunks) == Flatten(chunks);
    EmptyStream();
    HeaderlessFrom([], chunks);
  }
}

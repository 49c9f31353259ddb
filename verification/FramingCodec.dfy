/** Basic frames as a sender builds them, and what the parser reads back. The encoder is a
    specification: the repository's own encoder is in its Rust daemon. */
module FramingCodec {
  import opened Common
  import opened Framing
  import opened FramingTheorems

  datatype Command = Plain(commandId: byte, payload: seq<byte>) | Ack(commandId: byte, payload: seq<byte>) {

    function Body(): seq<byte> {
      match this
      case Plain(c, p) => [c] + p
      case Ack(c, p) => [ACK_PATTERN_BYTE_1, c, ACK_PATTERN_BYTE_3] + p
    }

    predicate Fits() { |Body()| + 6 <= MAX_BASIC_FRAME }

    function Meaning(): BasicMessage { BasicMessage(commandId, payload) }

    /** The plain commands whose frame carries the ACK pattern, the checksum's low byte included. */
    predicate LooksLikeAck() {
      && Plain? && commandId == ACK_PATTERN_BYTE_1
      && (payload == [0x4D] || (|payload| >= 2 && payload[1] == ACK_PATTERN_BYTE_3))
    }
  }

  /** Start byte, header, body, the two checksum bytes, end byte. */
  function Framed(header: seq<byte>, body: seq<byte>, lo: byte, hi: byte): (f: seq<byte>)
    ensures |f| == |header| + |body| + 4
  {
    [MESSAGE_START_BYTE] + header + body + [lo, hi, MESSAGE_END_BYTE]
  }

  /** The little-endian length of body and checksum. */
  function Header(body: seq<byte>): (h: seq<byte>)
    requires |body| + 6 <= MAX_BASIC_FRAME
    ensures |h| == 2 && Le16(h[0], h[1]) == |body| + 2
  {
    var n := |body| + 2;
    [n % 0x100, n / 0x100]
  }

  function EncodeBody(body: seq<byte>): (f: seq<byte>)
    requires |body| + 6 <= MAX_BASIC_FRAME
    ensures |f| == |body| + 6
  {
    var sum := Sum(Header(body) + body) % 0x1_0000;
    Framed(Header(body), body, sum % 0x100, sum / 0x100)
  }

  function Encode(c: Command): (f: seq<byte>)
    requires c.Fits()
  {
    EncodeBody(c.Body())
  }

  function EncodeAll(cs: seq<Command>): seq<byte>
    requires forall c :: c in cs ==> c.Fits()
  {
    if cs == [] then [] else Encode(cs[0]) + EncodeAll(cs[1..])
  }

  /** A whole Basic frame and nothing else. */
  ghost predicate IsBasicFrame(f: seq<byte>) { ValidFrameAt(f, 0, |f|) }

  lemma FramedParts(header: seq<byte>, body: seq<byte>, lo: byte, hi: byte)
    requires |header| == 2
    ensures var f, n := Framed(header, body, lo, hi), |body| + 6;
            && f[0] == MESSAGE_START_BYTE && f[1] == header[0] && f[2] == header[1] && f[3..n - 3] == body
            && f[n - 3] == lo && f[n - 2] == hi && f[n - 1] == MESSAGE_END_BYTE && f[1..n - 3] == header + body
  {
  }

  lemma EncodedBodyIsFrame(body: seq<byte>)
    requires 1 <= |body| && |body| + 6 <= MAX_BASIC_FRAME
    ensures IsBasicFrame(EncodeBody(body))
    ensures EncodeBody(body)[3..|body| + 3] == body
  {
    hide Sum, Header, Framed;
    var sum := Sum(Header(body) + body) % 0x1_0000;
    FramedParts(Header(body), body, sum % 0x100, sum / 0x100);
  }

  lemma FrameParses(f: seq<byte>)
    requires IsBasicFrame(f)
    ensures ParseBasicMessage(f) == Some(
              if IsAckShaped(f) then BasicMessage(f[4], Slice(f, 6, |f| - 3)) else BasicMessage(f[3], f[4..|f| - 3]))
  {
    hide Sum, Le16;
    ValidIffParses(f, 0, |f|);
    assert f[0..|f|] == f;
  }

  lemma BodyInFrame(body: seq<byte>, k: nat)
    requires k <= |body| && |body| + 6 <= MAX_BASIC_FRAME
    ensures EncodeBody(body)[k + 3..|body| + 3] == body[k..]
    ensures k < |body| ==> EncodeBody(body)[k + 3] == body[k]
  {
    hide Sum, Header, Framed;
    var sum := Sum(Header(body) + body) % 0x1_0000;
    FramedParts(Header(body), body, sum % 0x100, sum / 0x100);
    TailOfSlice(EncodeBody(body), 3, |body| + 3, k);
  }

  lemma TailOfSlice(s: seq<byte>, lo: nat, hi: nat, k: nat)
    requires lo + k <= hi <= |s|
    ensures s[lo + k..hi] == s[lo..hi][k..]
    ensures lo + k < hi ==> s[lo + k] == s[lo..hi][k]
  {
  }

  lemma AckRead(id: byte, p: seq<byte>)
    requires Ack(id, p).Fits()
    ensures ParseBasicMessage(Encode(Ack(id, p))) == Some(BasicMessage(id, p))
  {
    hide ParseBasicMessage, EncodeBody, IsBasicFrame;
    var body := Ack(id, p).Body();
    var f := EncodeBody(body);
    EncodedBodyIsFrame(body);
    FrameParses(f);
    BodyInFrame(body, 0);
    BodyInFrame(body, 1);
    BodyInFrame(body, 2);
    BodyInFrame(body, 3);
    assert body[0] == ACK_PATTERN_BYTE_1 && body[1] == id && body[2] == ACK_PATTERN_BYTE_3 && body[3..] == p;
  }

  lemma PlainRead(id: byte, p: seq<byte>)
    requires Plain(id, p).Fits()
    ensures ParseBasicMessage(Encode(Plain(id, p))) == Some(BasicMessage(id, p)) <==> !IsAckShaped(Encode(Plain(id, p)))
    ensures Encode(Plain(id, p))[3] == id
  {
    hide ParseBasicMessage, EncodeBody, IsBasicFrame;
    var body := Plain(id, p).Body();
    var f := EncodeBody(body);
    EncodedBodyIsFrame(body);
    FrameParses(f);
    BodyInFrame(body, 0);
    BodyInFrame(body, 1);
    assert body[0] == id && body[1..] == p;
    if IsAckShaped(f) && p == [] {
      PlainFourIndexFive(p);
    }
  }

  /** A command comes back as it was sent unless it is a plain one that looks like an ACK. */
  lemma OneFrameRoundTrip(c: Command)
    requires c.Fits()
    ensures IsBasicFrame(Encode(c))
    ensures ParseBasicMessage(Encode(c)) == Some(c.Meaning()) <==> !c.LooksLikeAck()
  {
    hide ParseBasicMessage, EncodeBody, IsBasicFrame;
    EncodedBodyIsFrame(c.Body());
    match c
    case Ack(id, p) => AckRead(id, p);
    case Plain(id, p) =>
      PlainRead(id, p);
      if id == ACK_PATTERN_BYTE_1 {
        PlainFourIndexFive(p);
      }
  }

  /** Index 5 of a plain command-4 frame: a payload byte, or part of the checksum. */
  lemma PlainFourIndexFive(p: seq<byte>)
    requires Plain(ACK_PATTERN_BYTE_1, p).Fits()
    ensures var f := Encode(Plain(ACK_PATTERN_BYTE_1, p));
            f[5] == if |p| == 0 then 0 else if |p| == 1 then (p[0] as int + 8) % 0x100 else p[1]
  {
    hide EncodeBody, Sum, Header;
    var body := Plain(ACK_PATTERN_BYTE_1, p).Body();
    if |p| <= 1 {
      ShortChecksum(p);
      ChecksumBytes(body);
    } else {
      BodyInFrame(body, 2);
      assert body[2] == p[1];
    }
  }

  lemma ChecksumBytes(body: seq<byte>)
    requires |body| + 6 <= MAX_BASIC_FRAME
    ensures var sum := Sum(Header(body) + body) % 0x1_0000;
            && EncodeBody(body)[|body| + 3] == sum % 0x100
            && EncodeBody(body)[|body| + 4] == sum / 0x100
  {
    hide Sum, Header, Framed;
    var sum := Sum(Header(body) + body) % 0x1_0000;
    FramedParts(Header(body), body, sum % 0x100, sum / 0x100);
  }

  lemma SumCons(b: byte, bs: seq<byte>)
    ensures Sum([b] + bs) == b + Sum(bs)
  {
    assert ([b] + bs)[1..] == bs;
  }

  lemma SumWithHeader(body: seq<byte>)
    requires |body| < 250
    ensures Sum(Header(body) + body) == |body| + 2 + Sum(body)
  {
    hide Sum;
    var n: byte := |body| + 2;
    assert Header(body) == [n, 0];
    Regrouped(n, 0, body);
    SumCons(n, [0] + body);
    SumCons(0, body);
  }

  lemma ShortChecksum(p: seq<byte>)
    requires |p| <= 1
    ensures var body := [ACK_PATTERN_BYTE_1] + p;
            Sum(Header(body) + body) == if |p| == 0 then 7 else 8 + p[0] as int
  {
    hide Sum, Header;
    SumWithHeader([ACK_PATTERN_BYTE_1] + p);
    SumCons(ACK_PATTERN_BYTE_1, p);
    ShortSum(p);
  }

  lemma Regrouped(a: byte, b: byte, bs: seq<byte>)
    ensures [a, b] + bs == [a] + ([b] + bs)
  {
  }

  lemma ShortSum(p: seq<byte>)
    requires |p| <= 1
    ensures Sum(p) == if |p| == 0 then 0 else p[0]
  {
    if |p| == 1 {
      assert p[1..] == [];
    }
  }

  // ----- Streams of whole frames ------------------------------------------------------

  lemma WholeFrameEmitted(f: seq<byte>, rest: seq<byte>)
    requires IsBasicFrame(f)
    ensures ParseBasicMessage(f).Some?
    ensures Decide(f + rest, 0) == Emit(|f|, ParseBasicMessage(f).value)
  {
    hide ParseBasicMessage;
    EmitIffValid(f, 0, |f|);
    assert f[0..|f|] == f;
    DecideStable(f, rest, 0);
  }

  lemma ParseHead(f: seq<byte>, rest: seq<byte>)
    requires IsBasicFrame(f)
    ensures ParseBasicMessage(f).Some?
    ensures Messages(f + rest) == [ParseBasicMessage(f).value] + Messages(rest)
    ensures Remainder(f + rest) == Remainder(rest)
  {
    hide ParseBasicMessage, Decide, Settle;
    var s, n := f + rest, |f|;
    WholeFrameEmitted(f, rest);
    ScanShift(s, n, n);
    SettleShift(s, n, n);
    assert s[n..] == rest;
    SettleStep(s, 0);
  }

  predicate NoneLooksLikeAck(cs: seq<Command>)
  {
    forall c :: c in cs ==> !c.LooksLikeAck()
  }

  function Meanings(cs: seq<Command>): seq<BasicMessage>
  {
    if cs == [] then [] else [cs[0].Meaning()] + Meanings(cs[1..])
  }

  /** Parsing a concatenation of encoded commands consumes it all, and yields exactly the
      commands that were sent when, and only when, no plain one of them looks like an ACK. */
  lemma {:induction false} RoundTrip(cs: seq<Command>)
    requires forall c :: c in cs ==> c.Fits()
    ensures Remainder(EncodeAll(cs)) == []
    ensures Messages(EncodeAll(cs)) == Meanings(cs) <==> NoneLooksLikeAck(cs)
  {
    hide Messages, Settle, Encode, ParseBasicMessage, IsBasicFrame, NoneLooksLikeAck;
    NoneStep(cs);
    if cs == [] {
      EmptyStream();
    } else {
      OneFrameRoundTrip(cs[0]);
      ParseHead(Encode(cs[0]), EncodeAll(cs[1..]));
      var m := ParseBasicMessage(Encode(cs[0])).value;
      RoundTrip(cs[1..]);
      ConsEqual(m, Messages(EncodeAll(cs[1..])), cs[0].Meaning(), Meanings(cs[1..]));
    }
  }

  lemma NoneStep(cs: seq<Command>)
    ensures NoneLooksLikeAck(cs) <==> cs == [] || (!cs[0].LooksLikeAck() && NoneLooksLikeAck(cs[1..]))
  {
    assert cs != [] ==> cs == [cs[0]] + cs[1..];
  }

  lemma ConsEqual<T>(a: T, s: seq<T>, b: T, t: seq<T>)
    ensures [a] + s == [b] + t <==> a == b && s == t
  {
    if [a] + s == [b] + t {
      assert ([a] + s)[0] == a && ([b] + t)[0] == b;
      assert ([a] + s)[1..] == s && ([b] + t)[1..] == t;
    }
  }

  lemma EmptyStream()
    ensures Messages([]) == [] && Remainder([]) == []
  {
  }

  // ----- Error detection -----------------------------------------------------------------

  /** Changing one byte of an accepted message is noticed unless that byte is the start byte,
      which the validator does not look at: at any length, although the sum wraps at 16 bits. */
  lemma SingleByteErrors(message: seq<byte>, i: nat, b: byte)
    requires i < |message| && b != message[i]
    requires ParseBasicMessage(message).Some?
    ensures ParseBasicMessage(message[i := b]).Some? <==> i == 0
  {
    hide ParseBasicMessage, Sum;
    var n, damaged := |message|, message[i := b];
    ParsesIff(message);
    ParsesIff(damaged);
    var body := message[1..n - 3];
    if 0 < i < n - 3 {
      assert damaged[1..n - 3] == body[i - 1 := b];
      SumUpdate(body, i - 1, b);
    } else {
      assert damaged[1..n - 3] == body;
    }
  }
}

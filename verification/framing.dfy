/** Message framing: `RecvMsg` as a parser over the byte stream of a connection. */
module Framing {
  import opened Bytes
  import opened Suites
  import opened Cipher
  import opened Frames
  import opened CoderStates
  import opened Session

  const HEAD_LEN: nat := 8

  const SOCKET_VER: Byte := 0x89

  const PROXY_VER: Byte := 0x99

  /** The four address bytes a proxy puts in, or none. */
  datatype RealIp = NoIp | Ip(b0: Byte, b1: Byte, b2: Byte, b3: Byte)

  datatype Parsed = Frame(buf: seq<Byte>, ip: RealIp, rest: seq<Byte>) | Dropped

  /** One `RecvMsg` up to the decryption. A length of eight or less reads no body at all. */
  function ParseFrame(stream: seq<Byte>, maxPackLen: nat): Parsed {
    if |stream| < 4 || (stream[0] != SOCKET_VER && stream[0] != PROXY_VER) then Dropped else
    var proxied := stream[0] == PROXY_VER;
    var headEnd := if proxied then HEAD_LEN + 4 else HEAD_LEN;
    if |stream| < headEnd then Dropped else
    var packLen := Uint16At(stream, 2);
    var ip := if proxied then Ip(stream[4], stream[5], stream[6], stream[7]) else NoIp;
    var head := [SOCKET_VER] + stream[1..4] + stream[headEnd - 4..headEnd];
    if packLen <= HEAD_LEN then Frame(head, ip, stream[headEnd..])
    else if packLen > maxPackLen || |stream| < headEnd + packLen - HEAD_LEN then Dropped
    else
      var end := headEnd + packLen - HEAD_LEN;
      Frame(head + stream[headEnd..end], ip, stream[end..])
  }

  lemma HeadAndBody(s: seq<Byte>, i: nat, j: nat, k: nat, front: seq<Byte>)
    requires i <= j <= k <= |s|
    ensures front + s[i..j] + s[j..k] == front + s[i..k]
  {
  }

  /** What one read makes of any stream. The length field of a proxied frame does not count the four address bytes,
      and a length of eight or less stands for a bare head, whatever the limit. */
  lemma ParseAnswers(stream: seq<Byte>, maxPackLen: nat)
    ensures var len := if |stream| < 4 then 0 else stream[2] as int + 256 * stream[3] as int;
            var body := if len <= 8 then 0 else len - 8;
            ParseFrame(stream, maxPackLen) ==
              if |stream| >= 8 + body && stream[0] == 0x89 && (len <= 8 || len <= maxPackLen) then
                Frame(stream[..8 + body], NoIp, stream[8 + body..])
              else if |stream| >= 12 + body && stream[0] == 0x99 && (len <= 8 || len <= maxPackLen) then
                Frame([0x89] + stream[1..4] + stream[8..12 + body], Ip(stream[4], stream[5], stream[6], stream[7]),
                      stream[12 + body..])
              else Dropped
  {
    if |stream| >= 8 {
      var len := stream[2] as int + 256 * stream[3] as int;
      var body := if len <= 8 then 0 else len - 8;
      if stream[0] == 0x89 && |stream| >= 8 + body {
        assert stream[..8 + body] == [stream[0]] + stream[1..4] + stream[4..8] + stream[8..8 + body];
      } else if stream[0] == 0x99 && |stream| >= 12 + body {
        HeadAndBody(stream, 8, 12, 12 + body, [SOCKET_VER] + stream[1..4]);
      }
    }
  }

  /** A frame whose length field is right. */
  predicate WellFramed(f: seq<Byte>, maxPackLen: nat) {
    |f| >= HEAD_LEN && f[0] == SOCKET_VER && Uint16At(f, 2) == |f| && (|f| == HEAD_LEN || |f| <= maxPackLen)
  }

  /** A frame as it lies on the wire: as it is, or passed on by a proxy with an address the length does not count. */
  function WireForm(f: seq<Byte>, ip: RealIp): seq<Byte>
    requires |f| >= 4
  {
    match ip
    case NoIp => f
    case Ip(b0, b1, b2, b3) => [PROXY_VER] + f[1..4] + [b0, b1, b2, b3] + f[4..]
  }

  lemma WireShape(f: seq<Byte>, ip: RealIp, rest: seq<Byte>)
    requires |f| >= HEAD_LEN
    ensures var stream := WireForm(f, ip) + rest;
            var headEnd := if ip == NoIp then HEAD_LEN else HEAD_LEN + 4;
            var end := headEnd + |f| - HEAD_LEN;
            && end <= |stream| && stream[end..] == rest && stream[1..4] == f[1..4]
            && stream[headEnd - 4..end] == f[4..]
            && stream[0] == (if ip == NoIp then f[0] else PROXY_VER)
            && (ip != NoIp ==> stream[4..8] == [ip.b0, ip.b1, ip.b2, ip.b3])
  {
  }

  /** Reading takes one frame off the stream, in either form, and nothing else. */
  lemma ParseReadsOne(f: seq<Byte>, ip: RealIp, rest: seq<Byte>, maxPackLen: nat)
    requires WellFramed(f, maxPackLen)
    ensures ParseFrame(WireForm(f, ip) + rest, maxPackLen) == Frame(f, ip, rest)
  {
    hide WireForm, ParseFrame;
    WireShape(f, ip, rest);
    var stream := WireForm(f, ip) + rest;
    ParseAnswers(stream, maxPackLen);
    assert f == [SOCKET_VER] + f[1..4] + f[4..];
    assert stream[2] == stream[1..4][1] == f[1..4][1] && stream[3] == stream[1..4][2] == f[1..4][2];
    if ip == NoIp {
      assert stream[..|f|] == [stream[0]] + stream[1..4] + stream[4..|f|];
    } else {
      assert forall i | 4 <= i < 8 :: stream[i] == stream[4..8][i - 4];
    }
  }

  lemma ParsedShape(stream: seq<Byte>, maxPackLen: nat)
    requires ParseFrame(stream, maxPackLen).Frame?
    ensures var p := ParseFrame(stream, maxPackLen);
            var headEnd := if p.ip == NoIp then HEAD_LEN else HEAD_LEN + 4;
            var packLen := Uint16At(stream, 2);
            var end := headEnd + (if packLen <= HEAD_LEN then 0 else packLen - HEAD_LEN);
            && end <= |stream| && p.rest == stream[end..]
            && p.buf == [SOCKET_VER] + stream[1..4] + stream[headEnd - 4..end]
            && (packLen <= HEAD_LEN || packLen <= maxPackLen)
            && stream[0] == (if p.ip == NoIp then SOCKET_VER else PROXY_VER)
            && (p.ip != NoIp ==> stream[4..8] == [p.ip.b0, p.ip.b1, p.ip.b2, p.ip.b3])
  {
  }

  lemma CutTwice(s: seq<Byte>, i: nat, j: nat)
    requires i <= j <= |s|
    ensures s == s[..i] + s[i..j] + s[j..]
  {
  }

  /** Both forms of a frame, taken apart and put together. */
  lemma FormOfParts(stream: seq<Byte>, buf: seq<Byte>, ip: RealIp, end: nat)
    requires var headEnd := if ip == NoIp then HEAD_LEN else HEAD_LEN + 4;
             && headEnd <= end <= |stream|
             && buf == [SOCKET_VER] + stream[1..4] + stream[headEnd - 4..end]
    requires stream[0] == (if ip == NoIp then SOCKET_VER else PROXY_VER)
    requires ip != NoIp ==> stream[4..8] == [ip.b0, ip.b1, ip.b2, ip.b3]
    ensures stream[..end] == WireForm(buf, ip)
  {
    assert buf[1..4] == stream[1..4];
    CutTwice(stream[..end], 1, 4);
    assert stream[..end][..1] == [stream[0]] && stream[..end][1..4] == stream[1..4];
    if ip == NoIp {
      assert stream[..end][4..] == stream[4..end];
    } else {
      CutTwice(stream[..end][4..], 0, 4);
      assert stream[..end][4..][..4] == stream[4..8] && stream[..end][4..][4..] == stream[8..end];
      assert buf[4..] == stream[8..end];
    }
  }

  /** Whatever is read with a length field of at least eight was a well-framed frame on the wire. */
  lemma ParsedWasFramed(stream: seq<Byte>, maxPackLen: nat)
    requires ParseFrame(stream, maxPackLen).Frame?
    ensures var p := ParseFrame(stream, maxPackLen);
            && |p.buf| >= HEAD_LEN
            && (Uint16At(p.buf, 2) >= HEAD_LEN ==>
                  WellFramed(p.buf, maxPackLen) && stream == WireForm(p.buf, p.ip) + p.rest)
  {
    hide ParseFrame, WireForm;
    ParsedShape(stream, maxPackLen);
    var p := ParseFrame(stream, maxPackLen);
    var headEnd := if p.ip == NoIp then HEAD_LEN else HEAD_LEN + 4;
    var packLen := Uint16At(stream, 2);
    assert p.buf[2] == stream[2] && p.buf[3] == stream[3];
    if packLen >= HEAD_LEN {
      var end := headEnd + packLen - HEAD_LEN;
      FormOfParts(stream, p.buf, p.ip, end);
      assert stream == stream[..end] + stream[end..];
    }
  }

  /** `RecvMsg` in a loop, until it drops the connection. */
  function ParseAll(stream: seq<Byte>, maxPackLen: nat): (r: (seq<seq<Byte>>, seq<Byte>))
    decreases |stream|
  {
    match ParseFrame(stream, maxPackLen)
    case Dropped => ([], stream)
    case Frame(f, _, rest) =>
      var (fs, left) := ParseAll(rest, maxPackLen);
      ([f] + fs, left)
  }

  function Stream(fs: seq<seq<Byte>>, ips: seq<RealIp>): seq<Byte>
    requires |fs| == |ips| && forall i | 0 <= i < |fs| :: |fs[i]| >= 4
  {
    if fs == [] then [] else WireForm(fs[0], ips[0]) + Stream(fs[1..], ips[1..])
  }

  ghost predicate AllFramed(fs: seq<seq<Byte>>, maxPackLen: nat) {
    forall i | 0 <= i < |fs| :: |fs[i]| >= 4 && WellFramed(fs[i], maxPackLen)
  }

  lemma NothingToParse(maxPackLen: nat)
    ensures ParseFrame([], maxPackLen) == Dropped
  {
  }

  /** Frames put one after the other, each in either form, are read back one by one with nothing left over. */
  lemma {:induction false} ParseInvertsStream(fs: seq<seq<Byte>>, ips: seq<RealIp>, maxPackLen: nat)
    requires |fs| == |ips| && AllFramed(fs, maxPackLen)
    ensures ParseAll(Stream(fs, ips), maxPackLen) == (fs, [])
  {
    hide ParseFrame, WireForm;
    if fs == [] {
      NothingToParse(maxPackLen);
    } else {
      ParseInvertsStream(fs[1..], ips[1..], maxPackLen);
      ParseReadsOne(fs[0], ips[0], Stream(fs[1..], ips[1..]), maxPackLen);
      assert fs == [fs[0]] + fs[1..];
    }
  }

  // ---------- the bytes of a session ----------

  /** `Decrypt` of the end that reads the channel. */
  function Receive(suite: Suite, up: bool, st: CoderState, f: seq<Byte>): (Result<seq<Byte>>, CoderState) {
    if up then ServerDecrypt(suite, st, f) else ClientDecrypt(suite, st, f)
  }

  /** One end reading a stream: parse, decrypt, and stop at the first failure. */
  function ReceiveAll(suite: Suite, up: bool, st: CoderState, stream: seq<Byte>, maxPackLen: nat)
    : (seq<seq<Byte>>, CoderState)
    decreases |stream|
  {
    hide Receive;
    match ParseFrame(stream, maxPackLen)
    case Dropped => ([], st)
    case Frame(f, _, rest) =>
      var (r, next) := Receive(suite, up, st, f);
      if r.Err? then ([], next) else
      var (more, last) := ReceiveAll(suite, up, next, rest, maxPackLen);
      ([r.value] + more, last)
  }

  function WiresOf(q: seq<Packet>): (r: seq<seq<Byte>>)
    ensures |r| == |q|
  {
    seq(|q|, i requires 0 <= i < |q| => q[i].wire)
  }

  /** Every frame starts with the socket version, as `NewNetMsg` makes it. */
  ghost predicate Versioned(q: seq<Packet>) {
    forall i | 0 <= i < |q| :: INFO <= |q[i].sent| < 0x1_0000 && q[i].sent[0] == SOCKET_VER
  }

  ghost function DeliveredOf(q: seq<Packet>): (r: seq<seq<Byte>>)
    requires Versioned(q)
    ensures |r| == |q|
  {
    seq(|q|, i requires 0 <= i < |q| => Delivered(q[i].sent))
  }

  lemma SealedIsFramed(suite: Suite, up: bool, from: Line, p: Packet, next: Line, maxPackLen: nat)
    requires suite.Valid() && Sealed(suite, up, from, p, next) && maxPackLen >= MAX_FRAME + 4
    requires p.sent[0] == SOCKET_VER
    ensures WellFramed(p.wire, maxPackLen)
  {
    hide SendFrame, RecvFrame;
    FrameRoundTrip(suite, p.line, Keyed(up, from), p.sent, p.line.key);
  }

  lemma FramedIsLong(f: seq<Byte>, maxPackLen: nat)
    requires WellFramed(f, maxPackLen)
    ensures |f| >= 4 && WellFramed(f, maxPackLen)
  {
  }

  lemma {:induction false} CarriedAreFramed(
      suite: Suite, up: bool, from: Line, q: seq<Packet>, to: Line, maxPackLen: nat)
    requires suite.Valid() && Carries(suite, up, from, q, to) && Versioned(q) && maxPackLen >= MAX_FRAME + 4
    ensures AllFramed(WiresOf(q), maxPackLen)
    decreases |q|
  {
    hide Sealed, SendFrame, WellFramed;
    if q != [] {
      var next := LineAfter(suite, up, q[0]);
      FramedIsLong(q[0].wire, maxPackLen) by {
        SealedIsFramed(suite, up, from, q[0], next, maxPackLen);
      }
      CarriedAreFramed(suite, up, next, q[1..], to, maxPackLen);
      var rest := WiresOf(q[1..]);
      forall i | 0 <= i < |q|
        ensures |WiresOf(q)[i]| >= 4 && WellFramed(WiresOf(q)[i], maxPackLen)
      {
        if i > 0 {
          assert WiresOf(q)[i] == rest[i - 1];
        }
      }
    }
  }

  lemma AllFramedRest(fs: seq<seq<Byte>>, maxPackLen: nat)
    requires AllFramed(fs, maxPackLen) && fs != []
    ensures |fs[0]| >= 4 && WellFramed(fs[0], maxPackLen) && AllFramed(fs[1..], maxPackLen)
  {
  }

  /** The end that holds the line a frame was sealed at opens it; a client must have sent something before. */
  lemma EndOpens(suite: Suite, up: bool, st: CoderState, p: Packet, next: Line)
    requires suite.Valid() && Sealed(suite, up, st.Receiving(), p, next) && (up || st.sendCount > 0)
    requires INFO <= |p.sent| < 0x1_0000
    ensures var (r, st') := Receive(suite, up, st, p.wire);
            r == Ok(Delivered(p.sent)) && st'.Receiving() == next && (up || st'.sendCount > 0)
  {
    hide SendFrame, RecvFrame;
    SealedIsReceived(suite, up, st.Receiving(), p, next);
  }

  /** The frames on their way in one direction, laid end to end as bytes in either form, are parsed, decrypted and
      delivered one by one, and the reading end ends on the sender's line. */
  lemma {:induction false} StreamDelivers(
      suite: Suite, up: bool, st: CoderState, q: seq<Packet>, to: Line, ips: seq<RealIp>, maxPackLen: nat)
    requires suite.Valid() && Carries(suite, up, st.Receiving(), q, to) && Versioned(q) && (up || st.sendCount > 0)
    requires |ips| == |q| && maxPackLen >= MAX_FRAME + 4
    ensures AllFramed(WiresOf(q), maxPackLen)
    ensures var (got, last) := ReceiveAll(suite, up, st, Stream(WiresOf(q), ips), maxPackLen);
            got == DeliveredOf(q) && last.Receiving() == to
    decreases |q|
  {
    hide ParseFrame, WireForm, WellFramed, Sealed, Receive, SendFrame, Delivered;
    CarriedAreFramed(suite, up, st.Receiving(), q, to, maxPackLen);
    var wires := WiresOf(q);
    if q == [] {
      NothingToParse(maxPackLen);
    } else {
      var next := LineAfter(suite, up, q[0]);
      EndOpens(suite, up, st, q[0], next);
      AllFramedRest(wires, maxPackLen);
      assert wires[1..] == WiresOf(q[1..]);
      ParseReadsOne(wires[0], ips[0], Stream(wires[1..], ips[1..]), maxPackLen);
      StreamDelivers(suite, up, Receive(suite, up, st, q[0].wire).1, q[1..], to, ips[1..], maxPackLen);
      assert DeliveredOf(q) == [Delivered(q[0].sent)] + DeliveredOf(q[1..]);
    }
  }

  lemma ReceiveNothing(suite: Suite, up: bool, st: CoderState, f: seq<Byte>, ip: RealIp, rest: seq<Byte>,
                       maxPackLen: nat)
    requires WellFramed(f, maxPackLen) && Receive(suite, up, st, f).0.Err?
    ensures ReceiveAll(suite, up, st, WireForm(f, ip) + rest, maxPackLen).0 == []
  {
    hide ParseFrame, WireForm, Receive;
    ParseReadsOne(f, ip, rest, maxPackLen);
  }

  /** A frame that the reading end then refuses ends the stream: what was sealed before it is delivered, and nothing
      behind it is. */
  lemma {:induction false} RefusalEndsStream(
      suite: Suite, up: bool, st: CoderState, q: seq<Packet>, to: Line, ips: seq<RealIp>, maxPackLen: nat,
      f: seq<Byte>, ip: RealIp, rest: seq<Byte>)
    requires suite.Valid() && Carries(suite, up, st.Receiving(), q, to) && Versioned(q) && (up || st.sendCount > 0)
    requires |ips| == |q| && maxPackLen >= MAX_FRAME + 4 && WellFramed(f, maxPackLen)
    requires forall last: CoderState | last.Receiving() == to :: Receive(suite, up, last, f).0.Err?
    ensures AllFramed(WiresOf(q), maxPackLen)
    ensures ReceiveAll(suite, up, st, Stream(WiresOf(q), ips) + (WireForm(f, ip) + rest), maxPackLen).0
            == DeliveredOf(q)
    decreases |q|
  {
    hide ParseFrame, WireForm, WellFramed, Sealed, Receive, SendFrame, Delivered;
    CarriedAreFramed(suite, up, st.Receiving(), q, to, maxPackLen);
    FramedIsLong(f, maxPackLen);
    var wires := WiresOf(q);
    var behind := WireForm(f, ip) + rest;
    if q == [] {
      assert Stream(wires, ips) + behind == behind;
      ReceiveNothing(suite, up, st, f, ip, rest, maxPackLen);
    } else {
      var next := LineAfter(suite, up, q[0]);
      EndOpens(suite, up, st, q[0], next);
      AllFramedRest(wires, maxPackLen);
      assert wires[1..] == WiresOf(q[1..]);
      var more := Stream(wires[1..], ips[1..]) + behind;
      assert Stream(wires, ips) + behind == WireForm(wires[0], ips[0]) + more;
      ParseReadsOne(wires[0], ips[0], more, maxPackLen);
      RefusalEndsStream(suite, up, Receive(suite, up, st, q[0].wire).1, q[1..], to, ips[1..], maxPackLen, f, ip, rest);
      assert DeliveredOf(q) == [Delivered(q[0].sent)] + DeliveredOf(q[1..]);
    }
  }

  /** In every reachable state of a session, whatever is on its way up arrives when it is sent as one byte stream. */
  lemma SessionStreamDelivers(suite: Suite, events: seq<Event>, ips: seq<RealIp>, maxPackLen: nat)
    requires suite.Valid() && Short(events) && maxPackLen >= MAX_FRAME + 4
    requires var q := Run(suite, events).up; Versioned(q) && |ips| == |q|
    ensures var s := Run(suite, events);
            && AllFramed(WiresOf(s.up), maxPackLen)
            && var (got, last) := ReceiveAll(suite, true, s.server, Stream(WiresOf(s.up), ips), maxPackLen);
               got == DeliveredOf(s.up) && last.Receiving() == s.client.Sending()
  {
    hide Carries, AllDelivered, InOrder, Run, ReceiveAll;
    UpstreamDelivers(suite, events);
    var s := Run(suite, events);
    StreamDelivers(suite, true, s.server, s.up, s.client.Sending(), ips, maxPackLen);
  }

  lemma NoReplies(suite: Suite, st: CoderState, ips: seq<RealIp>, maxPackLen: nat)
    requires ips == []
    ensures AllFramed([], maxPackLen) && ReceiveAll(suite, false, st, Stream([], ips), maxPackLen) == ([], st)
  {
    NothingToParse(maxPackLen);
  }

  /** And whatever is on its way down, if the replies are received in their period. */
  lemma RepliesDeliver(suite: Suite, events: seq<Event>, ips: seq<RealIp>, maxPackLen: nat)
    requires suite.Valid() && Short(events) && maxPackLen >= MAX_FRAME + 4
    requires InPeriod(suite, events) && Timely(Run(suite, events), ClientReceives)
    requires var q := Run(suite, events).down; Versioned(q) && |ips| == |q|
    ensures var s := Run(suite, events);
            && AllFramed(WiresOf(s.down), maxPackLen)
            && var (got, last) := ReceiveAll(suite, false, s.client, Stream(WiresOf(s.down), ips), maxPackLen);
               got == DeliveredOf(s.down) && (s.down != [] ==> last.Receiving() == s.server.Sending())
  {
    hide Carries, AllDelivered, InOrder, Run, InPeriod, ReceiveAll, KeyInvariant, Live, KeyedIn;
    KeysAreCounted(suite, events);
    DownstreamDelivers(suite, events);
    var s := Run(suite, events);
    if s.down == [] {
      NoReplies(suite, s.client, ips, maxPackLen);
      assert WiresOf(s.down) == [] && DeliveredOf(s.down) == [];
    } else {
      TimelyIsLive(s);
      StreamDelivers(suite, false, s.client, s.down, s.server.Sending(), ips, maxPackLen);
    }
  }

  /** With fewer than 2^32 client frames they always are. */
  lemma SessionRepliesDeliver(suite: Suite, events: seq<Event>, ips: seq<RealIp>, maxPackLen: nat)
    requires suite.Valid() && Short(events) && maxPackLen >= MAX_FRAME + 4 && |Run(suite, events).upSent| < WRAP
    requires var q := Run(suite, events).down; Versioned(q) && |ips| == |q|
    ensures var s := Run(suite, events);
            && AllFramed(WiresOf(s.down), maxPackLen)
            && var (got, last) := ReceiveAll(suite, false, s.client, Stream(WiresOf(s.down), ips), maxPackLen);
               got == DeliveredOf(s.down) && (s.down != [] ==> last.Receiving() == s.server.Sending())
  {
    hide Run, InPeriod, Live, Timely, ReceiveAll, Versioned, AllFramed, Stream;
    FirstPeriod(suite, events);
    RepliesDeliver(suite, events, ips, maxPackLen);
  }
}

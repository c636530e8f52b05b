/** Messages: `NetMsg`, its encryption of a copy, `RecvMsg` over a connection, and the broadcast of one message. */
module Messages {
  import opened Bytes
  import opened Suites
  import opened Cipher
  import opened Frames
  import opened CoderStates
  import opened Coders
  import opened Framing

  /** The `Coder` interface value of a connection. */
  datatype Coder = NoCoder | ClientEnd(client: ClientCoder) | ServerEnd(server: ServerCoder) {
    ghost function Objects(): set<object> {
      match this
      case NoCoder => {}
      case ClientEnd(c) => {c}
      case ServerEnd(s) => {s}
    }
  }

  /** What is put on the wire: the frame, or the plain buffer when the coder refuses it. */
  function WireOf(r: Result<seq<Byte>>, buf: seq<Byte>): seq<Byte> {
    if r.Ok? then r.value else buf
  }

  /** Go's `append([]byte{}, buf...)`: a copy, with whatever spare capacity. */
  method CopyOf(buf: array<Byte>, spare: nat) returns (copy: array<Byte>)
    ensures fresh(copy) && copy.Length == buf.Length + spare && copy[..buf.Length] == buf[..]
  {
    copy := new Byte[buf.Length + spare](_ => 0);
    CopyAt(copy, 0, buf[..]);
  }

  method ArrayOf(s: seq<Byte>) returns (a: array<Byte>)
    ensures fresh(a) && a[..] == s
  {
    a := new Byte[|s|](i requires 0 <= i < |s| => s[i]);
  }

  class NetMsg {
    var buf: array<Byte>

    constructor (buf: array<Byte>)
      ensures this.buf == buf
    {
      this.buf := buf;
    }

    function MainCmd(): nat
      requires buf.Length >= HEAD
      reads this, buf
    {
      Uint16At(buf[..], 4)
    }

    function SubCmd(): nat
      requires buf.Length >= HEAD
      reads this, buf
    {
      Uint16At(buf[..], 6)
    }

    function Body(): seq<Byte>
      requires buf.Length >= HEAD
      reads this, buf
    {
      buf[HEAD..]
    }

    method SetMainCmd(cmd: nat)
      requires buf.Length >= HEAD && cmd < 0x1_0000
      modifies buf
      ensures MainCmd() == cmd && buf[..] == old(buf[..])[4 := cmd % 256][5 := cmd / 256]
    {
      buf[4], buf[5] := cmd % 256, cmd / 256;
    }

    method SetSubCmd(cmd: nat)
      requires buf.Length >= HEAD && cmd < 0x1_0000
      modifies buf
      ensures SubCmd() == cmd && buf[..] == old(buf[..])[6 := cmd % 256][7 := cmd / 256]
    {
      buf[6], buf[7] := cmd % 256, cmd / 256;
    }

    /** The head stays, the body becomes data, whatever the lengths. */
    method SetBody(data: seq<Byte>)
      requires buf.Length >= HEAD
      modifies this, buf
      ensures buf == old(buf) || fresh(buf)
      ensures buf[..] == old(buf[..])[..8] + data && Body() == data
    {
      if |data| + HEAD != buf.Length {
        buf := ArrayOf(buf[..HEAD] + data);
      } else {
        CopyAt(buf, HEAD, data);
      }
    }

    /** The coder works on a copy: neither the message nor its buffer is in the frame of this method. */
    method Encrypt(coder: Coder, random: nat, spare: nat) returns (wire: seq<Byte>)
      modifies coder.Objects()
      ensures match coder
              case NoCoder => wire == buf[..]
              case ClientEnd(c) =>
                var (r, st) := ClientEncrypt(c.suite, old(c.State()), buf[..], random);
                wire == (if r.Ok? then r.value else buf[..]) && c.State() == st
              case ServerEnd(s) =>
                var (r, st) := ServerEncrypt(s.suite, old(s.State()), buf[..]);
                wire == (if r.Ok? then r.value else buf[..]) && s.State() == st
    {
      hide ClientEncrypt, ServerEncrypt, LeftByEncrypt;
      wire := buf[..];
      match coder {
        case NoCoder =>
        case ClientEnd(c) =>
          var copy := CopyOf(buf, spare);
          var r := c.Encrypt(copy, buf.Length, random);
          wire := WireOf(r, buf[..]);
        case ServerEnd(s) =>
          var copy := CopyOf(buf, spare);
          var r := s.Encrypt(copy, buf.Length);
          wire := WireOf(r, buf[..]);
      }
    }

    /** On success the message holds the decrypted bytes; on an error it keeps its buffer, which the coder may have
        overwritten. */
    method Decrypt(coder: Coder) returns (r: Result<seq<Byte>>)
      modifies this, buf, coder.Objects()
      ensures match coder
              case NoCoder => r == Ok(old(buf[..])) && buf[..] == old(buf[..])
              case ClientEnd(c) => (r, c.State()) == ClientDecrypt(c.suite, old(c.State()), old(buf[..]))
              case ServerEnd(s) => (r, s.State()) == ServerDecrypt(s.suite, old(s.State()), old(buf[..]))
      ensures r.Ok? ==> buf[..] == r.value
      ensures buf == old(buf) || fresh(buf)
    {
      hide ClientDecrypt, ServerDecrypt, LeftByOpen;
      assert buf[..buf.Length] == buf[..];
      match coder {
        case NoCoder => r := Ok(buf[..]);
        case ClientEnd(c) => r := c.Decrypt(buf, buf.Length);
        case ServerEnd(s) => r := s.Decrypt(buf, buf.Length);
      }
      if r.Ok? && coder != NoCoder {
        buf := ArrayOf(r.value);
      }
    }
  }

  /** The receiving side of a socket: the bytes that arrive before the stream ends or the deadline passes. */
  class Conn {
    var pending: seq<Byte>

    constructor (pending: seq<Byte>)
      ensures this.pending == pending
    {
      this.pending := pending;
    }

    /** `io.ReadFull`: n bytes, or an error after taking what there is. */
    method ReadFull(n: nat) returns (data: seq<Byte>, ok: bool)
      modifies this
      ensures ok <==> n <= |old(pending)|
      ensures ok ==> data == old(pending)[..n] && pending == old(pending)[n..]
      ensures !ok ==> data == old(pending) && pending == []
    {
      ok := n <= |pending|;
      var k := if ok then n else |pending|;
      data, pending := pending[..k], pending[k..];
    }
  }

  /** The end of the head on the wire. */
  function HeadEnd(ip: RealIp): nat {
    if ip == NoIp then HEAD_LEN else HEAD_LEN + 4
  }

  /** The first reads of `RecvMsg`: the head, with a proxy's address taken out. */
  method ReadHead(conn: Conn) returns (buf: seq<Byte>, ip: RealIp, ok: bool)
    modifies conn
    ensures var s := old(conn.pending);
            && (ok <==> |s| >= 4 && (s[0] == SOCKET_VER || s[0] == PROXY_VER)
                        && |s| >= if s[0] == PROXY_VER then HEAD_LEN + 4 else HEAD_LEN)
            && (ok ==>
                  && (ip == if s[0] == PROXY_VER then Ip(s[4], s[5], s[6], s[7]) else NoIp)
                  && HeadEnd(ip) <= |s| && conn.pending == s[HeadEnd(ip)..]
                  && buf == [SOCKET_VER] + s[1..4] + s[HeadEnd(ip) - 4..HeadEnd(ip)])
  {
    ghost var s := conn.pending;
    ip := NoIp;
    buf, ok := conn.ReadFull(4);
    if !ok || (buf[0] != SOCKET_VER && buf[0] != PROXY_VER) {
      ok := false;
      return;
    }
    var proxied := buf[0] == PROXY_VER;
    var more;
    more, ok := conn.ReadFull(if proxied then HEAD_LEN else HEAD_LEN - 4);
    if !ok {
      return;
    }
    buf := buf + more;
    assert buf == s[..|buf|];
    if proxied {
      var packLen := Uint16At(buf, 2);
      ip := Ip(buf[4], buf[5], buf[6], buf[7]);
      SizeBytesInvert(buf[2..4]);
      assert packLen % 256 == buf[2] && packLen / 256 == buf[3];
      buf := buf[..4] + buf[8..];
      buf := buf[2 := packLen % 256][3 := packLen / 256];
      buf := buf[0 := SOCKET_VER];
      assert buf[4..] == s[8..12];
    }
    assert buf[..4] == [SOCKET_VER] + s[1..4];
  }

  /** The reading stages of `RecvMsg`. */
  method ReadFrame(conn: Conn, maxPackLen: nat) returns (p: Parsed)
    modifies conn
    ensures p == ParseFrame(old(conn.pending), maxPackLen)
    ensures p.Frame? ==> conn.pending == p.rest
  {
    ghost var s := conn.pending;
    var buf, ip, ok := ReadHead(conn);
    if !ok {
      return Dropped;
    }
    var packLen := Uint16At(buf, 2);
    assert buf[2] == s[2] && buf[3] == s[3];
    if packLen > HEAD_LEN {
      if packLen > maxPackLen {
        return Dropped;
      }
      var more;
      more, ok := conn.ReadFull(packLen - HEAD_LEN);
      if !ok {
        return Dropped;
      }
      buf := buf + more;
    }
    p := Frame(buf, ip, conn.pending);
  }

  /** `RecvMsg` of a connection with a coder of either end or none: the message, or null when the connection is to be
      dropped. */
  method RecvMsg(conn: Conn, coder: Coder, maxPackLen: nat) returns (msg: NetMsg?)
    modifies conn, coder.Objects()
    ensures var p := ParseFrame(old(conn.pending), maxPackLen);
            if p.Dropped? then
              && msg == null
              && match coder
                 case NoCoder => true
                 case ClientEnd(c) => c.State() == old(c.State())
                 case ServerEnd(s) => s.State() == old(s.State())
            else
              && conn.pending == p.rest
              && match coder
                 case NoCoder => msg != null && msg.buf[..] == p.buf
                 case ClientEnd(c) =>
                   var (r, st) := ClientDecrypt(c.suite, old(c.State()), p.buf);
                   c.State() == st && (msg != null <==> r.Ok?) && (msg != null ==> msg.buf[..] == r.value)
                 case ServerEnd(s) =>
                   var (r, st) := ServerDecrypt(s.suite, old(s.State()), p.buf);
                   s.State() == st && (msg != null <==> r.Ok?) && (msg != null ==> msg.buf[..] == r.value)
    ensures msg != null ==> fresh(msg) && fresh(msg.buf)
  {
    hide ParseFrame, ClientDecrypt, ServerDecrypt;
    var p := ReadFrame(conn, maxPackLen);
    if p.Dropped? {
      return null;
    }
    var a := ArrayOf(p.buf);
    var m := new NetMsg(a);
    var r := m.Decrypt(coder);
    msg := if r.Ok? then m else null;
  }

  // ---------- one message for many ----------

  /** The sending side of a server's connection: `SendMsg` queues, the writer encrypts. */
  class Outlet {
    const coder: ServerCoder
    const capacity: nat
    const maxPackLen: nat
    var running: bool
    var queue: seq<NetMsg>
    var written: seq<Byte>  // to the socket, so far

    constructor (coder: ServerCoder, capacity: nat, maxPackLen: nat)
      ensures this.coder == coder && this.capacity == capacity && this.maxPackLen == maxPackLen
      ensures running && queue == [] && written == []
    {
      this.coder, this.capacity, this.maxPackLen := coder, capacity, maxPackLen;
      running, queue, written := true, [], [];
    }

    /** What is written of a frame: all of it, or nothing when it is longer than the connection allows or shorter than
        a head. */
    function Fitting(wire: seq<Byte>): seq<Byte> {
      if HEAD_LEN <= |wire| <= maxPackLen then wire else []
    }

    /** `SendMsg`: a client that has stopped takes nothing and reports no error; a full queue refuses. */
    method SendMsg(msg: NetMsg) returns (ok: bool)
      modifies this`queue
      ensures queue == if running && |old(queue)| < capacity then old(queue) + [msg] else old(queue)
      ensures ok <==> !running || |old(queue)| < capacity
    {
      ok := true;
      if running {
        if |queue| < capacity {
          queue := queue + [msg];
        } else {
          ok := false;
        }
      }
    }

    /** One turn of the writer: the message is encrypted when it leaves, under the line the coder then holds. A frame
        that is not written has moved the coder on all the same. */
    method Write(spare: nat)
      requires queue != []
      modifies this`queue, this`written, coder
      ensures queue == old(queue)[1..]
      ensures var msg := old(queue)[0];
              var (r, st) := ServerEncrypt(coder.suite, old(coder.State()), msg.buf[..]);
              var wire := if r.Ok? then r.value else msg.buf[..];
              && written == old(written) + (if 8 <= |wire| <= maxPackLen then wire else [])
              && coder.State() == st
    {
      hide ServerEncrypt;
      var wire := queue[0].Encrypt(ServerEnd(coder), 0, spare);
      queue := queue[1..];
      if |wire| <= maxPackLen && |wire| >= HEAD_LEN {
        written := written + wire;
      }
    }
  }

  ghost predicate Separate(clients: seq<Outlet>) {
    forall i, j | 0 <= i < j < |clients| :: clients[i] != clients[j] && clients[i].coder != clients[j].coder
  }

  /** `broadcast`: the one message is queued for every client that runs and has room, and no other queue changes. */
  method Broadcast(msg: NetMsg, clients: seq<Outlet>)
    requires Separate(clients)
    modifies (set c | c in clients)`queue
    ensures forall i | 0 <= i < |clients| ::
              var c := clients[i];
              c.queue == if c.running && |old(c.queue)| < c.capacity then old(c.queue) + [msg] else old(c.queue)
  {
    for i := 0 to |clients|
      invariant forall j | i <= j < |clients| :: clients[j].queue == old(clients[j].queue)
      invariant forall j | 0 <= j < i ::
                  var c := clients[j];
                  c.queue == if c.running && |old(c.queue)| < c.capacity then old(c.queue) + [msg] else old(c.queue)
    {
      var ok := clients[i].SendMsg(msg);
    }
  }

  /** Broadcasts one after the other, while no writer moves: a client that runs takes them in order, as many as its
      queue has room for, and one that has stopped takes none. */
  method BroadcastMany(msgs: seq<NetMsg>, clients: seq<Outlet>)
    requires Separate(clients) && forall i | 0 <= i < |clients| :: |clients[i].queue| <= clients[i].capacity
    modifies (set c | c in clients)`queue
    ensures forall i | 0 <= i < |clients| ::
              var c := clients[i];
              var room := c.capacity - |old(c.queue)|;
              c.queue == old(c.queue) + if !c.running then [] else if |msgs| <= room then msgs else msgs[..room]
  {
    for n := 0 to |msgs|
      invariant forall i | 0 <= i < |clients| ::
                  var c := clients[i];
                  var room := c.capacity - |old(c.queue)|;
                  c.queue == old(c.queue) + if !c.running then [] else if n <= room then msgs[..n] else msgs[..room]
    {
      Broadcast(msgs[n], clients);
      assert msgs[..n + 1] == msgs[..n] + [msgs[n]];
    }
    assert msgs[..|msgs|] == msgs;
  }

  /** Every writer sends its next message. Though the queues may share messages, none of them and none of their
      buffers is changed, and no client's frame depends on another's. */
  method WriteEach(clients: seq<Outlet>, spare: nat)
    requires Separate(clients) && forall i | 0 <= i < |clients| :: clients[i].queue != []
    modifies (set c | c in clients)`queue, (set c | c in clients)`written, set c | c in clients :: c.coder
    ensures forall i | 0 <= i < |clients| ::
              var c := clients[i];
              var msg := old(c.queue)[0];
              var (r, st) := ServerEncrypt(c.coder.suite, old(c.coder.State()), msg.buf[..]);
              && c.written == old(c.written) + c.Fitting(WireOf(r, msg.buf[..])) && c.coder.State() == st
              && c.queue == old(c.queue)[1..]
  {
    hide ServerEncrypt;
    for i := 0 to |clients|
      invariant forall j | i <= j < |clients| ::
                  && clients[j].queue == old(clients[j].queue) && clients[j].written == old(clients[j].written)
                  && clients[j].coder.State() == old(clients[j].coder.State())
      invariant forall j | 0 <= j < i ::
                  var c := clients[j];
                  var msg := old(c.queue)[0];
                  var (r, st) := ServerEncrypt(c.coder.suite, old(c.coder.State()), msg.buf[..]);
                  && c.written == old(c.written) + c.Fitting(WireOf(r, msg.buf[..])) && c.coder.State() == st
                  && c.queue == old(c.queue)[1..]
    {
      clients[i].Write(spare);
    }
  }

  /** Delivery keeps both commands and the body. */
  lemma DeliveredBody(buf: seq<Byte>)
    requires HEAD <= |buf| < 0x1_0000
    ensures var d := Delivered(buf);
            && Uint16At(d, 4) == Uint16At(buf, 4) && Uint16At(d, 6) == Uint16At(buf, 6)
            && d[HEAD..] == buf[HEAD..]
  {
    hide Sum;
  }

  lemma OneIsRecovered(suite: Suite, server: CoderState, client: CoderState, buf: seq<Byte>)
    requires suite.Valid() && Sendable(buf) && |buf| < 0x1_0000
    requires server.sendKey != NO_KEY && client.sendCount > 0 && client.Receiving() == server.Sending()
    ensures var (r, server') := ServerEncrypt(suite, server, buf);
            && r.Ok?
            && var (got, client') := ClientDecrypt(suite, client, r.value);
               && got.Ok? && |got.value| == |buf|
               && Uint16At(got.value, 4) == Uint16At(buf, 4) && Uint16At(got.value, 6) == Uint16At(buf, 6)
               && got.value[HEAD..] == buf[HEAD..]
               && client'.Receiving() == server'.Sending()
  {
    hide SendFrame, RecvFrame;
    FrameRoundTrip(suite, server.Sending(), false, buf, server.sendKey);
    assert buf[..Size(buf)] == buf;
    DeliveredBody(buf);
  }

  /** Whatever states the connections are in, each client that keeps its server's line gets the command and the body
      of the one message. */
  lemma BroadcastIsRecovered(suite: Suite, servers: seq<CoderState>, clients: seq<CoderState>, buf: seq<Byte>)
    requires suite.Valid() && Sendable(buf) && |buf| < 0x1_0000 && |servers| == |clients|
    requires forall i | 0 <= i < |servers| ::
               && servers[i].sendKey != NO_KEY && clients[i].sendCount > 0
               && clients[i].Receiving() == servers[i].Sending()
    ensures forall i | 0 <= i < |servers| ::
              var (r, server) := ServerEncrypt(suite, servers[i], buf);
              && r.Ok?
              && var (got, client) := ClientDecrypt(suite, clients[i], r.value);
                 && got.Ok? && |got.value| == |buf|
                 && Uint16At(got.value, 4) == Uint16At(buf, 4) && Uint16At(got.value, 6) == Uint16At(buf, 6)
                 && got.value[HEAD..] == buf[HEAD..]
                 && client.Receiving() == server.Sending()
  {
    forall i | 0 <= i < |servers|
      ensures var (r, server) := ServerEncrypt(suite, servers[i], buf);
              && r.Ok?
              && var (got, client) := ClientDecrypt(suite, clients[i], r.value);
                 && got.Ok? && |got.value| == |buf|
                 && Uint16At(got.value, 4) == Uint16At(buf, 4) && Uint16At(got.value, 6) == Uint16At(buf, 6)
                 && got.value[HEAD..] == buf[HEAD..]
                 && client.Receiving() == server.Sending()
    {
      OneIsRecovered(suite, servers[i], clients[i], buf);
    }
  }

  /** A server frame that a client can read is read back by `RecvMsg`'s parser as it is. */
  lemma OneIsParsed(suite: Suite, server: CoderState, buf: seq<Byte>, maxPackLen: nat)
    requires suite.Valid() && Sendable(buf) && |buf| < 0x1_0000 && buf[0] == SOCKET_VER
    requires server.sendKey != NO_KEY && MAX_FRAME <= maxPackLen
    ensures var r := ServerEncrypt(suite, server, buf).0;
            && r.Ok? && HEAD_LEN <= |r.value| <= maxPackLen
            && ParseFrame(r.value, maxPackLen) == Frame(r.value, NoIp, [])
  {
    hide SendFrame, RecvFrame, ParseFrame;
    FrameRoundTrip(suite, server.Sending(), false, buf, server.sendKey);
    var wire := ServerEncrypt(suite, server, buf).0.value;
    assert WireForm(wire, NoIp) + [] == wire;
    ParseReadsOne(wire, NoIp, [], maxPackLen);
  }

  /** The client has its server's line, and the connection is idle, runs and takes whole frames. */
  ghost predicate Matching(client: Outlet, reader: ClientCoder)
    reads client, client.coder, reader
  {
    && client.coder.suite == reader.suite && reader.suite.Valid()
    && client.running && client.queue == [] && 0 < client.capacity
    && client.written == [] && MAX_FRAME <= client.maxPackLen
    && client.coder.State().sendKey != NO_KEY && reader.State().sendCount > 0
    && reader.State().Receiving() == client.coder.State().Sending()
  }

  /** The same command numbers and body. */
  ghost predicate SameMessage(a: NetMsg, b: NetMsg)
    reads a, a.buf, b, b.buf
  {
    && a.buf.Length == b.buf.Length >= HEAD
    && a.MainCmd() == b.MainCmd() && a.SubCmd() == b.SubCmd() && a.Body() == b.Body()
  }

  /** What `broadcast` asks of a message. */
  ghost predicate Framed(buf: seq<Byte>) {
    Sendable(buf) && |buf| < 0x1_0000 && buf[0] == SOCKET_VER
  }

  /** The writer of the client has written the message, encrypted from the line that the reader still has. */
  ghost predicate Written(client: Outlet, reader: ClientCoder, server: CoderState, buf: seq<Byte>)
    reads client, client.coder, reader
  {
    && client.queue == []
    && reader.suite.Valid() && server.sendKey != NO_KEY
    && reader.State().sendCount > 0 && reader.State().Receiving() == server.Sending()
    && var (r, st) := ServerEncrypt(reader.suite, server, buf);
       r == Ok(client.written) && client.coder.State() == st
  }

  method ReadOne(msg: NetMsg, client: Outlet, reader: ClientCoder, ghost server: CoderState, maxPackLen: nat)
    returns (m: NetMsg)
    requires Framed(msg.buf[..]) && MAX_FRAME <= maxPackLen && Written(client, reader, server, msg.buf[..])
    modifies reader
    ensures fresh(m) && fresh(m.buf) && SameMessage(m, msg)
    ensures reader.State().Receiving() == client.coder.State().Sending()
  {
    hide ServerEncrypt, ClientDecrypt, ParseFrame;
    OneIsParsed(reader.suite, server, msg.buf[..], maxPackLen);
    OneIsRecovered(reader.suite, server, reader.State(), msg.buf[..]);
    var conn := new Conn(client.written);
    m := RecvMsg(conn, ClientEnd(reader), maxPackLen);
  }

  /** What a writer has written of a message that its matching client can read. */
  lemma WrittenIs(client: Outlet, suite: Suite, server: CoderState, buf: seq<Byte>)
    requires suite.Valid() && Framed(buf) && MAX_FRAME <= client.maxPackLen && server.sendKey != NO_KEY
    ensures var r := ServerEncrypt(suite, server, buf).0;
            r.Ok? && client.Fitting(WireOf(r, buf)) == r.value
  {
    hide ServerEncrypt;
    OneIsParsed(suite, server, buf, client.maxPackLen);
  }

  lemma WrittenNow(client: Outlet, reader: ClientCoder, server: CoderState, buf: seq<Byte>)
    requires client.coder.suite == reader.suite && reader.suite.Valid() && Framed(buf) && MAX_FRAME <= client.maxPackLen
    requires client.queue == [] && server.sendKey != NO_KEY
    requires reader.State().sendCount > 0 && reader.State().Receiving() == server.Sending()
    requires var (r, st) := ServerEncrypt(reader.suite, server, buf);
             client.written == client.Fitting(WireOf(r, buf)) && client.coder.State() == st
    ensures Written(client, reader, server, buf)
  {
    hide ServerEncrypt, WireOf;
    WrittenIs(client, reader.suite, server, buf);
  }

  ghost function StatesOf(clients: seq<Outlet>): (r: seq<CoderState>)
    reads set c | c in clients :: c.coder
    ensures |r| == |clients| && forall i | 0 <= i < |clients| :: r[i] == clients[i].coder.State()
  {
    if clients == [] then [] else StatesOf(clients[..|clients| - 1]) + [clients[|clients| - 1].coder.State()]
  }

  /** The broadcast up to the bytes on the wires. */
  method SendToAll(msg: NetMsg, clients: seq<Outlet>, readers: seq<ClientCoder>, spare: nat)
    requires Separate(clients) && |readers| == |clients| && Framed(msg.buf[..])
    requires forall i | 0 <= i < |clients| :: Matching(clients[i], readers[i])
    modifies (set c | c in clients)`queue, (set c | c in clients)`written, set c | c in clients :: c.coder
    ensures forall i | 0 <= i < |clients| ::
              Written(clients[i], readers[i], old(clients[i].coder.State()), msg.buf[..])
  {
    hide ServerEncrypt, Framed, Written, WireOf;
    Broadcast(msg, clients);
    WriteEach(clients, spare);
    forall i | 0 <= i < |clients|
      ensures Written(clients[i], readers[i], old(clients[i].coder.State()), msg.buf[..])
    {
      assert old(Matching(clients[i], readers[i]));
      WrittenNow(clients[i], readers[i], old(clients[i].coder.State()), msg.buf[..]);
    }
  }

  /** Every client reads one message off its connection. */
  method ReadAll(msg: NetMsg, clients: seq<Outlet>, readers: seq<ClientCoder>, ghost servers: seq<CoderState>,
                 maxPackLen: nat)
    returns (got: seq<NetMsg>)
    requires |readers| == |clients| == |servers| && Framed(msg.buf[..]) && MAX_FRAME <= maxPackLen
    requires forall i, j | 0 <= i < j < |readers| :: readers[i] != readers[j]
    requires forall i | 0 <= i < |clients| :: Written(clients[i], readers[i], servers[i], msg.buf[..])
    modifies set c | c in readers
    ensures |got| == |clients| && forall i | 0 <= i < |clients| :: SameMessage(got[i], msg)
    ensures forall i | 0 <= i < |clients| :: readers[i].State().Receiving() == clients[i].coder.State().Sending()
  {
    hide SameMessage, Framed, Written, CoderState.Receiving, CoderState.Sending;
    ghost var buf := msg.buf[..];
    got := [];
    for i := 0 to |clients|
      invariant |got| == i && forall j | 0 <= j < i :: SameMessage(got[j], msg)
      invariant forall j | 0 <= j < i :: fresh(got[j]) && fresh(got[j].buf)
      invariant forall j | i <= j < |clients| :: Written(clients[j], readers[j], servers[j], buf)
      invariant forall j | 0 <= j < i :: readers[j].State().Receiving() == clients[j].coder.State().Sending()
    {
      var m := ReadOne(msg, clients[i], readers[i], servers[i], maxPackLen);
      got := got + [m];
    }
  }

  /** From the broadcast to the clients: every client reads, off the bytes its writer has written, a message with the
      two commands and the body of the one that was broadcast, and keeps its server's line. */
  method BroadcastReaches(msg: NetMsg, clients: seq<Outlet>, readers: seq<ClientCoder>, spare: nat, maxPackLen: nat)
    returns (got: seq<NetMsg>)
    requires Separate(clients) && |readers| == |clients|
    requires forall i, j | 0 <= i < j < |readers| :: readers[i] != readers[j]
    requires forall i | 0 <= i < |clients| :: Matching(clients[i], readers[i])
    requires Framed(msg.buf[..]) && MAX_FRAME <= maxPackLen
    modifies (set c | c in clients)`queue, (set c | c in clients)`written, set c | c in clients :: c.coder
    modifies set c | c in readers
    ensures |got| == |clients| && forall i | 0 <= i < |clients| :: SameMessage(got[i], msg)
    ensures forall i | 0 <= i < |clients| :: readers[i].State().Receiving() == clients[i].coder.State().Sending()
  {
    hide SameMessage, Framed, Written, Matching;
    ghost var servers := StatesOf(clients);
    SendToAll(msg, clients, readers, spare);
    got := ReadAll(msg, clients, readers, servers, maxPackLen);
  }
}

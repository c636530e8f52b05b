/** A whole connection: a client coder and a server coder over two first-in first-out byte channels. */
module Session {
  import opened Bytes
  import opened Suites
  import opened Substitution
  import opened Cipher
  import opened Frames
  import opened CoderStates

  /** A frame in a channel: the sender's line, with the key it used, what was sent and what is on the wire. */
  datatype Packet = Packet(line: Line, sent: seq<Byte>, wire: seq<Byte>)

  /** One call of `Decrypt`: the frame it was for and what came out. */
  datatype Delivery = Delivery(sent: seq<Byte>, got: Result<seq<Byte>>)

  /** Both ends, their channels with what was sent and what came out, and for each reply in flight how many keys the
      server had taken when it sealed it. */
  datatype Connection = Connection(
    client: CoderState, server: CoderState,
    up: seq<Packet>, upSent: seq<seq<Byte>>, upLog: seq<Delivery>,
    down: seq<Packet>, downSent: seq<seq<Byte>>, downLog: seq<Delivery>, downKeys: seq<nat>)

  datatype Event =
    | ClientSends(buf: seq<Byte>, random: nat)
    | ServerReceives
    | ServerSends(buf: seq<Byte>)
    | ClientReceives

  const START := Connection(FRESH, FRESH, [], [], [], [], [], [], [])

  const WRAP: nat := 0x1_0000_0000

  /** How many of the first n client frames carry a key: the first, and each one at which the packet count has wrapped
      to zero. */
  function KeysIn(n: nat): nat {
    if n == 0 then 0 else KeysIn(n - 1) + (if (n - 1) % WRAP == 0 then 1 else 0)
  }

  /** A frame that `Encrypt` refuses does not enter a channel; receiving from an empty channel does nothing. */
  function Step(suite: Suite, s: Connection, e: Event): Connection {
    match e
    case ClientSends(buf, random) =>
      var (r, client) := ClientEncrypt(suite, s.client, buf, random);
      if r.Err? then s.(client := client) else
      var key := if s.client.sendCount == 0 then suite.initial(random) else s.client.sendKey;
      s.(client := client, upSent := s.upSent + [buf],
         up := s.up + [Packet(s.client.Sending().(key := key), buf, r.value)])
    case ServerReceives =>
      if s.up == [] then s else
      var (r, server) := ServerDecrypt(suite, s.server, s.up[0].wire);
      s.(server := server, up := s.up[1..], upLog := s.upLog + [Delivery(s.up[0].sent, r)])
    case ServerSends(buf) =>
      var (r, server) := ServerEncrypt(suite, s.server, buf);
      if r.Err? then s.(server := server) else
      s.(server := server, downSent := s.downSent + [buf],
         down := s.down + [Packet(s.server.Sending(), buf, r.value)], downKeys := s.downKeys + [KeysIn(|s.upLog|)])
    case ClientReceives =>
      if s.down == [] then s else
      var (r, client) := ClientDecrypt(suite, s.client, s.down[0].wire);
      s.(client := client, down := s.down[1..], downLog := s.downLog + [Delivery(s.down[0].sent, r)],
         downKeys := if s.downKeys == [] then [] else s.downKeys[1..])
  }

  function Run(suite: Suite, events: seq<Event>): Connection {
    if events == [] then START
    else Step(suite, Run(suite, events[..|events| - 1]), events[|events| - 1])
  }

  /** Every frame handed to a coder has a length that fits sixteen bits. */
  ghost predicate Short(events: seq<Event>) {
    forall e <- events :: (e.ClientSends? || e.ServerSends?) ==> |e.buf| < 0x1_0000
  }

  // ---------- what a channel carries ----------

  /** Only client frames at packet count zero carry a key. */
  predicate Keyed(up: bool, line: Line) {
    up && line.count == 0
  }

  /** p was encrypted at `from`, up to the key a keyed frame brings along, and left the sender at `next`. */
  ghost predicate Sealed(suite: Suite, up: bool, from: Line, p: Packet, next: Line) {
    var keyed := Keyed(up, from);
    && Sendable(p.sent) && |p.sent| < 0x1_0000
    && p.line.round == from.round && p.line.count == from.count
    && (if keyed then p.line.key != NO_KEY else p.line.key == from.key)
    && SendFrame(suite, p.line, keyed, p.sent) == (Ok(p.wire), next)
  }

  ghost function LineAfter(suite: Suite, up: bool, p: Packet): Line {
    SendFrame(suite, p.line, Keyed(up, p.line), p.sent).1
  }

  /** The packets of q, sent one after the other, take a line from `from` to `to`. */
  ghost predicate Carries(suite: Suite, up: bool, from: Line, q: seq<Packet>, to: Line)
    decreases |q|
  {
    if q == [] then from == to
    else
      var next := LineAfter(suite, up, q[0]);
      Sealed(suite, up, from, q[0], next) && Carries(suite, up, next, q[1..], to)
  }

  lemma {:induction false} CarriesSnoc(
      suite: Suite, up: bool, from: Line, q: seq<Packet>, to: Line, p: Packet, next: Line)
    requires Carries(suite, up, from, q, to) && Sealed(suite, up, to, p, next)
    ensures Carries(suite, up, from, q + [p], next)
    decreases |q|
  {
    hide SendFrame;
    if q == [] {
      assert (q + [p])[1..] == [];
    } else {
      CarriesSnoc(suite, up, LineAfter(suite, up, q[0]), q[1..], to, p, next);
      assert (q + [p])[1..] == q[1..] + [p];
    }
  }

  /** Whoever holds the line a packet was sealed at gets what was sent and moves on with the sender. */
  lemma SealedIsReceived(suite: Suite, up: bool, from: Line, p: Packet, next: Line)
    requires suite.Valid() && Sealed(suite, up, from, p, next)
    ensures RecvFrame(suite, from, Keyed(up, from), p.wire) == (Ok(Delivered(p.sent)), next)
  {
    hide SendFrame, RecvFrame;
    FrameRoundTrip(suite, p.line, Keyed(up, from), p.sent, from.key);
    assert from == p.line.(key := from.key);
    assert p.sent[..Size(p.sent)] == p.sent;
  }

  /** A keyed frame shows its key. */
  lemma KeyedFrameBringsKey(suite: Suite, line: Line, buf: seq<Byte>)
    requires suite.Valid() && Sendable(buf)
    ensures var r := SendFrame(suite, line, true, buf).0;
            && r.Ok? && |r.value| == Size(buf) + 4 && Uint16At(r.value, 2) == |r.value|
            && WordAt(r.value, HEAD) == line.key
  {
    hide Stage, EncryptBuffer, RecvFrame;
    FrameRoundTrip(suite, line, true, buf, line.key);
  }

  // ---------- client to server ----------

  ghost function SentOf(q: seq<Packet>): (r: seq<seq<Byte>>)
    ensures |r| == |q|
  {
    seq(|q|, i requires 0 <= i < |q| => q[i].sent)
  }

  ghost function SentLog(log: seq<Delivery>): (r: seq<seq<Byte>>)
    ensures |r| == |log|
  {
    seq(|log|, i requires 0 <= i < |log| => log[i].sent)
  }

  /** Every decryption so far gave back the frame. */
  ghost predicate AllDelivered(log: seq<Delivery>) {
    forall d <- log :: |d.sent| < 0x1_0000 && INFO <= |d.sent| && d.got == Ok(Delivered(d.sent))
  }

  /** Nothing is lost, repeated or reordered: what was sent is what came out followed by what is on its way. */
  ghost predicate InOrder(sent: seq<seq<Byte>>, log: seq<Delivery>, q: seq<Packet>) {
    sent == SentLog(log) + SentOf(q)
  }

  lemma InOrderSend(sent: seq<seq<Byte>>, log: seq<Delivery>, q: seq<Packet>, p: Packet)
    requires InOrder(sent, log, q)
    ensures InOrder(sent + [p.sent], log, q + [p])
  {
    assert SentOf(q + [p]) == SentOf(q) + [p.sent];
  }

  lemma InOrderReceive(sent: seq<seq<Byte>>, log: seq<Delivery>, q: seq<Packet>, d: Delivery)
    requires InOrder(sent, log, q) && q != [] && d.sent == q[0].sent
    ensures InOrder(sent, log + [d], q[1..])
  {
    assert SentLog(log + [d]) == SentLog(log) + [d.sent];
    assert SentOf(q) == [d.sent] + SentOf(q[1..]);
  }

  ghost predicate UpInvariant(suite: Suite, s: Connection) {
    && Carries(suite, true, s.server.Receiving(), s.up, s.client.Sending())
    && AllDelivered(s.upLog)
    && InOrder(s.upSent, s.upLog, s.up)
  }

  lemma ClientFrameIsSealed(suite: Suite, st: CoderState, buf: seq<Byte>, random: nat)
    requires suite.Valid() && |buf| < 0x1_0000 && ClientEncrypt(suite, st, buf, random).0.Ok?
    ensures var (r, client) := ClientEncrypt(suite, st, buf, random);
            var key := if st.sendCount == 0 then suite.initial(random) else st.sendKey;
            Sealed(suite, true, st.Sending(), Packet(st.Sending().(key := key), buf, r.value), client.Sending())
  {
    hide Stage, EncryptBuffer, InsertKey;
  }

  lemma RefusedKeepsLine(suite: Suite, st: CoderState, buf: seq<Byte>, random: nat)
    requires ClientEncrypt(suite, st, buf, random).0.Err?
    ensures ClientEncrypt(suite, st, buf, random).1 == st
  {
    hide SendFrame;
  }

  lemma SealedIsShort(suite: Suite, up: bool, from: Line, p: Packet, next: Line)
    requires Sealed(suite, up, from, p, next)
    ensures INFO <= |p.sent| < 0x1_0000
  {
    hide SendFrame;
  }

  lemma UpStep(suite: Suite, s: Connection, e: Event)
    requires suite.Valid() && UpInvariant(suite, s) && Short([e])
    ensures UpInvariant(suite, Step(suite, s, e))
  {
    hide SendFrame, RecvFrame, InOrder, Sealed;
    assert e in [e];
    var t := Step(suite, s, e);
    match e
    case ClientSends(buf, random) =>
      hide ClientEncrypt;
      if ClientEncrypt(suite, s.client, buf, random).0.Ok? {
        ClientFrameIsSealed(suite, s.client, buf, random);
        var p := t.up[|s.up|];
        CarriesSnoc(suite, true, s.server.Receiving(), s.up, s.client.Sending(), p, t.client.Sending());
        InOrderSend(s.upSent, s.upLog, s.up, p);
      } else {
        RefusedKeepsLine(suite, s.client, buf, random);
      }
    case ServerReceives =>
      if s.up != [] {
        var next := LineAfter(suite, true, s.up[0]);
        SealedIsReceived(suite, true, s.server.Receiving(), s.up[0], next);
        InOrderReceive(s.upSent, s.upLog, s.up, t.upLog[|s.upLog|]);
        SealedIsShort(suite, true, s.server.Receiving(), s.up[0], next);
      }
    case ServerSends(buf) =>
    case ClientReceives =>
  }

  lemma UpStart(suite: Suite)
    ensures UpInvariant(suite, START)
  {
  }

  /** In every run, however long, every client frame the server decrypts comes out as it was sent, in order. */
  lemma {:induction false} UpstreamDelivers(suite: Suite, events: seq<Event>)
    requires suite.Valid() && Short(events)
    ensures UpInvariant(suite, Run(suite, events))
  {
    hide Step, Carries;
    if events == [] {
      UpStart(suite);
    } else {
      var n := |events| - 1;
      UpstreamDelivers(suite, events[..n]);
      UpStep(suite, Run(suite, events[..n]), events[n]);
    }
  }

  // ---------- keys ----------

  lemma ServerFrameIsSealed(suite: Suite, st: CoderState, buf: seq<Byte>)
    requires suite.Valid() && |buf| < 0x1_0000 && ServerEncrypt(suite, st, buf).0.Ok?
    ensures var (r, server) := ServerEncrypt(suite, st, buf);
            && Sealed(suite, false, st.Sending(), Packet(st.Sending(), buf, r.value), server.Sending())
            && st.sendKey != NO_KEY && server.sendKey != NO_KEY && server.recvCount == st.recvCount
  {
    hide Stage, Cipher.Encipher, PaddedBody, KeyAfter;
    var c := Cipher.Encipher(suite, PaddedBody(Stage(suite, st.sendRound, buf)), st.sendKey);
    KeyAfterIsNeverZero(suite, c, st.sendKey);
  }

  lemma ServerRefusalKeepsState(suite: Suite, st: CoderState, buf: seq<Byte>)
    requires ServerEncrypt(suite, st, buf).0.Err?
    ensures ServerEncrypt(suite, st, buf).1 == st
  {
    hide Stage, EncryptBuffer;
  }

  lemma SizeOfShort(buf: seq<Byte>)
    requires |buf| < 0x1_0000 || (|buf| >= INFO && Uint16At(buf, 2) == |buf|)
    ensures Size(buf) == |buf|
  {
  }

  lemma SealedBumps(suite: Suite, up: bool, from: Line, p: Packet, next: Line)
    requires Sealed(suite, up, from, p, next)
    ensures next.count == Bump(from.count)
  {
    hide Stage, EncryptBuffer, InsertKey;
  }

  /** The server takes the key of the first frame, and of no later one, for its own sending. */
  lemma ServerAdoptsKey(suite: Suite, s: Connection, next: Line)
    requires suite.Valid() && s.up != [] && Sealed(suite, true, s.server.Receiving(), s.up[0], next)
    ensures var server := ServerDecrypt(suite, s.server, s.up[0].wire).1;
            && server.sendRound == s.server.sendRound && server.sendCount == s.server.sendCount
            && server.sendKey == (if s.server.recvCount == 0 then s.up[0].line.key else s.server.sendKey)
            && server.recvCount == Bump(s.server.recvCount)
            && (s.server.recvCount == 0 ==> server.sendKey != NO_KEY)
  {
    hide SendFrame, RecvFrame;
    SealedIsReceived(suite, true, s.server.Receiving(), s.up[0], next);
    SealedBumps(suite, true, s.server.Receiving(), s.up[0], next);
    if s.server.recvCount == 0 {
      KeyedFrameBringsKey(suite, s.up[0].line, s.up[0].sent);
      SizeOfShort(s.up[0].wire);
    }
  }

  lemma InOrderLengths(sent: seq<seq<Byte>>, log: seq<Delivery>, q: seq<Packet>)
    requires InOrder(sent, log, q)
    ensures |sent| == |log| + |q|
  {
  }

  lemma ClientSendKeys(suite: Suite, st: CoderState, buf: seq<Byte>, random: nat)
    requires ClientEncrypt(suite, st, buf, random).0.Ok?
    ensures var client := ClientEncrypt(suite, st, buf, random).1;
            && client.sendCount == Bump(st.sendCount)
            && client.recvRound == st.recvRound && client.recvCount == st.recvCount
            && client.recvKey == (if st.sendCount == 0 then suite.initial(random) else st.recvKey)
  {
    hide Stage, EncryptBuffer, InsertKey;
  }

  lemma BumpWraps(n: nat)
    ensures Bump(n % WRAP) == (n + 1) % WRAP
  {
  }

  lemma ReceivingKeepsCount(suite: Suite, st: CoderState, buf: seq<Byte>)
    ensures ClientDecrypt(suite, st, buf).1.sendCount == st.sendCount
  {
    hide RecvFrame;
  }

  /** How many packets of q carry a key. */
  ghost function KeyedIn(q: seq<Packet>): nat {
    if q == [] then 0 else (if q[0].line.count == 0 then 1 else 0) + KeyedIn(q[1..])
  }

  /** The key that the last keyed packet of q carries. */
  ghost function LastKey(q: seq<Packet>): Word {
    if q == [] then NO_KEY
    else if KeyedIn(q[1..]) > 0 then LastKey(q[1..])
    else if q[0].line.count == 0 then q[0].line.key else NO_KEY
  }

  lemma {:induction false} KeyedInSnoc(q: seq<Packet>, p: Packet)
    ensures KeyedIn(q + [p]) == KeyedIn(q) + (if p.line.count == 0 then 1 else 0)
    ensures p.line.count == 0 || KeyedIn(q) > 0 ==>
              LastKey(q + [p]) == if p.line.count == 0 then p.line.key else LastKey(q)
  {
    if q == [] {
      assert (q + [p])[1..] == [];
    } else {
      assert (q + [p])[1..] == q[1..] + [p];
      KeyedInSnoc(q[1..], p);
    }
  }

  ghost predicate Ascending(keys: seq<nat>) {
    forall i, j | 0 <= i < j < |keys| :: keys[i] <= keys[j]
  }

  /** The marks of the replies in flight, oldest first, when the server has taken n keys. */
  ghost predicate Marks(keys: seq<nat>, n: nat) {
    Ascending(keys) && forall k <- keys :: 1 <= k <= n
  }

  lemma MarksSnoc(keys: seq<nat>, n: nat)
    requires Marks(keys, n) && n > 0
    ensures Marks(keys + [n], n)
  {
    assert forall i | 0 <= i < |keys| :: keys[i] in keys;
  }

  lemma MarksTail(keys: seq<nat>, n: nat)
    requires Marks(keys, n) && keys != []
    ensures Marks(keys[1..], n)
  {
    assert forall k <- keys[1..] :: k in keys;
  }

  /** The packet counts are the numbers of frames in 32 bits; the keys the client has made are those the server has
      taken and those on their way up; the server has a key just when it has had a frame, and each reply in flight is
      marked with the number of keys it had then. */
  ghost predicate KeyInvariant(s: Connection) {
    && s.client.sendCount == |s.upSent| % WRAP && s.server.recvCount == |s.upLog| % WRAP
    && KeysIn(|s.upSent|) == KeysIn(|s.upLog|) + KeyedIn(s.up)
    && (s.upLog == [] <==> s.server.sendKey == NO_KEY)
    && |s.downKeys| == |s.down| && Marks(s.downKeys, KeysIn(|s.upLog|))
  }

  lemma {:induction false} KeysGrow(n: nat)
    ensures n > 0 ==> KeysIn(n) >= 1
  {
    if n > 1 {
      KeysGrow(n - 1);
    }
  }

  lemma KeyClientSends(suite: Suite, s: Connection, buf: seq<Byte>, random: nat)
    requires KeyInvariant(s)
    ensures KeyInvariant(Step(suite, s, ClientSends(buf, random)))
  {
    hide ClientEncrypt;
    if ClientEncrypt(suite, s.client, buf, random).0.Ok? {
      ClientSendKeys(suite, s.client, buf, random);
      BumpWraps(|s.upSent|);
      var t := Step(suite, s, ClientSends(buf, random));
      KeyedInSnoc(s.up, t.up[|s.up|]);
    } else {
      RefusedKeepsLine(suite, s.client, buf, random);
    }
  }

  lemma SealedCount(suite: Suite, from: Line, p: Packet, next: Line)
    requires Sealed(suite, true, from, p, next)
    ensures p.line.count == from.count
  {
    hide SendFrame;
  }

  lemma KeyServerReceives(suite: Suite, s: Connection)
    requires suite.Valid() && UpInvariant(suite, s) && KeyInvariant(s)
    ensures KeyInvariant(Step(suite, s, ServerReceives))
  {
    hide ServerDecrypt, InOrder, Sealed;
    if s.up != [] {
      SealedCount(suite, s.server.Receiving(), s.up[0], LineAfter(suite, true, s.up[0]));
      ServerAdoptsKey(suite, s, LineAfter(suite, true, s.up[0]));
      BumpWraps(|s.upLog|);
    }
  }

  lemma KeyServerSends(suite: Suite, s: Connection, buf: seq<Byte>)
    requires suite.Valid() && KeyInvariant(s) && |buf| < 0x1_0000
    ensures KeyInvariant(Step(suite, s, ServerSends(buf)))
  {
    hide ServerEncrypt, Marks, Sealed;
    if ServerEncrypt(suite, s.server, buf).0.Ok? {
      ServerFrameIsSealed(suite, s.server, buf);
      KeysGrow(|s.upLog|);
      MarksSnoc(s.downKeys, KeysIn(|s.upLog|));
    } else {
      ServerRefusalKeepsState(suite, s.server, buf);
    }
  }

  lemma KeyStep(suite: Suite, s: Connection, e: Event)
    requires suite.Valid() && UpInvariant(suite, s) && KeyInvariant(s) && Short([e])
    ensures KeyInvariant(Step(suite, s, e))
  {
    hide UpInvariant;
    assert e in [e];
    match e
    case ClientSends(buf, random) => KeyClientSends(suite, s, buf, random);
    case ServerReceives => KeyServerReceives(suite, s);
    case ServerSends(buf) => KeyServerSends(suite, s, buf);
    case ClientReceives =>
      hide ClientDecrypt, Marks;
      if s.down != [] {
        ReceivingKeepsCount(suite, s.client, s.down[0].wire);
        MarksTail(s.downKeys, KeysIn(|s.upLog|));
      }
  }

  lemma KeyStart()
    ensures KeyInvariant(START)
  {
  }

  lemma {:induction false} KeysAreCounted(suite: Suite, events: seq<Event>)
    requires suite.Valid() && Short(events)
    ensures KeyInvariant(Run(suite, events))
  {
    hide Step, UpInvariant, KeyInvariant;
    if events == [] {
      KeyStart();
    } else {
      var n := |events| - 1;
      UpstreamDelivers(suite, events[..n]);
      KeysAreCounted(suite, events[..n]);
      KeyStep(suite, Run(suite, events[..n]), events[n]);
    }
  }

  // ---------- server to client ----------

  /** Every reply in flight was sealed under the key that the client made last. */
  ghost predicate Live(s: Connection) {
    forall k <- s.downKeys :: k == KeysIn(|s.upSent|)
  }

  /** While replies are live: when the server has every key, the downward channel takes the client's line to the
      server's; before that nothing travels down and the client waits with the last key on its way up. */
  ghost predicate LinesAgree(suite: Suite, s: Connection) {
    if s.upLog != [] && KeysIn(|s.upLog|) == KeysIn(|s.upSent|) then
      Carries(suite, false, s.client.Receiving(), s.down, s.server.Sending())
    else
      && s.down == []
      && s.client.recvRound == s.server.sendRound && s.client.recvCount == s.server.sendCount
      && (KeyedIn(s.up) > 0 ==> s.client.recvKey == LastKey(s.up))
  }

  ghost predicate DownInvariant(suite: Suite, s: Connection) {
    && AllDelivered(s.downLog)
    && InOrder(s.downSent, s.downLog, s.down)
    && (Live(s) ==> LinesAgree(suite, s))
  }

  /** A reply is received in its period: the client's packet count is not zero, and the server sealed the reply when it
      had taken as many keys as the client has made by now. */
  predicate Timely(s: Connection, e: Event) {
    e.ClientReceives? && s.down != [] ==>
      s.client.sendCount != 0 && s.downKeys != [] && s.downKeys[0] == KeysIn(|s.upSent|)
  }

  predicate InPeriod(suite: Suite, events: seq<Event>) {
    events == [] ||
    (InPeriod(suite, events[..|events| - 1]) && Timely(Run(suite, events[..|events| - 1]), events[|events| - 1]))
  }

  lemma DownClientSends(suite: Suite, s: Connection, buf: seq<Byte>, random: nat)
    requires suite.Valid() && UpInvariant(suite, s) && KeyInvariant(s) && DownInvariant(suite, s)
    ensures DownInvariant(suite, Step(suite, s, ClientSends(buf, random)))
  {
    hide ClientEncrypt, InOrder, AllDelivered, Sealed;
    if ClientEncrypt(suite, s.client, buf, random).0.Ok? {
      var t := Step(suite, s, ClientSends(buf, random));
      ClientSendKeys(suite, s.client, buf, random);
      KeyedInSnoc(s.up, t.up[|s.up|]);
      InOrderLengths(s.upSent, s.upLog, s.up);
      KeysGrow(|s.upLog|);
      if s.downKeys != [] {
        assert s.downKeys[0] in s.downKeys;
      } else {
        assert Live(s);
      }
    } else {
      RefusedKeepsLine(suite, s.client, buf, random);
    }
  }

  lemma HeadIsSealed(suite: Suite, s: Connection)
    requires UpInvariant(suite, s) && s.up != []
    ensures Sealed(suite, true, s.server.Receiving(), s.up[0], LineAfter(suite, true, s.up[0]))
    ensures |s.upSent| == |s.upLog| + |s.up|
  {
    hide Sealed, LineAfter;
    InOrderLengths(s.upSent, s.upLog, s.up);
  }

  lemma NothingCarried(suite: Suite, from: Line, to: Line)
    ensures Carries(suite, false, from, [], to) <==> from == to
  {
  }

  lemma DownServerReceives(suite: Suite, s: Connection)
    requires suite.Valid() && UpInvariant(suite, s) && KeyInvariant(s) && DownInvariant(suite, s)
    ensures DownInvariant(suite, Step(suite, s, ServerReceives))
  {
    hide ServerDecrypt, InOrder, AllDelivered, Sealed, UpInvariant, Carries, LineAfter;
    if s.up != [] {
      HeadIsSealed(suite, s);
      ServerAdoptsKey(suite, s, LineAfter(suite, true, s.up[0]));
      SealedCount(suite, s.server.Receiving(), s.up[0], LineAfter(suite, true, s.up[0]));
      var t := Step(suite, s, ServerReceives);
      NothingCarried(suite, s.client.Receiving(), t.server.Sending());
    }
  }

  lemma DownServerSends(suite: Suite, s: Connection, buf: seq<Byte>)
    requires suite.Valid() && KeyInvariant(s) && DownInvariant(suite, s) && |buf| < 0x1_0000
    ensures DownInvariant(suite, Step(suite, s, ServerSends(buf)))
  {
    hide ServerEncrypt, AllDelivered, InOrder, Sealed;
    if ServerEncrypt(suite, s.server, buf).0.Ok? {
      var t := Step(suite, s, ServerSends(buf));
      var p := t.down[|s.down|];
      ServerFrameIsSealed(suite, s.server, buf);
      InOrderSend(s.downSent, s.downLog, s.down, p);
      assert t.downKeys == s.downKeys + [KeysIn(|s.upLog|)];
      if Live(t) {
        assert KeysIn(|s.upLog|) in t.downKeys && forall k <- s.downKeys :: k in t.downKeys;
        CarriesSnoc(suite, false, s.client.Receiving(), s.down, s.server.Sending(), p, t.server.Sending());
      }
    } else {
      ServerRefusalKeepsState(suite, s.server, buf);
    }
  }

  /** The first reply in flight is the oldest, so when it is live all are. */
  lemma TimelyIsLive(s: Connection)
    requires KeyInvariant(s) && s.down != [] && Timely(s, ClientReceives)
    ensures Live(s)
  {
    forall k <- s.downKeys
      ensures k == KeysIn(|s.upSent|)
    {
      var i :| 0 <= i < |s.downKeys| && s.downKeys[i] == k;
      assert s.downKeys[0] <= k;
    }
  }

  lemma DownClientReceives(suite: Suite, s: Connection)
    requires suite.Valid() && KeyInvariant(s) && DownInvariant(suite, s) && Timely(s, ClientReceives)
    ensures DownInvariant(suite, Step(suite, s, ClientReceives))
  {
    hide SendFrame, RecvFrame, InOrder, Sealed;
    if s.down != [] {
      TimelyIsLive(s);
      var t := Step(suite, s, ClientReceives);
      var next := LineAfter(suite, false, s.down[0]);
      SealedIsReceived(suite, false, s.client.Receiving(), s.down[0], next);
      InOrderReceive(s.downSent, s.downLog, s.down, t.downLog[|s.downLog|]);
      SealedIsShort(suite, false, s.client.Receiving(), s.down[0], next);
    }
  }

  lemma DownStep(suite: Suite, s: Connection, e: Event)
    requires suite.Valid() && UpInvariant(suite, s) && KeyInvariant(s) && DownInvariant(suite, s)
    requires Short([e]) && Timely(s, e)
    ensures DownInvariant(suite, Step(suite, s, e))
  {
    hide UpInvariant, KeyInvariant, DownInvariant, Timely, Step;
    assert e in [e];
    match e
    case ClientSends(buf, random) => DownClientSends(suite, s, buf, random);
    case ServerReceives => DownServerReceives(suite, s);
    case ServerSends(buf) => DownServerSends(suite, s, buf);
    case ClientReceives => DownClientReceives(suite, s);
  }

  lemma DownStart(suite: Suite)
    ensures DownInvariant(suite, START)
  {
  }

  /** In every run, however long, in which each reply is received in its period, the server's frames come out as they
      were sent, in order. */
  lemma {:induction false} DownstreamDelivers(suite: Suite, events: seq<Event>)
    requires suite.Valid() && Short(events) && InPeriod(suite, events)
    ensures DownInvariant(suite, Run(suite, events))
  {
    hide Step, UpInvariant, KeyInvariant, DownInvariant, Timely;
    if events == [] {
      DownStart(suite);
    } else {
      var n := |events| - 1;
      UpstreamDelivers(suite, events[..n]);
      KeysAreCounted(suite, events[..n]);
      DownstreamDelivers(suite, events[..n]);
      DownStep(suite, Run(suite, events[..n]), events[n]);
    }
  }

  lemma UpSentGrows(suite: Suite, s: Connection, e: Event)
    ensures |s.upSent| <= |Step(suite, s, e).upSent|
  {
    hide ClientEncrypt, ClientDecrypt, ServerEncrypt, ServerDecrypt;
  }

  lemma {:induction false} OneKey(n: nat)
    requires 1 <= n <= WRAP
    ensures KeysIn(n) == 1
  {
    if n > 1 {
      OneKey(n - 1);
    }
  }

  /** With fewer than 2^32 client frames every reply in flight is live, and may be received. */
  lemma FirstPeriodIsLive(s: Connection)
    requires KeyInvariant(s) && |s.upLog| <= |s.upSent| < WRAP
    ensures Live(s) && Timely(s, ClientReceives)
  {
    if s.downKeys != [] {
      assert s.downKeys[0] in s.downKeys;
      OneKey(|s.upSent|);
      OneKey(|s.upLog|);
    }
  }

  lemma {:induction false} FirstPeriod(suite: Suite, events: seq<Event>)
    requires suite.Valid() && Short(events) && |Run(suite, events).upSent| < WRAP
    ensures InPeriod(suite, events) && Live(Run(suite, events)) && Timely(Run(suite, events), ClientReceives)
  {
    hide Step, KeyInvariant, Live, Carries, AllDelivered, InOrder;
    var s := Run(suite, events);
    if events != [] {
      var n := |events| - 1;
      UpSentGrows(suite, Run(suite, events[..n]), events[n]);
      FirstPeriod(suite, events[..n]);
    }
    KeysAreCounted(suite, events);
    UpstreamDelivers(suite, events);
    InOrderLengths(s.upSent, s.upLog, s.up);
    FirstPeriodIsLive(s);
  }

  /** The whole session, however long, if each reply is received in its period: every frame that arrives, in either
      direction, arrives as it was sent and in order, and once the server has had a frame it never again refuses one for
      want of a key. */
  lemma LongSessionDelivers(suite: Suite, events: seq<Event>)
    requires suite.Valid() && Short(events) && InPeriod(suite, events)
    ensures var s := Run(suite, events);
            && AllDelivered(s.upLog) && InOrder(s.upSent, s.upLog, s.up)
            && AllDelivered(s.downLog) && InOrder(s.downSent, s.downLog, s.down)
            && (s.upLog != [] ==>
                  forall buf | Sendable(buf) :: ServerEncrypt(suite, s.server, buf).0.Ok?)
  {
    hide Carries, InOrder, Stage, EncryptBuffer, LinesAgree, Live, InPeriod, KeyedIn;
    UpstreamDelivers(suite, events);
    KeysAreCounted(suite, events);
    DownstreamDelivers(suite, events);
  }

  /** With fewer than 2^32 client frames the same holds of every run. */
  lemma SessionDelivers(suite: Suite, events: seq<Event>)
    requires suite.Valid() && Short(events) && |Run(suite, events).upSent| < WRAP
    ensures var s := Run(suite, events);
            && AllDelivered(s.upLog) && InOrder(s.upSent, s.upLog, s.up)
            && AllDelivered(s.downLog) && InOrder(s.downSent, s.downLog, s.down)
            && (s.upLog != [] ==>
                  forall buf | Sendable(buf) :: ServerEncrypt(suite, s.server, buf).0.Ok?)
  {
    hide *;
    FirstPeriod(suite, events);
    LongSessionDelivers(suite, events);
  }

  /** The same of the repository's own tables and key derivation. */
  lemma ChatSessionDelivers(events: seq<Event>)
    requires Short(events) && |Run(CHAT, events).upSent| < WRAP
    ensures var s := Run(CHAT, events);
            && AllDelivered(s.upLog) && InOrder(s.upSent, s.upLog, s.up)
            && AllDelivered(s.downLog) && InOrder(s.downSent, s.downLog, s.down)
            && (s.upLog != [] ==>
                  forall buf | Sendable(buf) :: ServerEncrypt(CHAT, s.server, buf).0.Ok?)
  {
    hide *;
    ChatIsValid();
    SessionDelivers(CHAT, events);
  }

  // ---------- why the bound ----------

  /** Deciphering under another key changes one of the first four bytes. */
  lemma OtherKeyOtherBytes(suite: Suite, c: seq<Byte>, key: Word, other: Word)
    requires |c| >= 4 && key != other
    ensures Decipher(suite, c, key)[..4] != Decipher(suite, c, other)[..4]
  {
    hide Xor;
    var t := if key.b0 != other.b0 then 0 else if key.b1 != other.b1 then 1 else if key.b2 != other.b2 then 2 else 3;
    assert key.At(t) != other.At(t);
    if Xor(c[t], key.At(t)) == Xor(c[t], other.At(t)) {
      XorKeyInjective(c[t], key.At(t), other.At(t));
    }
    assert Decipher(suite, c, key)[t] == Xor(c[t], key.At(t));
    assert Decipher(suite, c, other)[t] == Xor(c[t], other.At(t));
    assert Decipher(suite, c, key)[..4][t] != Decipher(suite, c, other)[..4][t];
  }

  lemma RestoreInjective(suite: Suite, round: Byte, a: seq<Byte>, b: seq<Byte>)
    requires suite.Valid() && Restore(suite, round, a) == Restore(suite, round, b)
    ensures a == b
  {
    SubstituteUndoesRestore(suite, round, a);
    SubstituteUndoesRestore(suite, round, b);
  }

  lemma OtherKeyOtherFrame(suite: Suite, line: Line, key: Word, body: seq<Byte>)
    requires suite.Valid() && Size(body) >= HEAD && key != line.key
    requires OpenFrame(suite, line, body).0.Ok?
    ensures OpenFrame(suite, line.(key := key), body).0 != OpenFrame(suite, line, body).0
  {
    hide Decipher, Restore, Sum, Rebuild, KeyAfter;
    var c := body[INFO..Size(body)];
    OtherKeyOtherBytes(suite, c, line.key, key);
    var d, d' := Decipher(suite, c, line.key), Decipher(suite, c, key);
    var got := OpenFrame(suite, line.(key := key), body).0;
    if got == OpenFrame(suite, line, body).0 {
      assert DecryptBuffer(suite, body, line.key).0[INFO..] == d;
      assert DecryptBuffer(suite, body, key).0[INFO..] == d';
      assert got.value[INFO..] == Restore(suite, line.round, d) == Restore(suite, line.round, d');
      RestoreInjective(suite, line.round, d, d');
    }
  }

  lemma OpenIgnoresCount(suite: Suite, line: Line, count: Uint32, body: seq<Byte>)
    requires INFO <= Size(body)
    ensures OpenFrame(suite, line.(count := count), body).0 == OpenFrame(suite, line, body).0
  {
    hide DecryptBuffer, Restore, Sum;
  }

  /** A server frame sealed at the client's round is recovered exactly when the client's packet count is not zero and
      the keys agree. At the wrap of its packet count the client fails both: it refuses every reply until it sends
      again, and then holds a new key. */
  lemma ReplyRecoveredIff(suite: Suite, st: CoderState, line: Line, buf: seq<Byte>)
    requires suite.Valid() && Sendable(buf) && |buf| < 0x1_0000 && line.round == st.recvRound
    ensures var r := SendFrame(suite, line, false, buf).0;
            && r.Ok?
            && (ClientDecrypt(suite, st, r.value).0 == Ok(Delivered(buf)) <==>
                  st.sendCount != 0 && st.recvKey == line.key)
  {
    hide SendFrame, OpenFrame;
    FrameRoundTrip(suite, line, false, buf, line.key);
    var wire := SendFrame(suite, line, false, buf).0.value;
    assert buf[..Size(buf)] == buf;
    SizeOfShort(wire);
    OpenIgnoresCount(suite, line, st.recvCount, wire);
    if st.recvKey != line.key {
      OtherKeyOtherFrame(suite, line.(count := st.recvCount), st.recvKey, wire);
    }
  }

  lemma CountStep(suite: Suite, s: Connection, e: Event)
    requires s.client.sendCount == |s.upSent| % WRAP
    ensures var t := Step(suite, s, e);
            t.client.sendCount == |t.upSent| % WRAP
  {
    hide ClientEncrypt, ClientDecrypt, ServerEncrypt, ServerDecrypt;
    match e
    case ClientSends(buf, random) =>
      if ClientEncrypt(suite, s.client, buf, random).0.Ok? {
        ClientSendKeys(suite, s.client, buf, random);
        BumpWraps(|s.upSent|);
      } else {
        RefusedKeepsLine(suite, s.client, buf, random);
      }
    case ClientReceives =>
      if s.down != [] {
        ReceivingKeepsCount(suite, s.client, s.down[0].wire);
      }
    case _ =>
  }

  /** In every run the client's packet count is the number of its frames, in 32 bits. */
  lemma {:induction false} CountIsSent(suite: Suite, events: seq<Event>)
    ensures var s := Run(suite, events);
            s.client.sendCount == |s.upSent| % WRAP
  {
    hide Step;
    if events != [] {
      var n := |events| - 1;
      CountIsSent(suite, events[..n]);
      CountStep(suite, Run(suite, events[..n]), events[n]);
    }
  }

  lemma OtherErrors(suite: Suite, line: Line, buf: seq<Byte>)
    ensures RecvFrame(suite, line, false, buf).0 != Err(NothingSent)
  {
    hide DecryptBuffer, Restore, Sum;
  }

  /** In every run the client refuses a reply, whatever its bytes, as if it had never sent anything exactly when the
      number of its frames is a multiple of 2^32. */
  lemma WrapRefusesReplies(suite: Suite, events: seq<Event>, reply: seq<Byte>)
    ensures var s := Run(suite, events);
            ClientDecrypt(suite, s.client, reply).0 == Err(NothingSent) <==> |s.upSent| % WRAP == 0
  {
    hide Run, RecvFrame;
    CountIsSent(suite, events);
    OtherErrors(suite, Run(suite, events).client.Receiving(), reply);
  }

  lemma SendableIsSent(suite: Suite, st: CoderState, buf: seq<Byte>, random: nat)
    requires Sendable(buf)
    ensures ClientEncrypt(suite, st, buf, random).0.Ok?
  {
    hide Stage, EncryptBuffer, InsertKey;
  }

  /** Runs of any number of client frames exist, so the wrap is reached. */
  lemma {:induction false} WrapIsReached(suite: Suite, buf: seq<Byte>, random: nat, n: nat)
    requires Sendable(buf)
    ensures |Run(suite, seq(n, _ => ClientSends(buf, random))).upSent| == n
  {
    hide SendFrame;
    if n > 0 {
      var events := seq(n, _ => ClientSends(buf, random));
      assert events[..n - 1] == seq(n - 1, _ => ClientSends(buf, random));
      WrapIsReached(suite, buf, random, n - 1);
      SendableIsSent(suite, Run(suite, events[..n - 1]).client, buf, random);
    }
  }

  // ---------- what each event achieves ----------

  lemma RunSnoc(suite: Suite, events: seq<Event>, e: Event)
    ensures Run(suite, events + [e]) == Step(suite, Run(suite, events), e)
  {
    hide Step;
    assert (events + [e])[..|events|] == events;
  }

  lemma ClientAccepts(suite: Suite, st: CoderState, buf: seq<Byte>, random: nat)
    requires |buf| < 0x1_0000
    ensures ClientEncrypt(suite, st, buf, random).0.Ok? <==> 8 <= |buf| <= 16384
  {
    hide Stage, EncryptBuffer, InsertKey;
  }

  lemma ServerAccepts(suite: Suite, st: CoderState, buf: seq<Byte>)
    requires |buf| < 0x1_0000
    ensures ServerEncrypt(suite, st, buf).0.Ok? <==> 8 <= |buf| <= 16384 && st.sendKey != NO_KEY
  {
    hide Stage, EncryptBuffer;
  }

  /** In every run a frame of a good length is sent: the client's always, the server's once a client frame has been
      received. What is received is the oldest frame on its way. */
  lemma EventsTakeEffect(suite: Suite, events: seq<Event>, e: Event)
    requires suite.Valid() && Short(events) && Short([e])
    ensures var s, t := Run(suite, events), Run(suite, events + [e]);
            && (e.ClientSends? ==>
                  && t.upSent == (if 8 <= |e.buf| <= 16384 then s.upSent + [e.buf] else s.upSent)
                  && t.upLog == s.upLog && t.down == s.down && t.downLog == s.downLog && t.downSent == s.downSent)
            && (e.ServerReceives? ==>
                  && |t.upLog| == |s.upLog| + (if s.up == [] then 0 else 1)
                  && t.upSent == s.upSent && t.down == s.down && t.downLog == s.downLog && t.downSent == s.downSent)
            && (e.ServerSends? ==>
                  && t.downSent == (if 8 <= |e.buf| <= 16384 && s.upLog != [] then s.downSent + [e.buf]
                                    else s.downSent)
                  && t.downLog == s.downLog && t.up == s.up && t.upLog == s.upLog && t.upSent == s.upSent)
            && (e.ClientReceives? ==>
                  && |t.downLog| == |s.downLog| + (if s.down == [] then 0 else 1)
                  && t.downSent == s.downSent && t.up == s.up && t.upLog == s.upLog && t.upSent == s.upSent)
  {
    hide Run, SendFrame, ServerDecrypt, ClientDecrypt;
    assert e in [e];
    RunSnoc(suite, events, e);
    KeysAreCounted(suite, events);
    var s := Run(suite, events);
    match e
    case ClientSends(buf, random) => ClientAccepts(suite, s.client, buf, random);
    case ServerSends(buf) => ServerAccepts(suite, s.server, buf);
    case _ =>
  }
}

/** The wire format, byte by byte, apart from the loops that produce it. */
module WireFormat {
  import opened Bytes
  import opened Suites
  import opened Substitution
  import opened Cipher
  import opened Frames
  import opened CoderStates

  /** The lengths `Encrypt` takes, counted in sixteen bits, and its answers to the others. */
  lemma SendAnswers(suite: Suite, line: Line, keyed: bool, buf: seq<Byte>)
    ensures var r := SendFrame(suite, line, keyed, buf).0;
            && (r.Ok? <==> 8 <= |buf| % 0x1_0000 <= 16384)
            && (r == Err(TooShort) <==> |buf| % 0x1_0000 < 8)
            && (r == Err(TooLong) <==> 16384 < |buf| % 0x1_0000)
  {
    hide EncryptBuffer, Stage, InsertKey;
    Uint16IsRemainder(|buf|);
  }

  /** The length field of a frame. */
  function LengthField(buf: seq<Byte>): int
    requires |buf| >= 4
  {
    buf[2] as int + 256 * buf[3] as int
  }

  lemma SizeKeepsFour(n: nat)
    requires n >= 12 && Uint16(n) >= 8
    ensures Uint16(n - 4) == Uint16(n) - 4
  {
    Uint16Minus(n, 4);
  }

  /** The answers of `Decrypt`, in the order of its checks; a frame that fails the check sum has moved the round on. */
  lemma ReceiveAnswers(suite: Suite, line: Line, keyed: bool, buf: seq<Byte>)
    ensures var size := |buf| % 0x1_0000;
            var (r, next) := RecvFrame(suite, line, keyed, buf);
            && (r == Err(TooShort) <==> size < 8)
            && (r == Err(SizeMismatch) <==> 8 <= size && LengthField(buf) != size)
            && (r == Err(KeyMissing) <==> keyed && 8 <= size && LengthField(buf) == size && |buf| < 12)
            && (r.Ok? || r == Err(CheckFailed) || next == line)
            && (r == Err(CheckFailed) ==>
                  var n := if keyed then size - 8 else size - 4;
                  && 0 <= n && next.round == RoundAfter(line.round, n) && next.count == line.count
                  && next.key == if keyed then WordAt(buf, 8) else line.key)
  {
    hide DecryptBuffer, Restore, Sum, RoundAfter, Uint16;
    Uint16IsRemainder(|buf|);
    if |buf| >= 12 && Size(buf) >= 8 {
      SizeKeepsFour(|buf|);
    }
  }

  /** What is enciphered, and the key after it. */
  lemma EncodedBody(suite: Suite, line: Line, buf: seq<Byte>)
    requires 8 <= |buf| <= 16384
    ensures var (r, next) := SendFrame(suite, line, false, buf);
            && r.Ok? && |r.value| == |buf|
            && r.value[4..] == Cipher.Encipher(suite, Substitute(suite, line.round, buf[4..]), line.key)
            && next.key == KeyAfter(suite, Rebuild(suite, r.value[4..], line.key), line.key)
  {
    hide Sum, Substitute, EncryptBuffer, Cipher.Encipher, KeyAfter, Rebuild;
    var staged := Stage(suite, line.round, buf);
    assert buf[INFO..Size(buf)] == buf[4..];
    assert staged[INFO..Size(staged)] == staged[INFO..] == Substitute(suite, line.round, buf[4..]);
    EncryptedBody(suite, staged, line.key);
  }

  lemma WordOf(i: nat)
    requires i >= 4
    ensures (i - 4) / 4 == i / 4 - 1 && (i - 4) % 4 == i % 4
  {
  }

  /** Each byte behind the first four: the table at the byte plus the round, under the key of its word; the key of a
      word after the first is derived from the four bytes of the frame before it. */
  lemma FrameByte(suite: Suite, line: Line, buf: seq<Byte>, i: nat)
    requires 8 <= |buf| <= 16384 && 4 <= i < |buf|
    ensures var r := SendFrame(suite, line, false, buf).0;
            && r.Ok? && |r.value| == |buf|
            && var e := r.value;
               var o := 4 * (i / 4);
               var key := if i < 8 then line.key else suite.derive(Word(e[o - 4], e[o - 3], e[o - 2], e[o - 1]));
               e[i] == Xor(suite.send((buf[i] + line.round + 3 * (i - 4)) % 256),
                           [key.b0, key.b1, key.b2, key.b3][i % 4])
  {
    hide Xor, SendFrame, Cipher.Encipher, KeyAfter, Rebuild, Substitute;
    EncodedBody(suite, line, buf);
    var e := SendFrame(suite, line, false, buf).0.value;
    var body := Substitute(suite, line.round, buf[4..]);
    EncipheredByte(suite, body, line.key, i - 4);
    SubstituteAt(suite, line.round, buf[4..], i - 4);
    WordOf(i);
    assert forall t | 4 <= t < |e| :: e[t] == e[4..][t - 4];
  }

  lemma NegateSums(x: nat)
    ensures (Negate(x % 256) as int + x) % 256 == 0
  {
  }

  /** The first four bytes: the sender's first, the check byte that makes it sum to zero with the bytes sent, and the
      length, low byte first. */
  lemma FrameHead(suite: Suite, line: Line, buf: seq<Byte>)
    requires 8 <= |buf| <= 16384
    ensures var r := SendFrame(suite, line, false, buf).0;
            && r.Ok? && |r.value| == |buf|
            && var e := r.value;
               && e[0] == buf[0] && (e[1] as int + Total(buf[4..])) % 256 == 0 && LengthField(e) == |buf|
  {
    hide EncryptBuffer, Substitute, Total;
    var staged := Stage(suite, line.round, buf);
    var e := EncryptBuffer(suite, staged, line.key).0;
    assert buf[INFO..Size(buf)] == buf[4..];
    assert e[..INFO] == staged[..INFO];
    assert forall i | 0 <= i < INFO :: e[i] == e[..INFO][i] && staged[i] == staged[..INFO][i];
    NegateSums(Total(buf[4..]));
  }

  /** The splice of a keyed frame: four bytes more, also in its length field, and the key behind the eighth byte. */
  lemma KeyedFrame(suite: Suite, line: Line, buf: seq<Byte>)
    requires 8 <= |buf| <= 16384
    ensures var plain, keyed := SendFrame(suite, line, false, buf), SendFrame(suite, line, true, buf);
            && plain.0.Ok? && keyed.0.Ok? && plain.1 == keyed.1
            && var e, k := plain.0.value, line.key;
               && |e| == |buf|
               && keyed.0.value == e[..2] + [(|buf| + 4) % 256, (|buf| + 4) / 256] + e[4..8]
                                   + [k.b0, k.b1, k.b2, k.b3] + e[8..]
  {
    hide EncryptBuffer, Stage;
    FrameHead(suite, line, buf);
    var e := SendFrame(suite, line, false, buf).0.value;
    assert Uint16At(e, 2) == |buf|;
  }

  /** The line after a frame: the round by three a byte, the count by one, and the key from the last word, in which the
      bytes that were cut off are those of the word's own key. */
  lemma LineAfterFrame(suite: Suite, line: Line, buf: seq<Byte>)
    requires 8 <= |buf| <= 16384
    ensures var (r, next) := SendFrame(suite, line, false, buf);
            && r.Ok? && |r.value| == |buf|
            && next.round == (line.round + 3 * (|buf| - 4)) % 256
            && next.count == (if line.count == 0xFFFF_FFFF then 0 else line.count + 1)
            && var e, o := r.value, 4 * (|buf| / 4);
               var key := suite.derive(Word(e[o - 4], e[o - 3], e[o - 2], e[o - 1]));
               next.key ==
                 match |buf| % 4
                 case 0 => key
                 case 1 => suite.derive(Word(e[o], key.b1, key.b2, key.b3))
                 case 2 => suite.derive(Word(e[o], e[o + 1], key.b2, key.b3))
                 case _ => suite.derive(Word(e[o], e[o + 1], e[o + 2], key.b3))
  {
    hide Cipher.Encipher, KeyAfter, Rebuild, Substitute, EncryptBuffer, Stage;
    EncodedBody(suite, line, buf);
    var e := SendFrame(suite, line, false, buf).0.value;
    NextKeyByBytes(suite, e[4..], line.key);
    WordOf(|buf|);
    assert forall t | 4 <= t < |e| :: e[t] == e[4..][t - 4];
  }

  lemma OneComplement(x: nat, a: Byte, b: Byte)
    requires (a + x % 256) % 256 == 0 && (b as int + x) % 256 == 0
    ensures a == b
  {
    AddWrapped(x, a);
    var i, j: int := a, b;
    assert (i - j) % 256 == 0;
  }

  /** The head that decryption has checked is the head that encryption writes. */
  lemma SealedHead(suite: Suite, line: Line, p: seq<Byte>, wire: seq<Byte>)
    requires 8 <= |p| == |wire| <= 16384 && p[..4] == wire[..4]
    requires Uint16At(wire, 2) == |wire| && (p[1] + Sum(p[4..])) % 256 == 0
    ensures var r := SendFrame(suite, line, false, p).0;
            r.Ok? && |r.value| == |p| && r.value[..4] == wire[..4]
  {
    hide EncryptBuffer, Substitute;
    FrameHead(suite, line, p);
    var e := SendFrame(suite, line, false, p).0.value;
    assert forall i | 0 <= i < 4 :: p[i] == p[..4][i] && wire[i] == wire[..4][i];
    OneComplement(Total(p[4..]), p[1], e[1]);
    assert e[2] == wire[2] && e[3] == wire[3];
  }

  /** Decryption accepts nothing else: whatever comes out, encrypted from the same line, is the frame that went in, and
      leads to the same next line. */
  lemma OpenedWasSealed(suite: Suite, line: Line, wire: seq<Byte>)
    requires suite.Valid() && |wire| <= 16384 && RecvFrame(suite, line, false, wire).0.Ok?
    ensures var (r, next) := RecvFrame(suite, line, false, wire);
            |r.value| == |wire| && SendFrame(suite, line, false, r.value) == (Ok(wire), next)
  {
    hide Sum, Substitute, Restore, Cipher.Encipher, Decipher, KeyAfter, Rebuild, EncryptBuffer;
    var (r, next) := RecvFrame(suite, line, false, wire);
    var p := r.value;
    var c := wire[4..];
    assert wire[INFO..Size(wire)] == c && |p| == |wire|;
    assert p[..4] == wire[..4] && p[4..] == Restore(suite, line.round, Decipher(suite, c, line.key)) by {
      assert DecryptBuffer(suite, wire, line.key).0[INFO..] == Decipher(suite, c, line.key);
    }
    SubstituteUndoesRestore(suite, line.round, Decipher(suite, c, line.key));
    EncipherUndoesDecipher(suite, c, line.key);
    EncodedBody(suite, line, p);
    var e := SendFrame(suite, line, false, p).0.value;
    SealedHead(suite, line, p, wire);
    assert e == e[..4] + e[4..] && wire == wire[..4] + wire[4..];
  }

  // ---------- the two ends ----------

  /** A client's frame at packet count zero shows a new key behind its head, and that key is the one it will receive
      with; a later frame shows no key and is sealed under the key in hand. */
  lemma ClientFrameIs(suite: Suite, st: CoderState, buf: seq<Byte>, random: nat)
    requires 8 <= |buf| <= 16384
    ensures var (r, next) := ClientEncrypt(suite, st, buf, random);
            && r.Ok?
            && next.recvRound == st.recvRound && next.recvCount == st.recvCount
            && if st.sendCount == 0 then
                 var key := suite.initial(random);
                 var (plain, line) := SendFrame(suite, Line(st.sendRound, key, 0), false, buf);
                 && plain.Ok? && |r.value| == |buf| + 4 && |plain.value| == |buf|
                 && Word(r.value[8], r.value[9], r.value[10], r.value[11]) == key == next.recvKey
                 && r.value[4..8] == plain.value[4..8] && r.value[12..] == plain.value[8..]
                 && next.Sending() == line
               else
                 && next.recvKey == st.recvKey
                 && (r, next.Sending()) == SendFrame(suite, Line(st.sendRound, st.sendKey, st.sendCount), false, buf)
  {
    hide SendFrame;
    if st.sendCount == 0 {
      KeyedFrame(suite, Line(st.sendRound, suite.initial(random), 0), buf);
    } else {
      SendAnswers(suite, Line(st.sendRound, st.sendKey, st.sendCount), false, buf);
    }
  }

  /** What a client refuses to send leaves it as it was. */
  lemma ClientRefuses(suite: Suite, st: CoderState, buf: seq<Byte>, random: nat)
    requires !(8 <= |buf| % 0x1_0000 <= 16384)
    ensures ClientEncrypt(suite, st, buf, random)
            == (Err(if |buf| % 0x1_0000 < 8 then TooShort else TooLong), st)
  {
    hide SendFrame;
    SendAnswers(suite, st.Sending().(key := suite.initial(random)), true, buf);
    SendAnswers(suite, st.Sending(), false, buf);
  }

  /** The server takes over the four bytes behind the head of a frame whose length is right while its packet count is
      zero, for sending too, and even when the frame then fails its check; nothing else changes its key. */
  lemma ServerTakesKey(suite: Suite, st: CoderState, buf: seq<Byte>)
    ensures var size := |buf| % 0x1_0000;
            var next := ServerDecrypt(suite, st, buf).1;
            && next.sendRound == st.sendRound && next.sendCount == st.sendCount
            && next.sendKey ==
                 if st.recvCount == 0 && 12 <= |buf| && 8 <= size == LengthField(buf)
                 then Word(buf[8], buf[9], buf[10], buf[11]) else st.sendKey
  {
    hide RecvFrame;
    Uint16IsRemainder(|buf|);
  }

  /** The answers of the server's `Encrypt`: its line seals the frame, and no key means no frame. */
  lemma ServerSends(suite: Suite, st: CoderState, buf: seq<Byte>)
    ensures var size := |buf| % 0x1_0000;
            var (r, next) := ServerEncrypt(suite, st, buf);
            && (r == Err(NoKey) <==> 8 <= size <= 16384 && st.sendKey == Word(0, 0, 0, 0))
            && (r == Err(TooShort) <==> size < 8) && (r == Err(TooLong) <==> 16384 < size)
            && (r.Err? ==> next == st)
            && (r.Ok? ==>
                  && (r, next.Sending()) == SendFrame(suite, Line(st.sendRound, st.sendKey, st.sendCount), false, buf)
                  && next.Receiving() == st.Receiving())
  {
    hide EncryptBuffer, Stage;
    Uint16IsRemainder(|buf|);
    SendAnswers(suite, st.Sending(), false, buf);
  }

  /** A client that has sent nothing reads nothing; otherwise its receiving line opens the frame. */
  lemma ClientReads(suite: Suite, st: CoderState, buf: seq<Byte>)
    ensures var (r, next) := ClientDecrypt(suite, st, buf);
            && next.Sending() == st.Sending()
            && (r == Err(NothingSent) <==> st.sendCount == 0)
            && if st.sendCount == 0 then next == st
               else (r, next.Receiving()) == RecvFrame(suite, Line(st.recvRound, st.recvKey, st.recvCount), false, buf)
  {
    hide DecryptBuffer, Restore, Sum;
  }
}

/** The two ends of a connection as values: what the six fields of `ClientCoder` and `ServerCoder` are after a call. */
module CoderStates {
  import opened Bytes
  import opened Suites
  import opened Cipher
  import opened Frames

  /** The fields both coders have. */
  datatype CoderState = CoderState(
    sendRound: Byte, recvRound: Byte, sendKey: Word, recvKey: Word, sendCount: Uint32, recvCount: Uint32) {

    function Sending(): Line {
      Line(sendRound, sendKey, sendCount)
    }

    function Receiving(): Line {
      Line(recvRound, recvKey, recvCount)
    }

    function WithSending(line: Line): CoderState {
      this.(sendRound := line.round, sendKey := line.key, sendCount := line.count)
    }

    function WithReceiving(line: Line): CoderState {
      this.(recvRound := line.round, recvKey := line.key, recvCount := line.count)
    }
  }

  const FRESH := CoderState(0, 0, NO_KEY, NO_KEY, 0, 0)

  /** A client makes a key whenever its packet count is zero, for both directions. */
  function ClientEncrypt(suite: Suite, st: CoderState, buf: seq<Byte>, random: nat): (Result<seq<Byte>>, CoderState) {
    var keyed := st.sendCount == 0;
    var key := if keyed then suite.initial(random) else st.sendKey;
    var (r, line) := SendFrame(suite, st.Sending().(key := key), keyed, buf);
    if r.Ok? then (r, st.WithSending(line).(recvKey := if keyed then key else st.recvKey)) else (r, st)
  }

  function ClientDecrypt(suite: Suite, st: CoderState, buf: seq<Byte>): (Result<seq<Byte>>, CoderState) {
    if st.sendCount <= 0 then (Err(NothingSent), st)
    else
      var (r, line) := RecvFrame(suite, st.Receiving(), false, buf);
      (r, st.WithReceiving(line))
  }

  function ServerEncrypt(suite: Suite, st: CoderState, buf: seq<Byte>): (Result<seq<Byte>>, CoderState) {
    if Sendable(buf) && st.sendKey == NO_KEY then (Err(NoKey), st)
    else
      var (r, line) := SendFrame(suite, st.Sending(), false, buf);
      (r, st.WithSending(line))
  }

  /** A buffer whose key the server takes over for both directions, even when its check then fails. */
  predicate BringsKey(st: CoderState, buf: seq<Byte>) {
    st.recvCount == 0 && Size(buf) >= HEAD && Uint16At(buf, 2) == Size(buf) && |buf| >= HEAD + 4
  }

  function ServerDecrypt(suite: Suite, st: CoderState, buf: seq<Byte>): (Result<seq<Byte>>, CoderState) {
    var (r, line) := RecvFrame(suite, st.Receiving(), st.recvCount == 0, buf);
    (r, st.WithReceiving(line).(sendKey := if BringsKey(st, buf) then WordAt(buf, HEAD) else st.sendKey))
  }
}

/** The coders as objects: the substitution and check passes run over the buffer in place. */
module Coders {
  import opened Bytes
  import opened Suites
  import opened Substitution
  import opened Cipher
  import opened CipherLoops
  import opened Frames
  import opened CoderStates

  lemma SubstituteSnoc(suite: Suite, round: Byte, s: seq<Byte>, b: Byte)
    ensures Substitute(suite, round, s + [b])
            == Substitute(suite, round, s) + [MapSend(suite, b, RoundAfter(round, |s|))]
  {
    hide MapSend, RoundAfter;
  }

  lemma RestoreSnoc(suite: Suite, round: Byte, s: seq<Byte>, b: Byte)
    ensures Restore(suite, round, s + [b]) == Restore(suite, round, s) + [MapRecv(suite, b, RoundAfter(round, |s|))]
  {
    hide MapRecv, RoundAfter;
  }

  lemma RoundSnoc(round: Byte, n: nat)
    ensures RoundAfter(round, n + 1) == (RoundAfter(round, n) + 3) % 256
  {
    RoundAfterPlus(round, n, 1);
  }

  /** One turn of the substitution pass. */
  lemma StageTurn(suite: Suite, round: Byte, b: seq<Byte>, i: nat)
    requires INFO <= i < |b|
    ensures var done := Substitute(suite, round, b[INFO..i]);
            var now := Overwrite(b, INFO, done);
            var x := MapSend(suite, b[i], RoundAfter(round, i - INFO));
            && now[i] == b[i]
            && now[i := x] == Overwrite(b, INFO, Substitute(suite, round, b[INFO..i + 1]))
            && Sum(b[INFO..i + 1]) == (Sum(b[INFO..i]) + b[i]) % 256
  {
    hide MapSend, RoundAfter, Sum, Substitute;
    var s := b[INFO..i];
    assert b[INFO..i + 1] == s + [b[i]];
    SubstituteSnoc(suite, round, s, b[i]);
    SumSnoc(s, b[i]);
  }

  /** One turn of the restoring pass, over a buffer that held d. */
  lemma RestoreTurn(suite: Suite, round: Byte, d: seq<Byte>, i: nat)
    requires INFO <= i < |d|
    ensures var done := Restore(suite, round, d[INFO..i]);
            var now := Overwrite(d, INFO, done);
            var x := MapRecv(suite, d[i], RoundAfter(round, i - INFO));
            && now[i] == d[i]
            && now[i := x] == Overwrite(d, INFO, Restore(suite, round, d[INFO..i + 1]))
            && Sum(Restore(suite, round, d[INFO..i + 1])) == (Sum(done) + x) % 256
  {
    hide MapRecv, RoundAfter, Sum, Restore;
    var s := d[INFO..i];
    assert d[INFO..i + 1] == s + [d[i]];
    RestoreSnoc(suite, round, s, d[i]);
    SumSnoc(Restore(suite, round, s), MapRecv(suite, d[i], RoundAfter(round, i - INFO)));
  }

  /** What `Encrypt` of a slice of n bytes leaves in the array behind it. */
  ghost function LeftByEncrypt(suite: Suite, line: Line, a: seq<Byte>, n: nat): seq<Byte>
    requires n <= |a| && INFO <= Uint16(n)
  {
    LeftByCipher(suite, Stage(suite, line.round, a[..n]) + a[n..], n, line.key)
  }

  /** What the part of `Decrypt` behind the key leaves in the array behind its argument. */
  ghost function LeftByOpen(suite: Suite, line: Line, a: seq<Byte>, n: nat): seq<Byte>
    requires n <= |a| && INFO <= Uint16(n)
  {
    var d := LeftByDecipher(suite, a, n, line.key);
    if n + Padding(n) > |a| then a else Overwrite(d, INFO, Restore(suite, line.round, d[INFO..Uint16(n)]))
  }

  lemma StageNothing(suite: Suite, round: Byte, b: seq<Byte>)
    requires INFO <= |b|
    ensures Overwrite(b, INFO, Substitute(suite, round, b[INFO..INFO])) == b
    ensures Overwrite(b, INFO, Restore(suite, round, b[INFO..INFO])) == b
    ensures Sum(b[INFO..INFO]) == 0 && RoundAfter(round, 0) == round
  {
  }

  lemma StageDone(suite: Suite, round: Byte, a: seq<Byte>, n: nat, r: seq<Byte>)
    requires n <= |a| && INFO <= Uint16(n)
    requires var size := Uint16(n);
             var now := Overwrite(a, INFO, Substitute(suite, round, a[INFO..size]));
             r == now[1 := Negate(Sum(a[INFO..size]))][2 := size % 256][3 := size / 256]
    ensures r == Stage(suite, round, a[..n]) + a[n..]
  {
    hide Sum, Substitute;
    assert a[..n][INFO..Uint16(n)] == a[INFO..Uint16(n)];
    assert a[..n][Uint16(n)..] + a[n..] == a[Uint16(n)..];
  }

  // ---------- the passes both coders have ----------

  /** `mapSendByte`, with the round handed in and out. */
  method MapSendByte(suite: Suite, cb: Byte, round: Byte) returns (mapped: Byte, next: Byte)
    ensures mapped == MapSend(suite, cb, round) && next == (round + 3) % 256
  {
    mapped := suite.send((cb + round) % 256);
    next := (round + 3) % 256;
  }

  /** `mapRecvByte`. */
  method MapRecvByte(suite: Suite, cb: Byte, round: Byte) returns (mapped: Byte, next: Byte)
    ensures mapped == MapRecv(suite, cb, round) && next == (round + 3) % 256
  {
    mapped := (suite.recv(cb) - round) % 256;
    next := (round + 3) % 256;
  }

  /** The pass in front of the cipher: sum, substitute, write check byte and length. */
  method StageInPlace(suite: Suite, buf: array<Byte>, n: nat, sendRound: Byte) returns (round: Byte)
    requires n <= buf.Length && INFO <= Uint16(n)
    modifies buf
    ensures buf[..] == Stage(suite, sendRound, old(buf[..n])) + old(buf[n..])
    ensures round == RoundAfter(sendRound, Uint16(n) - INFO)
  {
    hide MapSend, RoundAfter, Sum, Substitute, Overwrite;
    var size := Uint16(n);
    var checkCode: Byte := 0;
    round := sendRound;
    ghost var b := buf[..];
    StageNothing(suite, sendRound, b);
    for i := INFO to size
      invariant buf[..] == Overwrite(b, INFO, Substitute(suite, sendRound, b[INFO..i]))
      invariant checkCode == Sum(b[INFO..i]) && round == RoundAfter(sendRound, i - INFO)
    {
      StageTurn(suite, sendRound, b, i);
      RoundSnoc(sendRound, i - INFO);
      assert buf[i] == buf[..][i];
      checkCode := (checkCode + buf[i]) % 256;
      var mapped;
      mapped, round := MapSendByte(suite, buf[i], round);
      buf[i] := mapped;
      assert buf[..] == Overwrite(b, INFO, Substitute(suite, sendRound, b[INFO..i]))[i := mapped];
    }
    buf[1] := Negate(checkCode);
    buf[2], buf[3] := size % 256, size / 256;
    StageDone(suite, sendRound, b, n, buf[..]);
    assert b[..n] == old(buf[..n]) && b[n..] == old(buf[n..]);
  }

  lemma RestoredNothing(suite: Suite, round: Byte, d: seq<Byte>)
    requires INFO <= |d|
    ensures (d[1] + Sum(Restore(suite, round, d[INFO..INFO]))) % 256 == d[1]
  {
  }

  /** The pass behind the cipher: restore, and sum onto the check byte. */
  method RestoreInPlace(suite: Suite, buf: array<Byte>, size: nat, recvRound: Byte)
    returns (round: Byte, checkCode: Byte)
    requires INFO <= size <= buf.Length
    modifies buf
    ensures var r := Restore(suite, recvRound, old(buf[..])[INFO..size]);
            buf[..] == Overwrite(old(buf[..]), INFO, r) && checkCode == (old(buf[..])[1] + Sum(r)) % 256
    ensures round == RoundAfter(recvRound, size - INFO)
  {
    hide MapRecv, RoundAfter, Sum, Restore, Overwrite;
    round, checkCode := recvRound, buf[1];
    ghost var d := buf[..];
    StageNothing(suite, recvRound, d);
    RestoredNothing(suite, recvRound, d);
    for i := INFO to size
      invariant buf[..] == Overwrite(d, INFO, Restore(suite, recvRound, d[INFO..i]))
      invariant checkCode == (d[1] + Sum(Restore(suite, recvRound, d[INFO..i]))) % 256
      invariant round == RoundAfter(recvRound, i - INFO)
    {
      RestoreTurn(suite, recvRound, d, i);
      RoundSnoc(recvRound, i - INFO);
      ghost var sum: int := d[1] + Sum(Restore(suite, recvRound, d[INFO..i]));
      assert buf[i] == buf[..][i];
      var mapped;
      mapped, round := MapRecvByte(suite, buf[i], round);
      buf[i] := mapped;
      checkCode := (checkCode + mapped) % 256;
      AddWrapped(sum, mapped);
      AddWrapped(Sum(Restore(suite, recvRound, d[INFO..i])) + mapped, d[1]);
      assert buf[..] == Overwrite(d, INFO, Restore(suite, recvRound, d[INFO..i]))[i := mapped];
    }
  }

  lemma LeftAlone(suite: Suite, a: seq<Byte>, n: nat, key: Word)
    requires n <= |a| && INFO <= Uint16(n) && n + Padding(n) > |a|
    ensures LeftByDecipher(suite, a, n, key) == a
  {
  }

  lemma PlainOut(a: seq<Byte>, d: seq<Byte>, size: nat, p: seq<Byte>)
    requires INFO <= size <= |a| && a[..size] == d && INFO + |p| == size
    ensures Overwrite(a, INFO, p)[..size] == d[..INFO] + p
  {
    assert a[..INFO] == a[..size][..INFO];
  }

  /** Both passes of `Encrypt`, without the key splice. */
  method SealInPlace(suite: Suite, buf: array<Byte>, n: nat, line: Line) returns (encoded: seq<Byte>, next: Line)
    requires n <= buf.Length && Sendable(buf[..n])
    modifies buf
    ensures SendFrame(suite, line, false, old(buf[..n])) == (Ok(encoded), next)
    ensures buf[..] == LeftByEncrypt(suite, line, old(buf[..]), n)
    ensures n + Padding(n) <= buf.Length ==> buf[..Uint16(n)] == encoded
  {
    hide Stage, EncryptBuffer, RoundAfter, Overwrite, LeftByCipher;
    ghost var a := buf[..];
    var round := StageInPlace(suite, buf, n, line.round);
    assert buf[..n] == buf[..][..n] == Stage(suite, line.round, a[..n]);
    assert a[..n] == old(buf[..n]) && a[n..] == old(buf[n..]);
    var work, key := EncryptInPlace(suite, buf, n, line.key);
    encoded := work[..Uint16(n)];
    next := Line(round, key, Bump(line.count));
  }

  /** The part of `Decrypt` behind the key. */
  method OpenInPlace(suite: Suite, buf: array<Byte>, n: nat, line: Line) returns (r: Result<seq<Byte>>, next: Line)
    requires n <= buf.Length && INFO <= Uint16(n)
    modifies buf
    ensures (r, next) == OpenFrame(suite, line, old(buf[..n]))
    ensures buf[..] == LeftByOpen(suite, line, old(buf[..]), n)
    ensures r.Ok? && n + Padding(n) <= buf.Length ==> buf[..Uint16(n)] == r.value
  {
    hide Restore, DecryptBuffer, RoundAfter, Sum, LeftByDecipher, Overwrite;
    var size := Uint16(n);
    ghost var b := buf[..n];
    if n + Padding(n) > buf.Length {
      LeftAlone(suite, buf[..], n, line.key);
    }
    var work, key := DecryptInPlace(suite, buf, n, line.key);
    ghost var decoded := DecryptBuffer(suite, b, line.key).0;
    ghost var before := work[..];
    assert before[..size] == work[..size] == decoded;
    assert before[INFO..size] == decoded[INFO..];
    var round, checkCode := RestoreInPlace(suite, work, size, line.round);
    ghost var plain := decoded[..INFO] + Restore(suite, line.round, decoded[INFO..]);
    PlainOut(before, decoded, size, Restore(suite, line.round, decoded[INFO..]));
    assert work[..size] == work[..][..size] == plain;
    assert before[1] == decoded[1];
    if checkCode != 0 {
      r, next := Err(CheckFailed), line.(round := round);
    } else {
      r, next := Ok(work[..size]), Line(round, key, Bump(line.count));
    }
  }

  lemma SendErrors(suite: Suite, buf: seq<Byte>)
    ensures forall line, keyed :: var r := SendFrame(suite, line, keyed, buf);
            if Size(buf) < HEAD then r == (Err(TooShort), line)
            else if Size(buf) > MAX_FRAME then r == (Err(TooLong), line) else r.0.Ok?
  {
  }

  lemma OpenErrors(suite: Suite, line: Line, body: seq<Byte>)
    requires INFO <= Size(body)
    ensures var r := OpenFrame(suite, line, body).0;
            r.Ok? || r.error == CheckFailed
  {
  }

  lemma SpliceLast(suite: Suite, line: Line, buf: seq<Byte>)
    requires Sendable(buf)
    ensures var plain := SendFrame(suite, line, false, buf);
            && plain.0.Ok? && |plain.0.value| >= HEAD
            && SendFrame(suite, line, true, buf) == (Ok(InsertKey(plain.0.value, line.key, HEAD)), plain.1)
  {
    hide Stage, EncryptBuffer;
  }

  class ClientCoder {
    const suite: Suite
    var sendRound: Byte
    var recvRound: Byte
    var sendKey: Word
    var recvKey: Word
    var sendCount: Uint32
    var recvCount: Uint32

    ghost function State(): CoderState
      reads this
    {
      CoderState(sendRound, recvRound, sendKey, recvKey, sendCount, recvCount)
    }

    constructor (suite: Suite)
      ensures this.suite == suite && State() == CoderState(0, 0, Word(0, 0, 0, 0), Word(0, 0, 0, 0), 0, 0)
    {
      this.suite := suite;
      sendRound, recvRound, sendKey, recvKey, sendCount, recvCount := 0, 0, NO_KEY, NO_KEY, 0, 0;
    }

    method Encrypt(buf: array<Byte>, n: nat, random: nat) returns (r: Result<seq<Byte>>)
      requires n <= buf.Length
      modifies this, buf
      ensures (r, State()) == ClientEncrypt(suite, old(State()), old(buf[..n]), random)
      ensures r.Ok? ==> INFO <= Uint16(n)
      ensures var key := if old(sendCount) == 0 then suite.initial(random) else old(sendKey);
              buf[..] == if r.Ok? then LeftByEncrypt(suite, old(State()).Sending().(key := key), old(buf[..]), n)
                         else old(buf[..])
    {
      hide SendFrame, LeftByEncrypt;
      var size := Uint16(n);
      SendErrors(suite, buf[..n]);
      if size < HEAD {
        return Err(TooShort);
      }
      if size > MAX_FRAME {
        return Err(TooLong);
      }
      var key := if sendCount == 0 then suite.initial(random) else sendKey;
      var line := Line(sendRound, key, sendCount);
      SpliceLast(suite, line, buf[..n]);
      var encoded, next := SealInPlace(suite, buf, n, line);
      if sendCount == 0 {
        recvKey := key;
        encoded := InsertKey(encoded, key, HEAD);
      }
      sendRound, sendKey, sendCount := next.round, next.key, next.count;
      r := Ok(encoded);
    }

    method Decrypt(buf: array<Byte>, n: nat) returns (r: Result<seq<Byte>>)
      requires n <= buf.Length
      modifies this, buf
      ensures (r, State()) == ClientDecrypt(suite, old(State()), old(buf[..n]))
      ensures r.Ok? || r.error == CheckFailed ==> INFO <= Uint16(n)
      ensures buf[..] == if r.Ok? || r.error == CheckFailed
                         then LeftByOpen(suite, old(State()).Receiving(), old(buf[..]), n) else old(buf[..])
      ensures r.Ok? && n + Padding(n) <= buf.Length ==> buf[..Uint16(n)] == r.value
    {
      hide OpenFrame, LeftByOpen;
      var size := Uint16(n);
      if sendCount <= 0 {
        return Err(NothingSent);
      }
      if size < HEAD {
        return Err(TooShort);
      }
      if buf[2] as int + 256 * buf[3] as int != size {
        return Err(SizeMismatch);
      }
      OpenErrors(suite, Line(recvRound, recvKey, recvCount), buf[..n]);
      var line;
      r, line := OpenInPlace(suite, buf, n, Line(recvRound, recvKey, recvCount));
      recvRound, recvKey, recvCount := line.round, line.key, line.count;
    }
  }

  class ServerCoder {
    const suite: Suite
    var sendRound: Byte
    var recvRound: Byte
    var sendKey: Word
    var recvKey: Word
    var sendCount: Uint32
    var recvCount: Uint32

    ghost function State(): CoderState
      reads this
    {
      CoderState(sendRound, recvRound, sendKey, recvKey, sendCount, recvCount)
    }

    constructor (suite: Suite)
      ensures this.suite == suite && State() == CoderState(0, 0, Word(0, 0, 0, 0), Word(0, 0, 0, 0), 0, 0)
    {
      this.suite := suite;
      sendRound, recvRound, sendKey, recvKey, sendCount, recvCount := 0, 0, NO_KEY, NO_KEY, 0, 0;
    }

    method Encrypt(buf: array<Byte>, n: nat) returns (r: Result<seq<Byte>>)
      requires n <= buf.Length
      modifies this, buf
      ensures (r, State()) == ServerEncrypt(suite, old(State()), old(buf[..n]))
      ensures r.Ok? ==> INFO <= Uint16(n)
      ensures buf[..] == if r.Ok? then LeftByEncrypt(suite, old(State()).Sending(), old(buf[..]), n) else old(buf[..])
      ensures r.Ok? && n + Padding(n) <= buf.Length ==> buf[..Uint16(n)] == r.value
    {
      hide SendFrame, LeftByEncrypt;
      var size := Uint16(n);
      SendErrors(suite, buf[..n]);
      if size < HEAD {
        return Err(TooShort);
      }
      if size > MAX_FRAME {
        return Err(TooLong);
      }
      if sendKey == NO_KEY {
        return Err(NoKey);
      }
      var encoded, next := SealInPlace(suite, buf, n, Line(sendRound, sendKey, sendCount));
      sendRound, sendKey, sendCount := next.round, next.key, next.count;
      r := Ok(encoded);
    }

    method Decrypt(buf: array<Byte>, n: nat) returns (r: Result<seq<Byte>>)
      requires n <= buf.Length
      modifies this, buf
      ensures (r, State()) == ServerDecrypt(suite, old(State()), old(buf[..n]))
      ensures r.Ok? || r.error == CheckFailed ==> INFO <= Uint16(n)
      ensures buf[..] == if old(recvCount) > 0 && (r.Ok? || r.error == CheckFailed)
                         then LeftByOpen(suite, old(State()).Receiving(), old(buf[..]), n) else old(buf[..])
    {
      hide OpenFrame, LeftByOpen;
      var size := Uint16(n);
      if size < HEAD {
        return Err(TooShort);
      }
      if buf[2] as int + 256 * buf[3] as int != size {
        return Err(SizeMismatch);
      }
      var body, len := buf, n;
      if recvCount == 0 {
        match ExtractKey(buf[..n], HEAD) {
          case Err(e) => return Err(e);
          case Ok(extracted) =>
            Uint16Minus(n, 4);
            recvKey, sendKey := extracted.1, extracted.1;
            body, len := new Byte[|extracted.0|](i requires 0 <= i < |extracted.0| => extracted.0[i]), n - 4;
            assert body[..len] == extracted.0;
        }
      }
      OpenErrors(suite, Line(recvRound, recvKey, recvCount), body[..len]);
      var line;
      r, line := OpenInPlace(suite, body, len, Line(recvRound, recvKey, recvCount));
      recvRound, recvKey, recvCount := line.round, line.key, line.count;
    }
  }
}

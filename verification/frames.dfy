/** One frame on one direction of a connection: what `Encrypt` and `Decrypt` of both coders do to a buffer. */
module Frames {
  import opened Bytes
  import opened Suites
  import opened Substitution
  import opened Cipher

  datatype CoderError = TooShort | TooLong | NoKey | NothingSent | SizeMismatch | KeyMissing | CheckFailed

  datatype Result<+T> = Ok(value: T) | Err(error: CoderError)

  /** `SizeOf_CMD_Head` and `SizeOf_CMD_Head + SOCKET_PACKET`. */
  const HEAD: nat := 8

  const MAX_FRAME: nat := 16384

  type Uint32 = x: nat | x < 0x1_0000_0000

  function Bump(count: Uint32): Uint32 {
    if count + 1 == 0x1_0000_0000 then 0 else count + 1
  }

  // ---------- the key splice of a first frame ----------

  function PlusFour(size: nat): nat
    requires size < 0x1_0000
  {
    Uint16(size + 4)
  }

  function MinusFour(size: nat): nat
    requires size < 0x1_0000
  {
    if size < 4 then size + 0x1_0000 - 4 else size - 4
  }

  /** `insertKey`, on a buffer its callers have checked to hold the head. */
  function InsertKey(buf: seq<Byte>, key: Word, headLen: nat): (r: seq<Byte>)
    requires INFO <= headLen <= |buf|
    ensures |r| == |buf| + 4
  {
    buf[..2] + Uint16Bytes(PlusFour(Uint16At(buf, 2))) + buf[INFO..headLen] + key.Bytes() + buf[headLen..]
  }

  /** `extractKey`. */
  function ExtractKey(buf: seq<Byte>, headLen: nat): (r: Result<(seq<Byte>, Word)>)
    requires INFO <= headLen && headLen + 4 < 0x1_0000
    ensures r.Ok? <==> headLen + 4 <= |buf|
    ensures r.Ok? ==> |r.value.0| == |buf| - 4
  {
    if |buf| < headLen + 4 then Err(KeyMissing) else
    Ok((buf[..2] + Uint16Bytes(MinusFour(Uint16At(buf, 2))) + buf[INFO..headLen] + buf[headLen + 4..],
        WordAt(buf, headLen)))
  }

  lemma SizeBytesInvert(s: seq<Byte>)
    requires |s| == 2
    ensures Uint16Bytes(Uint16At(s, 0)) == s
  {
  }

  lemma MinusUndoesPlus(size: nat)
    requires size < 0x1_0000
    ensures MinusFour(PlusFour(size)) == size && PlusFour(MinusFour(size)) == size
  {
  }

  lemma ExtractUndoesInsert(buf: seq<Byte>, key: Word, headLen: nat)
    requires INFO <= headLen <= |buf| && headLen + 4 < 0x1_0000
    ensures ExtractKey(InsertKey(buf, key, headLen), headLen) == Ok((buf, key))
  {
    hide Uint16;
    var r := InsertKey(buf, key, headLen);
    assert WordAt(r, headLen) == key;
    assert Uint16At(r, 2) == PlusFour(Uint16At(buf, 2));
    SizeBytesInvert(buf[2..INFO]);
    MinusUndoesPlus(Uint16At(buf, 2));
    assert r[..2] == buf[..2] && r[INFO..headLen] == buf[INFO..headLen] && r[headLen + 4..] == buf[headLen..];
    assert buf == buf[..2] + buf[2..INFO] + buf[INFO..headLen] + buf[headLen..];
  }

  lemma InsertUndoesExtract(buf: seq<Byte>, headLen: nat)
    requires INFO <= headLen && headLen + 4 < 0x1_0000 && headLen + 4 <= |buf|
    ensures var r := ExtractKey(buf, headLen);
            r.Ok? && InsertKey(r.value.0, r.value.1, headLen) == buf
  {
    hide Uint16;
    var (body, key) := ExtractKey(buf, headLen).value;
    assert Uint16At(body, 2) == MinusFour(Uint16At(buf, 2));
    MinusUndoesPlus(Uint16At(buf, 2));
    SizeBytesInvert(buf[2..INFO]);
    assert key.Bytes() == buf[headLen..headLen + 4];
  }

  // ---------- one direction ----------

  /** What one end keeps for one direction: round, key and packet count. */
  datatype Line = Line(round: Byte, key: Word, count: Uint32)

  /** The buffer after the substitution pass and with the head written. */
  function Stage(suite: Suite, round: Byte, buf: seq<Byte>): (r: seq<Byte>)
    requires INFO <= Size(buf)
    ensures |r| == |buf|
  {
    var body := buf[INFO..Size(buf)];
    [buf[0], Negate(Sum(body))] + Uint16Bytes(Size(buf)) + Substitute(suite, round, body) + buf[Size(buf)..]
  }

  /** `Encrypt`; a keyed frame, a client's first, has the key spliced in behind its head. */
  function SendFrame(suite: Suite, line: Line, keyed: bool, buf: seq<Byte>): (Result<seq<Byte>>, Line) {
    if Size(buf) < HEAD then (Err(TooShort), line)
    else if Size(buf) > MAX_FRAME then (Err(TooLong), line)
    else
      var (encoded, next) := EncryptBuffer(suite, Stage(suite, line.round, buf), line.key);
      (Ok(if keyed then InsertKey(encoded, line.key, HEAD) else encoded),
       Line(RoundAfter(line.round, Size(buf) - INFO), next, Bump(line.count)))
  }

  /** The part of `Decrypt` behind the key: decipher, restore, check. A failed check leaves the round advanced. */
  function OpenFrame(suite: Suite, line: Line, body: seq<Byte>): (Result<seq<Byte>>, Line)
    requires INFO <= Size(body)
  {
    var (decoded, next) := DecryptBuffer(suite, body, line.key);
    var plain := decoded[..INFO] + Restore(suite, line.round, decoded[INFO..]);
    var round := RoundAfter(line.round, |plain| - INFO);
    if (plain[1] + Sum(plain[INFO..])) % 256 != 0 then (Err(CheckFailed), line.(round := round))
    else (Ok(plain), Line(round, next, Bump(line.count)))
  }

  /** `Decrypt`; a keyed frame brings its key, any other uses the key in hand. */
  function RecvFrame(suite: Suite, line: Line, keyed: bool, buf: seq<Byte>): (Result<seq<Byte>>, Line) {
    if Size(buf) < HEAD then (Err(TooShort), line)
    else if Uint16At(buf, 2) != Size(buf) then (Err(SizeMismatch), line)
    else if keyed then
      match ExtractKey(buf, HEAD)
      case Err(e) => (Err(e), line)
      case Ok(r) =>
        Uint16Minus(|buf|, 4);
        OpenFrame(suite, line.(key := r.1), r.0)
    else OpenFrame(suite, line, buf)
  }

  /** What arrives of a frame: check byte and length are the coder's, byte 0 and the body the sender's. */
  function Delivered(buf: seq<Byte>): (r: seq<Byte>)
    requires INFO <= |buf| < 0x1_0000
    ensures |r| == |buf|
  {
    [buf[0], Negate(Sum(buf[INFO..]))] + Uint16Bytes(|buf|) + buf[INFO..]
  }

  /** The length of a buffer `Encrypt` takes. */
  predicate Sendable(buf: seq<Byte>) {
    HEAD <= Size(buf) <= MAX_FRAME
  }

  lemma StagedBody(suite: Suite, round: Byte, buf: seq<Byte>)
    requires suite.Valid() && Sendable(buf)
    ensures var staged := Stage(suite, round, buf);
            var cut := buf[..Size(buf)];
            && Size(staged) == Size(buf)
            && staged[..INFO] == Delivered(cut)[..INFO]
            && Restore(suite, round, staged[INFO..Size(buf)]) == buf[INFO..Size(buf)]
  {
    hide Substitute, Restore, Sum;
    var staged := Stage(suite, round, buf);
    var body := buf[INFO..Size(buf)];
    assert staged[INFO..Size(buf)] == Substitute(suite, round, body);
    RestoreUndoesSubstitute(suite, round, body);
    assert buf[..Size(buf)][INFO..] == body;
  }

  /** A frame that fits sixteen bits opens to what was sent and leaves both ends with the same line; a longer one
      opens to its first bytes. */
  lemma OpenUndoesSend(suite: Suite, line: Line, buf: seq<Byte>)
    requires suite.Valid() && Sendable(buf)
    ensures var got := OpenFrame(suite, line, EncryptBuffer(suite, Stage(suite, line.round, buf), line.key).0);
            && got.0 == Ok(Delivered(buf[..Size(buf)]))
            && (|buf| < 0x1_0000 ==> got.1 == SendFrame(suite, line, false, buf).1)
  {
    hide Stage, EncryptBuffer, DecryptBuffer, Restore, Sum, Uint16Bytes;
    var staged := Stage(suite, line.round, buf);
    StagedBody(suite, line.round, buf);
    DecryptUndoesEncrypt(suite, staged, line.key);
    var cut := buf[..Size(buf)];
    assert staged[..Size(buf)][..INFO] == staged[..INFO];
    assert staged[..Size(buf)][INFO..] == staged[INFO..Size(buf)];
    assert cut[INFO..] == buf[INFO..Size(buf)];
    assert staged[..INFO] + cut[INFO..] == Delivered(cut);
  }

  lemma EncryptedHead(suite: Suite, line: Line, buf: seq<Byte>)
    requires Sendable(buf)
    ensures var encoded := EncryptBuffer(suite, Stage(suite, line.round, buf), line.key).0;
            && |encoded| == Size(buf) == Size(encoded)
            && encoded[0] == buf[0] && Uint16At(encoded, 2) == Size(buf)
  {
    hide Sum, Substitute, Cipher.Encipher, PaddedBody, KeyAfter;
    var staged := Stage(suite, line.round, buf);
    var encoded := EncryptBuffer(suite, staged, line.key).0;
    assert encoded[..INFO] == staged[..INFO];
    assert forall i | 0 <= i < INFO :: encoded[i] == encoded[..INFO][i] && staged[i] == staged[..INFO][i];
  }

  /** Every accepted frame is well formed on the wire and is delivered; the receiver ends on the sender's line. A
      keyed frame needs no key at the receiver. */
  lemma FrameRoundTrip(suite: Suite, line: Line, keyed: bool, buf: seq<Byte>, other: Word)
    requires suite.Valid() && Sendable(buf)
    requires !keyed ==> other == line.key
    ensures SendFrame(suite, line, keyed, buf).0.Ok?
    ensures var wire := SendFrame(suite, line, keyed, buf).0.value;
            var got := RecvFrame(suite, line.(key := other), keyed, wire);
            && |wire| == Size(buf) + (if keyed then 4 else 0)
            && wire[0] == buf[0] && Uint16At(wire, 2) == |wire|
            && got.0 == Ok(Delivered(buf[..Size(buf)]))
            && (|buf| < 0x1_0000 ==> got.1 == SendFrame(suite, line, keyed, buf).1)
  {
    hide EncryptBuffer, OpenFrame, Sum, Substitute, Delivered;
    var staged := Stage(suite, line.round, buf);
    var encoded := EncryptBuffer(suite, staged, line.key).0;
    EncryptedHead(suite, line, buf);
    OpenUndoesSend(suite, line, buf);
    if keyed {
      ExtractUndoesInsert(encoded, line.key, HEAD);
    }
  }

  /** Of the frames `Encrypt` takes, exactly those whose length fits sixteen bits arrive as they were sent. */
  lemma FrameSurvivesIff(suite: Suite, line: Line, keyed: bool, buf: seq<Byte>, other: Word)
    requires suite.Valid() && Sendable(buf)
    requires !keyed ==> other == line.key
    ensures var got := RecvFrame(suite, line.(key := other), keyed, SendFrame(suite, line, keyed, buf).0.value).0;
            && got.Ok? && |got.value| >= INFO
            && (got.value[0] == buf[0] && got.value[INFO..] == buf[INFO..] <==> |buf| < 0x1_0000)
  {
    hide SendFrame, RecvFrame;
    FrameRoundTrip(suite, line, keyed, buf, other);
    var got := RecvFrame(suite, line.(key := other), keyed, SendFrame(suite, line, keyed, buf).0.value).0;
    var size := Size(buf);
    assert got.value[INFO..] == buf[..size][INFO..];
    if |buf| < 0x1_0000 {
      assert buf[..size] == buf;
    } else {
      assert |buf[..size][INFO..]| < |buf[INFO..]|;
    }
  }
}

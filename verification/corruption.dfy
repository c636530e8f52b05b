/** How far a damaged cipher byte reaches, and which damage the check byte always catches. */
module Corruption {
  import opened Bytes
  import opened Suites
  import opened Substitution
  import opened Cipher
  import opened Frames

  /** c and d differ in word j only. */
  ghost predicate DifferInWord(c: seq<Byte>, d: seq<Byte>, j: nat) {
    |c| == |d| && forall i | 0 <= i < |c| && i / 4 != j :: c[i] == d[i]
  }

  /** A damaged ciphertext word damages its own plain word and the next, no more. */
  lemma DecipherSynchronises(suite: Suite, c: seq<Byte>, d: seq<Byte>, key: Word, j: nat)
    requires DifferInWord(c, d, j)
    ensures forall i | 0 <= i < |c| && i / 4 != j && i / 4 != j + 1 ::
              Decipher(suite, c, key)[i] == Decipher(suite, d, key)[i]
  {
    hide Xor;
    forall i | 0 <= i < |c| && i / 4 != j && i / 4 != j + 1
      ensures StreamAt(suite, c, key, i) == StreamAt(suite, d, key, i)
    {
      var w := i / 4;
      if w > 0 {
        var o := 4 * (w - 1);
        assert o / 4 == (o + 1) / 4 == (o + 2) / 4 == (o + 3) / 4 == w - 1;
        assert c[o] == d[o] && c[o + 1] == d[o + 1] && c[o + 2] == d[o + 2] && c[o + 3] == d[o + 3];
      }
    }
  }

  /** The same of whole buffers. */
  lemma DecryptSynchronises(suite: Suite, b: seq<Byte>, b': seq<Byte>, key: Word, j: nat)
    requires INFO <= Size(b) && |b| == |b'| && b[..INFO] == b'[..INFO]
    requires DifferInWord(b[INFO..Size(b)], b'[INFO..Size(b)], j)
    ensures var p, p' := DecryptBuffer(suite, b, key).0, DecryptBuffer(suite, b', key).0;
            && |p| == |p'|
            && (forall i | 0 <= i < INFO :: p[i] == p'[i])
            && (forall i | INFO <= i < |p| && (i - INFO) / 4 != j && (i - INFO) / 4 != j + 1 :: p[i] == p'[i])
  {
    hide Decipher, KeyAfter, Rebuild;
    var c, d := b[INFO..Size(b)], b'[INFO..Size(b)];
    DecipherSynchronises(suite, c, d, key, j);
    var p, p' := DecryptBuffer(suite, b, key).0, DecryptBuffer(suite, b', key).0;
    assert p[..INFO] == p'[..INFO];
    assert forall i | 0 <= i < INFO :: p[i] == p[..INFO][i] && p'[i] == p'[..INFO][i];
    assert p[INFO..] == Decipher(suite, c, key) && p'[INFO..] == Decipher(suite, d, key);
    assert forall i | INFO <= i < |p| :: p[i] == p[INFO..][i - INFO] && p'[i] == p'[INFO..][i - INFO];
  }

  /** Whether byte i lies in the last, possibly partial, word of n cipher bytes. */
  predicate InLastWord(n: nat, i: nat) {
    i < n && i / 4 == (n - 1) / 4
  }

  /** A damaged byte of the last word damages that byte only. */
  lemma DecipherLastWord(suite: Suite, c: seq<Byte>, key: Word, i: nat, v: Byte)
    requires InLastWord(|c|, i) && v != c[i]
    ensures var p, p' := Decipher(suite, c, key), Decipher(suite, c[i := v], key);
            p'[i] != p[i] && p' == p[i := p'[i]]
  {
    hide Xor, StreamAt;
    var d := c[i := v];
    forall t | 0 <= t < |c|
      ensures StreamAt(suite, d, key, t) == StreamAt(suite, c, key, t)
    {
      assert d[..4 * (t / 4)] == c[..4 * (t / 4)];
      StreamIgnoresTheRest(suite, c, d, key, t);
    }
    if Xor(v, StreamAt(suite, c, key, i)) == Xor(c[i], StreamAt(suite, c, key, i)) {
      XorInjective(v, c[i], StreamAt(suite, c, key, i));
    }
  }

  /** The plain text `OpenFrame` checks. */
  function PlainOf(suite: Suite, line: Line, body: seq<Byte>): (r: seq<Byte>)
    requires INFO <= Size(body)
    ensures |r| == Size(body)
  {
    var decoded := DecryptBuffer(suite, body, line.key).0;
    decoded[..INFO] + Restore(suite, line.round, decoded[INFO..])
  }

  lemma OpenChecksPlain(suite: Suite, line: Line, body: seq<Byte>)
    requires INFO <= Size(body)
    ensures var plain := PlainOf(suite, line, body);
            OpenFrame(suite, line, body).0 ==
              if (plain[1] + Sum(plain[INFO..])) % 256 == 0 then Ok(plain) else Err(CheckFailed)
  {
    hide DecryptBuffer, Restore, Sum;
  }

  lemma PlainLastWord(suite: Suite, line: Line, body: seq<Byte>, j: nat, v: Byte)
    requires suite.Valid() && INFO <= Size(body) && INFO <= j && InLastWord(Size(body) - INFO, j - INFO) && v != body[j]
    ensures var plain, plain' := PlainOf(suite, line, body), PlainOf(suite, line, body[j := v]);
            && plain'[..INFO] == plain[..INFO]
            && plain'[j] != plain[j]
            && plain'[INFO..] == plain[INFO..][j - INFO := plain'[j]]
  {
    hide Decipher, Restore, KeyAfter, Rebuild;
    var size := Size(body);
    var c := body[INFO..size];
    assert body[j := v][INFO..size] == c[j - INFO := v];
    DecipherLastWord(suite, c, line.key, j - INFO, v);
    var d, d' := Decipher(suite, c, line.key), Decipher(suite, c[j - INFO := v], line.key);
    assert DecryptBuffer(suite, body, line.key).0[INFO..] == d;
    assert DecryptBuffer(suite, body[j := v], line.key).0[INFO..] == d';
    RestoreUpdate(suite, line.round, d, j - INFO, d'[j - INFO]);
    assert PlainOf(suite, line, body)[INFO..] == Restore(suite, line.round, d);
    assert PlainOf(suite, line, body[j := v])[INFO..] == Restore(suite, line.round, d');
    assert body[j := v][..INFO] == body[..INFO];
  }

  /** Changing one byte of the last cipher word of an accepted frame makes the check fail. */
  lemma LastWordDamageIsCaught(suite: Suite, line: Line, wire: seq<Byte>, j: nat, v: Byte)
    requires suite.Valid() && RecvFrame(suite, line, false, wire).0.Ok?
    requires INFO <= j && InLastWord(Size(wire) - INFO, j - INFO) && v != wire[j]
    ensures RecvFrame(suite, line, false, wire[j := v]).0 == Err(CheckFailed)
  {
    hide PlainOf, OpenFrame, Sum;
    var bad := wire[j := v];
    assert Uint16At(bad, 2) == Uint16At(wire, 2) && Size(bad) == Size(wire);
    OpenChecksPlain(suite, line, wire);
    OpenChecksPlain(suite, line, bad);
    PlainLastWord(suite, line, wire, j, v);
    var plain, plain' := PlainOf(suite, line, wire), PlainOf(suite, line, bad);
    SumDetectsOneByte(plain[INFO..], j - INFO, plain'[j]);
    assert plain'[1] == plain'[..INFO][1] == plain[..INFO][1] == plain[1];
  }

  /** Of the four bytes the cipher leaves alone, a change of any but the first is caught. */
  lemma HeadDamage(suite: Suite, line: Line, wire: seq<Byte>, j: nat, v: Byte)
    requires RecvFrame(suite, line, false, wire).0.Ok? && j < INFO && v != wire[j]
    ensures var r := RecvFrame(suite, line, false, wire).0;
            RecvFrame(suite, line, false, wire[j := v]).0 ==
              if j == 0 then Ok(r.value[0 := v]) else if j == 1 then Err(CheckFailed) else Err(SizeMismatch)
  {
    hide Decipher, Restore, Sum, OpenFrame, KeyAfter, Rebuild;
    var bad := wire[j := v];
    assert Size(bad) == Size(wire) && bad[INFO..Size(wire)] == wire[INFO..Size(wire)];
    OpenChecksPlain(suite, line, wire);
    OpenChecksPlain(suite, line, bad);
    var plain, plain' := PlainOf(suite, line, wire), PlainOf(suite, line, bad);
    assert plain'[INFO..] == plain[INFO..];
    assert plain' == plain[j := v];
  }
}

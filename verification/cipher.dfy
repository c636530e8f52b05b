/** The chained word cipher of util_c.go and utils.go: each word of ciphertext makes the key of the next word. */
module Cipher {
  import opened Bytes
  import opened Suites

  // ---------- the key stream ----------

  /** The key of word j: the initial key, then the key derived from the ciphertext word before it. */
  function KeyAt(suite: Suite, c: seq<Byte>, key: Word, j: nat): Word
    requires 4 * j <= |c|
  {
    if j == 0 then key else suite.derive(WordAt(c, 4 * (j - 1)))
  }

  /** The key byte of position i; it depends on the complete ciphertext words before i only. */
  function StreamAt(suite: Suite, c: seq<Byte>, key: Word, i: nat): Byte
    requires 4 * (i / 4) <= |c|
  {
    KeyAt(suite, c, key, i / 4).At(i % 4)
  }

  lemma StreamIgnoresTheRest(suite: Suite, c: seq<Byte>, d: seq<Byte>, key: Word, i: nat)
    requires 4 * (i / 4) <= |c| && 4 * (i / 4) <= |d|
    requires c[..4 * (i / 4)] == d[..4 * (i / 4)]
    ensures StreamAt(suite, c, key, i) == StreamAt(suite, d, key, i)
  {
    var m := 4 * (i / 4);
    if m > 0 {
      assert forall t | m - 4 <= t < m :: c[t] == c[..m][t] && d[t] == d[..m][t];
    }
  }

  /** Decryption in closed form. */
  function Decipher(suite: Suite, c: seq<Byte>, key: Word): (p: seq<Byte>)
    ensures |p| == |c|
  {
    seq(|c|, i requires 0 <= i < |c| => Xor(c[i], StreamAt(suite, c, key, i)))
  }

  /** Encryption, byte by byte; the key of a byte comes from the ciphertext made so far. */
  function Encipher(suite: Suite, p: seq<Byte>, key: Word): (c: seq<Byte>)
    ensures |c| == |p|
  {
    if p == [] then [] else
    var last := |p| - 1;
    var c := Encipher(suite, p[..last], key);
    c + [Xor(p[last], StreamAt(suite, c, key, last))]
  }

  /** c is a ciphertext of p: every byte is the plain byte under the key stream of c itself. */
  ghost predicate Chained(suite: Suite, p: seq<Byte>, c: seq<Byte>, key: Word) {
    |p| == |c| && forall i | 0 <= i < |c| :: c[i] == Xor(p[i], StreamAt(suite, c, key, i))
  }

  lemma {:induction false} EncipherIsChained(suite: Suite, p: seq<Byte>, key: Word)
    ensures Chained(suite, p, Encipher(suite, p, key), key)
  {
    hide Xor, StreamAt;
    if p != [] {
      var last := |p| - 1;
      var pre := Encipher(suite, p[..last], key);
      var c := Encipher(suite, p, key);
      EncipherIsChained(suite, p[..last], key);
      assert c[..last] == pre;
      forall i | 0 <= i < |c|
        ensures c[i] == Xor(p[i], StreamAt(suite, c, key, i))
      {
        var m := 4 * (i / 4);
        assert c[..m] == pre[..m];
        StreamIgnoresTheRest(suite, pre, c, key, i);
        if i < last {
          assert pre[i] == Xor(p[..last][i], StreamAt(suite, pre, key, i));
        }
      }
    }
  }

  /** There is only one ciphertext. */
  lemma {:induction false} ChainedIsUnique(suite: Suite, p: seq<Byte>, c: seq<Byte>, key: Word)
    requires Chained(suite, p, c, key)
    ensures c == Encipher(suite, p, key)
  {
    hide Xor, StreamAt;
    if p != [] {
      var last := |p| - 1;
      forall i | 0 <= i <= last
        ensures StreamAt(suite, c[..last], key, i) == StreamAt(suite, c, key, i)
      {
        var m := 4 * (i / 4);
        assert c[..last][..m] == c[..m];
        StreamIgnoresTheRest(suite, c[..last], c, key, i);
      }
      ChainedIsUnique(suite, p[..last], c[..last], key);
      assert c == c[..last] + [c[last]];
    }
  }

  lemma {:induction false} EncipherPrefix(suite: Suite, p: seq<Byte>, key: Word, n: nat)
    requires n <= |p|
    ensures Encipher(suite, p, key)[..n] == Encipher(suite, p[..n], key)
  {
    if n < |p| {
      EncipherPrefix(suite, p[..|p| - 1], key, n);
      assert p[..|p| - 1][..n] == p[..n];
      assert Encipher(suite, p, key)[..n] == Encipher(suite, p[..|p| - 1], key)[..n];
    } else {
      assert p[..n] == p;
    }
  }

  /** Decryption undoes encryption under the same key, for every length. */
  lemma DecipherUndoesEncipher(suite: Suite, p: seq<Byte>, key: Word)
    ensures Decipher(suite, Encipher(suite, p, key), key) == p
  {
    hide Xor, StreamAt;
    var c := Encipher(suite, p, key);
    EncipherIsChained(suite, p, key);
    forall i | 0 <= i < |p|
      ensures Decipher(suite, c, key)[i] == p[i]
    {
      XorCancels(p[i], StreamAt(suite, c, key, i));
    }
  }

  lemma EncipherUndoesDecipher(suite: Suite, c: seq<Byte>, key: Word)
    ensures Encipher(suite, Decipher(suite, c, key), key) == c
  {
    hide Xor, StreamAt;
    var p := Decipher(suite, c, key);
    forall i | 0 <= i < |c|
      ensures c[i] == Xor(p[i], StreamAt(suite, c, key, i))
    {
      XorCancels(c[i], StreamAt(suite, c, key, i));
    }
    ChainedIsUnique(suite, p, c, key);
  }

  // ---------- whole buffers ----------

  /** Bytes 0..4 of a frame are never enciphered (`SizeOf_CMD_Info`). */
  const INFO: nat := 4

  /** `uint16(len(buf))`. */
  function Size(buf: seq<Byte>): nat {
    Uint16(|buf|)
  }

  /** How many bytes complete the last word. */
  function SnapCount(n: nat): (snap: nat)
    ensures snap < 4 && (n + snap) % 4 == 0
  {
    if n % 4 != 0 then 4 - n % 4 else 0
  }

  lemma SnapPosition(n: nat, i: nat)
    requires n <= i < n + SnapCount(n)
    ensures i / 4 == n / 4 && i % 4 == 4 - SnapCount(n) + i - n
  {
    assert n == 4 * (n / 4) + n % 4;
  }

  /** What gets enciphered: the body completed to whole words, with zeros, or, in a buffer that goes on past a
      multiple of 2^16, with the bytes that follow. */
  function PaddedBody(buf: seq<Byte>): (p: seq<Byte>)
    requires INFO <= Size(buf)
    ensures |p| == Size(buf) - INFO + SnapCount(Size(buf) - INFO)
  {
    var snap := SnapCount(Size(buf) - INFO);
    (buf + Zeros(snap))[INFO..Size(buf) + snap]
  }

  /** The key after the last word of a ciphertext. */
  function KeyAfter(suite: Suite, c: seq<Byte>, key: Word): Word {
    KeyAt(suite, c, key, |c| / 4)
  }

  /** `encryptBuffer`: the returned buffer and the next key. */
  function EncryptBuffer(suite: Suite, buf: seq<Byte>, key: Word): (r: (seq<Byte>, Word))
    requires INFO <= Size(buf)
    ensures |r.0| == Size(buf) && r.0[..INFO] == buf[..INFO]
  {
    var c := Encipher(suite, PaddedBody(buf), key);
    (buf[..INFO] + c[..Size(buf) - INFO], KeyAfter(suite, c, key))
  }

  /** The ciphertext the sender had before it cut off the padding: zeros under a key are the key's own bytes. */
  function Rebuild(suite: Suite, c: seq<Byte>, key: Word): (full: seq<Byte>)
    ensures |full| == |c| + SnapCount(|c|)
  {
    c + KeyAfter(suite, c, key).Bytes()[4 - SnapCount(|c|)..]
  }

  /** `decryptBuffer`. */
  function DecryptBuffer(suite: Suite, buf: seq<Byte>, key: Word): (r: (seq<Byte>, Word))
    requires INFO <= Size(buf)
    ensures |r.0| == Size(buf) && r.0[..INFO] == buf[..INFO]
  {
    var c := buf[INFO..Size(buf)];
    (buf[..INFO] + Decipher(suite, c, key), KeyAfter(suite, Rebuild(suite, c, key), key))
  }

  /** A zero byte enciphers to the key byte. */
  lemma EncipheredZero(suite: Suite, p: seq<Byte>, key: Word, i: nat)
    requires i < |p| && p[i] == 0
    ensures Encipher(suite, p, key)[i] == StreamAt(suite, Encipher(suite, p, key), key, i)
  {
    hide Xor, StreamAt;
    EncipherIsChained(suite, p, key);
    XorZeroLeft(StreamAt(suite, Encipher(suite, p, key), key, i));
  }

  lemma RebuildExtends(suite: Suite, c: seq<Byte>, key: Word)
    ensures Rebuild(suite, c, key)[..|c|] == c
  {
    hide KeyAfter, SnapCount;
  }

  lemma KeyAfterBytes(suite: Suite, c: seq<Byte>, key: Word, i: nat)
    requires |c| <= i < |c| + SnapCount(|c|)
    ensures StreamAt(suite, c, key, i) == Rebuild(suite, c, key)[i]
  {
    hide SnapCount;
    SnapPosition(|c|, i);
  }

  /** What the receiver rebuilds is what the sender cut off. */
  lemma RebuildRestoresPadding(suite: Suite, p: seq<Byte>, key: Word)
    ensures Rebuild(suite, Encipher(suite, p, key), key) == Encipher(suite, p + Zeros(SnapCount(|p|)), key)
  {
    hide Xor, StreamAt, Rebuild, SnapCount;
    var padded := p + Zeros(SnapCount(|p|));
    var c, whole := Encipher(suite, p, key), Encipher(suite, padded, key);
    assert padded[..|p|] == p;
    EncipherPrefix(suite, padded, key, |p|);
    assert whole[..|p|] == c;
    RebuildExtends(suite, c, key);
    forall i | |p| <= i < |padded|
      ensures whole[i] == Rebuild(suite, c, key)[i]
    {
      SnapPosition(|p|, i);
      EncipheredZero(suite, padded, key, i);
      assert whole[..4 * (i / 4)] == c[..4 * (i / 4)];
      StreamIgnoresTheRest(suite, whole, c, key, i);
      KeyAfterBytes(suite, c, key, i);
    }
  }

  lemma PaddedBodyIs(buf: seq<Byte>)
    requires INFO <= Size(buf)
    ensures PaddedBody(buf)[..Size(buf) - INFO] == buf[INFO..Size(buf)]
    ensures |buf| < 0x1_0000 ==> PaddedBody(buf) == buf[INFO..] + Zeros(SnapCount(|buf| - INFO))
  {
    hide SnapCount;
    var size := Size(buf);
    var padded := buf + Zeros(SnapCount(size - INFO));
    assert padded[..size] == buf[..size];
    assert padded[..size][INFO..] == PaddedBody(buf)[..size - INFO];
  }

  /** The body of an encrypted buffer is the enciphered body, as far as sixteen bits count. */
  lemma EncryptedBody(suite: Suite, buf: seq<Byte>, key: Word)
    requires INFO <= Size(buf)
    ensures EncryptBuffer(suite, buf, key).0[INFO..] == Encipher(suite, buf[INFO..Size(buf)], key)
    ensures |buf| < 0x1_0000 ==> EncryptBuffer(suite, buf, key).1
                                 == KeyAfter(suite, Rebuild(suite, Encipher(suite, buf[INFO..], key), key), key)
  {
    hide Encipher, Rebuild, SnapCount, KeyAfter;
    var size := Size(buf);
    var c := Encipher(suite, PaddedBody(buf), key);
    PaddedBodyIs(buf);
    EncipherPrefix(suite, PaddedBody(buf), key, size - INFO);
    assert EncryptBuffer(suite, buf, key).0[INFO..] == c[..size - INFO];
    if |buf| < 0x1_0000 {
      assert buf[INFO..size] == buf[INFO..];
      RebuildRestoresPadding(suite, buf[INFO..], key);
    }
  }

  /** What is decrypted is the buffer cut to its 16-bit length; when nothing is cut, both ends hold the same next
      key. */
  lemma DecryptUndoesEncrypt(suite: Suite, buf: seq<Byte>, key: Word)
    requires INFO <= Size(buf)
    ensures var r := DecryptBuffer(suite, EncryptBuffer(suite, buf, key).0, key);
            r.0 == buf[..Size(buf)] && (|buf| < 0x1_0000 ==> r.1 == EncryptBuffer(suite, buf, key).1)
  {
    hide Encipher, Decipher, Rebuild, KeyAfter, EncryptBuffer, PaddedBody;
    var e := EncryptBuffer(suite, buf, key).0;
    var size := Size(buf);
    assert Size(e) == |e| == size;
    assert e[INFO..Size(e)] == e[INFO..];
    EncryptedBody(suite, buf, key);
    DecipherUndoesEncipher(suite, buf[INFO..size], key);
    assert buf[..size] == buf[..INFO] + buf[INFO..size];
    if |buf| < 0x1_0000 {
      assert buf[INFO..size] == buf[INFO..];
    }
  }

  /** The exact condition under which a buffer survives: its length fits sixteen bits. */
  lemma RoundTripIff(suite: Suite, buf: seq<Byte>, key: Word)
    requires INFO <= Size(buf)
    ensures DecryptBuffer(suite, EncryptBuffer(suite, buf, key).0, key).0 == buf <==> |buf| < 0x1_0000
  {
    hide EncryptBuffer, DecryptBuffer;
    DecryptUndoesEncrypt(suite, buf, key);
    if |buf| < 0x1_0000 {
      assert buf[..Size(buf)] == buf;
    } else {
      assert |buf[..Size(buf)]| < |buf|;
    }
  }

  /** The next key is the current one for an empty body and a derived, hence non-zero, one otherwise. */
  lemma KeyAfterIsNeverZero(suite: Suite, c: seq<Byte>, key: Word)
    requires suite.Valid() && key != NO_KEY
    ensures KeyAfter(suite, c, key) != NO_KEY
  {
    if |c| / 4 > 0 {
      assert suite.derive(WordAt(c, 4 * (|c| / 4 - 1))) != NO_KEY;
    }
  }

  lemma ChainedAt(suite: Suite, p: seq<Byte>, c: seq<Byte>, key: Word, i: nat)
    requires Chained(suite, p, c, key) && i < |p|
    ensures c[i] == Xor(p[i], StreamAt(suite, c, key, i))
  {
    hide Xor, StreamAt;
  }

  lemma StreamByWords(suite: Suite, c: seq<Byte>, key: Word, i: nat)
    requires i < |c|
    ensures var o := 4 * (i / 4);
            var k := if i < 4 then key else suite.derive(Word(c[o - 4], c[o - 3], c[o - 2], c[o - 1]));
            StreamAt(suite, c, key, i) == k.At(i % 4)
  {
    hide Word.At;
  }

  /** The ciphertext in the bytes of its own words: a byte of the first word is under the key, any other under the key
      derived from the four ciphertext bytes of the word before. */
  lemma EncipheredByte(suite: Suite, p: seq<Byte>, key: Word, i: nat)
    requires i < |p|
    ensures var c := Encipher(suite, p, key);
            var o := 4 * (i / 4);
            var k := if i < 4 then key else suite.derive(Word(c[o - 4], c[o - 3], c[o - 2], c[o - 1]));
            c[i] == Xor(p[i], k.At(i % 4))
  {
    hide Xor, Encipher, Chained, StreamAt;
    var c := Encipher(suite, p, key);
    EncipherIsChained(suite, p, key);
    ChainedAt(suite, p, c, key, i);
    StreamByWords(suite, c, key, i);
  }

  /** The next key in the bytes of the last word; where it is not complete, the word's own key stands in. */
  lemma NextKeyByBytes(suite: Suite, c: seq<Byte>, key: Word)
    ensures var o := 4 * (|c| / 4);
            var k := if o == 0 then key else suite.derive(Word(c[o - 4], c[o - 3], c[o - 2], c[o - 1]));
            KeyAfter(suite, Rebuild(suite, c, key), key) ==
              match |c| % 4
              case 0 => k
              case 1 => suite.derive(Word(c[o], k.b1, k.b2, k.b3))
              case 2 => suite.derive(Word(c[o], c[o + 1], k.b2, k.b3))
              case _ => suite.derive(Word(c[o], c[o + 1], c[o + 2], k.b3))
  {
    var o := 4 * (|c| / 4);
    var k := KeyAfter(suite, c, key);
    var full := Rebuild(suite, c, key);
    if |c| % 4 == 0 {
      assert full == c;
    } else {
      assert |full| / 4 == |c| / 4 + 1 && 4 * (|full| / 4 - 1) == o;
      assert full[|c|..] == k.Bytes()[4 - SnapCount(|c|)..];
    }
  }
}

/** The in-place loops of util_c.go and their callers in utils.go, proved against the closed forms of `Cipher`. */
module CipherLoops {
  import opened Bytes
  import opened Suites
  import opened Cipher

  function XorWord(q: seq<Byte>, key: Word): (w: seq<Byte>)
    requires |q| == 4
    ensures |w| == 4
  {
    [Xor(q[0], key.b0), Xor(q[1], key.b1), Xor(q[2], key.b2), Xor(q[3], key.b3)]
  }

  /** `*(*uint32)(&buf[o]) ^= key`, on a machine that stores words little end first. */
  method XorWordAt(buf: array<Byte>, o: nat, key: Word)
    requires o + 4 <= buf.Length
    modifies buf
    ensures buf[..] == Overwrite(old(buf[..]), o, XorWord(old(buf[..])[o..o + 4], key))
  {
    hide Xor;
    buf[o] := Xor(buf[o], key.b0);
    buf[o + 1] := Xor(buf[o + 1], key.b1);
    buf[o + 2] := Xor(buf[o + 2], key.b2);
    buf[o + 3] := Xor(buf[o + 3], key.b3);
  }

  lemma WordIndex(n: nat, i: nat)
    requires n % 4 == 0 && n <= i < n + 4
    ensures i / 4 == n / 4 && i % 4 == i - n && 4 * (i / 4) == n
  {
  }

  /** Appending the word in hand does not change the key bytes up to its end. */
  lemma StreamOfLastWord(suite: Suite, c: seq<Byte>, w: seq<Byte>, key: Word, i: nat)
    requires |c| % 4 == 0 && |w| == 4 && i < |c| + 4
    ensures 4 * (i / 4) <= |c|
    ensures StreamAt(suite, c + w, key, i) == StreamAt(suite, c, key, i)
  {
    hide StreamAt;
    assert (c + w)[..4 * (i / 4)] == c[..4 * (i / 4)];
    StreamIgnoresTheRest(suite, c, c + w, key, i);
  }

  lemma StreamIsKeyAfter(suite: Suite, c: seq<Byte>, key: Word, i: nat)
    requires |c| % 4 == 0 && |c| <= i < |c| + 4
    ensures StreamAt(suite, c, key, i) == KeyAfter(suite, c, key).At(i - |c|)
  {
    hide KeyAt;
    WordIndex(|c|, i);
  }

  lemma XorWordByte(q: seq<Byte>, key: Word, t: nat)
    requires |q| == 4 && t < 4
    ensures XorWord(q, key)[t] == Xor(q[t], key.At(t))
  {
    hide Xor;
  }

  /** One more enciphered word. */
  lemma ChainedWord(suite: Suite, p: seq<Byte>, c: seq<Byte>, key: Word, q: seq<Byte>)
    requires Chained(suite, p, c, key) && |p| % 4 == 0 && |q| == 4
    ensures Chained(suite, p + q, c + XorWord(q, KeyAfter(suite, c, key)), key)
  {
    hide Xor, XorWord, KeyAfter, StreamAt;
    var k := KeyAfter(suite, c, key);
    var w := XorWord(q, k);
    forall i | 0 <= i < |c| + 4
      ensures (c + w)[i] == Xor((p + q)[i], StreamAt(suite, c + w, key, i))
    {
      StreamOfLastWord(suite, c, w, key, i);
      if |c| <= i {
        StreamIsKeyAfter(suite, c, key, i);
        XorWordByte(q, k, i - |c|);
      }
    }
  }

  lemma NextKey(suite: Suite, c: seq<Byte>, w: seq<Byte>, key: Word)
    requires |c| % 4 == 0 && |w| == 4
    ensures KeyAfter(suite, c + w, key) == suite.derive(WordAt(w, 0))
  {
    assert |c + w| / 4 == |c| / 4 + 1;
    assert WordAt(c + w, |c|) == WordAt(w, 0);
  }

  lemma NothingYet(suite: Suite, key: Word)
    ensures Chained(suite, [], [], key) && KeyAfter(suite, [], key) == key
  {
  }

  /** One turn of the encryption loop. */
  method EncryptWord(suite: Suite, buf: array<Byte>, o: nat, key: Word) returns (next: Word)
    requires o + 4 <= buf.Length
    modifies buf
    ensures var w := XorWord(old(buf[..])[o..o + 4], key);
            buf[..] == Overwrite(old(buf[..]), o, w) && next == suite.derive(WordAt(w, 0))
  {
    hide Xor, XorWord;
    ghost var w := XorWord(buf[..][o..o + 4], key);
    XorWordAt(buf, o, key);
    assert forall t | 0 <= t < 4 :: buf[o + t] == buf[..][o + t] == w[t];
    next := suite.derive(Word(buf[o], buf[o + 1], buf[o + 2], buf[o + 3]));
  }

  /** `c_encryptBuffer`. */
  method EncryptWords(suite: Suite, buf: array<Byte>, xorKey: Word, encryptSize: nat, snapCount: nat)
    returns (next: Word)
    requires snapCount == SnapCount(encryptSize) && encryptSize + snapCount < 0x1_0000
    requires INFO + encryptSize + snapCount <= buf.Length
    modifies buf
    ensures var b := old(buf[..]);
            var c := Encipher(suite, b[INFO..INFO + encryptSize + snapCount], xorKey);
            buf[..] == Overwrite(b, INFO, c) && next == KeyAfter(suite, c, xorKey)
  {
    hide Xor, Chained, StreamAt, XorWord, Encipher, KeyAfter, Overwrite;
    var count := (encryptSize + snapCount) / 4;
    next := xorKey;
    ghost var b := buf[..];
    ghost var p := b[INFO..INFO + 4 * count];
    ghost var c: seq<Byte> := [];
    NothingYet(suite, xorKey);
    OverwriteNothing(b, INFO);
    assert p[..0] == [];
    for i := 0 to count
      invariant |c| == 4 * i
      invariant buf[..] == Overwrite(b, INFO, c)
      invariant Chained(suite, p[..4 * i], c, xorKey)
      invariant next == KeyAfter(suite, c, xorKey)
    {
      var o := INFO + 4 * i;
      ghost var q := b[o..o + 4];
      ghost var w := XorWord(q, next);
      OverwriteMore(b, INFO, c, w);
      ChainedWord(suite, p[..4 * i], c, xorKey, q);
      assert p[..4 * i] + q == p[..4 * (i + 1)];
      NextKey(suite, c, w, xorKey);
      next := EncryptWord(suite, buf, o, next);
      c := c + w;
    }
    assert p[..4 * count] == p;
    ChainedIsUnique(suite, p, c, xorKey);
  }

  lemma DecipherWord(suite: Suite, c: seq<Byte>, q: seq<Byte>, key: Word)
    requires |c| % 4 == 0 && |q| == 4
    ensures Decipher(suite, c + q, key) == Decipher(suite, c, key) + XorWord(q, KeyAfter(suite, c, key))
  {
    hide Xor, XorWord, KeyAfter, StreamAt;
    var k := KeyAfter(suite, c, key);
    forall i | 0 <= i < |c| + 4
      ensures Decipher(suite, c + q, key)[i] == (Decipher(suite, c, key) + XorWord(q, k))[i]
    {
      StreamOfLastWord(suite, c, q, key, i);
      if |c| <= i {
        StreamIsKeyAfter(suite, c, key, i);
        XorWordByte(q, k, i - |c|);
      }
    }
  }

  /** The last, completed word of the rebuilt ciphertext. */
  lemma RebuiltWords(suite: Suite, c: seq<Byte>, key: Word)
    ensures var full := Rebuild(suite, c, key);
            var whole := 4 * (|c| / 4);
            && full[..whole] == c[..whole]
            && KeyAfter(suite, full[..whole], key) == KeyAfter(suite, c, key)
            && full[|c|..] == KeyAfter(suite, c, key).Bytes()[4 - SnapCount(|c|)..]
  {
    hide SnapCount;
    var whole := 4 * (|c| / 4);
    assert |c[..whole]| / 4 == |c| / 4;
    if whole > 0 {
      assert WordAt(c[..whole], whole - 4) == WordAt(c, whole - 4);
    }
  }

  /** b with the rebuilt tail written behind its n data bytes. */
  ghost function Completed(suite: Suite, b: seq<Byte>, key: Word, n: nat): (r: seq<Byte>)
    requires INFO + n + SnapCount(n) <= |b|
    ensures |r| == |b|
  {
    Overwrite(b, INFO + n, Rebuild(suite, b[INFO..INFO + n], key)[n..])
  }

  /** A slice of c + tail is a slice of the buffer that holds c with the tail written behind it. */
  lemma SliceOfCompleted(b: seq<Byte>, n: nat, tail: seq<Byte>, i: nat, j: nat)
    requires INFO + n + |tail| <= |b| && i <= j <= n + |tail|
    ensures Overwrite(b, INFO + n, tail)[INFO + i..INFO + j] == (b[INFO..INFO + n] + tail)[i..j]
    ensures j <= n ==> b[INFO + i..INFO + j] == (b[INFO..INFO + n] + tail)[i..j]
  {
    var c := b[INFO..INFO + n];
    var r := Overwrite(b, INFO + n, tail);
    var s, t := r[INFO + i..INFO + j], (c + tail)[i..j];
    hide Overwrite;
    forall k | 0 <= k < j - i
      ensures s[k] == t[k] && (j <= n ==> b[INFO + i..INFO + j][k] == t[k])
    {
      OverwriteAt(b, INFO + n, tail, INFO + i + k);
      assert t[k] == (c + tail)[i + k];
    }
    assert s == t;
  }

  /** The completed buffer holds the rebuilt ciphertext; the words before the last are there already. */
  lemma CompletedWord(suite: Suite, b: seq<Byte>, key: Word, n: nat, i: nat)
    requires INFO + n + SnapCount(n) <= |b| && 4 * i < n
    ensures var o := INFO + 4 * i;
            var q := Rebuild(suite, b[INFO..INFO + n], key)[4 * i..4 * i + 4];
            && Completed(suite, b, key, n)[o..o + 4] == q
            && (4 * i + 4 <= n ==> b[o..o + 4] == q)
  {
    hide KeyAfter, SnapCount, Overwrite;
    var c := b[INFO..INFO + n];
    var tail := KeyAfter(suite, c, key).Bytes()[4 - SnapCount(n)..];
    assert Rebuild(suite, c, key)[n..] == tail;
    SliceOfCompleted(b, n, tail, 4 * i, 4 * i + 4);
  }

  /** What the last turn copies behind the data completes the buffer. */
  lemma TailTurn(suite: Suite, b: seq<Byte>, key: Word, n: nat, p: seq<Byte>)
    requires INFO + n + SnapCount(n) <= |b| && |p| <= n
    ensures var tail := KeyAfter(suite, b[INFO..INFO + n], key).Bytes()[4 - SnapCount(n)..];
            Overwrite(Overwrite(b, INFO, p), INFO + n, tail) == Overwrite(Completed(suite, b, key, n), INFO, p)
  {
    hide KeyAfter, Overwrite, SnapCount;
    var c := b[INFO..INFO + n];
    var tail := KeyAfter(suite, c, key).Bytes()[4 - SnapCount(n)..];
    assert Rebuild(suite, c, key)[n..] == tail;
    OverwriteApart(b, INFO, p, INFO + n, tail);
  }

  /** One turn deciphers one word in place and takes the next key from it. */
  lemma WordTurn(suite: Suite, full: seq<Byte>, key: Word, i: nat, cur: seq<Byte>)
    requires 4 * i + 4 <= |full| && INFO + |full| <= |cur|
    requires cur[INFO + 4 * i..INFO + 4 * i + 4] == full[4 * i..4 * i + 4]
    ensures var now := Overwrite(cur, INFO, Decipher(suite, full[..4 * i], key));
            var o := INFO + 4 * i;
            var q := full[4 * i..4 * i + 4];
            && now[o..o + 4] == q
            && Overwrite(now, o, XorWord(q, KeyAfter(suite, full[..4 * i], key)))
               == Overwrite(cur, INFO, Decipher(suite, full[..4 * (i + 1)], key))
            && suite.derive(WordAt(q, 0)) == KeyAfter(suite, full[..4 * (i + 1)], key)
  {
    hide XorWord, Decipher, KeyAfter, Overwrite;
    var q := full[4 * i..4 * i + 4];
    OverwriteMore(cur, INFO, Decipher(suite, full[..4 * i], key), XorWord(q, KeyAfter(suite, full[..4 * i], key)));
    assert full[..4 * i] + q == full[..4 * (i + 1)];
    DecipherWord(suite, full[..4 * i], q, key);
    NextKey(suite, full[..4 * i], q, key);
  }

  lemma FirstTurn(suite: Suite, b: seq<Byte>, full: seq<Byte>, key: Word)
    requires INFO <= |b|
    ensures Overwrite(b, INFO, Decipher(suite, full[..0], key)) == b && KeyAfter(suite, full[..0], key) == key
  {
  }

  lemma LastTurn(suite: Suite, b: seq<Byte>, key: Word, n: nat)
    requires INFO + n + SnapCount(n) <= |b|
    ensures var full := Rebuild(suite, b[INFO..INFO + n], key);
            var p := Decipher(suite, full, key);
            full[..|full|] == full && Overwrite(Completed(suite, b, key, n), INFO, p) == Overwrite(b, INFO, p)
  {
    hide Rebuild, Decipher, Overwrite, SnapCount;
    var full := Rebuild(suite, b[INFO..INFO + n], key);
    OverwriteCovers(b, INFO, Decipher(suite, full, key), INFO + n, full[n..]);
  }

  /** One turn of the decryption loop: the next key comes from the word before it is deciphered. */
  method DecryptWord(suite: Suite, buf: array<Byte>, o: nat, key: Word) returns (next: Word)
    requires o + 4 <= buf.Length
    modifies buf
    ensures var q := old(buf[..])[o..o + 4];
            buf[..] == Overwrite(old(buf[..]), o, XorWord(q, key)) && next == suite.derive(WordAt(q, 0))
  {
    hide Xor, XorWord;
    next := suite.derive(Word(buf[o], buf[o + 1], buf[o + 2], buf[o + 3]));
    XorWordAt(buf, o, key);
  }

  /** Which turn is the ragged one. */
  lemma RaggedTurn(n: nat, count: nat, i: nat)
    requires count == (n + SnapCount(n)) / 4 && i < count
    ensures 4 * count == n + SnapCount(n) && 4 * i < n
    ensures i == count - 1 && SnapCount(n) > 0 <==> 4 * i + 4 > n
    ensures 4 * i + 4 > n ==> 4 * i == 4 * (n / 4)
  {
  }

  /** `c_decryptBuffer`. In the last turn the bytes behind the data are completed from the key in hand. */
  method DecryptWords(suite: Suite, buf: array<Byte>, recvKey: Word, encryptSize: nat, snapCount: nat, dataSize: nat)
    returns (next: Word)
    requires snapCount == SnapCount(encryptSize) && encryptSize + snapCount < 0x1_0000
    requires dataSize == INFO + encryptSize && dataSize + snapCount <= buf.Length
    modifies buf
    ensures var b := old(buf[..]);
            var full := Rebuild(suite, b[INFO..dataSize], recvKey);
            buf[..] == Overwrite(b, INFO, Decipher(suite, full, recvKey)) && next == KeyAfter(suite, full, recvKey)
  {
    hide Xor, XorWord, Decipher, Rebuild, KeyAfter, Overwrite, SnapCount, Completed;
    var count := (encryptSize + snapCount) / 4;
    next := recvKey;
    ghost var b := buf[..];
    ghost var full := Rebuild(suite, b[INFO..dataSize], recvKey);
    ghost var cur := b;
    FirstTurn(suite, b, full, recvKey);
    RebuiltWords(suite, b[INFO..dataSize], recvKey);
    for i := 0 to count
      invariant cur == if 4 * i > encryptSize then Completed(suite, b, recvKey, encryptSize) else b
      invariant buf[..] == Overwrite(cur, INFO, Decipher(suite, full[..4 * i], recvKey))
      invariant next == KeyAfter(suite, full[..4 * i], recvKey)
    {
      RaggedTurn(encryptSize, count, i);
      if i == count - 1 && snapCount > 0 {
        TailTurn(suite, b, recvKey, encryptSize, Decipher(suite, full[..4 * i], recvKey));
        CopyAt(buf, dataSize, next.Bytes()[4 - snapCount..]);
        cur := Completed(suite, b, recvKey, encryptSize);
      }
      CompletedWord(suite, b, recvKey, encryptSize, i);
      WordTurn(suite, full, recvKey, i, cur);
      next := DecryptWord(suite, buf, INFO + 4 * i, next);
    }
    LastTurn(suite, b, recvKey, encryptSize);
  }

  lemma DecipherPrefix(suite: Suite, c: seq<Byte>, key: Word, n: nat)
    requires n <= |c|
    ensures Decipher(suite, c, key)[..n] == Decipher(suite, c[..n], key)
  {
    hide Xor, StreamAt;
    forall i | 0 <= i < n
      ensures StreamAt(suite, c, key, i) == StreamAt(suite, c[..n], key, i)
    {
      assert c[..n][..4 * (i / 4)] == c[..4 * (i / 4)];
      StreamIgnoresTheRest(suite, c, c[..n], key, i);
    }
  }

  // ---------- slices ----------

  // A slice is an array and a length; what lies behind the length is its spare capacity.

  /** How many bytes `encryptBuffer` and `decryptBuffer` append to a slice of n bytes. */
  function Padding(n: nat): (snap: nat)
    requires INFO <= Uint16(n)
    ensures snap < 4
  {
    SnapCount(Uint16(n) - INFO)
  }

  /** Go's `append(buf, make([]byte, k)...)` on a slice of n bytes: in place when the spare capacity holds k, else in a
      copy. */
  method AppendZeros(buf: array<Byte>, n: nat, k: nat) returns (work: array<Byte>)
    requires n <= buf.Length
    modifies buf
    ensures n + k <= work.Length && work[..n + k] == old(buf[..n]) + Zeros(k)
    ensures if n + k <= buf.Length then work == buf && buf[..] == Overwrite(old(buf[..]), n, Zeros(k))
            else fresh(work) && buf[..] == old(buf[..])
  {
    if n + k <= buf.Length {
      work := buf;
      CopyAt(work, n, Zeros(k));
    } else {
      work := new Byte[n + k](_ => 0);
      CopyAt(work, 0, buf[..n]);
    }
  }

  /** Of an array that starts with a padded slice, p written over the body leaves the head and p. */
  lemma CutPadding(a: seq<Byte>, b: seq<Byte>, size: nat, snap: nat, p: seq<Byte>)
    requires INFO <= size <= |b| && INFO + |p| == size + snap
    requires |b| + snap <= |a| && a[..|b| + snap] == b + Zeros(snap)
    ensures a[INFO..size + snap] == (b + Zeros(snap))[INFO..size + snap] && a[INFO..size] == b[INFO..size]
    ensures Overwrite(a, INFO, p)[..size] == b[..INFO] + p[..size - INFO]
  {
    var padded := b + Zeros(snap);
    SliceOfPrefix(a, padded, INFO, size + snap);
    SliceOfPrefix(a, padded, 0, INFO);
    SliceOfPrefix(a, padded, INFO, size);
    SliceOfPrefix(padded, b, INFO, size);
    SliceOfPrefix(padded, b, 0, INFO);
    assert a[..INFO] == a[0..INFO] && b[..INFO] == b[0..INFO];
  }

  /** The array behind a slice of n bytes after `encryptBuffer`: written where the padding fits, and otherwise not. */
  ghost function LeftByCipher(suite: Suite, a: seq<Byte>, n: nat, key: Word): (r: seq<Byte>)
    requires n <= |a| && INFO <= Uint16(n)
    ensures |r| == |a|
  {
    var b := a[..n];
    if n + Padding(n) > |a| then a
    else Overwrite(Overwrite(a, n, Zeros(Padding(n))), INFO, Encipher(suite, PaddedBody(b), key))
  }

  /** `encryptBuffer` of the first n bytes of an array. */
  method EncryptInPlace(suite: Suite, buf: array<Byte>, n: nat, xorKey: Word) returns (work: array<Byte>, next: Word)
    requires n <= buf.Length && INFO <= Uint16(n)
    modifies buf
    ensures Uint16(n) <= work.Length
    ensures (work[..Uint16(n)], next) == EncryptBuffer(suite, old(buf[..n]), xorKey)
    ensures buf[..] == LeftByCipher(suite, old(buf[..]), n, xorKey)
    ensures if n + Padding(n) <= buf.Length then work == buf else fresh(work)
  {
    hide Encipher, KeyAfter, Overwrite, SnapCount;
    ghost var b := buf[..n];
    var size := Uint16(n);
    var snap := SnapCount(size - INFO);
    work := AppendZeros(buf, n, snap);
    ghost var a := work[..];
    assert a[..n + snap] == work[..n + snap];
    CutPadding(a, b, size, snap, Encipher(suite, PaddedBody(b), xorKey));
    next := EncryptWords(suite, work, xorKey, size - INFO, snap);
    assert work[..size] == work[..][..size];
  }

  /** The array behind a slice of n bytes after `decryptBuffer`. */
  ghost function LeftByDecipher(suite: Suite, a: seq<Byte>, n: nat, key: Word): (r: seq<Byte>)
    requires n <= |a| && INFO <= Uint16(n)
    ensures |r| == |a|
  {
    var full := Rebuild(suite, a[..n][INFO..Uint16(n)], key);
    if n + Padding(n) > |a| then a
    else Overwrite(Overwrite(a, n, Zeros(Padding(n))), INFO, Decipher(suite, full, key))
  }

  /** `decryptBuffer` of the first n bytes of an array. */
  method DecryptInPlace(suite: Suite, buf: array<Byte>, n: nat, xorKey: Word) returns (work: array<Byte>, next: Word)
    requires n <= buf.Length && INFO <= Uint16(n)
    modifies buf
    ensures Uint16(n) <= work.Length
    ensures (work[..Uint16(n)], next) == DecryptBuffer(suite, old(buf[..n]), xorKey)
    ensures buf[..] == LeftByDecipher(suite, old(buf[..]), n, xorKey)
    ensures if n + Padding(n) <= buf.Length then work == buf else fresh(work)
  {
    hide Decipher, Rebuild, KeyAfter, Overwrite, SnapCount;
    ghost var b := buf[..n];
    var size := Uint16(n);
    var snap := SnapCount(size - INFO);
    work := AppendZeros(buf, n, snap);
    ghost var c := b[INFO..size];
    ghost var full := Rebuild(suite, c, xorKey);
    ghost var a := work[..];
    assert a[..n + snap] == work[..n + snap];
    CutPadding(a, b, size, snap, Decipher(suite, full, xorKey));
    RebuildExtends(suite, c, xorKey);
    DecipherPrefix(suite, full, xorKey, |c|);
    next := DecryptWords(suite, work, xorKey, size - INFO, snap, size);
    assert work[..size] == work[..][..size];
  }
}

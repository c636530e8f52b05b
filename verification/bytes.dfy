/** Bytes, 32-bit words as four little-endian bytes, and the byte arithmetic of the packet coder. */
module Bytes {
  type Byte = x: int | 0 <= x < 256

  // ---------- exclusive or ----------

  /** Bitwise exclusive or of two naturals, lowest bit first. */
  function XorNat(a: nat, b: nat): nat
    decreases a + b
  {
    if a == 0 && b == 0 then 0 else (a + b) % 2 + 2 * XorNat(a / 2, b / 2)
  }

  function Pow2(n: nat): nat {
    if n == 0 then 1 else 2 * Pow2(n - 1)
  }

  lemma {:induction false} XorNatBound(a: nat, b: nat, n: nat)
    requires a < Pow2(n) && b < Pow2(n)
    ensures XorNat(a, b) < Pow2(n)
    decreases n
  {
    if n > 0 {
      XorNatBound(a / 2, b / 2, n - 1);
    }
  }

  lemma {:induction false} XorNatCancels(a: nat, b: nat)
    ensures XorNat(XorNat(a, b), b) == a
    decreases a + b
  {
    if a != 0 || b != 0 {
      var high := XorNat(a / 2, b / 2);
      var x := XorNat(a, b);
      assert x == (a + b) % 2 + 2 * high;
      assert x / 2 == high && (x + b) % 2 == a % 2;
      XorNatCancels(a / 2, b / 2);
    }
  }

  lemma {:induction false} XorNatZeroLeft(b: nat)
    ensures XorNat(0, b) == b
  {
    if b != 0 {
      XorNatZeroLeft(b / 2);
    }
  }

  function Bit(n: nat, t: nat): nat {
    if t == 0 then n % 2 else Bit(n / 2, t - 1)
  }

  lemma LowAndHigh(low: nat, high: nat)
    requires low < 2
    ensures (low + 2 * high) % 2 == low && (low + 2 * high) / 2 == high
  {
  }

  lemma ParityOfSum(a: nat, b: nat)
    ensures (a + b) % 2 == (a % 2 + b % 2) % 2
  {
  }

  lemma XorNatHalves(a: nat, b: nat)
    ensures XorNat(a, b) % 2 == (a % 2 + b % 2) % 2 && XorNat(a, b) / 2 == XorNat(a / 2, b / 2)
  {
    var high := XorNat(a / 2, b / 2);
    assert XorNat(a, b) == (a + b) % 2 + 2 * high;
    hide XorNat;
    LowAndHigh((a + b) % 2, high);
    ParityOfSum(a, b);
  }

  lemma {:induction false} BitIsSmall(n: nat, t: nat)
    ensures Bit(n, t) < 2
  {
    if t > 0 {
      BitIsSmall(n / 2, t - 1);
    }
  }

  /** A bit of the result is set exactly when it is set in one of the two. */
  lemma {:induction false} XorNatBit(a: nat, b: nat, t: nat)
    ensures Bit(XorNat(a, b), t) == (Bit(a, t) + Bit(b, t)) % 2
    decreases t
  {
    var high := XorNat(a / 2, b / 2);
    XorNatHalves(a, b);
    if t > 0 {
      XorNatBit(a / 2, b / 2, t - 1);
      BitIsSmall(a / 2, t - 1);
      BitIsSmall(b / 2, t - 1);
    }
  }

  /** The `^=` of two bytes. */
  function Xor(a: Byte, b: Byte): Byte {
    XorNatBound(a, b, 8);
    XorNat(a, b)
  }

  lemma XorBit(a: Byte, b: Byte, t: nat)
    ensures Bit(Xor(a, b), t) == (Bit(a, t) + Bit(b, t)) % 2
  {
    XorNatBit(a, b, t);
  }

  lemma XorCancels(a: Byte, b: Byte)
    ensures Xor(Xor(a, b), b) == a
  {
    XorNatCancels(a, b);
  }

  lemma XorZeroLeft(b: Byte)
    ensures Xor(0, b) == b
  {
    XorNatZeroLeft(b);
  }

  lemma XorZeroMeansEqual(a: Byte, b: Byte)
    requires Xor(a, b) == 0
    ensures a == b
  {
    XorCancels(a, b);
    XorZeroLeft(b);
  }

  lemma XorInjective(a: Byte, b: Byte, k: Byte)
    requires Xor(a, k) == Xor(b, k)
    ensures a == b
  {
    XorCancels(a, k);
    XorCancels(b, k);
  }

  lemma {:induction false} XorNatCommutes(a: nat, b: nat)
    ensures XorNat(a, b) == XorNat(b, a)
    decreases a + b
  {
    if a != 0 || b != 0 {
      XorNatCommutes(a / 2, b / 2);
    }
  }

  /** Two different key bytes never give the same result. */
  lemma XorKeyInjective(a: Byte, k: Byte, k': Byte)
    requires Xor(a, k) == Xor(a, k')
    ensures k == k'
  {
    XorNatCommutes(a, k);
    XorNatCommutes(a, k');
    XorInjective(k, k', a);
  }

  // ---------- words ----------

  /** A `uint32` in the byte order in which it lies in memory. */
  datatype Word = Word(b0: Byte, b1: Byte, b2: Byte, b3: Byte) {
    function At(t: int): Byte
      requires 0 <= t < 4
    {
      if t == 0 then b0 else if t == 1 then b1 else if t == 2 then b2 else b3
    }

    function Bytes(): seq<Byte> {
      [b0, b1, b2, b3]
    }

    function Low(): nat {
      b0 + 256 * b1
    }

    function High(): nat {
      b2 + 256 * b3
    }
  }

  const NO_KEY := Word(0, 0, 0, 0)

  function WordAt(s: seq<Byte>, o: nat): Word
    requires o + 4 <= |s|
  {
    Word(s[o], s[o + 1], s[o + 2], s[o + 3])
  }

  /** Conversion to `uint16`: the high bits are dropped. */
  function Uint16(n: nat): (r: nat)
    ensures r < 0x1_0000 && r <= n && (r == n <==> n < 0x1_0000)
  {
    if n < 0x1_0000 then n else Uint16(n - 0x1_0000)
  }

  lemma {:induction false} Uint16Minus(n: nat, k: nat)
    requires k <= Uint16(n)
    ensures Uint16(n - k) == Uint16(n) - k
  {
    if n >= 0x1_0000 {
      Uint16Minus(n - 0x1_0000, k);
    }
  }

  lemma {:induction false} Uint16IsRemainder(n: nat)
    ensures Uint16(n) == n % 0x1_0000
  {
    if n >= 0x1_0000 {
      Uint16IsRemainder(n - 0x1_0000);
    }
  }

  /** The two bytes `binary.LittleEndian` writes for a 16-bit value. */
  function Uint16Bytes(v: nat): seq<Byte>
    requires v < 0x1_0000
  {
    [v % 256, v / 256]
  }

  function Uint16At(s: seq<Byte>, o: nat): nat
    requires o + 2 <= |s|
  {
    s[o] as int + 256 * s[o + 1] as int
  }

  function Zeros(n: nat): (z: seq<Byte>)
    ensures |z| == n && forall i :: 0 <= i < n ==> z[i] == 0
  {
    seq(n, _ => 0)
  }

  // ---------- writing into a buffer ----------

  /** b after c has been written at offset o. */
  function Overwrite(b: seq<Byte>, o: nat, c: seq<Byte>): (r: seq<Byte>)
    requires o + |c| <= |b|
    ensures |r| == |b|
  {
    b[..o] + c + b[o + |c|..]
  }

  lemma OverwriteAt(b: seq<Byte>, o: nat, c: seq<Byte>, k: nat)
    requires o + |c| <= |b| && k < |b|
    ensures Overwrite(b, o, c)[k] == if o <= k < o + |c| then c[k - o] else b[k]
  {
  }

  lemma OverwriteNothing(b: seq<Byte>, o: nat)
    requires o <= |b|
    ensures Overwrite(b, o, []) == b
  {
  }

  /** Writing c and then w behind it writes c + w; what is about to be overwritten is still the original. */
  lemma OverwriteMore(b: seq<Byte>, o: nat, c: seq<Byte>, w: seq<Byte>)
    requires o + |c| + |w| <= |b|
    ensures Overwrite(b, o, c)[o + |c|..o + |c| + |w|] == b[o + |c|..o + |c| + |w|]
    ensures Overwrite(Overwrite(b, o, c), o + |c|, w) == Overwrite(b, o, c + w)
  {
  }

  lemma OverwriteApart(b: seq<Byte>, o: nat, c: seq<Byte>, o': nat, d: seq<Byte>)
    requires o + |c| <= o' && o' + |d| <= |b|
    ensures Overwrite(Overwrite(b, o, c), o', d) == Overwrite(Overwrite(b, o', d), o, c)
  {
  }

  /** What is written later over the same place wins. */
  lemma OverwriteCovers(b: seq<Byte>, o: nat, c: seq<Byte>, o': nat, d: seq<Byte>)
    requires o <= o' && o' + |d| <= o + |c| <= |b|
    ensures Overwrite(Overwrite(b, o', d), o, c) == Overwrite(b, o, c)
  {
  }

  /** Go's `copy(dst[o:], src)` where src fits. */
  method CopyAt(dst: array<Byte>, o: nat, src: seq<Byte>)
    requires o + |src| <= dst.Length
    modifies dst
    ensures dst[..] == Overwrite(old(dst[..]), o, src)
  {
    forall i | 0 <= i < |src| {
      dst[o + i] := src[i];
    }
    assert dst[..] == Overwrite(old(dst[..]), o, src);
  }

  lemma SliceOfPrefix(a: seq<Byte>, p: seq<Byte>, i: nat, j: nat)
    requires |p| <= |a| && a[..|p|] == p && i <= j <= |p|
    ensures a[i..j] == p[i..j]
  {
    assert forall k | i <= k < j :: a[k] == a[..|p|][k];
  }

  // ---------- check sums ----------

  function Total(s: seq<Byte>): nat {
    if s == [] then 0 else Total(s[..|s| - 1]) + s[|s| - 1]
  }

  /** The byte sum, wrapped to eight bits. */
  function Sum(s: seq<Byte>): Byte {
    Total(s) % 256
  }

  /** `^c + 1` on a byte. */
  function Negate(c: Byte): Byte {
    (256 - c) % 256
  }

  lemma {:induction false} TotalUpdate(s: seq<Byte>, i: nat, v: Byte)
    requires i < |s|
    ensures Total(s[i := v]) == Total(s) + v - s[i]
  {
    var last := |s| - 1;
    if i == last {
      assert s[i := v][..last] == s[..last];
    } else {
      assert s[i := v][..last] == s[..last][i := v];
      TotalUpdate(s[..last], i, v);
    }
  }

  lemma AddWrapped(a: int, b: int)
    ensures (a % 256 + b) % 256 == (a + b) % 256
  {
  }

  /** One wrapped addition is one step of the sum. */
  lemma SumSnoc(s: seq<Byte>, b: Byte)
    ensures Sum(s + [b]) == (Sum(s) + b) % 256
  {
    assert (s + [b])[..|s|] == s;
  }

  /** A single changed byte always changes the sum. */
  lemma SumDetectsOneByte(s: seq<Byte>, i: nat, v: Byte)
    requires i < |s| && v != s[i]
    ensures Sum(s[i := v]) != Sum(s)
  {
    TotalUpdate(s, i, v);
    var x: int, y: int := v, s[i];
    assert Total(s[i := v]) - Total(s) == x - y;
  }
}

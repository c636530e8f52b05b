/** Key derivation: `SeedRandMap` and the two places that use it. */
module Keys {
  import opened Bytes

  /** The product and sum wrap to 32 bits before the high half is taken. */
  function SeedRandMap(seed: nat): nat
    requires seed < 0x1_0000
  {
    (seed * 241103 + 2533101) % 0x1_0000_0000 / 0x1_0000
  }

  lemma SeedRandMapIsUint16(seed: nat)
    requires seed < 0x1_0000
    ensures SeedRandMap(seed) < 0x1_0000
  {
  }

  /** `g_dwPacketKey`, 0x1FBFEF1F. */
  const PACKET_KEY := Word(0x1F, 0xEF, 0xBF, 0x1F)

  /** The key that follows a ciphertext word. */
  function Derive(w: Word): Word {
    SeedRandMapIsUint16(w.Low());
    SeedRandMapIsUint16(w.High());
    var low := SeedRandMap(w.Low());
    var high := SeedRandMap(w.High());
    Word(Xor(low % 256, PACKET_KEY.b0), Xor(low / 256, PACKET_KEY.b1),
         Xor(high % 256, PACKET_KEY.b2), Xor(high / 256, PACKET_KEY.b3))
  }

  /** No 16-bit seed maps to the high half of the packet key. */
  lemma SeedRandMapAvoidsPacketKey(seed: nat)
    requires seed < 0x1_0000
    ensures SeedRandMap(seed) != PACKET_KEY.High()
  {
    var x := seed * 241103 + 2533101;
    var q := x / 0x1_0000_0000;
    assert x == q * 0x1_0000_0000 + x % 0x1_0000_0000 && 0 <= q < 4;
    // the last seed that stays below the forbidden range, for each of the four quotients
    var k := if q == 0 then 2198 else if q == 1 then 20012 else if q == 2 then 37826 else 55640;
    assert k * 241103 + 2533101 < q * 0x1_0000_0000 + 0x1FBF_0000;
    assert (k + 1) * 241103 + 2533101 >= q * 0x1_0000_0000 + 0x1FC0_0000;
    assert !(0x1FBF_0000 <= x % 0x1_0000_0000 < 0x1FC0_0000) by {
      assert seed <= k || seed >= k + 1;
    }
  }

  /** A derived key is never zero, whatever the ciphertext. */
  lemma DerivedKeyIsNeverZero(w: Word)
    ensures Derive(w) != NO_KEY
  {
    SeedRandMapIsUint16(w.High());
    var high := SeedRandMap(w.High());
    if Derive(w) == NO_KEY {
      XorZeroMeansEqual(high % 256, PACKET_KEY.b2);
      XorZeroMeansEqual(high / 256, PACKET_KEY.b3);
      SeedRandMapAvoidsPacketKey(w.High());
    }
  }

  /** The key a client makes for its first frame from `rand.Int31()`. The second `SeedRandMap` result is shifted by
      sixteen while it is still a `uint16`, which leaves nothing of it. */
  function InitialKey(random: nat): Word {
    var low := SeedRandMap(random % 0x1_0000);
    Word(Xor(low % 256, PACKET_KEY.b0), Xor(low / 256, PACKET_KEY.b1), PACKET_KEY.b2, PACKET_KEY.b3)
  }

  lemma InitialKeyIsNeverZero(random: nat)
    ensures InitialKey(random) != NO_KEY
  {
  }

  /** `SeedRandMap` without its arithmetic modulo: the second 16-bit digit of the linear form. */
  lemma SeedRandMapIs(seed: nat, m: nat, q: nat, r: nat)
    requires seed < 0x1_0000 && q < 0x1_0000 && r < 0x1_0000
    requires seed * 241103 + 2533101 == m * 0x1_0000_0000 + q * 0x1_0000 + r
    ensures SeedRandMap(seed) == q
  {
    var x := seed * 241103 + 2533101;
    assert x % 0x1_0000_0000 == q * 0x1_0000 + r;
  }

  /** The low half of a derived key comes from the first two bytes of the word, the high half from the last two. */
  lemma DeriveTakesHalves(w: Word)
    ensures var k := Derive(w);
            && Xor(k.b0, 0x1F) + 256 * Xor(k.b1, 0xEF) == SeedRandMap(w.b0 + 256 * w.b1)
            && Xor(k.b2, 0xBF) + 256 * Xor(k.b3, 0x1F) == SeedRandMap(w.b2 + 256 * w.b3)
  {
    hide Xor, SeedRandMap;
    SeedRandMapIsUint16(w.Low());
    SeedRandMapIsUint16(w.High());
    var low, high := SeedRandMap(w.Low()), SeedRandMap(w.High());
    XorCancels(low % 256, 0x1F);
    XorCancels(low / 256, 0xEF);
    XorCancels(high % 256, 0xBF);
    XorCancels(high / 256, 0x1F);
  }

  /** The low half of an initial key comes from the low half of the random number; the high half is always 0x1FBF. */
  lemma InitialKeyTakesLowHalf(random: nat)
    ensures var k := InitialKey(random);
            && Xor(k.b0, 0x1F) + 256 * Xor(k.b1, 0xEF) == SeedRandMap(random % 0x1_0000)
            && k.b2 == 0xBF && k.b3 == 0x1F
  {
    hide Xor, SeedRandMap;
    var low := SeedRandMap(random % 0x1_0000);
    SeedRandMapIsUint16(random % 0x1_0000);
    XorCancels(low % 256, 0x1F);
    XorCancels(low / 256, 0xEF);
  }
}

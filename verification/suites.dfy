/** What the packet coder is built from: two key derivations and a pair of substitution tables. Every property of the
    coder is proved for every suite that is `Valid`; `CHAT` is the one the repository has. */
module Suites {
  import opened Bytes
  import ByteMap
  import Keys

  /** The key of a first frame from a random number, the key after a ciphertext word, and the tables. */
  datatype Suite = Suite(initial: nat -> Word, derive: Word -> Word, send: Byte -> Byte, recv: Byte -> Byte) {
    /** The tables are mutual inverses and no key is zero. */
    ghost predicate Valid() {
      && (forall b: Byte :: recv(send(b)) == b)
      && (forall b: Byte :: send(recv(b)) == b)
      && (forall n: nat :: initial(n) != NO_KEY)
      && (forall w: Word :: derive(w) != NO_KEY)
    }
  }

  const CHAT := Suite(Keys.InitialKey, Keys.Derive, ByteMap.SendByteMap, ByteMap.RecvByteMap)

  lemma ChatIsValid()
    ensures CHAT.Valid()
  {
    hide ByteMap.SendByteMap, ByteMap.RecvByteMap, Keys.Derive, Keys.InitialKey;
    forall b: Byte
      ensures CHAT.recv(CHAT.send(b)) == b && CHAT.send(CHAT.recv(b)) == b
    {
      ByteMap.RecvUndoesSend(b);
      ByteMap.SendUndoesRecv(b);
    }
    forall n: nat
      ensures CHAT.initial(n) != NO_KEY
    {
      Keys.InitialKeyIsNeverZero(n);
    }
    forall w: Word
      ensures CHAT.derive(w) != NO_KEY
    {
      Keys.DerivedKeyIsNeverZero(w);
    }
  }

  /** The repository's suite sends by the first table and derives its keys as util_c.go does. */
  lemma ChatIs(b: Byte, w: Word, n: nat)
    ensures CHAT.send(b) == ByteMap.SendByteMap(b) && CHAT.recv(b) == ByteMap.RecvByteMap(b)
    ensures CHAT.derive(w) == Keys.Derive(w) && CHAT.initial(n) == Keys.InitialKey(n)
    ensures CHAT.send(0x00) == 0x9e && CHAT.send(0xff) == 0x54 && CHAT.recv(0x00) == 0xc7 && CHAT.recv(0xff) == 0x5c
  {
    hide Keys.Derive, Keys.InitialKey;
  }
}

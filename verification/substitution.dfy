/** The byte substitution with its rolling round: `mapSendByte` and `mapRecvByte`. */
module Substitution {
  import opened Bytes
  import opened Suites

  /** `mapSendByte` at a given round. */
  function MapSend(suite: Suite, cb: Byte, round: Byte): Byte {
    suite.send((cb + round) % 256)
  }

  /** `mapRecvByte` at a given round. */
  function MapRecv(suite: Suite, cb: Byte, round: Byte): Byte {
    (suite.recv(cb) - round) % 256
  }

  lemma MapRecvUndoesMapSend(suite: Suite, cb: Byte, round: Byte)
    requires suite.Valid()
    ensures MapRecv(suite, MapSend(suite, cb, round), round) == cb
  {
  }

  lemma MapSendUndoesMapRecv(suite: Suite, cb: Byte, round: Byte)
    requires suite.Valid()
    ensures MapSend(suite, MapRecv(suite, cb, round), round) == cb
  {
    var x := suite.recv(cb);
    assert ((x - round) % 256 + round) % 256 == x;
  }

  /** The round after n bytes: it grows by three a byte. */
  function RoundAfter(round: Byte, n: nat): Byte {
    (round + 3 * n) % 256
  }

  lemma RoundAfterPlus(round: Byte, m: nat, n: nat)
    ensures RoundAfter(RoundAfter(round, m), n) == RoundAfter(round, m + n)
  {
  }

  /** `mapSendByte` on each byte of a string in turn. */
  function Substitute(suite: Suite, round: Byte, s: seq<Byte>): (r: seq<Byte>)
    ensures |r| == |s|
  {
    seq(|s|, i requires 0 <= i < |s| => MapSend(suite, s[i], RoundAfter(round, i)))
  }

  /** `mapRecvByte` on each byte of a string in turn. */
  function Restore(suite: Suite, round: Byte, s: seq<Byte>): (r: seq<Byte>)
    ensures |r| == |s|
  {
    seq(|s|, i requires 0 <= i < |s| => MapRecv(suite, s[i], RoundAfter(round, i)))
  }

  lemma RestoreUndoesSubstitute(suite: Suite, round: Byte, s: seq<Byte>)
    requires suite.Valid()
    ensures Restore(suite, round, Substitute(suite, round, s)) == s
  {
    hide MapSend, MapRecv, RoundAfter;
    forall i | 0 <= i < |s|
      ensures Restore(suite, round, Substitute(suite, round, s))[i] == s[i]
    {
      MapRecvUndoesMapSend(suite, s[i], RoundAfter(round, i));
    }
  }

  lemma SubstituteUndoesRestore(suite: Suite, round: Byte, s: seq<Byte>)
    requires suite.Valid()
    ensures Substitute(suite, round, Restore(suite, round, s)) == s
  {
    hide MapSend, MapRecv, RoundAfter;
    forall i | 0 <= i < |s|
      ensures Substitute(suite, round, Restore(suite, round, s))[i] == s[i]
    {
      MapSendUndoesMapRecv(suite, s[i], RoundAfter(round, i));
    }
  }

  /** A changed ciphertext byte restores to a changed byte, and nothing else changes. */
  lemma RestoreUpdate(suite: Suite, round: Byte, s: seq<Byte>, i: nat, v: Byte)
    requires suite.Valid() && i < |s| && v != s[i]
    ensures var r := Restore(suite, round, s);
            var r' := Restore(suite, round, s[i := v]);
            r'[i] != r[i] && r' == r[i := r'[i]]
  {
    hide MapSend, MapRecv, RoundAfter;
    MapSendUndoesMapRecv(suite, v, RoundAfter(round, i));
    MapSendUndoesMapRecv(suite, s[i], RoundAfter(round, i));
  }

  /** The round is added to the byte before the table is looked up. */
  lemma MapSendShifts(suite: Suite, cb: Byte, round: Byte)
    ensures MapSend(suite, cb, round) == MapSend(suite, (cb + round) % 256, 0)
    ensures MapSend(suite, cb, 0) == suite.send(cb)
  {
  }

  /** The round grows by three with every byte. */
  lemma RoundGrows(round: Byte, n: nat)
    ensures RoundAfter(round, 0) == round && RoundAfter(round, n + 1) == (RoundAfter(round, n) + 3) % 256
  {
    RoundAfterPlus(round, n, 1);
  }

  /** Where a byte of a string comes to lie in the table. */
  lemma SubstituteAt(suite: Suite, round: Byte, s: seq<Byte>, i: nat)
    requires i < |s|
    ensures Substitute(suite, round, s)[i] == suite.send((s[i] + round + 3 * i) % 256)
  {
    AddWrapped(round + 3 * i, s[i]);
  }
}

# Verification of the chat server

Dafny models, with proofs, of the core of the chat server in `chat_test/src/chat-system`: the packet coder and its
framing, the timer heap, the bad-word filter with the chat history behind it, and the life of a connection.

## What is modelled

**The packet coder.** Client and server each keep, for each direction, a round, a key and a packet count. A frame's
bytes from the fourth on are summed into a check byte, passed through a substitution table at a round that moves by
three a byte, and enciphered word by word under a key that is derived anew from each ciphertext word; a ragged last
word is padded and cut. A client's first frame carries its key, which the server takes for both directions.
`cipher.dfy`, `substitution.dfy` and `frames.dfy` say what this does to byte strings and prove the round trips;
`cipherloops.dfy` and `coders.dfy` have the loops and objects as the source has them, over arrays in place, proved
against those functions; `session.dfy` runs both ends over two channels; `corruption.dfy` says what damage does.
`wireformat.dfy` gives every byte of a frame, and every answer of the two ends, in closed form. `keys.dfy` and
`bytemap.dfy` hold the key derivation and the tables. A byte is a number below 256, a key four bytes.

**Framing and messages.** `framing.dfy` has `RecvMsg` as a parser over the bytes of a connection, with the proxy form of
a head; `messages.dfy` has it as staged reads, together with `NetMsg` and the broadcast of one message to many clients.

**The timer.** `heaporder.dfy` is about order among keys; `timer.dfy` has the heap of items that know their place, the
one signal that is set for the head, the channel that holds its tick, and the goroutine that takes the tick, pops and
calls back; `timerruns.dfy` is about whole runs. The source can pop an item before its time: a tick that is under way
is answered with whatever is then at the head. Ticks are called honest while that has expired, and each operation
states exactly when it keeps them so.

**The filter.** `scan.dfy` says what the filter is to do without an index; `badwords.dfy` has the index and the scan in
place; `filterlaws.dfy` has what the filter promises about messages; `history.dfy` has the history and the gate before
it.

**Connections.** `lifecycle.dfy` and `load.dfy` are step systems: a state, the events that can happen next, and
invariants over every run, with what each event achieves and where a writer or a stop that is left alone ends.

Where the source promises less than its names suggest, the model follows the code: the initial key's high half is
constant because a shift is made in sixteen bits (chat_test/src/chat-system/coder/ClientCoder.go:58), `Reset` of a
timer leaves the signal as it was, and the tick is received before the lock is taken
(chat_test/src/chat-system/timer/timer.go:238 and 280).

Run `dafny verify dfyconfig.toml` to check everything.

## Model

| member | source | states |
|---|---|---|
| Session.SessionDelivers | chat_test/src/chat-system/coder/ClientCoder.go:32-116 | Start both coders fresh and take any interleaving of client-encrypt, server-decrypt, server-encrypt and client-decrypt over two FIFO channels, with any buffers of less than 2^16 bytes (accepted or refused) and fewer than 2^32 accepted client frames: every frame that has come out, in either direction, is the sent one in byte 0 and bytes 4.., sent = received followed by in flight in both directions, and once the server has had one frame it never again refuses a sendable buffer for want of a key |
| Session.LongSessionDelivers | chat_test/src/chat-system/coder/ServerCoder.go:32-107 | The same for runs of any length, across every wrap of the packet count and the re-keying it brings, if each reply is received in its period: the client's packet count is not zero, and the server sealed the reply when it had taken as many keys as the client has made |
| Session.UpstreamDelivers | chat_test/src/chat-system/coder/ServerCoder.go:68-107 | The client-to-server half of the above for runs of any length, across the wrap of the 32-bit packet count and the re-keying it brings; in every state the frames in flight take the server's receive line exactly to the client's send line |
| Session.DownstreamDelivers | chat_test/src/chat-system/coder/ServerCoder.go:32-66 | The server-to-client half of the above, with the invariant that explains it: while the replies in flight are sealed under the client's last key, they take the client's receive line exactly to the server's send line; while that key is still on its way up, nothing travels down and the key on its way is the client's receive key |
| Session.KeysAreCounted | chat_test/src/chat-system/coder/ClientCoder.go:54-78 | In every run both packet counts are the numbers of frames in 32 bits, the keys the client has made are those the server has taken and those on their way, and the server has a key exactly when it has had a frame |
| Session.FirstPeriod | chat_test/src/chat-system/coder/ClientCoder.go:54-63 | With fewer than 2^32 client frames every reply is in its period |
| Session.ChatSessionDelivers | chat_test/src/chat-system/coder/keys.go:9-11 | SessionDelivers for the repository's own tables and key derivation |
| Session.ServerAdoptsKey | chat_test/src/chat-system/coder/ServerCoder.go:83-90 | Decrypting a frame of a client, the server takes its key for its own sending exactly when its receive count is zero, that key is not zero, and its send round and count are left alone |
| Session.KeyedFrameBringsKey | chat_test/src/chat-system/coder/ClientCoder.go:68-73 | A keyed frame is four bytes longer, says so in its length field, and carries the sender's key at offset 8 |
| Session.ReplyRecoveredIff | chat_test/src/chat-system/coder/ClientCoder.go:81-116 | A server frame at the client's receive round is recovered if and only if the client's packet count is not zero and the two keys agree: exactly what the wrap of the count breaks |
| Session.CountIsSent | chat_test/src/chat-system/coder/ClientCoder.go:76-78 | In every run the client's packet count is the number of frames it has sent, in 32 bits |
| Session.WrapRefusesReplies | chat_test/src/chat-system/coder/ClientCoder.go:81-86 | In every run the client refuses a reply, whatever its bytes, as if it had sent nothing exactly when the number of its frames is a multiple of 2^32: why SessionDelivers is bounded |
| Session.WrapIsReached | chat_test/src/chat-system/coder/ClientCoder.go:54-78 | A client that sends n acceptable frames has sent n, for every n: the run that wraps the count exists |
| Session.OtherKeyOtherFrame | chat_test/src/chat-system/coder/util_c.go:36-60 | A frame that opens under one key never opens to the same bytes under another |
| Session.EventsTakeEffect | chat_test/src/chat-system/coder/ClientCoder.go:32-116 | In every run each event has its whole effect: a client frame of 8 to 16384 bytes is sent, a server frame of that length is sent exactly when a client frame has been received, no other frame is, receiving takes the oldest frame, and the other direction is left alone |
| WireFormat.FrameByte | chat_test/src/chat-system/coder/ClientCoder.go:43-79 | Every byte of a frame from the fourth on, in closed form: the table at the byte plus the round plus three for each byte before it, exclusive-or the byte of the key of its word, which is the line's key for the first word and derived from the four frame bytes before it for any other |
| WireFormat.FrameHead | chat_test/src/chat-system/coder/ClientCoder.go:42-52 | The first four bytes: byte 0 as given, a check byte with which the body sums to zero, and the length, low byte first |
| WireFormat.LineAfterFrame | chat_test/src/chat-system/coder/util_c.go:18-34 | The line after a frame: three rounds for each byte, one packet more up to the wrap, and the key derived from the last four bytes, in which the bytes the frame is short of a word are those of the key of that word |
| WireFormat.KeyedFrame | chat_test/src/chat-system/coder/utils.go:9-36 | A keyed frame is the plain frame of the same line with the key behind its eighth byte and a length field that is four larger |
| WireFormat.SendAnswers | chat_test/src/chat-system/coder/ClientCoder.go:33-41 | A buffer is taken exactly if its length, in 16 bits, is from 8 to 16384; the two errors are for shorter and longer ones |
| WireFormat.ReceiveAnswers | chat_test/src/chat-system/coder/ServerCoder.go:68-103 | Exactly which buffers give each of the errors of Decrypt, in the order of its checks; only a failed check sum changes the line, by the rounds of the frame and, in a keyed frame, its key |
| WireFormat.OpenedWasSealed | chat_test/src/chat-system/coder/ClientCoder.go:81-116 | The converse of delivery: whatever Decrypt accepts on a line is the frame that Encrypt makes on that line of what came out, and both lead to the same next line |
| WireFormat.ClientFrameIs | chat_test/src/chat-system/coder/ClientCoder.go:54-79 | At packet count zero the client makes a key, shows it at offset 8, seals the frame under it and will receive under it; at any other count it uses the key in hand and its receive key stays |
| WireFormat.ClientRefuses | chat_test/src/chat-system/coder/ClientCoder.go:33-41 | A refused buffer leaves the client as it was |
| WireFormat.ServerTakesKey | chat_test/src/chat-system/coder/ServerCoder.go:83-90 | The server's send key becomes the four bytes at offset 8 exactly when its packet count is zero and the frame has at least twelve bytes and the length it says, whether or not the check then fails |
| WireFormat.ServerSends | chat_test/src/chat-system/coder/ServerCoder.go:32-66 | The three errors of the server's Encrypt, each with the exact buffers and keys that give it; a refusal changes nothing, and an accepted buffer is sealed on the server's line |
| WireFormat.ClientReads | chat_test/src/chat-system/coder/ClientCoder.go:81-86 | The client refuses as having sent nothing exactly at packet count zero and is unchanged by that; at any other it opens the frame on its receive line, and its send line stays |
| Frames.FrameRoundTrip | chat_test/src/chat-system/coder/ClientCoder.go:32-116 | For every accepted buffer, keyed or not, the wire form has the right length and length field and the sender's byte 0, and decryption from the same line gives byte 0 and bytes 4.. back and ends on the sender's line; a keyed frame needs no key at the receiver |
| Frames.FrameSurvivesIff | chat_test/src/chat-system/coder/ClientCoder.go:33-41 | Of the buffers Encrypt accepts (it looks at the length in 16 bits), exactly those shorter than 2^16 arrive as they were sent; a longer one arrives cut |
| Frames.OpenUndoesSend | chat_test/src/chat-system/coder/ServerCoder.go:92-106 | Deciphering, restoring and checking undoes summing, substituting and enciphering, and leaves both ends with equal round, key and count |
| Frames.ExtractUndoesInsert | chat_test/src/chat-system/coder/utils.go:9-65 | extractKey(insertKey(b, k, h), h) = (b, k) for every buffer that holds the head and every key, with the length field wrapping at 16 bits |
| Frames.InsertUndoesExtract | chat_test/src/chat-system/coder/utils.go:38-65 | And the other way round: whatever extractKey accepts is what insertKey makes of its two results |
| Cipher.DecryptUndoesEncrypt | chat_test/src/chat-system/coder/utils.go:77-114 | decryptBuffer gives back what encryptBuffer was given, up to its 16-bit length, under every key, and both return the same next key when nothing was cut |
| Cipher.RoundTripIff | chat_test/src/chat-system/coder/utils.go:77-82 | A buffer of any length survives encryptBuffer and decryptBuffer if and only if its length fits 16 bits |
| Cipher.RebuildRestoresPadding | chat_test/src/chat-system/coder/util_c.go:44-48 | The bytes the receiver copies in from the high end of its current key are the ciphertext of the zero padding that the sender cut off |
| Cipher.EncipherIsChained | chat_test/src/chat-system/coder/util_c.go:18-34 | Every ciphertext byte is the plain byte under a key stream in which the key of word j is derived from ciphertext word j-1 |
| Cipher.ChainedIsUnique | chat_test/src/chat-system/coder/util_c.go:18-34 | No other byte string has that property: the chain equation determines the ciphertext |
| Cipher.DecipherUndoesEncipher | chat_test/src/chat-system/coder/util_c.go:36-60 | The closed form of decryption inverts encryption for every length, ragged or not |
| Cipher.EncipherUndoesDecipher | chat_test/src/chat-system/coder/util_c.go:18-60 | Every byte string is a ciphertext: encryption inverts decryption too |
| Cipher.EncryptedBody | chat_test/src/chat-system/coder/utils.go:77-94 | The padding leaves no trace in the bytes that are sent; the key that is returned is the one after the padded last word |
| Cipher.EncipheredByte | chat_test/src/chat-system/coder/util_c.go:18-34 | A byte of the first word is enciphered under the key, any other under the key derived from the four ciphertext bytes of the word before |
| Cipher.NextKeyByBytes | chat_test/src/chat-system/coder/util_c.go:44-57 | The key after a ciphertext, from the bytes of its last word; where that is ragged the bytes of the word's own key stand in |
| Cipher.KeyAfterIsNeverZero | chat_test/src/chat-system/coder/util_c.go:27-31 | From a non-zero key no ciphertext leads to a zero key |
| CipherLoops.EncryptWords | chat_test/src/chat-system/coder/util_c.go:18-34 | The in-place loop leaves the unique chained ciphertext over the body, every other byte as it was, and returns the key after it |
| CipherLoops.DecryptWords | chat_test/src/chat-system/coder/util_c.go:36-60 | The in-place loop, with its late copy of key bytes behind the data, leaves the closed form "plain word j = cipher word j xor key of cipher word j-1" of the rebuilt ciphertext and returns the sender's next key |
| CipherLoops.EncryptInPlace | chat_test/src/chat-system/coder/utils.go:77-94 | encryptBuffer against its specification for a slice with any spare capacity: which array is returned, and what every byte of the argument's array holds afterwards, in place where the padding fits and untouched where append has to copy |
| CipherLoops.DecryptInPlace | chat_test/src/chat-system/coder/utils.go:96-114 | decryptBuffer against its specification, with the same account of the argument's array |
| ByteMap.RecvUndoesSend | chat_test/src/chat-system/coder/keys.go:9-11 | The receive table undoes the send table at all 256 entries |
| ByteMap.SendUndoesRecv | chat_test/src/chat-system/coder/keys.go:9-11 | And the send table undoes the receive table |
| Substitution.RestoreUndoesSubstitute | chat_test/src/chat-system/coder/ClientCoder.go:118-128 | For any bytes and equal starting rounds, mapRecvByte along the string undoes mapSendByte along it |
| Substitution.SubstituteUndoesRestore | chat_test/src/chat-system/coder/ServerCoder.go:109-119 | And the other way round |
| Substitution.MapSendShifts | chat_test/src/chat-system/coder/ClientCoder.go:118-122 | The round is added to the byte before the table is looked up |
| Substitution.SubstituteAt | chat_test/src/chat-system/coder/ClientCoder.go:118-122 | Byte i of a string goes to the table entry at the byte plus the round plus 3i |
| Substitution.RoundAfterPlus | chat_test/src/chat-system/coder/ClientCoder.go:118-128 | The round after m and then n bytes is the round after m + n: frame boundaries do not matter to it |
| Substitution.RestoreUpdate | chat_test/src/chat-system/coder/ServerCoder.go:115-119 | One changed byte restores to one changed byte at the same place |
| Keys.SeedRandMapAvoidsPacketKey | chat_test/src/chat-system/coder/util_c.go:13-16 | SeedRandMap of no 16-bit seed is 0x1FBF, the high half of the packet key |
| Keys.DerivedKeyIsNeverZero | chat_test/src/chat-system/coder/util_c.go:27-31 | So the key derived from any ciphertext word is not zero |
| Keys.DeriveTakesHalves | chat_test/src/chat-system/coder/util_c.go:27-31 | The low half of the key after a word is SeedRandMap of its first two bytes, the high half that of its last two, each exclusive-or the packet key 0x1FBFEF1F |
| Keys.SeedRandMapIs | chat_test/src/chat-system/coder/util_c.go:13-16 | SeedRandMap is the middle digit of seed * 241103 + 2533101 to the base 2^16, whatever the digits above it |
| Keys.InitialKeyTakesLowHalf | chat_test/src/chat-system/coder/ClientCoder.go:54-60 | Only the low sixteen bits of the random number reach the initial key; its high half is 0x1FBF |
| Bytes.XorBit | chat_test/src/chat-system/coder/util_c.go:24 | A bit of a byte exclusive-or a byte is set exactly when it is set in one of the two |
| Keys.InitialKeyIsNeverZero | chat_test/src/chat-system/coder/ClientCoder.go:54-63 | And a client's initial key is not zero, whatever the random number (its high half is always the packet key's) |
| Suites.ChatIsValid | chat_test/src/chat-system/coder/keys.go:9-11 | The repository's tables and derivations meet everything that is asked of a suite |
| Suites.ChatIs | chat_test/src/chat-system/coder/keys.go:9-11 | The repository's suite sends by the first table and receives by the second, with the derivations of util_c.go and of the client |
| Coders.StageInPlace | chat_test/src/chat-system/coder/ClientCoder.go:43-52 | The send pass leaves the substituted body under a head with the negated check sum and the length, and the round three per byte further |
| Coders.RestoreInPlace | chat_test/src/chat-system/coder/ServerCoder.go:95-99 | The receive pass restores the body in place and returns the sum of check byte and restored bytes |
| Coders.ClientCoder.Encrypt | chat_test/src/chat-system/coder/ClientCoder.go:32-79 | Result, all six fields and the final contents of the argument's array, spare capacity included, for accepted and refused buffers, agree with the client half of the session model |
| Coders.ClientCoder.Decrypt | chat_test/src/chat-system/coder/ClientCoder.go:81-116 | The same for Decrypt, with its four errors in their order and the round that a failed check leaves advanced |
| Coders.ServerCoder.Encrypt | chat_test/src/chat-system/coder/ServerCoder.go:32-66 | The same for the server, with the refusal while the key is zero |
| Coders.ServerCoder.Decrypt | chat_test/src/chat-system/coder/ServerCoder.go:68-107 | The same, with the adoption of the key of a first frame even when its check then fails |
| Corruption.DecipherSynchronises | chat_test/src/chat-system/coder/util_c.go:36-60 | Ciphertexts that differ in word j only decipher to texts that differ at most in words j and j+1 |
| Corruption.DecryptSynchronises | chat_test/src/chat-system/coder/utils.go:96-114 | The same of whole buffers through decryptBuffer, whatever their length |
| Corruption.LastWordDamageIsCaught | chat_test/src/chat-system/coder/ServerCoder.go:92-103 | From a state that accepts a non-key frame, changing exactly one byte of its last, possibly partial, cipher word always fails the check |
| Corruption.HeadDamage | chat_test/src/chat-system/coder/ClientCoder.go:90-111 | Of the four unenciphered bytes: a changed check byte always fails the check, a changed length byte is always a size mismatch, and a changed byte 0 always goes through |
| Framing.ParseReadsOne | chat_test/src/chat-system/tcp/netdelegate.go:202-251 | Off any stream that starts with a well-framed frame, plain or in the proxy form with four uncounted address bytes, one read takes exactly that frame and leaves exactly the rest |
| Framing.ParseAnswers | chat_test/src/chat-system/tcp/netdelegate.go:202-251 | What one read makes of any stream: a frame of the length its field says if it starts with 0x89, the same without four address bytes if it starts with 0x99, a bare head for a length of eight or less, and otherwise nothing: a wrong first byte, too few bytes, or a length over the limit |
| Framing.ParsedWasFramed | chat_test/src/chat-system/tcp/netdelegate.go:209-251 | The converse: whatever a read accepts with a length field of at least eight lay on the wire as a well-framed frame in one of the two forms |
| Framing.ParseInvertsStream | chat_test/src/chat-system/tcp/netdelegate.go:202-251 | Any list of well-framed frames laid end to end, each in either form, is read back as that list, in order, with nothing left |
| Framing.StreamDelivers | chat_test/src/chat-system/tcp/netdelegate.go:202-265 | Frames of either end that carry its line forward, a client's first one keyed, laid end to end as bytes in either form, are all parsed, decrypted and delivered, and the reading end ends on the sender's line |
| Framing.SessionStreamDelivers | chat_test/src/chat-system/tcp/netdelegate.go:202-265 | So in every reachable state of a session whatever is on its way up arrives when it is sent as one byte stream |
| Framing.RepliesDeliver | chat_test/src/chat-system/tcp/netdelegate.go:202-265 | And whatever is on its way down, in runs of any length whose replies are received in their period |
| Framing.SessionRepliesDeliver | chat_test/src/chat-system/tcp/netdelegate.go:202-265 | And, with fewer than 2^32 client frames, whatever is on its way down in any run |
| Framing.RefusalEndsStream | chat_test/src/chat-system/tcp/tcpclient.go:348-360 | A frame that the reading end refuses ends the stream: what was sealed before it is delivered and nothing behind it |
| Messages.ReadFrame | chat_test/src/chat-system/tcp/netdelegate.go:202-251 | The staged reads, with the buffer grown and rewritten on the way, accept and reject the same streams as the parser, return the same frame and leave the same bytes unread |
| Messages.RecvMsg | chat_test/src/chat-system/tcp/netdelegate.go:181-265 | For a connection with a coder of either end or none: a message comes out if and only if the stream parses and the coder, if there is one, accepts the frame; it then holds the decrypted bytes, and the coder has moved on by that one frame |
| Messages.NetMsg.SetBody | chat_test/src/chat-system/tcp/netmsg.go:108-116 | Whatever the old and the new length, the eight head bytes stay and the body, as Body reads it, becomes the data |
| Messages.NetMsg.SetMainCmd | chat_test/src/chat-system/tcp/netmsg.go:72-78 | Writes the two little-endian bytes that MainCmd reads and nothing else |
| Messages.NetMsg.SetSubCmd | chat_test/src/chat-system/tcp/netmsg.go:80-86 | Writes the two little-endian bytes that SubCmd reads and nothing else |
| Messages.NetMsg.Encrypt | chat_test/src/chat-system/tcp/netmsg.go:126-135 | The message and its buffer are unchanged although the coder overwrites its argument; the wire bytes are the coder's, or the plain buffer when it refuses or there is none |
| Messages.NetMsg.Decrypt | chat_test/src/chat-system/tcp/netmsg.go:137-148 | On success the message holds the decrypted bytes; in every case the coder's state and result are those of the session model |
| Messages.Outlet.SendMsg | chat_test/src/chat-system/tcp/tcpclient.go:308-346 | The message is queued behind the others exactly when the client runs and its queue is shorter than its capacity; an error is returned exactly when it runs and its queue is not |
| Messages.Outlet.Write | chat_test/src/chat-system/tcp/netdelegate.go:267-297 | The writer takes the oldest message and encrypts it under the line its coder then holds; the frame is written whole, or not at all when it is longer than maxPackLen or shorter than a head, and the coder has moved on either way |
| Messages.Broadcast | chat_test/src/chat-system/service.go:58-68 | The one message is queued, last, for every client that runs with a queue shorter than its capacity, and nothing else changes |
| Messages.BroadcastMany | chat_test/src/chat-system/service.go:58-68 | Of broadcasts one after the other, with no writer moving, each running client queues in order as many as it has room for, and a stopped client none |
| Messages.WriteEach | chat_test/src/chat-system/tcp/tcpclient.go:269-280 | When all writers send their next message, though the queues share it, no message or buffer is changed, and what each writes and each coder's new state depend on its own coder only |
| Messages.BroadcastIsRecovered | chat_test/src/chat-system/service.go:58-68 | Whatever states the connections are in, every client that keeps its server's line recovers the same two commands and the same body, and still keeps the line afterwards |
| Messages.BroadcastReaches | chat_test/src/chat-system/service.go:58-68 | From the call to the clients: after a broadcast to idle connections and one turn of each writer, every client that has its server's line reads off its bytes a message with the same two commands and the same body, and still has the line |
| HeapOrder.RootIsLeast | chat_test/src/chat-system/timer/timer.go:77-84 | In a heap no key is less than the one at index 0 |
| HeapOrder.DownSwap | chat_test/src/chat-system/timer/timer.go:48-75 | One step of sifting down keeps order everywhere but at the place the sifted key moved to |
| HeapOrder.DownDone | chat_test/src/chat-system/timer/timer.go:48-75 | Where sifting down stops, only a key too small for its parent can be out of order |
| HeapOrder.UpSwap | chat_test/src/chat-system/timer/timer.go:101-105 | One step of sifting up keeps order everywhere but above the place the sifted key moved to |
| HeapOrder.RemoveBut | chat_test/src/chat-system/timer/timer.go:48-60 | Putting the last item in the place of a removed one disturbs order at that place only |
| TimerHeap.Timer.Swap | chat_test/src/chat-system/timer/timer.go:35-39 | Exchanges two cells and keeps every item's index equal to its place |
| TimerHeap.Timer.Fix | chat_test/src/chat-system/timer/timer.go:54 | heap.Fix restores heap order and index = place from a heap with one odd key, loses and adds nothing, and does not move a head that is still the least |
| TimerHeap.Timer.Remove | chat_test/src/chat-system/timer/timer.go:48-60 | Takes out exactly the item at i, keeps heap order and indices, and leaves the head alone when i is positive |
| TimerHeap.Timer.Pop | chat_test/src/chat-system/timer/timer.go:62-75 | Null exactly for an empty heap; otherwise an item that expires no later than any other, taken out once and marked -1 |
| TimerHeap.Timer.Once | chat_test/src/chat-system/timer/timer.go:92-108 | Adds exactly the new item, keeps heap order and indices, sets the signal exactly when the item became the head; the ticks under way stay honest if and only if the heap was not empty or none of them was sent before the item expires |
| TimerHeap.Timer.Schedule | chat_test/src/chat-system/timer/timer.go:110-147 | The same for a repeating item |
| TimerHeap.Timer.Delete | chat_test/src/chat-system/timer/timer.go:149-175 | Removes exactly a queued item, with the head untouched when its index is positive and the signal set for the new head when it is zero; an item that has fired or been deleted changes nothing, whatever stale index it carries; the ticks under way stay honest if and only if each finds another item that has expired by then, or none is left |
| TimerHeap.Timer.Reset | chat_test/src/chat-system/timer/timer.go:203-222 | Moves exactly a queued item and keeps heap order and indices. Of a signal that was set for the head: it is now too early if and only if the item was the head, its new time lies later and no other item has expired by then; too late if and only if the new time lies before it. With ticks under way, and a signal set in any way, honesty is kept under a condition on the state before the call, and lost without it unless a callback is about to set the signal |
| TimerHeap.Timer.GoOff | chat_test/src/chat-system/timer/timer.go:277-283 | The channel holds one tick, a second is lost; after it the head is still watched |
| TimerHeap.Timer.Fire | chat_test/src/chat-system/timer/timer.go:236-247 | Pops, for the tick in hand, an item that expires no later than any other, and sets the signal for the next head; with honest ticks it has expired; a second tick that waits in the channel stays honest if and only if it finds another item expired, or none is left |
| TimerHeap.Timer.Call | chat_test/src/chat-system/timer/timer.go:122-130 | The callback of a repeating item puts back exactly that item, one interval later |
| TimerHeap.Timer.Finish | chat_test/src/chat-system/timer/timer.go:134-136 | After a repeating callback the signal is never set for before the head's expiry and late by at most the time a callback has taken |
| TimerRuns.RunStep | chat_test/src/chat-system/timer/timer.go:92-252 | One step of a run, in each of its kinds: Once and Schedule make one item, which expires after the timeout or the delay and repeats never or every interval, and queue it; Delete and Reset change the item named and no other; the signal goes off, its tick is taken, the least item is popped, a callback puts a repeating item back one interval later, and its end sets the signal for the head; and nothing else changes in the queue. what it pops or deletes is told by the state before it, an item is gone afterwards exactly if it was before or was just deleted or was a Once item just popped, and the lateness the signal may have grows only where a callback ends, to the time it took |
| TimerRuns.AnyRun | chat_test/src/chat-system/timer/timer.go:92-252 | The trace of the run has one moment for each step, which follows from the one before as RunStep says. Every run of Once, Schedule, Delete on any handle, Reset of queued items, the signal going off, its tick being taken, the pop and the callbacks, with any time between the steps but for callbacks of at most a given time, keeps heap order and index = place. An item is gone exactly if it was deleted while queued or was a Once item and fired, and after that it never fires. Without Reset a queued item is always watched. Nothing fires before its expiry if each step meets its condition, which is a condition on the timer before the step, and in particular if there is no Reset and nothing comes between the signal going off and the pop; then, with no callback pending, the signal's deadline is the head's expiry, or later by at most what a callback may take, which is nothing when callbacks take no time |
| TimerRuns.Tick | chat_test/src/chat-system/timer/timer.go:277-283 | The signal going off, its tick being taken and the pop, with nothing in between, keep ticks honest and fire nothing early |
| TimerRuns.Drain | chat_test/src/chat-system/timer/timer.go:62-75 | Repeated pops give a permutation of the heap, sorted by expiry |
| TimerRuns.EarlyAfterDelete | chat_test/src/chat-system/timer/timer.go:157-171 | The condition is needed, whatever the heap: with a tick in hand, deleting an item without which no queued item has expired makes the pop early |
| TimerRuns.EarlyAfterOnce | chat_test/src/chat-system/timer/timer.go:96-105 | So does adding an item that has not expired to an empty heap |
| TimerRuns.EarlyAfterReset | chat_test/src/chat-system/timer/timer.go:212-218 | So does putting off the only item that has expired |
| TimerRuns.EarlyAtSignal | chat_test/src/chat-system/timer/timer.go:212-218 | With the signal set, putting off the only item that will have expired by then makes the pop at that time early |
| TimerRuns.EarlyAfterFire | chat_test/src/chat-system/timer/timer.go:236-243 | With a second tick in the channel, popping a Once item without which nothing has expired makes the second pop early |
| TimerRuns.EarlyByReset | chat_test/src/chat-system/timer/timer.go:203-222 | Such a state is reached: a Once item put off with Reset is popped at its old time |
| TimerRuns.EarlyByDelete | chat_test/src/chat-system/timer/timer.go:236-239 | And here: the head is deleted after its tick was taken and before once takes the lock |
| TimerRuns.EarlyByAdd | chat_test/src/chat-system/timer/timer.go:168-171 | And here: when the only item is deleted the signal stays set, and an item is added after it went off |
| BadWords.WordTree.Add | chat_test/src/chat-system/badwords/badwords.go:26-47 | The index then holds exactly the old words and the new one, under their first characters, with exactly their lengths in ascending order |
| BadWords.Search.MatchAt | chat_test/src/chat-system/badwords/badwords.go:142-158 | The loop over sorted lengths with its early exit finds exactly the shortest dictionary word at i, although earlier slots of the text may have been overwritten |
| BadWords.Search.Run | chat_test/src/chat-system/badwords/badwords.go:138-162 | Text and match counts are those of the naive scan "at each place take the shortest dictionary word that is there, else advance one" of the original text |
| BadWords.SearchText | chat_test/src/chat-system/badwords/badwords.go:180-187 | The same of Search as it is called |
| FilterLaws.HitIsSubstring | chat_test/src/chat-system/badwords/badwords.go:149-150 | On the characters of a message a hit is exactly a dictionary word as a substring |
| FilterLaws.ScanIsOnlyReading | chat_test/src/chat-system/badwords/badwords.go:138-162 | Every message has exactly one reading: dictionary words, each the shortest at its place, in order and apart, with no dictionary word starting anywhere outside them; the matches of the scan are that reading |
| FilterLaws.MatchesAreHits | chat_test/src/chat-system/badwords/badwords.go:143-158 | Every match is a dictionary word at its place, and no shorter one is there |
| FilterLaws.ReportIs | chat_test/src/chat-system/badwords/badwords.go:154-155 | The report of a search, word by word: its count is the number of matches whose characters are that word, it is listed exactly if there is one, and then it is a dictionary word that the message contains |
| FilterLaws.JoinSplits | chat_test/src/chat-system/badwords/badwords.go:149 | Joining keeps every slot of a text, in order |
| FilterLaws.MatchedEmptyIffClean | chat_test/src/chat-system/badwords/badwords.go:138-162 | The report is empty if and only if no dictionary word occurs anywhere in the message |
| FilterLaws.UncoveredHasNoHit | chat_test/src/chat-system/badwords/badwords.go:141-161 | At a place that no match covers no dictionary word starts, for all the jumps of the scan |
| FilterLaws.OutputHidesWord | chat_test/src/chat-system/badwords/badwords.go:132-162 | No dictionary word without the replacement character occurs anywhere in the output, across replaced places too, whatever the other words are |
| FilterLaws.OccursIffSurvives | chat_test/src/chat-system/badwords/badwords.go:132-162 | A word occurs at a place of the output if and only if the message has its characters at the places no match covers and the word has the replacement at those that one does |
| FilterLaws.OutputCleanIff | chat_test/src/chat-system/service.go:192-206 | So the output holds no dictionary word, and a second search of it matches nothing, if and only if no dictionary word with the replacement character in it survives in the message in that way |
| FilterLaws.SecondSearchIsIdle | chat_test/src/chat-system/badwords/badwords.go:132-162 | If no dictionary word has some character of the replacement, of whatever length, a second search matches nothing and changes nothing |
| FilterLaws.StarTailSurvives | chat_test/src/chat-system/badwords/badwords.go:132-162 | Where the scan passes over u and takes the dictionary word v behind it, the output holds u followed by each shorter row of stars, whether or not that is a dictionary word |
| FilterLaws.StarWordSurvives | chat_test/src/chat-system/badwords/badwords.go:151-153 | So a dictionary whose one word ends in its only star always has a message out of which the filter makes that word |
| FilterLaws.ListedWordSurvives | chat_test/bin/list.txt:265 | For the starred word of the list and the message "masterbatmasterbat*", in every dictionary that holds the word and no beginning of it, and of which no word starts before the tenth character of the message |
| FilterLaws.MatchesDisjoint | chat_test/src/chat-system/badwords/badwords.go:141-161 | Matches come in order of place and never overlap |
| FilterLaws.TallyWeighsMatches | chat_test/src/chat-system/badwords/badwords.go:154-155 | Over the reported words, count times length is the total length of the matches |
| FilterLaws.ReportAddsUp | chat_test/src/chat-system/badwords/badwords.go:149-157 | And that is the number of replaced places; every other place and the length of the text are as before, and with an empty replacement the whole text is |
| History.HistoryRecord.AddHistory | chat_test/src/chat-system/history.go:30-39 | History is always the last min(n, 50) messages added, and every slice handed out earlier still holds what it held |
| History.HistoryRecord.IsLastFifty | chat_test/src/chat-system/history.go:9-39 | In every valid state the history is the last fifty messages, or all of them, oldest first |
| History.HistoryRecord.GetHistory | chat_test/src/chat-system/history.go:24-28 | Hands out exactly the current history, which then stays as it is in the slice handed out |
| Chat.ChatService.OnChat | chat_test/src/chat-system/service.go:179-211 | History grows by the message exactly when it is a chat message with no dictionary word, so history never holds one; any other chat message goes out starred, with no star-free dictionary word left in it; commands touch neither |
| Lifecycle.ConnectionLife | chat_test/src/chat-system/tcp/tcpclient.go:155-346 | Under every interleaving of Stop, StopAsync, SendAsync, AddCloseCB, RemoveCloseCB and the writer: the send channel is closed at most once and never closed or sent on after, OnDisconnected is called at most once; no close callback runs twice or before the close, and when the stopping call returns all that are registered have run; messages leave in enqueue order, all of them before the writer exits; a SendAsync callback runs at most once, never when the call returned an error, and for every enqueued call that brought one by the time the writer exits |
| Lifecycle.SendOutcome | chat_test/src/chat-system/tcp/tcpclient.go:308-346 | In every reachable state SendAsync has exactly one of three outcomes: while the client runs, the message is queued last if the queue is shorter than its capacity and refused if it is not; after that its callback is called at once. It changes nothing else |
| Lifecycle.FirstSends | chat_test/src/chat-system/tcp/tcpclient.go:308-330 | Of n calls on a new connection the first capacity are queued in order and exactly the others are refused |
| Lifecycle.WriterDrains | chat_test/src/chat-system/tcp/tcpclient.go:243-280 | From any state a writer that has its channel, left alone, sends what it holds and then the queue in order, calls each callback brought along in that order, changes nothing else, and then waits, or exits if the channel is closed |
| Lifecycle.WriterSendsAll | chat_test/src/chat-system/tcp/tcpclient.go:243-280 | So in every reachable state it takes only steps of such a writer until everything enqueued is sent and every callback owed has been called |
| Lifecycle.StopStops | chat_test/src/chat-system/tcp/tcpclient.go:171-240 | From every reachable state a Stop or StopAsync that runs to its end returns with the client stopped. If the client was running, this call has closed the channel, taken it away, run exactly the registered callbacks, each once, and called OnDisconnected exactly if it is Stop, and has changed nothing else; if not, it has changed nothing |
| Lifecycle.AddedIsRun | chat_test/src/chat-system/tcp/tcpclient.go:155-161 | A callback added to a running client is run by such a stop, the one it replaces is not, and the others are; to a stopped client nothing is added |
| Lifecycle.RemovedIsNotRun | chat_test/src/chat-system/tcp/tcpclient.go:163-169 | A removed callback is not run by such a stop; the others are |
| Lifecycle.StopStepKeeps | chat_test/src/chat-system/tcp/tcpclient.go:171-240 | The swap of the Running flag lets one call at most past the lock, and the channel is closed and cleared exactly as far as that call has come |
| Lifecycle.CallbackStepKeeps | chat_test/src/chat-system/tcp/tcpclient.go:155-192 | A close callback that is registered has run if and only if the stopping call is past its key |
| Lifecycle.MessageStepKeeps | chat_test/src/chat-system/tcp/tcpclient.go:243-346 | What was enqueued is what was sent, then what the writer holds, then the queue; the callback of an enqueued call has not run while its message is in the queue or with the writer |
| Lifecycle.OwedStepKeeps | chat_test/src/chat-system/tcp/tcpclient.go:268-276 | The callback of an enqueued call has run, or its message is still in the queue or with the writer |
| Lifecycle.InvariantsHold | chat_test/src/chat-system/tcp/tcpclient.go:155-346 | The four invariants hold in every reachable state |
| Load.LoadIsAccounted | chat_test/src/chat-system/tcp/tcpserver.go:36-48 | In every reachable state before shutdown currLoad is the number of listed clients, in 32 bits; with a positive maxLoad it is exact and never above maxLoad; deleClient runs at most once for a connection |
| Load.InvariantHolds | chat_test/src/chat-system/tcp/tcpserver.go:92-117 | Why: only the one accept loop adds, it checks before it adds, and deleClient is due only for a connection that is listed |
| Load.ArrivalIs | chat_test/src/chat-system/tcp/tcpserver.go:93-117 | A loop that waits lists a connection that starts, counts it and adds deleClient to its callbacks exactly if maxLoad is not positive or currLoad is below it; a connection that is over the limit or fails to start changes nothing |
| Load.ArrivalsAreListed | chat_test/src/chat-system/tcp/tcpserver.go:93-117 | Of n connections that arrive and stay, all are listed without a limit, and the first maxLoad with one |
| Load.Leaves | chat_test/src/chat-system/tcp/tcpserver.go:43-48 | A connection with deleClient among its callbacks, when it stops and they run, takes itself off the list and the counter and changes nothing for the others |
| Load.ListedLeavesIff | chat_test/src/chat-system/tcp/tcpserver.go:105-108 | In every reachable state between two connections, a listed connection can still get off the list if and only if it was running when AddCloseCB was called; one that had stopped by then stays listed and counted in every continuation |
| Load.StopsTooSoon | chat_test/src/chat-system/tcp/tcpserver.go:103-108 | Which happens: the connection stops between addClient and AddCloseCB |
| Load.AddClientKeeps | chat_test/src/chat-system/tcp/tcpserver.go:103-108 | Adding after the check keeps the limit although any number of connections stop in between |
| Load.RunCallbackKeeps | chat_test/src/chat-system/tcp/tcpserver.go:43-48 | A deleClient that is due finds its connection listed, so counter and map go down together |

## Left out

- Session.SessionDelivers: is bounded by 2^32 accepted client frames, because at the wrap the code refuses replies (Session.WrapRefusesReplies) and re-keys under those in flight; past it Session.LongSessionDelivers asks that replies be received in their period, and a reply that is not, though its count is not zero, is lost unless two keys agree (Session.ReplyRecoveredIff). Buffers of 2^16 bytes and more, which `Encrypt` accepts when the 16-bit length does, are excluded because they arrive cut (Frames.FrameSurvivesIff).
- Coders.ClientCoder.Encrypt: `rand.Int31` is a parameter. The tables and key derivations are a parameter too, with the repository's as one instance (Suites.ChatIsValid), so that the proofs show what they rest on.
- CipherLoops.XorWordAt: the unsafe word access is modelled for a machine that stores words little end first; on any other the code itself gives other bytes.
- CipherLoops.AppendZeros: which array a returned slice shares is stated where `encryptBuffer` and `decryptBuffer` end; the coders then pass the bytes on as a value.
- Messages.NetMsg.SetBody: the buffer of a message is an array without spare capacity, and a shorter body makes a new one where the source cuts the slice in place; contents are the same, sharing is not modelled.
- Continuing after a failed `Decrypt`: the receive round has then advanced already, and the reader stops the connection. The contract of each Decrypt says what the failed call leaves.
- Reconnecting: a reconnecting client keeps its coder and starts a second writer on the same channel; sessions and lifecycles here are those of one connection.
- Unencrypted framing, the plain-text fallback of a coder that refuses, and the length that `NewNetMsg` writes, which is eight too large until a coder corrects it (chat_test/src/chat-system/tcp/netmsg.go:171): no framing is claimed without a coder.
- Sockets, deadlines, byte counters, signals, JSON, reflection and logging.
- container/heap: `down`, `up` and `Fix` are modelled from the documentation of the Go library, which is not in the repository.
- TimerHeap.Timer.GoOff: setting the signal anew leaves a tick in the channel, as Go did before version 1.23; later versions take it out for modules that ask for that version, which loses fewer ticks their honesty. An operation under the lock takes no time.
- TimerHeap.Timer.Finish: reads the head without the lock, as the source does; here the read is one step.
- TimerHeap.Timer.Reset: asks that the index not be negative while the heap is not empty; with an index of -1 the source is out of range. `Timer.Stop`, `Size` and `DeleteItemInCall`, which has the body of `Delete`, would add nothing.
- BadWords.WordTree.Add: asks for a word that is not empty, on which the source is out of range. The dictionary file (`Add`, `Del`, `View`, `Init`) is I/O.
- BadWords.Insert: stands for `append` and `sort.Ints` on a slice that is in order already.
- FilterLaws.HitIsSubstring: a message is a sequence of characters; that `strings.Split` splits at UTF-8 characters is not modelled.
- FilterLaws.OutputCleanIff: the condition is on message and dictionary; for which dictionaries some message meets it depends on how all the words overlap and is stated for single words that end in their only star (FilterLaws.StarWordSurvives).
- Chat.ChatService.OnChat: the goroutine that adds to the history is taken at once, so the order of two concurrent messages in the history is not modelled; what `/popular` and `/stats` answer, and the counting of popular words, are not modelled; the reply is what goes to Messages.Broadcast.
- History.Append: the capacity of a grown array is one possible choice; nothing depends on it.
- Lifecycle.ConnectionLife: each statement outside the lock is one step, and so is each callback the range yields; that Go itself stops a program which changes the map during the range is not modelled, nor are panics inside callbacks. A `SendAsync` callback that calls `Stop` while `SendAsync` holds the lock blocks for ever in the source. Progress is proved of a writer or a stopping call that moves alone (Lifecycle.WriterDrains, Lifecycle.StopStops), not under a scheduler.
- Load.LoadIsAccounted: up to shutdown and with a limit that does not change; `stopClients` does not reset the counter. A client that stops between `Start` and `AddCloseCB` stays listed and counted (Load.ListedLeavesIff).
- Messages.Broadcast: the queues here have no close; closing and callbacks are those of Lifecycle. The set of clients does not change meanwhile, and a write to the socket that is tried succeeds.
- The name map of `TcpService`, login and statistics, `popular.go` (its window is not upheld: `clear` drops the bucket of the second before), `main.go`, `util/`, `log/`, `proto/` and the browser client.

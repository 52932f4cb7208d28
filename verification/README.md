# Verified models of a collection of small systems

This project states and proves what the harder parts of the repository do: the transaction
layer of the `ydb` key/value store, the byte-stream stack under `btunnel`, the bencode printer
and its two decoders, the SHA-1 class, the hyphenator, the DHCP options code, the tracker query
and its parser, and the CRC, Adler and zlib code of `jspng`. `dafny verify dfyconfig.toml`
checks everything.

Code that changes state step by step is modelled by classes and loops, each proved equal to a
function of its inputs or of the old state; the lemmas are about those functions.

* **Transactions** (`YdbOp`, `YdbLock`, `YdbDeadlock`, `YdbSched`, `YdbRuns`, `YdbTheorems`,
  `YdbWaits`, `YdbScheduler`). One thread drives each transaction; a step is what happens under the
  scheduler's mutex (`Acquire`, `Commit`, `Rollback`) or one access to the map (`Fetch`, `Put`),
  and steps of different transactions interleave in any order. `Ydb_Map` is the map that
  its header describes (ydb/ydb_map.h:25-32).
* **Byte streams** (`YnetBuffer`, `YnetWriter`, `StreamCuts`, `BtunnelFraming`,
  `BtunnelWire`, `BtunnelReader`, `BtunnelWriter`, `BtunnelStream`). Each layer is proved against
  a plain sequence of bytes: ring buffer, non-blocking writer, message framing, the reader on the
  ring buffer, and streams of messages cut anywhere.
* **Bencode** (`Bencode`, `BencodeDecode`, `BencodeReturns`, `BencodeStrict`, `BencodeCut`,
  `BencodeCpp`, `BencodeAgree`, `BencodeCppCut`). The Ruby decoder is modelled on every input,
  with Ruby's negative indices and the leniency of `to_i`; as it need not return, its functions
  take the number of calls and loop iterations allowed (`gas`), and the room on the stack, which
  runs out as SystemStackError.
* **SHA-1** (`Words`, `WordBits`, `Sha1Spec`, `Sha1Meaning`, `Sha1`), with words as numbers and
  bit operations spelled out; the digest is that of FIPS PUB 180-1, sections 4 to 8.
* **Hyphenation** (`HyphenatePattern`, `HyphenateReading`, `HyphenateExceptions`, `Hyphenate`): a
  trie of objects built and searched in place, against a search through all substrings.
* **DHCP options** (`DhcpOptions`, `DhcpRoundTrip`, `DhcpLayout`, `DhcpCode`), RFC 2132.
* **Tracker query** (`KeyOrder`, `QueryText`, `QueryRoundTrip`).
* **Checksums and wrapper** (`JspngCrc`, `CrcRemainder`, `JspngZlib`), with a decoder written from
  RFC 1950 section 2.2 and RFC 1951 section 3.2.4.

`Options`, `Texts` and `Numerals` hold shared definitions.

## Findings

Properties that the code does not have, each with the exact condition under which it has it.

* Rolling back does not restore a key that the transaction created (ydb/ydb_op.cpp:35-39):
  `YdbTheorems.ResidueRun`. A rollback restores the map exactly when no write created its key
  (`YdbOp.RollbackRestoresIffNoResidue`), and the committed transactions alone explain a run
  exactly when no rolled-back one had done so (`YdbRuns.CommittedReplayIffNoResidue`).
* A second rollback, as the DEADLOCK path followed by `Abort` makes it
  (ydb/ydb_sched.cpp:47, ydb/ydb_sched_test.cpp:94-96), can wipe out a committed update of the
  very transaction that had been waiting: `YdbTheorems.SecondRollbackLosesUpdate`. It is harmless
  exactly when every old value still stands (`YdbTheorems.SecondRollback`).
* `IsBlockedBy` swaps its arguments when it recurses (ydb/ydb_sched.cpp:106). It decides whether
  two transactions reach a common one in equally many steps or one more
  (`YdbDeadlock.IsBlockedByDecidesMeets`), so a harmless wait can be refused
  (`YdbDeadlock.FalseAlarm`), and of the rings that a transaction with no blockers would close it
  sees only those of length two (`YdbWaits.DetectorSeesDirectWaits`,
  `YdbTheorems.UndetectedDeadlock`). On a ring of three it does not return
  (`YdbDeadlock.RingNeverReturns`); for every graph and every two transactions,
  `YdbDeadlock.ReturnsExactly` says when it does.
* A transaction alone in the database can be refused a lock: a second write of a key waits for
  itself (`YdbWaits.SecondWriteWaitsForItself`), and a write after two reads of its key is refused
  too. Granted are exactly a read, the first operation on a key, and a write that follows one read
  (`YdbWaits.AloneIsGranted`).
* `Buffer::Unadvance` yields a negative cursor when the pushback crosses index 0
  (ynet/buffer.cpp:130-131). It undoes `Advance` exactly when the bytes read did not reach the
  end of the cells (`YnetBuffer.UnadvanceUndoesAdvanceIffNoWrap`). So an incomplete message can
  leave the reader with a negative cursor (`BtunnelReader.PushbackCanBreak`), exactly when the
  bytes pushed back at the end include the last cell (`BtunnelReader.ReadMessageIsSafe`).
* A `Register` message cut at or inside its text record is taken too early
  (btunnel/lib/peer_message.cpp:103-109). Any other cut is harmless, and the reader hands on
  exactly the whole messages if and only if there is no such cut (`BtunnelStream.Fragmentation`,
  `BtunnelStream.EndToEnd`).
* The Ruby decoder reads a dictionary key without looking for a digit
  (bitrub/bencode.rb:78), so a key of negative length can send its loop back for ever
  (`BencodeDecode.BackwardKeyHangs`), or a call into the dictionary it is in, until the stack is
  full (`BencodeDecode.InwardKeyFails`). On a stack of any size it returns, with a value or an
  exception, exactly when it reaches no loop whose turns come back to where they were
  (`BencodeReturns.BdecodeReturns`), which a number of steps that grows with the text and the
  stack finds out (`BencodeReturns.BdecodeReturnsSoon`). Some stack is large enough for a value
  or an ordinary exception exactly when calls and loops together never come back to where they
  were (`BencodeReturns.BdecodeSettles`); otherwise it runs for ever or ends in a stack error
  (`BencodeReturns.RunawayCallsFail`). Without a minus sign in the text it always returns
  (`BencodeReturns.ReturnsWithoutMinus`).
* The Ruby decoder reads a minus sign alone as 0 (`BencodeStrict.NoDigits`); of numerals with
  digits it reads exactly those without needless zeros (`BencodeStrict.NumeralExactly`). It takes
  keys in any order and more than once, and keeps the last (`BencodeStrict.PairsInAnyOrder`).
* The C++ decoder makes a node without a text of a string that is cut in its length
  (ypeer/bencode.cpp:145), and freeing that in a list follows a null pointer
  (`BencodeCppCut.CutLengthIsWild`). Otherwise nothing comes of a cut text
  (`BencodeCppCut.CutTextUnread`; in Ruby without exception, `BencodeStrict.CutTextRaises`).
* The C++ decoder builds the tree of a printed value exactly when integers fit in 64 bits and
  strings in 102400 bytes (ypeer/bencode.cpp:47, 58): `BencodeAgree.DecodersAgree`.
* The query parser knows no tilde, skips empty keys and does not unescape keys
  (yhttp/url.cpp:178, 196, 202). What was written comes back exactly when keys are non-empty
  plain texts and no value has a tilde (`QueryRoundTrip.QueryComesBack`).
* A hyphenation exception comes back with its hyphens exactly when it consists of lower-case
  letters with single hyphens after them (syllable/hyphenate.py:30); with any other character
  letters are lost at the end of the word: `HyphenateExceptions.ExceptionComesBack`.
* `deflate` writes a header that a decoder accepts exactly when the block size is 129 to 65535,
  or 0 (jspng/zlib.js:14-21): `JspngZlib.Deflate`. Its own test (jspng/zlib_unittest.html:13-14)
  expects the length with the most significant octet first; the code, as RFC 1951 says, writes
  the least significant first, and the model follows the code.
* DHCP options come back exactly when there are at most 16 routers and DNS servers, the client
  id has at most 63 octets, and a client id type comes with an id (dhcp/options.c:55, 71, 154):
  `DhcpRoundTrip.WrittenComesBack`.

## Model

| member | source | states |
|---|---|---|
| YdbOp.UndoLeavesResidue | ydb/ydb_op.cpp:21-59 | after undoing a faithful log in forward order, a key written at most once has the value from before the transaction, or, if a write created it, the value written |
| YdbOp.RollbackRestoresIffNoResidue | ydb/ydb_op.cpp:29-39 | execute then roll back is the identity on the map if and only if no write of the log created its key |
| YdbOp.UnwrittenKeyUnchanged | ydb/ydb_op.cpp:13-59 | executing, undoing or leaving the residue of a log does not touch a key it has no write-type operation on |
| YdbOp.FaithfulIsLocal | ydb/ydb_op.cpp:13-53 | what a log sees depends only on the keys it touches |
| YdbLock.LockTable.Lock | ydb/ydb_lock.cpp:18-24 | the lock type of the operation decides between the shared and the exclusive request, with the whole new table |
| YdbLock.LockTable.ReadLock | ydb/ydb_lock.cpp:26-54 | grant on a free or shared item, also to the sole writer itself, refuse otherwise; the whole new table |
| YdbLock.LockTable.WriteLock | ydb/ydb_lock.cpp:59-79 | grant on a free item or as an upgrade by the only reader, refuse everything else including a second write lock; the whole new table |
| YdbLock.LockTable.GetLockHolders | ydb/ydb_lock.cpp:81-89 | the holders of a locked item, nothing for a free one |
| YdbLock.LockTable.Unlock | ydb/ydb_lock.cpp:91-109 | one occurrence of the holder goes, and the entry with its last holder |
| YdbLock.RemoveTransaction | ydb/ydb_lock.cpp:139-153 | the loop finds and erases exactly the first occurrence |
| YdbLock.RefusedMeansHeld | ydb/ydb_lock.cpp:43-53 | a refused request changes nothing and the item has holders |
| YdbLock.GrantKeepsAccounts | ydb/ydb_lock.cpp:26-79 | a grant keeps holder lists non-empty, writers alone, and everybody's multiplicity tied to the operations granted |
| YdbLock.UnlockAllEffect | ydb/ydb_sched.cpp:68-73 | one unlock per operation takes the transaction off each key by exactly that number and touches nobody else |
| YdbDeadlock.IsBlockedByDecidesMeets | ydb/ydb_sched.cpp:95-112 | whenever the query returns, it returns whether the two reach a common transaction in equally many steps or one more |
| YdbDeadlock.ReturnsExactly | ydb/ydb_sched.cpp:95-112 | for every graph and every two transactions: if they do not meet, the query returns if and only if one of the two has no blocked-by walk of some length; if they meet, if and only if it gets to a meeting past blockers that neither equal nor meet the other and from which one of the two walks ends |
| YdbDeadlock.ReturnsIffAWalkEnds | ydb/ydb_sched.cpp:95-112 | the half of it for two that do not meet |
| YdbDeadlock.DirectWaitsOnly | ydb/ydb_sched.cpp:95-112 | against a transaction without blockers the query sees nothing but direct waits |
| YdbDeadlock.ReturnsWhenAcyclic | ydb/ydb_sched.cpp:95-112 | on an acyclic table the query always returns, within the sum of the two ranks |
| YdbDeadlock.RingOfThreeIsMissed | ydb/ydb_sched.cpp:103-107 | the closing edge of a ring of three is not noticed although there is a path |
| YdbDeadlock.RingNeverReturns | ydb/ydb_sched.cpp:103-107 | on that ring no stack is deep enough for the query |
| YdbDeadlock.FalseAlarm | ydb/ydb_sched.cpp:103-107 | a dependency is refused although nobody waits for the new transaction |
| YdbDeadlock.AddKeepsConsistent | ydb/ydb_sched.cpp:114-144 | adding a dependency keeps the tables exact inverses and never makes two transactions block each other directly |
| YdbDeadlock.RemoveKeepsConsistent | ydb/ydb_sched.cpp:146-174 | removing a transaction leaves nobody blocked by it, forgets nothing else, and every waiter it meets has a list |
| YdbDeadlock.DeadlockTree.AddDependency | ydb/ydb_sched.cpp:114-144 | refuses exactly when the two meet, otherwise both tables get the pair at the end of their lists |
| YdbDeadlock.DeadlockTree.Remove | ydb/ydb_sched.cpp:146-164 | the loop erases one occurrence per recorded wait and then the entry |
| YdbSched.LockInvStep | ydb/ydb_sched.cpp:26-92 | every step keeps the lock table accounting |
| YdbSched.GraphInvStep | ydb/ydb_sched.cpp:26-174 | every step keeps the wait tables consistent and only live transactions recorded as blockers |
| YdbSched.EndKeepsData | ydb/ydb_sched.cpp:65-92 | ending a transaction keeps the map equal to the serial replay seen through the writers' logs |
| YdbRuns.Serializability | ydb/ydb_sched.cpp:26-92 | for every run: replaying the ended transactions in their order, with what each left behind, shows every operation what it saw and gives the map on all keys not write-locked |
| YdbRuns.CommittedReplay | ydb/ydb_sched.cpp:26-92 | when no rolled-back write had created its key, the committed transactions alone replay to the same reads and the same map on all keys not write-locked |
| YdbRuns.CommittedReplayIffNoResidue | ydb/ydb_sched.cpp:79-92 | in a state without write locks that replay succeeds if and only if no rolled-back write had created its key |
| YdbRuns.CommitAfterRollbackIsNoop | ydb/ydb.cpp:76-81 | a commit after a deadlock rollback changes nothing |
| YdbTheorems.LockSafety | ydb/ydb_lock.cpp:26-109 | in every reachable state: holders non-empty, writers alone, multiplicity bounded by the operations and equal to them on a read-locked key, at most one write-type operation per key, nothing held after the end |
| YdbTheorems.RefusalFindsLiveHolders | ydb/ydb_sched.cpp:38-39 | the assertion after a refused lock holds in every reachable state, and the holders are live |
| YdbTheorems.WaitGraphBookkeeping | ydb/ydb_sched.cpp:94-174 | in every reachable state the tables are inverse multisets, two transactions never block each other directly, and the assertion in Remove holds |
| YdbTheorems.RollbackUnderConcurrency | ydb/ydb_sched.cpp:79-92 | whatever happened in between, rollback returns each key that existed to the value from before the transaction's first write, and changes no key that it did not write or wrote only where it had found nothing |
| YdbTheorems.SecondRollback | ydb/ydb_sched.cpp:79-92 | in every reachable state a second rollback leaves locks, wait graph and transactions alone, and changes nothing if and only if every old value still stands |
| YdbTheorems.UndoAgainIsNothing | ydb/ydb_op.cpp:35-59 | undoing a log once more is the identity if and only if the values it saved are the values there |
| YdbTheorems.ResidueRun | ydb/ydb_op.cpp:35-39 | a reachable state in which a rolled-back write of a new key is still in the map |
| YdbTheorems.SecondRollbackLosesUpdate | ydb/ydb_sched_test.cpp:94-96 | a run in which a transaction is refused as a deadlock and rolled back, the one that waited for it writes the key and commits, and a second rollback of the first wipes that write out |
| YdbTheorems.UndetectedDeadlock | ydb/ydb_sched.cpp:42-51 | a reachable state with three transactions waiting in a ring, where the next query never returns |
| YdbWaits.RecordedWaits | ydb/ydb_sched.cpp:34-52 | in every reachable state, whoever is recorded as blocked by another live transaction is waiting for an operation that the other's lock obstructs, or was refused for good |
| YdbWaits.RefusedWaitIsRecorded | ydb/ydb_sched.cpp:38-50 | a refused request that is left waiting adds a wait for every holder of its key, as often as each holds, and no other |
| YdbWaits.AddedAllRecords | ydb/ydb_sched.cpp:42-49 | for any list of holders: the loop records the waits up to the first holder that meets the requester, and refuses exactly when there is one |
| YdbWaits.NobodyWaitsForAWaiter | ydb/ydb_sched.cpp:38-50 | in every reachable state, a requester that is left waiting is recorded behind each holder, and no other holder is recorded behind it |
| YdbWaits.DetectorSeesDirectWaits | ydb/ydb_sched.cpp:42-49 | in every reachable state, for a transaction between calls that does not wait for itself, a request is refused for good exactly when a holder is directly recorded as waiting for it |
| YdbWaits.AloneIsGranted | ydb/ydb_lock.cpp:26-79 | in every reachable state in which nobody else is live, exactly which operations are granted |
| YdbWaits.GrantedExactly | ydb/ydb_lock.cpp:26-79 | in every reachable state: a read is granted exactly when nobody else wrote the key, a write or delete exactly when nobody else has an operation on it and the requester none but a single read |
| YdbWaits.SecondWriteWaitsForItself | ydb/ydb_lock.cpp:56-79 | in every reachable state, a second write of a key makes a transaction that has no blockers wait for itself |
| YdbScheduler.Scheduler.TryAcquire | ydb/ydb_sched.cpp:31-53 | one pass of the loop is the step Acquire: granted, waiting with all dependencies added, or refused at the first meeting |
| YdbScheduler.Scheduler.ExecuteGet | ydb/ydb_op.cpp:13-53 | the first map access of an operation is the step Fetch |
| YdbScheduler.Scheduler.ExecutePut | ydb/ydb_op.cpp:29-53 | the second map access is the step Put |
| YdbScheduler.Scheduler.Commit | ydb/ydb_sched.cpp:65-77 | the loop of unlocks and the removal are the step Commit |
| YdbScheduler.Scheduler.Rollback | ydb/ydb_sched.cpp:79-92 | the loop of undos and unlocks and the removal are the step Rollback, also when repeated |
| YdbScheduler.Scheduler.OpenTransaction | ydb/ydb_sched.cpp:60-62 | a new transaction with no operations |
| YnetBuffer.SizeIsQueueLength | ynet/buffer.cpp:27-43 | the size computed from the cursors is the number of bytes waiting, always one less than the cells at most |
| YnetBuffer.AdvanceTakesFront | ynet/buffer.cpp:114-122 | advancing takes the front of the queue across any wrap |
| YnetBuffer.UnadvancePutsBack | ynet/buffer.cpp:124-133 | with C++ remainder, pushback is good exactly when the cursor does not cross 0, and then puts the bytes before it in front |
| YnetBuffer.UnadvanceUndoesAdvanceIffNoWrap | ynet/buffer.cpp:114-133 | pushback undoes reading if and only if the bytes read did not reach the end of the cells |
| YnetBuffer.DoubledIsLeast | ynet/buffer.cpp:78-82 | growing stops at the least capacity c times a power of two that fits |
| YnetBuffer.Buffer.Peek | ynet/buffer.cpp:45-66 | the front of the queue in one or two copies, or refusal |
| YnetBuffer.Buffer.Read | ynet/buffer.cpp:68-74 | the front of the queue, which goes |
| YnetBuffer.Buffer.Write | ynet/buffer.cpp:76-95 | the data at the end of the queue, growing as often as needed |
| YnetBuffer.Buffer.Grow | ynet/buffer.cpp:97-107 | twice the capacity and the same queue |
| YnetBuffer.Buffer.Advance | ynet/buffer.cpp:109-122 | drops from the front, or refusal |
| YnetBuffer.Buffer.Unadvance | ynet/buffer.cpp:124-133 | the cursor of the source, for every length |
| YnetWriter.Conservation | ynet/buffered_writer.cpp:41-103 | over every run and every way the descriptor cuts the writes: sent followed by buffered is everything written, and buffered, registered and non-empty go together |
| YnetWriter.WrittenExactly | ynet/buffered_writer.cpp:41-62 | for every answer of the descriptor: what is sent, what is buffered, and when the descriptor is registered |
| YnetWriter.FlushedExactly | ynet/buffered_writer.cpp:66-91 | for every queue and answers: the chunks taken whole and what was taken of the next are sent, and the descriptor is deregistered exactly when that is all |
| YnetWriter.FlushedWhole | ynet/buffered_writer.cpp:71-90 | a descriptor that takes what it is offered gets the whole queue and is deregistered |
| YnetWriter.EverythingIsSent | ynet/buffered_writer.cpp:66-91 | if the descriptor takes something at each callback, everything is sent after at most as many callbacks as bytes wait |
| YnetWriter.BufferedWriter.Write | ynet/buffered_writer.cpp:41-62 | sends what is taken and buffers the rest, or buffers all while something is buffered |
| YnetWriter.BufferedWriter.WriteFromBuffer | ynet/buffered_writer.cpp:66-91 | drains in chunks until one is not taken whole, and deregisters exactly when empty |
| BtunnelFraming.StringFraming | btunnel/lib/encoding.cpp:12-57 | a written string reads back with its byte count and any suffix left; every strict prefix reads as incomplete |
| BtunnelFraming.ForwardFraming | btunnel/lib/peer_message.cpp:157-203 | the same for Forward |
| BtunnelFraming.RegisterFraming | btunnel/lib/peer_message.cpp:80-137 | the same for Register, except that prefixes from the text record on read as a message with no text |
| BtunnelFraming.MessageFraming | btunnel/lib/peer_message.cpp:22-45 | every sendable message reads back whatever follows it, and what each strict prefix reads as |
| BtunnelWire.WireLayout | btunnel/lib/peer_message.cpp:112-203 | the octets of every message: its type, its numbers in network order, and its texts behind their lengths |
| BtunnelWire.WrittenInNetworkOrder | btunnel/lib/encoding.cpp:47 | written numbers have the most significant octet first |
| BtunnelWire.ReadInNetworkOrder | btunnel/lib/encoding.cpp:23 | octets are read as signed numbers in the same order |
| BtunnelWire.AnnouncedLength | btunnel/lib/encoding.cpp:12-37 | for every announced length from -0x8000 to 0x7fff: refused, an assertion, waited for, or taken exactly |
| BtunnelWire.StopsAtUnknownType | btunnel/lib/peer_message.cpp:35-38 | behind any messages, an octet that begins none is lost and ends the loop |
| BtunnelWire.LimitsInNumbers | btunnel/lib/peer_message.h:30-33 | which texts are too long to be written |
| BtunnelWire.StopsAtRefusal | btunnel/lib/core.cpp:84-86 | a message that the peer refuses is the last one handed on |
| BtunnelReader.ReadString | btunnel/lib/encoding.cpp:12-37 | on the ring buffer: the reads and pushbacks give the parser's result, with the cursor where reading that far and pushing back all but the bytes used leaves it |
| BtunnelReader.ReadRegister | btunnel/lib/peer_message.cpp:80-110 | the same for Register |
| BtunnelReader.ReadForward | btunnel/lib/peer_message.cpp:157-181 | the same for Forward |
| BtunnelReader.ReadMessage | btunnel/lib/peer_message.cpp:22-45 | the same for the type byte and its message |
| BtunnelReader.ReadMessageIsSafe | btunnel/lib/peer_message.cpp:22-45 | the ring is fit for use after that, with exactly the bytes kept gone, if and only if what was pushed back at the end does not include its last cell |
| BtunnelReader.PushbackCanBreak | btunnel/lib/peer_message.cpp:39-43 | a type byte alone in the last cell breaks the ring |
| BtunnelReader.ReadMessages | btunnel/lib/core.cpp:75-87 | while the bytes waiting do not wrap around, the receiving loop over the ring hands on what repeated parsing yields and leaves the rest |
| BtunnelReader.Receive | btunnel/lib/core.cpp:75-87 | chunks written into the ring, with the loop run after each, are the chunk-by-chunk parsing of the stream theorems, while they do not reach the end of the cells |
| BtunnelWriter.WriteString | btunnel/lib/encoding.cpp:39-57 | refuses too long a string, otherwise makes the two Write calls for length and bytes |
| BtunnelWriter.WriteRegister | btunnel/lib/peer_message.cpp:112-137 | exactly the Write calls for the fields up to the first string that is too long, and the length or failure |
| BtunnelWriter.WriteForward | btunnel/lib/peer_message.cpp:183-203 | the same for Forward |
| BtunnelWriter.Send | btunnel/lib/peer.cpp:44-87 | exactly the Write calls for type byte and fields, also on failure, which is when a string is too long |
| BtunnelWriter.PiecesMakeWire | btunnel/lib/peer_message.cpp:112-203 | for a message within the limits those calls together hand over its wire form, and none is empty if its strings are not |
| BtunnelWriter.RegisterAll | btunnel/lib/core.cpp:38-66 | the loop over the services makes the calls for all of them in order, or fails on one that is too long |
| StreamCuts.FeedSafely | btunnel/lib/core.cpp:82-86 | for any parser that frames its packets: if every chunk ends at a safe place, the whole packets come out once and in order and the beginning of the next is kept |
| StreamCuts.FeedUnsafely | btunnel/lib/core.cpp:82-86 | otherwise something that was not sent comes out |
| StreamCuts.RunLoop | btunnel/lib/core.cpp:82-86 | the receiving loop hands on what repeated parsing yields |
| BtunnelStream.Fragmentation | btunnel/lib/core.cpp:82-86 | for every stream and every cutting, exactly the whole messages received come out, once and in order, if and only if no chunk ends at or inside a Register's text record |
| BtunnelStream.EndToEnd | btunnel/lib/core.cpp:57-86 | from the Write calls of any messages, Registers first as they may be, through the writer and any chunks: the peer gets exactly the messages whose bytes have been sent, and all of them once everything is written and sent, if and only if no chunk ends at or inside a Register's text record |
| BtunnelStream.EverythingArrives | btunnel/lib/core.cpp:57-86 | when all calls are made and the descriptor takes something at each callback, all bytes are sent and, on the same condition, all messages arrive |
| BtunnelStream.EndToEndWithoutRegister | btunnel/lib/peer.cpp:61-84 | for Forward and Unregister messages alone this holds unconditionally |
| KeyOrder.SortedKeysIsTheOnlyOrder | bitrub/bencode.rb:136 | the ascending arrangement of a set of keys is unique |
| KeyOrder.BeforeByFirstDifference | bitrub/bencode.rb:136 | texts are ordered by their first difference, beginnings before continuations |
| Bencode.Bencode | bitrub/bencode.rb:102-150 | joining the pieces of each encoder class gives the printed text |
| Bencode.EncodeDictPieces | bitrub/bencode.rb:133-144 | the loop over the sorted keys prints the dictionary |
| Bencode.EncodeListPieces | bitrub/bencode.rb:123-131 | the loop over the items prints the list |
| Bencode.EncodeEnds | bitrub/bencode.rb:102-144 | where a printed text stands in a larger one, its parts stand one after the other up to its exact end |
| BencodeDecode.RoundTrip | bitrub/bencode.rb:24-144 | decoding a printed value at any offset of any text returns the value and its exact end if its nesting fits on the stack, and a stack error otherwise |
| BencodeDecode.BdecodeBencode | bitrub/bencode.rb:7-17 | bdecode of bencode is the identity, on the same condition |
| BencodeDecode.TrailingTextRaises | bitrub/bencode.rb:13-15 | a printed value with anything behind it is refused |
| BencodeDecode.DecodesWholeText | bitrub/bencode.rb:13-15 | whatever is decoded is all of the text |
| BencodeDecode.PrefixFree | bitrub/bencode.rb:102-144 | no printed text is a prefix of another, so printing is injective |
| BencodeDecode.ToIReads | bitrub/bencode.rb:38-49 | the lenient to_i reads a printed integer back |
| BencodeDecode.GasIsMonotone | bitrub/bencode.rb:24-86 | allowing more steps never changes an answer |
| BencodeDecode.StackIsMonotone | bitrub/bencode.rb:24-86 | a larger stack changes nothing but stack errors |
| BencodeDecode.DecodeList | bitrub/bencode.rb:59-71 | the loop is the list decoder, on every input |
| BencodeDecode.DecodeDict | bitrub/bencode.rb:73-86 | the loop is the dictionary decoder, on every input |
| BencodeDecode.BackwardKeyHangs | bitrub/bencode.rb:77-82 | a text on which the dictionary loop never ends |
| BencodeDecode.InwardKeyFails | bitrub/bencode.rb:77-82 | a text on which every call makes another one, so that every stack overflows |
| BencodeReturns.BdecodeReturns | bitrub/bencode.rb:7-86 | for every text and stack size: the decoder returns, with a value or any exception, if and only if it reaches no loop whose turns come back to where they were |
| BencodeReturns.BdecodeSettles | bitrub/bencode.rb:7-86 | some stack is large enough for a value or an ordinary exception if and only if calls and loops together never come back to where they were |
| BencodeReturns.EnoughRoom | bitrub/bencode.rb:7-86 | then six calls for each character are room enough, and with that the answer does not depend on the stack |
| BencodeReturns.RunawayCallsFail | bitrub/bencode.rb:7-86 | a circle of other kinds ends in a stack error, however large the stack |
| BencodeReturns.BothKinds | bitrub/bencode.rb:77-82 | the two texts found lie on their sides of this distinction |
| BencodeReturns.BdecodeReturnsSoon | bitrub/bencode.rb:7-86 | six steps for each character, at each depth of the stack, decide whether it returns |
| BencodeReturns.ReturnsWithoutMinus | bitrub/bencode.rb:43-57 | without a minus sign in the text it returns within two steps for each character, with a value or an ordinary exception if the stack has as much room |
| BencodeStrict.NumeralExactly | bitrub/bencode.rb:24-41 | of all numerals exactly those without needless zeros are read, as what their digits stand for |
| BencodeStrict.NoDigits | bitrub/bencode.rb:27-38 | a minus sign alone is read as 0, nothing at all is refused |
| BencodeStrict.LengthExactly | bitrub/bencode.rb:43-57 | of all lengths exactly those without needless zeros are read, with as much text as there is |
| BencodeStrict.CutTextRaises | bitrub/bencode.rb:7-86 | of a printed value cut short anywhere nothing is decoded |
| BencodeStrict.PairsInAnyOrder | bitrub/bencode.rb:73-86 | any keys and values make a dictionary, in any order and with repetitions |
| BencodeStrict.LastOfKeyStays | bitrub/bencode.rb:80 | of two values for a key the later one stays |
| BencodeStrict.OtherCharacters | bitrub/bencode.rb:88-100 | any other character, or none, raises an exception |
| BencodeCut.CutBreaks | bitrub/bencode.rb:102-144 | every strict beginning of a printed value breaks off in a scalar or behind whole parts |
| BencodeCpp.DecodeNode | ypeer/bencode.cpp:72-155 | the switch over the current character, on every NUL-terminated text |
| BencodeCpp.DecodeItems | ypeer/bencode.cpp:77-97 | the list loop with its clean-up |
| BencodeCpp.DecodeTable | ypeer/bencode.cpp:100-125 | the dictionary loop with its clean-up |
| BencodeAgree.DecodersAgree | ypeer/bencode.cpp:44-155 | on what the Ruby printer writes, anywhere, the C++ decoder builds the value's tree with entries in key order and stops exactly past it, if and only if every integer and string fits |
| BencodeAgree.FitsInNumbers | ypeer/bencode.cpp:32-58 | the limits in numbers |
| BencodeCppCut.NumberExactly | ypeer/bencode.cpp:44-50 | white space, a sign or none, and digits are read as what they stand for within 64 bits |
| BencodeCppCut.CutTextUnread | ypeer/bencode.cpp:72-155 | of a printed value cut short anywhere no tree is built, only a node without a text where a string is cut in its length |
| BencodeCppCut.CutLengthIsWild | ypeer/bencode.cpp:52-155 | inside a list that node brings the decoder to follow a null pointer |
| BencodeCppCut.OtherCharacters | ypeer/bencode.cpp:149-154 | any other character, or the end, gives no node |
| Words.RotateBack | ypeer/sha1.cpp:586-589 | rotating on by the rest of the word gives the word back |
| Words.ShiftsRotate | ypeer/sha1.cpp:586-589 | the two shifts joined by or are a rotation |
| Words.PackedIsBigEndian | ypeer/sha1.cpp:428-434 | four octets put together with shifts and or are the big-endian word |
| WordBits.AndBits | ypeer/sha1.cpp:447 | each bit of a conjunction |
| WordBits.OrBits | ypeer/sha1.cpp:447 | each bit of a disjunction |
| WordBits.NotBits | ypeer/sha1.cpp:447 | each bit of a complement |
| WordBits.XorBit | ypeer/sha1.cpp:458 | each bit of an exclusive or |
| WordBits.RotateBit | ypeer/sha1.cpp:586-589 | rotation takes each bit as many places up, around the end |
| WordBits.SameBits | ypeer/sha1.cpp:447 | words with the same bits are equal |
| Sha1.SHA1.ProcessMessageBlock | ypeer/sha1.cpp:410-499 | word expansion and the four loops of twenty rounds are the block computation of FIPS PUB 180-1 section 7 |
| Sha1.SHA1.Input | ypeer/sha1.cpp:174-211 | any part of a message is absorbed block by block; after a digest, or at 2^64 bits, the object is corrupted |
| Sha1.SHA1.Result | ypeer/sha1.cpp:133-155 | the digest of everything fed, the same again, or failure when corrupted |
| Sha1.SHA1.Reset | ypeer/sha1.cpp:99-114 | back to the empty message |
| Sha1.AnyCalls | ypeer/sha1.cpp:99-211 | for every sequence of calls since a reset: corrupted exactly when some input came after a request or there was too much, otherwise the digest of all input however divided |
| Sha1.ResetForgets | ypeer/sha1.cpp:99-114 | what went before a reset has no influence |
| Sha1Spec.PadIsInjective | ypeer/sha1.cpp:520-565 | two messages of allowed length never pad to the same text |
| Sha1Spec.GapIsLeast | ypeer/sha1.cpp:527-549 | the padding is the shortest with room for the length |
| Sha1Meaning.MixBits | ypeer/sha1.cpp:445-488 | in each bit: a choice of C or D by B, parity, majority, and parity, for twenty rounds each |
| Sha1Meaning.ConstantsAreRoots | ypeer/sha1.cpp:412-417 | each added constant is the whole part of 2^30 times the square root of 2, 3, 5 or 10 |
| Sha1Meaning.InitialWordsCount | ypeer/sha1.cpp:105-109 | the octets of the starting words count up, down, and down by 15 |
| Sha1Meaning.PadLayout | ypeer/sha1.cpp:520-565 | message, a single bit, zeros, and the length in bits |
| Sha1Meaning.FirstWordsAreBlock | ypeer/sha1.cpp:426-432 | the first sixteen words are the octets of the block |
| Sha1Meaning.CircularIsSchedule | ypeer/sha1.cpp:434-437 | the eighty words are those of the circular queue of sixteen in FIPS PUB 180-1 section 8 |
| Sha1Meaning.RegistersAreDelayed | ypeer/sha1.cpp:445-488 | all five registers are first registers of earlier rounds |
| Sha1Meaning.RoundsAreRecurrence | ypeer/sha1.cpp:445-488 | the rounds are one recurrence of five terms modulo 2^32 |
| HyphenatePattern.SplitFramesChars | syllable/hyphenate.py:32-36 | a pattern has at most one point on each side of each character |
| HyphenateReading.PatternIsRead | syllable/hyphenate.py:32-36 | for every pattern of digits and characters: which characters it is for, and which number stands at which point |
| HyphenateReading.EveryPatternInterleaves | syllable/hyphenate.py:32-36 | every text of digits, letters and dots is such a pattern |
| HyphenateReading.NumberIsRead | syllable/hyphenate.py:36 | digits are read by their places, with a sign before them if there is one, and nothing else is read |
| HyphenateReading.NumbersInPlace | syllable/hyphenate.py:36 | each gap gives the number at its place, and one that is no number makes the pattern unreadable |
| HyphenatePattern.LastPatternWins | syllable/hyphenate.py:41-46 | of two patterns for the same characters the last one counts |
| HyphenatePattern.TableHasOnlyPatterns | syllable/hyphenate.py:41-46 | nothing else is found in the trie |
| HyphenatePattern.BestIsMaximum | syllable/hyphenate.py:59-71 | each score is the maximum over all patterns at all positions, and 0 or reached |
| HyphenatePattern.CutBreaks | syllable/hyphenate.py:75-81 | the word is cut exactly after the letters with an odd point |
| HyphenatePattern.CutFlat | syllable/hyphenate.py:75-81 | the pieces concatenate to the word |
| Hyphenate.Hyphenator.InsertPattern | syllable/hyphenate.py:32-46 | walking and extending the trie in place adds exactly the pattern, or raises an error on an unreadable one |
| Hyphenate.Hyphenator.InsertPatterns | syllable/hyphenate.py:23-25 | the trie stands for the table of the whole list |
| Hyphenate.Hyphenator.InsertExceptions | syllable/hyphenate.py:27-30 | the dictionary holds the points of all exceptions |
| HyphenateExceptions.LastExceptionCounts | syllable/hyphenate.py:27-30 | of several exceptions for a word the last is recorded, and nothing else is |
| HyphenateExceptions.ExceptionComesBack | syllable/hyphenate.py:52-81 | the pieces of a word cut by an exception for it, joined by hyphens, are the exception, up to letter case, if and only if it is lower-case letters with single hyphens after them |
| Hyphenate.Hyphenator.Score | syllable/hyphenate.py:58-71 | the search with early break scores every point as the naive search does |
| Hyphenate.DottedChars | syllable/hyphenate.py:59 | patterns are looked for in the word in lower case with a dot at each end |
| Hyphenate.Hyphenator.HyphenateWord | syllable/hyphenate.py:48-81 | the pieces concatenate to the word, none is empty, and there is a break after n letters if and only if at least two stand on each side and the winning number there is odd; a word in the exceptions comes out with the exception's hyphens if and only if that is well hyphenated |
| DhcpRoundTrip.WrittenComesBack | dhcp/options.c:24-295 | parsing what was written succeeds with every meaningful field if and only if the struct fits |
| DhcpRoundTrip.SizeBound | dhcp/options.c:190-295 | a fitting struct takes at most 426 octets |
| DhcpRoundTrip.FitComesBack | dhcp/options.c:24-295 | the forward half, with the parsed struct |
| DhcpLayout.CodesOfRfc2132 | dhcp/options.h:14-28 | the numbers of the options in the order in which they are written |
| DhcpLayout.NumbersInNetworkOrder | dhcp/options.c:190-295 | what each numeric option carries |
| DhcpLayout.AddressesInNetworkOrder | dhcp/options.c:190-295 | four octets for each address, in order |
| DhcpLayout.UnknownIsSkipped | dhcp/options.c:24-188 | options with any other number are passed over, as the header promises |
| DhcpLayout.CutNeverParses | dhcp/options.c:24-188 | written options cut short anywhere are not accepted |
| DhcpCode.WriteOptions | dhcp/options.c:190-295 | the assertions hold exactly when the text is shorter than the buffer, and then the buffer starts with it |
| DhcpCode.OptionsStruct.ParseOptions | dhcp/options.c:24-188 | on every buffer: success, failure or a read past the end, with the struct as filled so far |
| DhcpCode.RoundTrip | dhcp/options.c:24-295 | writing a fitting struct into 512 octets and parsing it into a cleared struct recovers it |
| QueryText.UnescapeEscape | ypeer/peers.cpp:290-303 | the parser's unescaping undoes the printer's escaping on every byte string |
| QueryText.UnescapePercent | yhttp/url.cpp:227-249 | a percent sign and two hexadecimal digits in either case are a byte |
| QueryText.UnescapeStrayPercent | yhttp/url.cpp:227-249 | any other percent sign stands for itself |
| QueryText.UnescapeCopies | yhttp/url.cpp:227-249 | text without percent signs stands for itself |
| QueryText.HexDigitIsLower | ypeer/peers.cpp:299 | escapes are in lower case |
| QueryText.CopiedCharacters | ypeer/peers.cpp:290-303 | exactly the unreserved characters of RFC 3986 are not escaped |
| QueryText.AllowedCharacters | yhttp/url.cpp:13-41 | the characters that a path may have |
| QueryText.SplitParts | yhttp/util.cpp:6-24 | the parts are not empty, free of separators, and have all other characters in order |
| QueryText.EscapeAndAppend | ypeer/peers.cpp:290-303 | the loop appends the escaped text |
| QueryText.RunUnescape | yhttp/url.cpp:227-249 | the loop unescapes |
| QueryText.RunSplit | yhttp/util.cpp:6-24 | the loop yields the non-empty texts between separators |
| QueryRoundTrip.BuildQuery | ypeer/peers.cpp:275-288 | the loop prints the pairs in key order |
| QueryRoundTrip.RunConsumePath | yhttp/url.cpp:171-207 | slashes, character check, query and pairs, with what is left behind on failure |
| QueryRoundTrip.PairsAreTaken | yhttp/url.cpp:190-204 | what becomes of a name, a name with a value, a second equals sign, and a pair without a name |
| QueryRoundTrip.SlashesStripped | yhttp/url.cpp:174-176 | all slashes in front go, and nothing else |
| QueryRoundTrip.QueryComesBack | yhttp/url.cpp:171-249 | the parameters come back, with path and query text, if and only if keys are non-empty plain texts and no value has a tilde |
| JspngCrc.CRC.constructor | jspng/crc.js:7-17 | each table entry is eight clocks of the register |
| JspngCrc.CRC.Compute | jspng/crc.js:19-34 | the table-driven checksum is the bit-at-a-time CRC-32 of every byte sequence |
| JspngCrc.OctetStep | jspng/crc.js:27 | eight clocks are one table lookup and a shift |
| JspngCrc.ShiftsLinear | jspng/crc.js:9-15 | the register is linear |
| CrcRemainder.CrcIsRemainder | jspng/crc.js:7-34 | for every text, the complement of the checksum is the remainder in the division of polynomials that RFC 2083 section 3.4 prescribes |
| CrcRemainder.PolynomialIsDivisor | jspng/crc.js:11 | the polynomial word holds the divisor, term by term |
| JspngZlib.ComputeAdler32 | jspng/zlib.js:39-53 | the loop gives the closed-form sums modulo 65521 |
| JspngZlib.BaseIsLargestPrime | jspng/zlib.js:44 | the modulus is the largest prime below 2^16 |
| JspngZlib.KnownChecksums | jspng/zlib_unittest.html:10-16 | the checksum that the source tests for |
| JspngZlib.WindowIsPower | jspng/zlib.js:14 | the window in the header is the power of two that belongs to the block size |
| JspngZlib.Deflate | jspng/zlib.js:13-37 | for every block size: throws exactly on more data than that; otherwise a decoder that checks the header, the stored block and the checksum returns the data if and only if the block size is 129 to 65535 or 0 |

## Left out

* Mutexes, threads, sockets, `select` and `write()` are the atomicity of steps and arbitrary counts; an `errno` other than EAGAIN ends the program and is not modelled.
* Whether a waiting transaction is ever woken, and in which order, is not decided by the modelled code.
* `Commit` and `Rollback` access the map under the scheduler's mutex and are single steps; the map's own lock is taken once per access, as in `Fetch` and `Put`.
* `ydb/ydb_tree.cpp`: insertion into inner nodes is unfinished; the map is abstract.
* `Ydb_Trans` and `Ydb_Op` objects are identities and values; their deletion is not modelled.
* Buffer sizes are unbounded numbers; 32-bit overflow of a very large buffer is not modelled.
* After a pushback that leaves a negative cursor the source reads and writes outside its cells; the model ends there (`BtunnelReader.ReadMessages` and `BtunnelReader.Receive` exclude it by their conditions on the cursors).
* Messages longer than the limits and strings of length zero are modelled up to the failing call or assertion; the peer behind the reader is a predicate that accepts or refuses.
* A `Write` of an empty string inside a message is outside the writer's assertion and not part of the stream theorems.
* BencodeDecode.DecodeAt: a stack is measured in decoder objects under construction; that Ruby's other calls take stack too is not counted.
* BencodeDecode.ToI: a leading `0d` and leading underscores, which some Ruby versions accept, are not modelled; printed integers never contain them.
* BencodeCpp.DecodeNode: `long` is taken to have 64 bits; reads past the terminator and through null pointers are one outcome, `Wild`; memory exhaustion is not modelled.
* Hyphenate.Hyphenator.HyphenateWord: letter case is that of ASCII.
* Hyphenation patterns come as a list of texts; splitting the big string at white space is Python's.
* Sha1: the overloads and operators that forward to `Input` add nothing and are omitted.
* DhcpCode.WriteOptions: arrays are read as far as their counts, which must not exceed 64, and texts must end within their arrays.
* QueryRoundTrip.RunConsumePath: the other parts of a URL, and HTTP, are not modelled; character classes are those of the C locale.
* JspngZlib.Deflate: block sizes are natural numbers, and the logarithm is exact instead of floating point; PNG output in several blocks is marked as not working in the source and omitted.
* Everything that is input/output, a device, a user interface or a foreign library: `ramdisk`, `utunnel`, `avr`, `misc`, `mach-o`, `memedit`, `pymachrpc`, `iphone-apps`, `MotionScreen`, `ycoreaudio`, `audio/synth`, and the networking parts of `ypeer` and `yhttp`.

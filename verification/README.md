# Verified models of a low-latency relay node

The repository is a relay node for a proof-of-stake-authority chain: a fork of an Ethereum client cut
down to its network side, with its own neighbour selection, a TCP protocol between relay nodes and a
block cache. This project models its most intricate parts in Dafny and proves what they are for. Nothing
here runs the original program.

What is modelled, file by file:

| files | part of the system |
|---|---|
| `Bytes`, `RlpSpec`, `RlpRaw` | Recursive Length Prefix (Appendix B of the Ethereum Yellow Paper) as a recursive definition, and the splitter |
| `RlpMerge`, `RlpEncode`, `RlpBigInt`, `RlpOutput` | the encoder buffer with deferred list headers and its three outputs |
| `RlpStream`, `RlpDecode` | the streaming decoder with its modular stack of list sizes |
| `FeedLedger`, `FeedAccount`, `FeedProtocol`, `FeedSend` | the event feed: its bookkeeping, all goroutines as a state machine, and `Send` on the shared array as a run of that machine |
| `DialRules`, `Dial`, `Server` | one turn of the dial scheduler on values, the scheduler on its tasks and pool, and the server loop that drives it |
| `MatchProtocols`, `PeerWrite` | message numbering and the write token of one peer |
| `Peri`, `PeriScores` | the choice of neighbours to drop, and the records and scores behind it |
| `ChainConfig` | the compatibility check of fork schedules |
| `ExpDecay` | the exponentially decaying reservoir and its heap |
| `Frames`, `BlockQueue` | the relay's TCP frames, and its block cache and head |
| `Sorting`, `Options` | sorting, shuffling and swapping, by the contracts of the library routines; optional values |

Results that hold of the code although a reader may expect otherwise:

- Entries of the decoder's list stack do wrap below zero, on a stream of four bytes already
  (`RlpStream.EntryWraps`), and `RlpStream.WrapsExactly` says when. What every run keeps is a statement
  modulo 2^64, and it is enough for `ListEnd` to be exact.
- A frame is read back if and only if payload and checksum together are shorter than 2^24 bytes
  (`Frames.FrameReadBack`). If what is left of that length in three bytes does not cover the checksum, the
  reader slices out of range, and only then (`Frames.FrameCrashes`). The comment above the builder puts
  the type byte first and calls the length three bytes; the code writes a 32-bit little-endian length and
  overwrites its highest byte. The model follows the code.
- The height that the configuration check asks to rewind to is the exact threshold for every change of
  schedule if and only if the stored Constantinople block is set and is at most 1 or no later than the
  stored Petersburg block, or Petersburg is out of reach (`ChainConfig.ThresholdExactly`, with a
  counterexample built in `ChainConfig.RewindTooFar`).
- The branch of the neighbour selection for an over-full reserve is taken if and only if a slot count is
  negative (`Peri.OverFullExactly`).
- Message codes are routed correctly for all messages if and only if the last range of codes ends below
  2^64 (`MatchProtocols.RoutingExact`); ending at 2^64 is too much although every code still fits.
- A full block cache replaces the number that came in last, so all its other numbers stay for good
  (`BlockQueue.BaseFixedForever`).

Modelling choices that run through the project: readers are byte sequences with a position; channels are
counters or rendezvous steps; the clock never goes back; random choices, map iteration order and when
other goroutines act are nondeterministic; the checksum is an arbitrary function; a block's hash
determines its number; a resolver does not change a node's identity. Machine integers are unbounded
unless a contract says `% TWO64` or `% TWO32`; byte slices are shorter than 2^63.

## Model

| member | source | states |
|---|---|---|
| `Bytes.BEOfVal` | rlp/decode.go:1034-1058 | a byte string without leading zero is the canonical form of the number it denotes |
| `Bytes.BELength` | rlp/encode.go:465-471 | the canonical form has at most k bytes exactly when the number is below 256^k |
| `RlpSpec.EncAllAppend` | rlp/encbuffer.go:154-167 | appending an item to a list appends its encoding and adds its length |
| `RlpRaw.ReadSizeSound` | rlp/raw.go:161-190 | an accepted size field is the canonical form of a size of at least 56 |
| `RlpRaw.ReadSizeComplete` | rlp/raw.go:161-190 | the canonical form of every such size is accepted, whatever follows |
| `RlpRaw.TagSound` | rlp/raw.go:120-158 | an accepted tag is byte for byte the header of its kind and size |
| `RlpRaw.TagComplete` | rlp/raw.go:120-158 | every header is accepted and gives back its kind and size |
| `RlpRaw.SplitSound` | rlp/raw.go:47-53 | what Split accepts is header, canonical content and rest put together |
| `RlpRaw.SplitComplete` | rlp/raw.go:47-53 | Split undoes putting a header in front of any canonical content |
| `RlpRaw.SplitItem` | rlp/raw.go:47-53 | Split finds the first item of an encoding, whatever follows it |
| `RlpRaw.SplitListExact` | rlp/raw.go:96-105 | a list is taken off exactly when the input begins with its header and content |
| `RlpRaw.SplitUint64Exact` | rlp/raw.go:70-92 | an integer is accepted exactly in its canonical encoding, with the rest unchanged |
| `RlpRaw.UniqueReading` | rlp/raw.go:47-53 | encodings are prefix-free and injective: equal bytes mean equal items and equal rests |
| `RlpRaw.UniqueReadingAll` | rlp/raw.go:108-118 | the same for sequences of items |
| `RlpRaw.CountValues` | rlp/raw.go:108-118 | the loop counts exactly the values that repeated splitting finds, or fails with its error |
| `RlpRaw.ValuesOfItems` | rlp/raw.go:108-118 | cutting the encoding of a list of items gives exactly these items |
| `RlpRaw.ValuesSound` | rlp/raw.go:108-118 | the values found make up the input again, each canonical |
| `RlpMerge.MergeSplit` | rlp/encbuffer.go:46-60 | merging headers into string data can be cut at any header |
| `RlpMerge.AppendStep` | rlp/encbuffer.go:88-91 | appending data extends the innermost open list and nothing else |
| `RlpMerge.OpenStep` | rlp/encbuffer.go:154-157 | a new header opens an empty list and keeps what was written |
| `RlpMerge.CloseStep` | rlp/encbuffer.go:159-167 | finishing a header puts header and content behind what the enclosing list held |
| `RlpMerge.Innermost` | rlp/encbuffer.go:159-161 | the size computed at the end of a list is the length of its content, inner headers included |
| `RlpMerge.FramesTotal` | rlp/encbuffer.go:35-37 | string data and finished headers together are as long as all open lists |
| `RlpEncode.PutIntCanonical` | rlp/encode.go:407-461 | putint writes the least number of big-endian bytes; zero takes one |
| `RlpEncode.IntSize` | rlp/encode.go:465-471 | the loop counts the bytes of the canonical form; zero takes one |
| `RlpEncode.HeadSize` | rlp/encode.go:113-118 | the length of the header for a payload of that size |
| `RlpEncode.PutHead` | rlp/encode.go:122-130 | the header is written at the position and nothing else changes |
| `RlpEncode.UintEncoding` | rlp/encbuffer.go:102-113 | the three cases of writing an integer are the encoding of its canonical bytes |
| `RlpEncode.AppendUint64Canonical` | rlp/raw.go:193-261 | appending an integer appends the encoding of its canonical bytes |
| `RlpEncode.EncBuffer.constructor` | rlp/encbuffer.go:22-32 | a new buffer holds nothing |
| `RlpEncode.EncBuffer.Reset` | rlp/encbuffer.go:28-32 | a reset buffer holds nothing |
| `RlpEncode.EncBuffer.Size` | rlp/encbuffer.go:35-37 | the exact length of the output |
| `RlpEncode.EncBuffer.SizeIsTotal` | rlp/encbuffer.go:35-37 | the size counts all open lists together |
| `RlpEncode.EncBuffer.Write` | rlp/encbuffer.go:88-91 | the bytes go to the innermost open list |
| `RlpEncode.EncBuffer.WriteUint64` | rlp/encbuffer.go:102-113 | the canonical encoding of the integer is appended |
| `RlpEncode.EncBuffer.WriteBytes` | rlp/encbuffer.go:115-124 | the encoding of the string is appended |
| `RlpEncode.EncBuffer.WriteBigInt` | rlp/encbuffer.go:129-150 | the canonical encoding of an integer of any size is appended |
| `RlpEncode.EncBuffer.EncodeStringHeader` | rlp/encbuffer.go:178-186 | the string header for that size is appended |
| `RlpEncode.EncBuffer.List` | rlp/encbuffer.go:154-157 | a list is opened, its index is returned, and nothing written is lost |
| `RlpEncode.EncBuffer.ListEnd` | rlp/encbuffer.go:159-167 | the header gets the exact content length, the header total grows by its length, and the list is closed into the enclosing one |
| `RlpEncode.StepLen` | rlp/encbuffer.go:154-167 | how many bytes each write adds |
| `RlpEncode.WriteOne` | rlp/encbuffer.go:88-150 | each kind of write appends the encoding of what it writes |
| `RlpEncode.WriteOp` | rlp/encbuffer.go:88-167 | one write of a string, an integer of any size or an encoded value, or one list begun or ended, is one step of the recursive specification |
| `RlpEncode.WriteOps` | rlp/encbuffer.go:35-60 | for every properly nested sequence of such writes the buffer holds the recursive encoding in each open list, and with all closed the output is that encoding |
| `RlpEncode.WriteItem` | rlp/encbuffer.go:169-176 | a tree is appended as its recursive encoding |
| `RlpEncode.WriteList` | rlp/encode.go:298-316 | the slice writer appends the encoding of the list |
| `RlpEncode.WriteItems` | rlp/encode.go:288-296 | the items one after the other, without a header |
| `RlpBigInt.BigLength` | rlp/encbuffer.go:138-140 | the byte length computed from the words is that of the canonical form |
| `RlpBigInt.BigBytes` | rlp/encbuffer.go:141-150 | filling the buffer word by word from its end gives the canonical bytes |
| `RlpOutput.CopyTo` | rlp/encbuffer.go:46-60 | the destination range receives exactly the output, in bounds, and nothing around it changes |
| `RlpOutput.MakeBytes` | rlp/encbuffer.go:40-44 | the result is exactly the output |
| `RlpOutput.EncodeToBytes` | rlp/encode.go:73-81 | a tree becomes its recursive encoding |
| `RlpOutput.EncodeBigInt` | rlp/encode.go:73-81 | an integer of any size becomes its canonical encoding |
| `RlpOutput.EncodeHead` | rlp/encode.go:107-109 | the list header is in the first bytes of the size buffer |
| `RlpOutput.WriteTo` | rlp/encbuffer.go:63-85 | the writer receives the output, or a prefix of it when it fails |
| `RlpOutput.EncReader.constructor` | rlp/encode.go:88-98 | all of the output is unread |
| `RlpOutput.EncReader.Next` | rlp/encbuffer.go:222-253 | the next piece is the front of what is unread; none is left exactly at the end |
| `RlpOutput.EncReader.Read` | rlp/encbuffer.go:197-219 | the caller gets the next bytes of what is unread, as many as fit; end of input exactly when all was read |
| `RlpOutput.ReadChunks` | rlp/encbuffer.go:197-253 | for every sequence of buffer sizes the results concatenated are a prefix of the output, and all of it at end of input |
| `RlpStream.BalancedTake` | rlp/decode.go:1096-1113 | reading keeps the modular balance of every open list |
| `RlpStream.BalancedPush` | rlp/decode.go:771-791 | opening a list charges the enclosing one for all of it, modulo 2^64 |
| `RlpStream.EntryWraps` | rlp/decode.go:771-791 | a stream over C2 C2 00 00 on which opening two lists leaves the entry 2^64 - 1 |
| `RlpStream.WrapsExactly` | rlp/decode.go:947-972 | an entry wraps exactly when the inner list is larger than what its tag leaves of the outer one, and by at most the tag |
| `RlpStream.CanonicalUint` | rlp/decode.go:717-750 | the bytes accepted for an integer are its canonical form |
| `RlpStream.Stream.constructor` | rlp/decode.go:591-605 | a new stream is at the start, with the limit given |
| `RlpStream.Stream.WillRead` | rlp/decode.go:1096-1113 | accepted exactly within both limits, which then shrink by the amount; else the error of the list limit, or of the input limit |
| `RlpStream.Stream.ReadFull` | rlp/decode.go:1061-1081 | succeeds exactly within the limits and the input, and returns these bytes; else the error names what is in the way |
| `RlpStream.Stream.ReadByte` | rlp/decode.go:1083-1094 | one byte, exactly when one may be read |
| `RlpStream.Stream.ReadUint` | rlp/decode.go:1034-1058 | the number in the next bytes; a leading zero is refused as not canonical |
| `RlpStream.Stream.ReadKind` | rlp/decode.go:974-1031 | succeeds exactly when the readable bytes begin with a canonical tag, and consumes it; at top level with nothing readable the error is end of input |
| `RlpStream.Stream.ReadTag` | rlp/decode.go:957-958 | the tag is cached exactly when it is canonical |
| `RlpStream.Stream.FetchKind` | rlp/decode.go:954-968 | accepted exactly when the tag is canonical and passes the list and input checks, with the error of the one it fails |
| `RlpStream.Stream.KindAhead` | rlp/decode.go:947-972 | the cached tag, end of list exactly when nothing is left of it, or the tag read now; reading it into the cache does not change what is ahead |
| `RlpStream.Stream.Bytes` | rlp/decode.go:610-632 | succeeds exactly when a canonical string within the limits is ahead, tag cached or not; the bytes consumed are its encoding; each kind of refusal has its error |
| `RlpStream.Stream.Raw` | rlp/decode.go:665-687 | succeeds exactly when a whole value within the limits is ahead, and returns its tag and content |
| `RlpStream.Stream.Uint` | rlp/decode.go:717-750 | succeeds exactly when a canonical integer of the width is ahead, and returns it; the bytes consumed are its encoding; each kind of refusal has its error |
| `RlpStream.Stream.DecodeBigInt` | rlp/decode.go:823-864 | succeeds exactly when a canonical integer is ahead; the bytes consumed are its encoding; each kind of refusal has its error |
| `RlpStream.Stream.List` | rlp/decode.go:771-791 | succeeds exactly when a list is ahead, and records where its content starts and how long it is declared; anything else stays ahead, its tag cached |
| `RlpStream.Stream.ListEnd` | rlp/decode.go:794-805 | succeeds only when the content consumed exactly the declared number of bytes, although entries are kept modulo 2^64 |
| `RlpDecode.TagAhead` | rlp/decode.go:974-1031 | the tag of any item's encoding, as the stream sees it |
| `RlpDecode.FetchTag` | rlp/decode.go:492-499 | with an item's encoding ahead its tag is accepted and its content is ahead then |
| `RlpDecode.DecodeInterface` | rlp/decode.go:492-514 | only canonical encodings are accepted, into the item they encode, and every item's encoding is accepted |
| `RlpDecode.DecodeListSlice` | rlp/decode.go:272-285 | the same for a list whose tag was read |
| `RlpDecode.DecodeSliceElems` | rlp/decode.go:287-314 | elements until the end of the list, consuming exactly their encodings |
| `RlpDecode.DecodeBytes` | rlp/decode.go:90-104 | accepted inputs are exactly the encodings, each decoded to its own item |
| `RlpDecode.RoundTrip` | rlp/decode.go:90-104 | encoding a tree with the buffer and decoding it with the stream gives the tree back |
| `RlpDecode.DecodeInteger` | rlp/decode.go:815-864 | integers of any size: only canonical encodings, and all of them |
| `RlpDecode.IntegerRoundTrip` | rlp/encbuffer.go:129-150 | writing an integer word by word and decoding it gives it back |
| `RlpDecode.RawItem` | rlp/decode.go:665-687 | the encoding of every item that is ahead is returned as it is, whether or not its kind was asked for |
| `RlpDecode.UintItem` | rlp/decode.go:717-750 | every integer of the width whose encoding is ahead is returned, whether or not its kind was asked for |
| `FeedLedger.PassesInbox` | event/feed.go:107-114 | a removal that misses its channel in the inbox still has a case of its own in the list |
| `FeedLedger.Taken` | event/feed.go:116-123 | a waiting removal finds a case, and taking it keeps the books |
| `FeedLedger.Merged` | event/feed.go:135-137 | moving the inbox into the case list keeps the books |
| `FeedSend.Find` | event/feed.go:213-220 | the first position of the channel, or -1 exactly when it is absent |
| `FeedSend.Delete` | event/feed.go:223-225 | the in-place shift leaves the list without that case |
| `FeedSend.Deactivate` | event/feed.go:228-232 | the in-place swap of the case with the last one |
| `FeedAccount.Sent` | event/feed.go:159-165 | a send moves one case from active to sent and loses none |
| `FeedAccount.RemovalCounted` | event/feed.go:171-177 | a removal, active or not, is accounted for with the right prefix length |
| `FeedSend.Feed.constructor` | event/feed.go:60-65 | a new feed has only the removal case and has taken no step |
| `FeedSend.Feed.Subscribe` | event/feed.go:72-92 | the channel joins the inbox and the open subscriptions, as the protocol says |
| `FeedSend.Feed.CheckInbox` | event/feed.go:103-114 | the channel is taken out of the inbox if it is there, else its removal waits for a case, as the protocol says |
| `FeedSend.Feed.RemoveLocked` | event/feed.go:116-123 | a waiting removal that gets the lock finds its channel and deletes the case in place, as the protocol says |
| `FeedSend.Feed.Take` | event/feed.go:119-123 | the channel of a waiting removal is always found behind the first case and its first case deleted in place |
| `FeedSend.Feed.Append` | event/feed.go:135-137 | the list becomes the old list and then the inbox, in place or in a new array |
| `FeedSend.Feed.Begin` | event/feed.go:131-148 | the lock is taken and the inbox merged; every case is still to be sent to |
| `FeedSend.Feed.Deliver` | event/feed.go:159-182 | one send is one step of the protocol, done by a swap in the array |
| `FeedSend.Feed.TrySends` | event/feed.go:159-165 | one pass of non-blocking sends is a run of the protocol, with calls of others between the sends |
| `FeedSend.Feed.Receive` | event/feed.go:170-177 | a removal during Send is one step of the protocol: the case counts as removed before or after its send, whichever is true, and the active prefix shrinks only in the first case |
| `FeedSend.Feed.Send` | event/feed.go:128-190 | with any calls of others in between, Send on the array is a run of the protocol: every case present is sent to exactly once or removed before; only what waited for it or was unsubscribed by a call is removed; the number of sends is returned, and without removals it is everyone |
| `FeedProtocol.InvStep` | event/feed.go:72-190 | every atomic step of every goroutine keeps the invariant |
| `FeedProtocol.EveryRun` | event/feed.go:72-190 | the invariant holds after every schedule of steps |
| `FeedProtocol.FeedSafety` | event/feed.go:103-124 | no schedule deletes an absent case; per channel, cases in inbox and list equal open subscriptions, and waiting removals are at most the cases in the list |
| `FeedProtocol.SendComplete` | event/feed.go:155-187 | a Send that may end has sent once to every case it found, except those removed before |
| `FeedProtocol.RemovalNeverStuck` | event/feed.go:116-187 | a removal past the inbox is never stuck: it can take the lock or reach the running Send, or whoever is in its way can go on without a receiver |
| `FeedProtocol.Recorded` | event/feed.go:155-187 | at every moment of a Send, whatever was removed or waits to be removed was waiting before or was unsubscribed meanwhile |
| `FeedProtocol.SendServes` | event/feed.go:128-190 | what a whole Send did, from the state it began in, for every run of steps with calls of others in between |
| `FeedProtocol.AllServed` | event/feed.go:128-190 | if nobody waited to be removed and nobody unsubscribes, everyone present is sent to |
| `DialRules.Push` | p2p/util.go:40-42 | the item is added and the next to expire stays first |
| `DialRules.Pop` | p2p/util.go:55-62 | the next item to expire is taken out and the following one comes first |
| `DialRules.SpacedDial` | p2p/dial.go:457-461 | a dial of a node not in the history keeps all dials of one node apart |
| `DialRules.SpacedExpire` | p2p/dial.go:369-379 | expiry removes only what is older than the expiration time |
| `DialRules.PicksWaiting` | p2p/dial.go:418-426 | the static dials of a turn are of different nodes, each static and free to be dialed when the turn began |
| `DialRules.StartedNodes` | p2p/dial.go:418-426 | each static dial is of its static node, and nodes under way are left alone |
| `DialRules.StaticsDialed` | p2p/dial.go:236-238 | exactly as many static nodes are dialed as wait, or as both limits leave room for; no slot stays free while one waits |
| `DialRules.NextTurnDials` | p2p/dial.go:236-238 | with room for all static nodes that may be dialed, the next turn dials each of them |
| `DialRules.NodeDialed` | p2p/dial.go:239-253 | a discovered node is dialed exactly when the static dials left a slot, its address may be used, and it is neither the node itself nor busy |
| `DialRules.TurnDialsOnly` | p2p/dial.go:234-253 | nobody else is dialed, nobody twice in a turn, nobody busy, and never the node itself |
| `DialRules.DialsWithin` | p2p/dial.go:382-389 | the dials a turn adds to those under way stay within both limits |
| `DialRules.WaitingIs` | p2p/dial.go:392-415 | which static nodes may be dialed, spelled out |
| `DialRules.TurnKnows` | p2p/dial.go:255-303 | what a turn means for peers, their count and static nodes |
| `DialRules.UnderWay` | p2p/dial.go:255-259 | a node is under way after a turn exactly if it was or was dialed in it, and did not just report back |
| `DialRules.RunDials` | p2p/dial.go:234-312 | in every run, before every turn: a waiting static node is dialed in that turn if there is room for all |
| `DialRules.RunKnows` | p2p/dial.go:261-303 | after every run a node is static, or a peer, exactly if it was added after it was last removed |
| `DialRules.RunMarks` | p2p/dial.go:457-461 | in every run each mark in the history is that of a dial |
| `DialRules.MayBeDialedAgain` | p2p/dial.go:369-379 | once its dials have expired, a static node that is not busy otherwise may be dialed again |
| `Dial.OutstandingStart` | p2p/dial.go:461-466 | starting a task keeps the dialing map a bijection with the running tasks |
| `Dial.OutstandingDone` | p2p/dial.go:256-257 | a completed task is the one under its node, and the bijection stays |
| `Dial.DialScheduler.CheckDialOk` | p2p/dial.go:392-415 | a node may be dialed exactly when it is another node with a usable and permitted address, and neither under way, connected nor dialed recently |
| `DialRules.RoomExact` | p2p/dial.go:382-389 | n dials may be added exactly when both limits leave room for them |
| `Dial.DialScheduler.AddToStaticPool` | p2p/dial.go:436-442 | the task is in the pool at its index |
| `Dial.DialScheduler.RemoveFromStaticPool` | p2p/dial.go:446-454 | the swap-remove takes out that task only and keeps every index true |
| `Dial.DialScheduler.UpdateStaticPool` | p2p/dial.go:429-434 | the pool is exact again about the node |
| `Dial.DialScheduler.StartDial` | p2p/dial.go:457-466 | the task runs, its node is busy, and the dial is remembered |
| `Dial.DialScheduler.StartStaticDials` | p2p/dial.go:418-426 | the static dials that the rules allow, until no slot or no task is left |
| `Dial.DialScheduler.OnNode` | p2p/dial.go:248-253 | a dynamic node is dialed exactly if it may be, by a task of its own; the pool stays exact because it was empty |
| `Dial.DialScheduler.ReceiveNode` | p2p/dial.go:248-253 | the same as the rules put it |
| `Dial.DialScheduler.OnDone` | p2p/dial.go:255-259 | the task is no longer running, its node no longer under way, and the pool is exact |
| `Dial.DialScheduler.OnAddPeer` | p2p/dial.go:261-272 | the peer is known, counted if dialed, and out of the pool |
| `Dial.DialScheduler.OnRemPeer` | p2p/dial.go:274-279 | the peer is forgotten and its static task back in the pool if it may be dialed |
| `Dial.DialScheduler.OnAddStatic` | p2p/dial.go:281-292 | the node is static, once, with a task of its own, and the pool is exact |
| `Dial.DialScheduler.OnRemStatic` | p2p/dial.go:294-303 | the node is not static, and the pool is exact |
| `Dial.DialScheduler.ExpireHistory` | p2p/dial.go:369-379 | exactly the expired marks are gone and the pool is exact |
| `Dial.DialScheduler.Resolve` | p2p/dial.go:513-538 | a running task may change its endpoint without harm |
| `Dial.DialScheduler.LookUp` | p2p/dial.go:513-538 | the node under way has the new endpoint, and so has the static node if its own task is under way |
| `Dial.DialScheduler.Turn` | p2p/dial.go:234-312 | one turn on tasks and pool keeps the invariant and is a turn by the rules |
| `Dial.DialScheduler.Loop` | p2p/dial.go:228-312 | after every sequence of events the invariant holds and the state is that of a run by the rules |
| `Dial.DialScheduler.Stop` | p2p/dial.go:314-318 | shutdown receives one completion per dialing entry, which is one per running task; none is missing and none is left |
| `Dial.DialScheduler.PoolExact` | p2p/dial.go:234-312 | the pool holds, without duplicates, exactly the static tasks that may be dialed; dials under way are within the limit; dials of one node are more than 35 seconds apart |
| `Dial.DialScheduler.constructor` | p2p/dial.go:145-175 | a new scheduler is empty and in order, with the default limit filled in |
| `Server.SlotsShared` | p2p/server.go:676-693 | dialed and inbound limits are proper and share out the peer slots in the configured ratio, with at least one dialed |
| `Server.QuotientTruncates` | p2p/server.go:680-693 | division rounds towards zero |
| `Server.Admission` | p2p/server.go:840-852 | admitting a connection that passes the checks keeps all counts and limits |
| `Server.Departure` | p2p/server.go:805-814 | a departure keeps all counts and limits |
| `Server.Server.constructor` | p2p/server.go:731-748 | a new server mirrors an empty scheduler |
| `Server.Server.SetTrusted` | p2p/server.go:756-772 | trust changes the set and the flag of a connected peer, and no count |
| `Server.Server.OnPostHandshake` | p2p/server.go:779-787 | the trusted flag is set first; the connection passes exactly within the limits, if it is new and not the node itself |
| `Server.Server.AddPeerChecks` | p2p/server.go:855-863 | passes exactly with a shared protocol and the repeated checks |
| `Server.Server.OnAddPeer` | p2p/server.go:789-803 | a connection is admitted exactly by the rule for admission; an admitted one is a peer for both the server and the scheduler, a refused one changes nothing |
| `Server.Server.OnDelPeer` | p2p/server.go:805-814 | the peer is gone for both |
| `Server.Server.Handle` | p2p/server.go:749-815 | each event has the effect the rules give it on peers and trusted nodes |
| `Server.Server.Loop` | p2p/server.go:749-815 | after every interleaving of server and dial events the invariant holds, and peers and trusted nodes are what the events make of them |
| `Server.PeerExactly` | p2p/server.go:789-814 | after every run a node is a peer exactly if it was admitted and has not left since |
| `Server.Server.Admissions` | p2p/server.go:749-863 | the inbound count is right, peers admitted without trust are within both limits, the node is not its own peer, the scheduler mirrors the peers, and no peer may be dialed |
| `MatchProtocols.NameOrder` | p2p/protocol.go:84-86 | the order of names: a proper prefix, or smaller where they first differ |
| `MatchProtocols.PrecedesCompares` | p2p/protocol.go:84-86 | the order of capabilities is one that sorting accepts |
| `MatchProtocols.FindFirst` | p2p/peer.go:401-402 | of several protocols with one name and version the first is taken |
| `MatchProtocols.BestExtended` | p2p/peer.go:400-413 | in sorted order a later version replaces the last match, and the matches stay the highest per name |
| `MatchProtocols.LaidExtended` | p2p/peer.go:404-410 | assigning a match keeps the slots end to end; an earlier match of the name can only be the last |
| `MatchProtocols.OffsetExtended` | p2p/peer.go:404-410 | taking the old length back returns to where its slot began, modulo 2^64 |
| `MatchProtocols.Match` | p2p/peer.go:395-417 | for all protocols and capabilities: one slot per shared name, highest version, end to end from 16 in name order |
| `MatchProtocols.HighestWins` | p2p/peer.go:395-417 | the running names are exactly those with a version both sides have, each with the highest such version |
| `MatchProtocols.OffsetExactly` | p2p/peer.go:396-410 | each protocol's codes begin at 16 plus the lengths of exactly those running protocols whose name is smaller, modulo 2^64 |
| `MatchProtocols.BestUnique` | p2p/peer.go:395-417 | the set of shared capabilities determines order and versions |
| `MatchProtocols.Agreement` | p2p/peer.go:395-417 | two peers that agree on lengths run the same protocols at the same offsets |
| `MatchProtocols.GetProto` | p2p/peer.go:447-454 | some protocol that accepts the code, or none exactly when none does |
| `MatchProtocols.RoutedWithoutOverflow` | p2p/peer.go:447-454 | without overflow code ranges are disjoint and above the base protocol |
| `MatchProtocols.RoutingExact` | p2p/peer.go:447-454 | every message is taken by its protocol alone if and only if the last range of codes ends below 2^64 |
| `MatchProtocols.NumberedIs` | p2p/peer.go:404-410 | that condition is that base protocol and running protocols have fewer than 2^64 codes together |
| `MatchProtocols.EndToEnd` | p2p/peer.go:466-497 | a code written on one side reaches the same protocol on the other as the same code |
| `MatchProtocols.CountMatching` | p2p/peer.go:382-392 | the number of matching pairs; none exactly when nothing is shared |
| `PeerWrite.InvStep` | p2p/peer.go:261-327 | every channel operation keeps the token count and the error counts |
| `PeerWrite.RoomForHandler` | p2p/peer.go:243-255 | a handler that has not ended has room in the error channel |
| `PeerWrite.NeverBlocks` | p2p/peer.go:466-487 | no send on any of the channels has to wait |
| `PeerWrite.EveryRun` | p2p/peer.go:261-327 | the invariant holds after every schedule |
| `PeerWrite.OneWriter` | p2p/peer.go:419-487 | at most one write is under way, no send waits, and no channel holds more than its capacity, also during shutdown |
| `PeerWrite.TokenNeverLost` | p2p/peer.go:280-287 | while the peer runs the write token is available, in use, or on its way back |
| `PeerWrite.ClosesExactly` | p2p/peer.go:277-306 | the peer is closing exactly if a failed write, a read error, the end of a handler or a request to disconnect was taken, and then for good |
| `PeerWrite.NoWriteAfterFailure` | p2p/peer.go:280-287 | after a write that failed no write begins any more |
| `PeerWrite.ErrorsHeard` | p2p/peer.go:277-306 | while the peer is not closing, the run loop can take the error of whatever has ended |
| `Peri.BestCount` | eth/peri.go:584-599 | how many peers one order reserves, for any slot count |
| `Peri.OverFullExactly` | eth/peri.go:619-627 | the over-full branch is taken exactly when a slot count is negative |
| `Peri.ReserveBest` | eth/peri.go:584-599 | the loop reserves exactly the best of the order |
| `Peri.Others` | eth/peri.go:611-616 | the candidates are the peers not reserved, each once |
| `Peri.Select` | eth/peri.go:584-626 | exactly as many peers as exceed the slots are chosen, all different, none reserved |
| `Peri.NoDropKept` | eth/peri.go:480-499 | no-drop peers that fit into the slots of one order are never chosen |
| `PeriScores.Record` | eth/peri.go:304-315 | one arrival: the first time is the least, the peer's own time is kept, nobody is earlier than the first |
| `PeriScores.RecordedOnce` | eth/peri.go:286-325 | what recording a list comes to for each item, listed or not, however often |
| `PeriScores.NearHeadExactly` | eth/peri.go:296-302 | exactly the announced blocks at most 32 behind the head count |
| `PeriScores.FreshExactly` | eth/peri.go:339-345 | exactly the transactions not seen in earlier rounds count |
| `PeriScores.Relay.RecordBlocks` | eth/peri.go:286-325 | exactly the announced blocks not too far behind the head are recorded, in order |
| `PeriScores.Relay.RecordTransactions` | eth/peri.go:331-368 | exactly the transactions not seen in earlier rounds are recorded |
| `PeriScores.DelayOrdered` | eth/peri.go:423-427 | for one item, sending no later costs no more, sending earlier in time costs less, being first costs nothing, and the maximum is for those never or too late |
| `PeriScores.TotalAny` | eth/peri.go:418-431 | the sum of delays does not depend on the order of iteration |
| `PeriScores.Latest` | eth/peri.go:398-409 | the latest first arrival, or zero |
| `PeriScores.AddUp` | eth/peri.go:417-431 | sum and number of delays over the items since the peer connected |
| `PeriScores.Score` | eth/peri.go:417-440 | the average delay, between zero and the maximum; excused exactly when connected too late |
| `PeriScores.FasterScoresLower` | eth/peri.go:417-440 | of two peers connected at the same time, the one never later than the other has no higher a score, and a lower one if it was ahead with any item |
| `PeriScores.ScoreEnds` | eth/peri.go:417-440 | zero exactly for a peer first with every item since it connected; the maximum exactly for one that sent none in time |
| `PeriScores.LateIs` | eth/peri.go:432-436 | when a peer connected too late to be judged, spelled out |
| `PeriScores.SortScores` | eth/peri.go:480-499 | a permutation, no-drop peers last, otherwise higher delays first |
| `PeriScores.Relay.GetScores` | eth/peri.go:382-502 | both orders hold every peer once with its score, worst first; the excused are exactly the late ones |
| `PeriScores.Prune` | eth/peri.go:524-552 | exactly the n earliest entries are deleted |
| `PeriScores.Relay.ResetRecords` | eth/peri.go:517-561 | the round's transactions become old ones, the earliest deleted if there are too many; the records are empty |
| `PeriScores.Relay.SelectedOutranked` | eth/peri.go:581-616 | whoever is outside the reserve of both orders is outranked by as many others as each reserves |
| `PeriScores.Relay.NotOutranked` | eth/peri.go:584-599 | if they fit, neither no-drop peers nor those first with everything are outranked |
| `PeriScores.Relay.DisconnectByScore` | eth/peri.go:571-686 | nothing without records; else exactly the excess is selected, the excused are spared, no-drop peers that fit are kept, every selected peer is outranked by as many others as there are slots in each order, peers first with everything are never selected if they fit into the slots together with the no-drop peers, and the records are reset |
| `ChainConfig.IncompatibleIs` | params/config.go:836-846 | two schedules conflict exactly when the fork is active in one and not in the other at some block up to the head |
| `ChainConfig.ReportedConflict` | params/config.go:763-832 | which conflict is reported, by name and with the stored and new block of that fork: the first in order |
| `ChainConfig.CompatibleIs` | params/config.go:763-832 | compatible exactly when every fork is active at the same blocks up to the head, Petersburg possibly as Constantinople, and flag and chain identity agree once their fork is active |
| `ChainConfig.RewindsBelow` | params/config.go:868-883 | the rewind height of a failing test is below the head or zero |
| `ChainConfig.FirstFailure` | params/config.go:763-832 | no error exactly when no test fails |
| `ChainConfig.IncompatibleAbove` | params/config.go:836-846 | a conflict does not go away at a greater height |
| `ChainConfig.CheckCompatible` | params/config.go:711-725 | the loop ends for all configurations and heights and refines the recursive search |
| `ChainConfig.SearchSound` | params/config.go:711-725 | no error exactly when compatible at the height; otherwise the reported height is compatible or zero |
| `ChainConfig.FoundExact` | params/config.go:763-832 | with the blocks in order, the height above the reported one has a conflict |
| `ChainConfig.RewindTooFar` | params/config.go:791-797 | for every other stored configuration a change for which it has none |
| `ChainConfig.ThresholdExactly` | params/config.go:711-725 | the reported height is the threshold for all changes and heights if and only if the stored blocks are in order |
| `ChainConfig.CheckMeaning` | params/config.go:711-725 | the whole meaning of the check: which heights have a conflict and which have none |
| `ExpDecay.Risen` | metrics/sample.go:583-592 | one swap upwards leaves at most one sample out of order, one level higher |
| `ExpDecay.Sunk` | metrics/sample.go:594-610 | one swap downwards leaves at most one sample out of order, one level lower |
| `ExpDecay.RootLeast` | metrics/sample.go:549-551 | the root of the heap has the least key |
| `ExpDecay.Heap.Up` | metrics/sample.go:583-592 | heap order is restored, the samples stay the same |
| `ExpDecay.Heap.Down` | metrics/sample.go:594-610 | heap order is restored in the first m places, the rest untouched |
| `ExpDecay.Heap.Push` | metrics/sample.go:557-562 | the sample is added within the capacity, heap order kept, places behind untouched |
| `ExpDecay.Heap.Pop` | metrics/sample.go:564-573 | a sample with the least key is taken out, heap order kept |
| `ExpDecay.SameValues` | metrics/sample.go:176-184 | the same samples in another order have the same values |
| `ExpDecay.ExpDecaySample.Rescale` | metrics/sample.go:175-185 | pushing all samples again into the array they are read from scales every key once |
| `ExpDecay.ExpDecaySample.Insert` | metrics/sample.go:167-174 | a full reservoir first loses a sample with the least key |
| `ExpDecay.ExpDecaySample.Update` | metrics/sample.go:164-186 | the new value comes in, at most one with the least key goes out, a rescale keeps all values |
| `ExpDecay.ExpDecaySample.Clear` | metrics/sample.go:63-70 | an empty reservoir with a new start time and the rescale an hour later |
| `ExpDecay.ExpDecaySample.Run` | metrics/sample.go:164-186 | after every run the size is the smaller of count and reservoir size |
| `Frames.HeaderRefused` | eth/pioplat_server.go:409-415 | a header is refused exactly when its checksum differs, and reading goes on right behind it |
| `Frames.LengthOf` | eth/pioplat_server.go:486-488 | the length read back is the true one modulo 2^24 |
| `Frames.FrameReadBack` | eth/pioplat_server.go:468-500 | a frame is read back as its message up to its last byte if and only if it is shorter than 2^24 |
| `Frames.FrameCrashes` | eth/pioplat_server.go:411-431 | the reader slices out of range on a frame exactly when the length in three bytes does not cover the checksum |
| `Frames.DamageContained` | eth/pioplat_server.go:431-435 | a damaged payload costs its own frame and no other |
| `Frames.NewMsg` | eth/pioplat_server.go:468-532 | the buffer filled field by field is the frame of the message |
| `Frames.ReadOne` | eth/pioplat_server.go:402-435 | one turn on the reused buffer has the outcome of the specification |
| `Frames.Parse` | eth/pioplat_server.go:402-463 | every message before the first bad header is delivered; a stream without bad headers gives exactly its messages, up to where the reader goes out of range if it does |
| `Frames.StreamReadBack` | eth/pioplat_server.go:402-435 | every sequence of fitting messages is read back exactly, for any checksum function |
| `Frames.DamageSkipped` | eth/pioplat_server.go:402-435 | a damaged payload anywhere in a stream costs that message and no other |
| `Frames.Relay` | eth/pioplat_server.go:402-532 | what one side builds the other recovers |
| `BlockQueue.IndexedWith` | core/blockchain.go:64-65 | adding a block to both indexes keeps them in agreement |
| `BlockQueue.IndexedWithout` | core/blockchain.go:52-58 | dropping a number and its hashes keeps them in agreement |
| `BlockQueue.PushedCount` | core/blockchain.go:42-67 | the number of stored heights after a push, never above the capacity |
| `BlockQueue.InOrder` | core/blockchain.go:46-65 | earlier blocks of a number keep their places and a new one comes last |
| `BlockQueue.Queue.constructor` | core/blockchain.go:29-40 | a new queue is empty |
| `BlockQueue.Queue.Push` | core/blockchain.go:42-67 | both indexes and the count agree after every push; a new number goes into the ring at the head, which moves on, and a known one leaves the ring alone |
| `BlockQueue.Queue.First` | core/blockchain.go:69-78 | never fails on a nonempty queue |
| `BlockQueue.Queue.Exist` | core/blockchain.go:80-93 | true exactly if a block with the hash is stored under the number |
| `BlockQueue.Queue.ExistByHash` | core/blockchain.go:95-102 | true exactly if a block with the hash is stored under some number |
| `BlockQueue.Queue.GetBlockByHash` | core/blockchain.go:259-271 | the stored block with the hash, or none exactly when there is none |
| `BlockQueue.BaseFixed` | core/blockchain.go:52-67 | a full queue keeps all numbers but the latest |
| `BlockQueue.BaseFixedForever` | core/blockchain.go:42-67 | and so over every sequence of pushes |
| `BlockQueue.Blockchain.constructor` | core/blockchain.go:150-160 | the head starts at number one with an empty cache |
| `BlockQueue.Blockchain.EnqueueNewBlock` | core/blockchain.go:191-211 | the block is stored once, and the head is the higher of the two |
| `BlockQueue.Blockchain.InsertChain` | core/blockchain.go:213-218 | the head is the highest of its old number and all enqueued ones |
| `BlockQueue.HighestIs` | core/blockchain.go:208-210 | that number bounds all of them and is one of them |

## Left out

- Reflection, the type cache, struct tags and pooled buffers of the RLP package; items are an explicit tree.
- `EncoderBuffer`, `ReadBytes`, `Bool`, `writeBool`, list iterators: easy members next to the ones modelled.
- RlpStream.Stream.constructor: a reader without input limit is modelled up to 2^64 bytes, because positions are compared with list sizes of 64 bits.
- RlpStream.Stream.ReadFull: the retry loop around the reader is one step, as the reader is a byte sequence.
- RlpEncode.EncBuffer.WriteBigInt: the bytes are filled into a buffer of their own before they are appended, not into the tail of the string data.
- RlpOutput.EncReader.Read: handing the buffer back to the pool is a flag, so reuse by another encoder is not modelled.
- FeedSend.Feed.Send: the value sent and clearing it afterwards; what is tracked is which channel received it and how often. A Send that waits for the lock begins when it gets it.
- Panics of the feed on channels or values of the wrong type, except that a Send of the wrong type merges the inbox and releases the lock.
- DialRules.Pop: the heap of expiry times is modelled by what its users see, the next to expire first, because the heap routine is a library; the heap of the reservoir is modelled in full.
- The history timer of the dial scheduler: expiry may come at any time; logging and dialing itself are left out.
- Server.Server.OnDelPeer: a departure is of a connected peer, as every launched peer reports its end once.
- Shutdown of the server loop, discovery, listening, throttling and both handshakes.
- What protocol handlers do, and the order in which the scheduler of the runtime serves waiting goroutines.
- PeriScores.Relay.DisconnectByScore: slot counts are not negative; for negative ones the other branch is taken, which is shown but not modelled.
- PeriScores.Score: averages are exact reals instead of floating point.
- PeriScores.Relay.RecordBlocks: the distance to the head is not subject to 64-bit overflow.
- The blocklist of dropped neighbours with its waiting times and its database.
- `CheckConfigForkOrder` and the rules derived from a configuration.
- ExpDecay.ExpDecaySample.Update: keys and rescale factors are given as reals; the exponential and the random draw are not modelled.
- Statistics over samples, and the uniform sample.
- Frames.Parse: after a bad header the reader drops an unknown part of the connection, so nothing is claimed for what it reads after that.
- Decoding the payload of a frame and handing it on; the UDP path; sending queues and retries.
- BlockQueue.Queue.Push: two blocks with one hash but different numbers are excluded.
- Requests of the block cache to a full node, event feeds of the chain and broadcasting.
- Locks that serialise the methods of one object: each method is one step.

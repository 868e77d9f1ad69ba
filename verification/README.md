# The packet and message engine of nmsg, modelled and proved in Dafny

This project models the stateful parts of nmsg and proves what they are for. Each part follows the
form of its source: structures that the source changes in place are classes with the same fields,
loops are loops, and every such method is proved against a specification on plain values. The
properties are then proved about the specifications, over all inputs, all runs and all interleavings.

| part | files | main results |
|---|---|---|
| DNS query/response matcher | `probe_table`, `dnsqr_spec`, `dnsqr_runs`, `dnsqr_shape`, `dnsqr`, `dnsqr_filter` | a hash table with linear probing and backward-shift deletion, cross-linked with a list, behaves as a queue: insertion appends, retrieval removes the oldest match, trimming removes the head; over any run every query and every response is reported once, together exactly if they belong together |
| IP reassembly | `ipreasm_*`, `arrivals` | the hole counter is right; any order of arrival completes with the last piece, exactly if none is repeated; from the bytes of the fragments to the bytes of the packet; the table of waiting packets keeps the deliveries of different packets apart, on chains and a list with their pointers |
| red-black tree | `rb_spec`, `rb_order`, `rb_links`, `rb_spine`, `rb_tree` | insertion, removal and traversal on nodes with parent pointers refine an ordered sequence and keep the tree red-black |
| NMSG fragmentation | `frag_*` | round trip in any order with repetitions, exactly when the length is not a multiple of the fragment size; the entries are in the red-black tree |
| file stream | `stream_*` | the same containers under every pattern of short reads |
| ring buffer | `ring` | first in, first out in every interleaving of producer and consumer |
| checksums and hashes | `crc32c`, `lookup3`, `known_answers` | all fast forms equal the plain ones, which give the answers known for some messages |
| heap | `heap` | least item first, under any order with ties |
| sequence numbers | `seqsrc`, `seqsrc_sent` | exact condition for the accounting, from sender to receiver |
| output | `container` | batching loses and reorders nothing; exactly when the size estimate suffices, and that it does for all that is written; exactly when lost fragments are reported |
| varints | `varint` | round trips |

`bits` has bitwise operators on numbers, defined bit by bit, `words` bytes and 32-bit words, `wrappers` `Option`.

## How to read it

- Words are numbers with explicit wrap-around. Masks that select low bits are written as remainders,
  and shifts as divisions or multiplications, by powers of two; where masks and wrap-around are the
  point (`ring`, the masked reads of `lookup3`, the `or` of `varint`) they are bitwise operators, and
  the connection is a lemma.
- Mirrored branches of the red-black tree are one branch over a side. Contexts (`Ctx`) and field maps
  (`Mem`) are ghost: the methods read and write the fields of nodes only.
- Ghost fields (`shape`, `mem`, `tree`, `state`, `chains`, `time`, `hash`, `order`, `ents`, `bare`, `sent`,
  `failed`) record what the memory
  stands for; no executable statement depends on them.
- A failing assertion of the source is an outcome `Abort` where the source can reach it, and proved
  impossible elsewhere.
- Reading from a file, the packet source, and whether a write succeeds are left open; everything is
  proved for all of their behaviours.

## What turned out not to hold as documented

- A container whose length is a multiple of the fragment size is never reassembled, since the last
  fragment number is the quotient (`FragDelivery.RoundTrip`, `FragDelivery.OneFullFragmentIsLost`).
- A zero-length last fragment that comes before its left neighbour leaves an entry that never
  completes (`ReasmSpec.CompleteIff`, `ReasmSpec.EarlyEmptyLast`).
- The version 1 header leaves the flags of the container before it in force (`StreamSpec.OwnFlags`,
  `StreamSpec.StaleFlags`).
- A file that ends within the length field runs into an assertion, because the result of that read is
  not looked at (`StreamSpec.CutOff`, `StreamSpec.HalfALength`, `StreamReader.Reader.ReadLength`).
- After an implausibly large gap the container just received is not counted (`SeqSrc.ResetForgetsOne`).
- When a container is written in fragments, only the result of the last write is reported: a failed
  write is always reported exactly if the container fits into one fragment (`Container.LossUntold`,
  `Container.ToldIffOneFragment`).
- A fragment of an IP packet that is repeated before the packet is complete loses the packet: its
  entry takes no more fragments (`ReasmDelivery.Refuses`, `ReasmInterleaved.InterleavedDelivery`).
- The size estimate of a container can be too small, since the bytes for the length of the contents
  are counted up to 2^14 only, and those for the length of the payload up to 2^21. With a header and
  without sequence numbers it is enough exactly if all contents are shorter than 2^21 bytes and all
  payloads shorter than 2^28; with them one payload has one byte to spare
  (`Container.EstimateSuffices`, `Container.SufficesWithoutSequence`, `Container.OneWithSequence`,
  `Container.OneByteShort`, `Container.TwoBytesShort`). It is enough for all that an output writes:
  what goes out in one piece is within the buffer size of at most 2^20 bytes, and what is cut into
  fragments is serialized without a header (`Container.OnePieceFits`, `Container.NothingOverruns`).

## Model

| member | source | states |
|---|---|---|
| DnsqrSpec.OldestMatch | nmsg/base/dnsqr.c:1511-1556 | the index of the oldest stored query that a response answers: it matches, nothing older does, and the length of the queue means that nothing does |
| DnsqrSpec.EqMeans | nmsg/base/dnsqr.c:1284-1340 | two messages match if and only if they are the same but for time and contents or, if a question is missing, but for the question too, in a response with code 1, 2, 4 or 5 |
| DnsqrSpec.KeyIsEndpoints | nmsg/base/dnsqr.c:1342-1375 | two messages have the same key bytes if and only if addresses, ports, protocol and id are the same |
| DnsqrSpec.MatchesHashAlike | nmsg/base/dnsqr.c:1283-1375 | two messages that match, on nine fields or on six, have the same key bytes and so the same hash: a match is never sought in the wrong slot |
| Dnsqr.Context.constructor | nmsg/base/dnsqr.c:621-682 | an empty table of twice `max_values` slots, hashed by lookup3 over the packed key, with every match hashing alike |
| Dnsqr.Context.FindEmpty | nmsg/base/dnsqr.c:1384-1416 | probing from the home slot ends at an empty slot and meets only full slots before it; the assertion that it does not come around never fails |
| Dnsqr.Context.InsertQuery | nmsg/base/dnsqr.c:1378-1420 | table, list, back pointers and count together stand for the old queue with the query appended |
| Dnsqr.Context.Remove | nmsg/base/dnsqr.c:1422-1463 | table, list, back pointers and count together stand for the old queue without the removed entry, for every table, a full one too; the shifting loop terminates |
| Dnsqr.Context.ShiftBack | nmsg/base/dnsqr.c:1436-1462 | moving later entries back until an empty slot is met restores the whole table invariant |
| Dnsqr.Context.Retrieve | nmsg/base/dnsqr.c:1511-1556 | returns and removes the oldest waiting query that is the same as the response but for what no match depends on, and returns nothing exactly when no waiting query is; the rest stays in order |
| Dnsqr.Context.Trim | nmsg/base/dnsqr.c:1465-1509 | removes the oldest query exactly when there are too many, input has ended or it is too old |
| Dnsqr.Context.DoPacket | nmsg/base/dnsqr.c:2206-2256 | one parsed packet has the effect on the queue, and the result, of the specification |
| Dnsqr.Context.PktToPayload | nmsg/base/dnsqr.c:2287-2327 | one call has exactly the effect and result of the specification, and keeps the bound under which no probe assertion fails |
| ProbeTable.HoleOpens | nmsg/base/dnsqr.c:1427-1434 | emptying a slot leaves a table that is sound but for that hole |
| ProbeTable.MustMoveMeaning | nmsg/base/dnsqr.c:1444-1447 | what the condition on cyclic intervals means: the entry moves exactly when its home is not behind the hole |
| ProbeTable.HoleMoves | nmsg/base/dnsqr.c:1444-1461 | moving an entry into the hole moves the hole and breaks no probe path and no age order |
| ProbeTable.HoleStays | nmsg/base/dnsqr.c:1444-1447 | an entry that is left where it is does not need the hole |
| ProbeTable.HoleCloses | nmsg/base/dnsqr.c:1437-1442 | at an empty slot the table is sound again: every slot from home to entry is full, and entries of one home keep their order |
| ProbeTable.InsertKeeps | nmsg/base/dnsqr.c:1395-1409 | putting an entry into the first empty slot on its path keeps the table sound |
| ProbeTable.MoveShrinks | nmsg/base/dnsqr.c:1444-1461 | every move brings entries closer to their homes in sum, so the removal loop ends |
| DnsqrShape.PlaceWf | nmsg/base/dnsqr.c:1399-1409 | a new entry at the end of the list and in its slot keeps all of the cross-linked structure |
| DnsqrShape.UnlinkThreaded | nmsg/base/dnsqr.c:1429-1434 | after taking an entry out of the list, slots and list entries still name each other |
| DnsqrShape.MoveThreaded | nmsg/base/dnsqr.c:1448-1458 | moving a slot together with the back pointer of its list entry keeps slots and list entries naming each other |
| DnsqrShape.MidAdvances | nmsg/base/dnsqr.c:1436-1462 | one round of the shifting loop keeps its invariant and makes progress |
| DnsqrShape.NothingFound | nmsg/base/dnsqr.c:1528-1549 | an empty slot on the probe path means that no stored query matches |
| DnsqrShape.OldestFound | nmsg/base/dnsqr.c:1528-1549 | the first match on the probe path is the oldest one in the queue |
| DnsqrSpec.RunConserves | nmsg/base/dnsqr.c:2287-2327 | over any run, every query that entered has left exactly once or is still waiting |
| DnsqrSpec.RunIsBounded | nmsg/base/dnsqr.c:2287-2327 | over any run, at most one query more than `max_values` is stored, so the probe assertions cannot fail |
| DnsqrSpec.EofMeansEmpty | nmsg/base/dnsqr.c:2305-2313 | the end of input is reported only with an empty table |
| DnsqrSpec.Drains | nmsg/base/dnsqr.c:2293-2324 | once input has ended, waiting queries leave one by one, oldest first, and then the end is reported |
| DnsqrRuns.ResponseIsReported | nmsg/base/dnsqr.c:2232-2263 | in any call of any run: a response that is read goes out with the oldest waiting query that belongs to it, which leaves, or as unsolicited exactly if none does; filtered messages are dropped |
| DnsqrRuns.ReadIsTaken | nmsg/base/dnsqr.c:2206-2256 | in any call of any run: what comes of every other thing that is read, for result, queue, clock and end of input |
| DnsqrRuns.NothingIsRead | nmsg/base/dnsqr.c:2292-2313 | in any call of any run that reads nothing: the oldest query goes out as unanswered, or the end is reported, which takes an empty table |
| DnsqrRuns.RunReports | nmsg/base/dnsqr.c:2287-2327 | over any run there is one message for every query that leaves, in this order, one for every response that is read, and one for each packet passed on; exactly those that no filter drops are returned |
| DnsqrRuns.RunReportsAll | nmsg/base/dnsqr.c:2287-2327 | without filters the messages returned over any run are all of these |
| DnsqrRuns.GivesUpOverdue | nmsg/base/dnsqr.c:1480-1484 | after any run with a clock that does not run backwards, a call gives up the oldest query if and only if some query has waited for more than the limit, there are too many, or input has ended |
| DnsqrFilter.FilterTable.Lookup | nmsg/base/dnsqr.c:502-533 | a name is found exactly if it was inserted |
| DnsqrFilter.FilterTable.Insert | nmsg/base/dnsqr.c:535-561 | the set of names grows by exactly the inserted one |
| ReasmEntry.Entry.constructor | nmsg/base/ipreasm.c:167-187 | a new entry has one hole, an empty head, and no known length |
| ReasmEntry.Entry.Accept | nmsg/base/ipreasm.c:227-321 | the imperative insertion has exactly the result and the new state of the specification |
| ReasmSpec.AddKeeps | nmsg/base/ipreasm.c:227-321 | every accepted fragment keeps the list sorted and disjoint, within the packet, and `holes` right |
| ReasmSpec.AcceptedIff | nmsg/base/ipreasm.c:227-321 | a fragment is accepted if and only if its length is a multiple of 8 or it is the last, it is within a known end and no second last one, and it overlaps nothing that has come, nor comes anything behind the last |
| ReasmSpec.GapsInsert | nmsg/base/ipreasm.c:275-308 | how a fragment put between its neighbours changes the number of gaps, by whether it touches them |
| ReasmSpec.GapsClose | nmsg/base/ipreasm.c:259-264 | learning the length closes the open gap exactly if nothing is missing before the end |
| ReasmSpec.HolesCountGaps | nmsg/base/ipreasm.c:227-348 | `holes` is at least the number of maximal uncovered stretches, and equal to it unless the last fragment was empty and came before its left neighbour |
| ReasmSpec.CompleteIff | nmsg/base/ipreasm.c:345-348 | an entry is complete if and only if its end is known, every byte has come, and its last fragment was not both empty and early |
| ReasmSpec.BareForever | nmsg/base/ipreasm.c:309-318 | an entry whose last fragment was empty and early never completes |
| ReasmSpec.EarlyEmptyLast | nmsg/base/ipreasm.c:309-318 | a concrete pair of fragments that completes in one order and not in the other |
| ReasmDelivery.Accepts | nmsg/base/ipreasm.c:248-294 | a piece of a cut packet that has not come yet is never refused |
| ReasmDelivery.Refuses | nmsg/base/ipreasm.c:248-294 | a piece that has come already always is |
| ReasmDelivery.CompleteIffAll | nmsg/base/ipreasm.c:227-348 | with pieces of a cut packet, an entry is complete exactly when every piece has come |
| ReasmDelivery.DeliveryCompletes | nmsg/base/ipreasm.c:227-348 | in any order of arrival all pieces are accepted, and the entry completes with the last one |
| ReasmEntry.JoinPayloads | nmsg/base/ipreasm.c:380-387 | the payload of every listed fragment is at its place in the output, and nothing else changed |
| ReasmEntry.SumHeader | nmsg/base/ipreasm.c:397-404 | the loops compute the folded one's complement sum, and the 32-bit sum never overflows |
| ReasmEntry.FixHeader4 | nmsg/base/ipreasm.c:390-407 | the header is the old one but for length, offset and checksum, and the new checksum verifies |
| ReasmEntry.Assemble | nmsg/base/ipreasm.c:350-416 | with room for it, the output is the header of the fragment at offset 0, corrected, and all payloads in place; without, nothing is written |
| ReasmEntry.PlacedIsPayload | nmsg/base/ipreasm.c:380-387 | payloads in place that cover the packet are the packet |
| Checksum.ComplementVerifies | nmsg/base/ipreasm.c:397-406 | a header with the complement of the folded sum in its checksum field sums to all ones (section 3.1 of RFC 791) |
| Checksum.WordSumSet | nmsg/base/ipreasm.c:394-406 | setting the checksum field adds it to the sum of the header |
| Checksum.OneChecksum | nmsg/base/ipreasm.c:394-408 | only one checksum below 0xffff makes a header verify |
| ReasmRun.ExpireIsExact | nmsg/base/ipreasm.c:482-494 | in a list ordered by time exactly the entries with a time of expiry before now are dropped, and all of them |
| ReasmRun.StepKeeps | nmsg/base/ipreasm.c:121-225 | every packet keeps keys unique, the list ordered by time, active entries sound and not complete, and the high-water mark right |
| ReasmRun.StepLookup | nmsg/base/ipreasm.c:121-225 | what one packet does to the entry of one key: it goes if its time is over, takes a fragment of its own, and is left alone by those of others |
| ReasmRun.HighWater | nmsg/base/ipreasm.c:196-197 | the high-water mark becomes the number of entries while a packet is taken, if that is more, and stays otherwise |
| ReasmRun.OfferConserves | nmsg/base/ipreasm.c:200-224 | every fragment with a payload is held in an active entry, was given out with a complete one, or is counted as dropped |
| ReasmRun.TakeConserves | nmsg/base/ipreasm.c:140-224 | the same, entering the fragment into the table included |
| ReasmInterleaved.RunKeeps | nmsg/base/ipreasm.c:121-225 | over any run with time not running backwards the table stays well formed |
| ReasmInterleaved.InterleavedDelivery | nmsg/base/ipreasm.c:121-225 | pieces of one packet among any other packets, in any order and with repetitions, within the lifetime that the first leaves: the packet is given out with the last piece, neither before nor again, if and only if no piece came twice until then; after a repetition it is not given out as long as the entry lives |
| ReasmInterleaved.ForgottenLater | nmsg/base/ipreasm.c:482-494 | with the first packet of another key after its time nothing is left of an entry |
| ReasmInterleaved.DeliveredIsPayload | nmsg/base/ipreasm.c:350-416 | what is given out has the first piece in front, and its payloads make up the payload that was cut |
| ReasmPacket.Packet6 | nmsg/base/ipreasm.c:350-416 | of a complete IPv6 entry exactly the packet is written: its headers with the new length, no fragment header, the type of what followed it, and the payload; or nothing if there is no room |
| ReasmPacket.Original6 | nmsg/base/ipreasm.c:410-414 | if the length in the headers was right this is the packet that was cut |
| ReasmPacket.ComesBack6 | nmsg/base/ipreasm.c:121-416 | over any run in which all pieces come in time and once, among any other packets: the packet is written with the last of them |
| ReasmPacket.Packet4 | nmsg/base/ipreasm.c:350-416 | of a complete IPv4 entry exactly the packet is written: the header of 4 times its length field bytes, with new length, no offset and a checksum that verifies, and the payload |
| ReasmPacket.Original4 | nmsg/base/ipreasm.c:388-409 | a header with the right length, no flags or offset and the usual checksum comes back bit for bit |
| ReasmPacket.ComesBack4 | nmsg/base/ipreasm.c:121-416 | the same for IPv4 |
| ReasmParse.Parse4 | nmsg/base/ipreasm.c:604-640 | an IPv4 packet is taken for a fragment if and only if it is not cut short and has an offset or more follows; fields and payload are those of its header |
| ReasmParse.PieceIsFragment4 | nmsg/base/ipreasm.c:604-640 | every piece of a packet cut into more than one is taken for a fragment |
| ReasmParse.PieceIsRead4 | nmsg/base/ipreasm.c:604-640 | the bytes of a fragment are read as the piece that was cut, with the header and the key of its packet |
| ReasmParse.Parse6 | nmsg/base/ipreasm.c:496-573 | an IPv6 packet is taken for a fragment if and only if it is not cut short and the walk along its extension headers ends at a whole fragment header |
| ReasmParse.WalkIs | nmsg/base/ipreasm.c:521-540 | past any extension headers of a packet the walk ends at the fragment header put behind them |
| ReasmParse.PieceIsRead6 | nmsg/base/ipreasm.c:496-573 | the bytes of a fragment are read as the piece that was cut, with the headers and the key of its packet |
| ReasmTable.AgreeAdd | nmsg/base/ipreasm.c:177-195 | a new entry first in its chain and last in the list keeps chains and list holding the same entries |
| ReasmTable.AgreeDrop | nmsg/base/ipreasm.c:418-439 | taking an entry out of chain and list keeps them holding the same entries, each in its own chain, once |
| ReasmTable.FoundInChain | nmsg/base/ipreasm.c:140-147 | the chain a key hashes to holds the entry for it if there is one |
| ReasmLists.ChainedUnlink | nmsg/base/ipreasm.c:420-426 | linking the neighbours of an entry to each other, or the head of its chain to the next, leaves every chain linked both ways, its own without the entry |
| ReasmLists.ListedUnlink | nmsg/base/ipreasm.c:428-436 | the same for the list by time with its first and last entry |
| ReasmTable.Table.RemoveEntry | nmsg/base/ipreasm.c:418-439 | after the pointer steps chains and list are linked both ways, hold the same entries, each in its own chain, and the list is the old one without the entry |
| ReasmTable.Table.AddEntry | nmsg/base/ipreasm.c:149-198 | after the pointer steps chains and list are linked both ways and the entry is first in its chain and last in the list |
| ReasmTable.Table.Search | nmsg/base/ipreasm.c:140-147 | following the pointers of one chain finds the entry with the key, and nothing exactly if there is none |
| ReasmTable.Table.ProcessTimeouts | nmsg/base/ipreasm.c:482-494 | refines dropping expired entries from the ordered list |
| ReasmTable.Table.Deliver | nmsg/base/ipreasm.c:200-224 | refines offering a fragment to one entry: dropped, refused, kept, or given out |
| ReasmTable.Table.Next | nmsg/base/ipreasm.c:121-225 | refines one step of the specification, chains, list and counters together |
| ReasmAssembled.StepGivesSound | nmsg/ipreasm.c:200-299 | an entry that a packet completes is sound and complete |
| ReasmAssembled.NextAssembled | nmsg/ipreasm.c:200-299 | the self-assembling form: one step of the same specification, and when it completes an entry the packet is written out, header and payload, or nothing if it does not fit |
| RbOrder.CmpFlips | nmsg/input_frag.c:28-31 | comparing byte strings is antisymmetric, and zero exactly for equal keys |
| RbOrder.CmpTransitive | nmsg/input_frag.c:28-31 | comparing byte strings is transitive |
| RbOrder.FitsDown | libmy/tree.h:598-607 | going down on the side of the key leaves out only nodes on its other side |
| RbSpec.InsertFixInorder | libmy/tree.h:401-443 | repair after insertion moves no node in the order |
| RbSpec.InsertFixRedBlack | libmy/tree.h:401-443 | repair after insertion gives a black root, no red node with a red child and equal black heights |
| RbSpec.RemoveFixInorder | libmy/tree.h:445-521 | repair after removal moves no node in the order |
| RbSpec.RemoveFixRedBlack | libmy/tree.h:445-521 | repair after removal, one black missing, gives a red-black tree |
| RbSpec.HeightIsLow | libmy/tree.h:400-619 | the height of a red-black tree is at most twice the binary logarithm of the number of nodes and one |
| RbLinks.RotateZip | libmy/tree.h:336-374 | the pointer steps of a rotation, parent links and root included, rotate the tree at that place and touch nothing else |
| RbLinks.SpliceZip | libmy/tree.h:537-583 | linking the only child to the parent takes a node out of the tree |
| RbLinks.ReplaceZip | libmy/tree.h:552-563 | copying the fields and redirecting parent and children puts one node in the place of another |
| RbLinks.AttachZip | libmy/tree.h:608-616 | a node linked below the end of the way down is a red leaf there |
| RbSpine.HoleInorder | libmy/tree.h:532-570 | with its successor in its place, exactly the node is gone from the order |
| RbSpine.TakenOut | libmy/tree.h:572-588 | taking out a red node leaves a red-black tree, a black one leaves one black missing |
| RbTree.Head.InsertColor | libmy/tree.h:401-443 | the loop with its rotations computes the specified repair on the pointers |
| RbTree.Head.RemoveColor | libmy/tree.h:445-521 | the loop with its four cases computes the specified repair on the pointers |
| RbTree.Head.Find | libmy/tree.h:622-637 | finds the node with the key, and nothing exactly if there is none |
| RbTree.Head.Insert | libmy/tree.h:591-619 | returns the node with the key if there is one; otherwise the nodes in order are the old ones with the new one at its place, and the tree is red-black, ordered and linked both ways |
| RbTree.Head.Remove | libmy/tree.h:523-588 | the nodes in order are the old ones without the removed one, and the tree is red-black, ordered and linked both ways |
| RbTree.Head.MinMax | libmy/tree.h:704-717 | the first or last node in order |
| RbTree.Head.Next | libmy/tree.h:660-680 | the node after a given one in order, or none after the last |
| RbTree.Head.Sweep | nmsg/input_frag.c:153-170 | going through the tree and removing some nodes on the way leaves exactly the others, in order |
| FragDelivery.WriteFragments | nmsg/output_frag.c:79-114 | the splitting loop sends exactly the specified fragments |
| FragDelivery.PiecesAre | nmsg/output_frag.c:79-114 | fragments are numbered from 0, none is empty or larger than the fragment size, and together they are the container |
| FragDelivery.HowMany | nmsg/output_frag.c:81-86 | the number of fragments is the length divided by the size, rounded up |
| FragDelivery.RoundTrip | nmsg/input_frag.c:57-122 | from sender to receiver, over every run with fragments in any order, repeated, and among those of others: exactly the container that was cut comes out with the last missing fragment, and nothing before; never, if its length is a multiple of the fragment size |
| FragDelivery.SentCompletes | nmsg/output_frag.c:81 | the set of all fragments is what the receiver waits for if and only if the length is not a multiple of the fragment size |
| FragDelivery.OneFullFragmentIsLost | nmsg/output_frag.c:79-114 | every container of exactly one full fragment is sent as that fragment alone, and the receiver goes on waiting for one more |
| FragDelivery.Delivery | nmsg/input_frag.c:57-122 | fragments of any cut in any order, repeated and among those of other containers, with garbage collected before 30 seconds are over only until the set is complete: the container comes out byte for byte with the fragment that completes the set, and not before |
| FragSpec.ReadKeeps | nmsg/input_frag.c:57-122 | every fragment keeps `rem` the number of missing fragments in every entry, and `nfrags` the number of entries |
| FragSpec.AcceptKeeps | nmsg/input_frag.c:100-117 | an entry is finished exactly when no fragment is missing; a repeated fragment changes nothing |
| FragSpec.ReadAborts | nmsg/input_frag.c:71-96 | reading fails only if fragments of one container disagree about their number |
| FragDelivery.WaitIsBounded | nmsg/input_frag.c:142-172 | in every run: after garbage was collected no incomplete container has waited for more than 58 seconds |
| FragDelivery.WaitIsLongEnough | nmsg/input_frag.c:142-172 | in every run: none is taken out, or changed, by a collection before it has waited for 30 seconds |
| FragDelivery.LongestWait | nmsg/input_frag.c:142-172 | a run in which a container is kept for 58 seconds, so the bound is exact |
| FragStore.Store.Search | nmsg/input_frag.c:71-76 | the entry with a key, found in the red-black tree by the bytes of the key |
| FragStore.Store.ReadFragment | nmsg/input_frag.c:57-122 | refines the specification on the red-black tree: find or insert the entry, attach the fragment, reassemble and remove |
| FragStore.Store.DropOld | nmsg/input_frag.c:153-169 | going through the tree from first to last, each successor found before its predecessor is removed, takes out exactly the entries of 30 seconds and more |
| FragStore.Store.CollectGarbage | nmsg/input_frag.c:142-172 | refines the specification of garbage collection |
| FragStore.Join | nmsg/input_frag.c:185-208 | the payloads one after the other, in a buffer of whole kilobytes that is large enough |
| StreamSpec.ParseEncode | nmsg/input_nmsg.c:448-538 | a container as written in either header version is read back, with everything behind it left |
| StreamSpec.ParseAllEncodeAll | nmsg/input_nmsg.c:260-287 | a file of containers is read back as those containers, in order |
| StreamSpec.OwnFlags | nmsg/input_nmsg.c:482-489 | the flags reported are those of the container if and only if it has the newer header or no flags were left over |
| StreamSpec.StaleFlags | nmsg/input_nmsg.c:482-489 | a container without flags that is read with those of the one before it |
| StreamSpec.CutOff | nmsg/input_nmsg.c:505-520 | for every container and every place at which the file ends within it: the assertion fails if and only if that is in the length field; otherwise the end of the file is reported |
| StreamSpec.HalfALength | nmsg/input_nmsg.c:505-520 | a file that ends between the two bytes of a length |
| KnownAnswers.HeaderIs | nmsg/container.c:148-207 | the ten bytes before the body of a container: NMSG, flags, version 2, and the length, high byte first |
| KnownAnswers.OldHeaderIs | nmsg/input_nmsg.c:466-530 | the eight bytes before the body of a version 1 container |
| StreamReader.Reader.DoReadFile | nmsg/input_nmsg.c:540-563 | at least the bytes needed are in the buffer, or the file has ended; no byte is lost or repeated |
| StreamReader.Reader.Ensure | nmsg/input_nmsg.c:458-475 | both ways to complete a header field leave room in the buffer |
| StreamReader.Reader.ReadVersion | nmsg/input_nmsg.c:458-503 | magic, version and flags are taken from the next six bytes however they were read; on a mismatch the bytes left are known |
| StreamReader.Reader.ReadLength | nmsg/input_nmsg.c:505-538 | the length field is taken however it was read; that the file ends within it only an assertion notices |
| StreamReader.Reader.ReadBody | nmsg/input_nmsg.c:272-284 | the body is taken however it was read; the buffer is too small only for bodies of more than 1048576 bytes |
| StreamReader.Reader.ReadContainer | nmsg/input_nmsg.c:260-287 | for every pattern of short reads the result and the bytes left are those of reading with all bytes at hand |
| StreamReader.Reader.ReadAll | nmsg/input_nmsg.c:76-100 | repeated calls on a file of containers give exactly their bodies in order, and then the end |
| Ring.PowerOfTwo | libmy/my_queue_mb.c:55-59 | the sizes accepted are exactly the powers of two |
| Ring.IndicesAre | libmy/my_queue_mb.c:83-93 | space, count and next index, with 32-bit wrap-around and mask, are the distances around the ring |
| Ring.StepKeeps | libmy/my_queue_mb.c:95-132 | every step of either side keeps the invariant: stored items in their slots, half-written and half-read items right |
| Ring.RunIsFifo | libmy/my_queue_mb.c:95-132 | at every moment of every interleaving what was removed is a prefix of what was inserted, and at most one less than the size is held |
| Ring.NoOverwrite | libmy/my_queue_mb.c:95-113 | no step changes a slot that holds an item not yet removed |
| Ring.ReportsAreSafe | libmy/my_queue_mb.c:95-132 | reported space and count never exceed what there is, and a call fails only if the ring was full, or empty, when it looked |
| Ring.Queue.Insert | libmy/my_queue_mb.c:95-113 | alone, inserting succeeds exactly if there is room, appends the item and reports the exact space |
| Ring.Queue.Remove | libmy/my_queue_mb.c:115-132 | alone, removing succeeds exactly if there is an item, gives the oldest and reports the exact count |
| Crc32c.StepsLinear | libmy/crc32c-slicing.c:1099-1164 | moving a remainder on is linear over exclusive or |
| Crc32c.SerialIsSteps | libmy/crc32c-slicing.c:1099-1164 | taking in bits one by one equals adding them all and moving on |
| Crc32c.EntryIs | libmy/crc32c-slicing.c:32-1083 | the recurrence that defines the tables gives in table k each byte moved on by k + 1 bytes |
| Crc32c.FeedIs | libmy/crc32c-slicing.c:1114-1122 | one byte through the first table is one byte by bits |
| Crc32c.SliceIsFold | libmy/crc32c-slicing.c:1121-1147 | the eight table look-ups for two words equal eight bytes taken one at a time |
| Crc32c.Slicing | libmy/crc32c-slicing.c:1099-1164 | for every string and every start address the result is the bitwise checksum |
| Crc32c.InstructionIsFold | libmy/crc32c-sse42.c:98-120 | the instruction on a little-endian word is the bytes of the word in turn |
| Crc32c.Tail | libmy/crc32c-sse42.c:134-159 | the switch with its fall-through takes exactly the bytes that are left, in order |
| Crc32c.Sse42 | libmy/crc32c-sse42.c:122-162 | the word loop and the tail give the bitwise checksum |
| KnownAnswers.ChecksumOfA | libmy/crc32c_test.c:16-20 | the checksum of "a" is 0xc1d04330 |
| KnownAnswers.ChecksumOfFoo | libmy/crc32c_test.c:21-25 | the checksum of "foo" is 0xcfc4ae1d |
| Lookup3.MixIsBijection | libmy/lookup3.c:121-129 | mixing can be undone: no two states mix to the same |
| Lookup3.MixMacro | libmy/lookup3.c:121-129 | the assignments of the macro compute the specified mix |
| Lookup3.DigestAligned | libmy/lookup3.c:298-365 | reading aligned words, the last masked, gives the digest of the zero-padded words of the key |
| Lookup3.DigestHalves | libmy/lookup3.c:366-412 | reading half words gives the same digest |
| Lookup3.DigestBytes | libmy/lookup3.c:413-458 | reading bytes gives the same digest |
| Lookup3.HashMemory | libmy/lookup3.c:289-458 | for every key, length, seed and address the result is the same, whichever way the memory is read |
| Lookup3.HashMemory2 | libmy/lookup3.c:471-645 | the same for both results of the two-seed form |
| Lookup3.SecondarySeedZero | libmy/lookup3.c:471-645 | the two-seed form with secondary seed 0 has the primary hash of the one-seed form |
| Lookup3.HashWord | libmy/lookup3.c:180-213 | hashing words equals hashing their little-endian bytes |
| KnownAnswers.HashOfFourScore | libmy/lookup3.c:982-999 | both hashes of "Four score and seven years ago", two rounds of mixing and the last one: 0x17770551 and 0xce7226e6 |
| KnownAnswers.HashOfNothing | libmy/lookup3.c:982-989 | the hashes of the empty key with three pairs of seeds |
| Heap.FirstIsLeast | libmy/heap.c:110-125 | no item of a heap is less than its first |
| Heap.RiseStep | libmy/heap.c:61-70 | letting the item rise past a greater parent leaves it the only one that may be out of order |
| Heap.SinkStep | libmy/heap.c:82-96 | letting the hole sink to the lesser child leaves nothing but the hole out of order |
| Heap.PriorityQueue.SiftDown | libmy/heap.c:55-73 | restores the heap and keeps the items |
| Heap.PriorityQueue.SiftUp | libmy/heap.c:75-100 | drags the hole to a leaf, lets the item rise from there, restores the heap and keeps the items |
| Heap.PriorityQueue.Push | libmy/heap.c:102-107 | the heap with one item more |
| Heap.PriorityQueue.Pop | libmy/heap.c:109-125 | takes out a least item and keeps the others, and gives none exactly if there is none |
| Heap.PriorityQueue.Replace | libmy/heap.c:127-136 | takes out a least item and puts another in |
| Heap.PriorityQueue.Drain | libmy/heap.c:109-125 | popping until nothing is left gives all items in ascending order |
| SeqSrc.WireDelta | nmsg/input_seqsrc.c:87-91 | the remainder with its sign corrected is the number of lost containers modulo 2^32 |
| SeqSrc.Accounting | nmsg/input_seqsrc.c:64-126 | from a new source or a new identifier on, received and lost together are all that were sent, over any number of wrap-arounds, if and only if no more than 1048576 were ever lost at once |
| SeqSrc.ReportedIsMissing | nmsg/input_seqsrc.c:84-123 | over any run the losses reported are the gaps modulo 2^32, but nothing for those of more than 1048576 |
| SeqSrc.ResetForgetsOne | nmsg/input_seqsrc.c:99-104 | after an implausible gap not even the received container is counted |
| SeqSrc.Source.Count | nmsg/input_seqsrc.c:64-126 | the assignments compute the specified counts and the reported loss |
| SeqSrc.Sources.Get | nmsg/input_seqsrc.c:128-227 | gives the one source with the key, moved to the front, or a new one; of the sources before it exactly those stay that have not been silent for more than 120 seconds; all others are as they were |
| SeqSrcSent.LossIsCounted | nmsg/input_seqsrc.c:64-126 | of containers that the sender numbers one after the other, those that arrive in order are counted as received and those between them as dropped, if and only if no more than 1048576 are missing at once |
| Container.Container.Add | nmsg/container.c:71-124 | full exactly for a container that is not empty and may not fit the payload, overfull only for one that was empty |
| Container.NpLenIs | nmsg/payload.c:57-76 | the estimated size of a payload is its packed size less a byte for every 7 bits of the length of its contents above 21 |
| Container.FieldExcess | nmsg/container.c:84-113 | the field of a payload is larger than estimated by that, and by a byte for every 7 bits of the length of the payload above 28 |
| Container.EstimateSuffices | nmsg/container.c:84-215 | for all checksums, sequence numbers and identifiers the serialized container takes at most the estimate, if and only if its payload fields are larger than estimated by no more bytes than the slack: 18 for each payload less 17 with sequence numbers, and 10 more without a header |
| Container.SufficesWithoutSequence | nmsg/container.c:84-124 | with a header and without sequence numbers the estimate is enough if and only if all contents are shorter than 2^21 bytes and all payloads than 2^28 |
| Container.SufficesWithSequence | nmsg/container.c:84-124 | with sequence numbers it is enough if every payload field is larger than estimated by at most a byte: payloads shorter than 2^28 bytes, or 2^35 if their contents are shorter than 2^21 |
| Container.OneWithSequence | nmsg/container.c:84-124 | for a single payload with sequence numbers this is necessary too |
| Container.OneInFragments | nmsg/output_frag.c:48-56 | a single payload that is serialized without a header, to be cut into fragments, never takes more than the estimate, with lengths below 2^56 |
| Container.OnePieceFits | nmsg/output_nmsg.c:100-107 | any container with an estimate of at most the buffer size, itself at most 1048576, takes at most the buffer size, header, checksums and sequence fields included |
| Container.NothingOverruns | nmsg/output_nmsg.c:44-107 | neither form in which an output writes a container takes more than the estimate |
| Container.OneByteShort | nmsg/container.c:84-144 | contents of 2^21 bytes with a large checksum, without sequence numbers: one byte more than estimated |
| Container.TwoBytesShort | nmsg/container.c:84-144 | contents of 2^28 bytes with large numbers, with sequence numbers: two bytes more than estimated |
| Container.Output.constructor | nmsg/output.c:301-339 | the buffer size is brought into the range from 512 to 1048576 bytes, settings and sequence number are those given; nothing is held or sent |
| Container.Output.WriteContainer | nmsg/output_nmsg.c:95-136 | everything held is sent in one piece with the current sequence number and within the buffer size, and a failure is returned |
| Container.Output.WriteFragments | nmsg/output_frag.c:79-124 | the one payload held is sent, in as many writes as its serialized length takes; for every outcome of the writes, the result is that of the last one, while any failed write is a loss |
| Container.ToldIff | nmsg/output_frag.c:79-124 | for all outcomes of that many writes a failure is returned, if and only if there is only one |
| Container.ToldIffOneFragment | nmsg/output_frag.c:79-124 | the same in terms of the container: if and only if it fits into one fragment |
| Container.LossUntold | nmsg/output_frag.c:79-124 | a first write that fails and a second that does not: the result is success |
| Container.Output.Write | nmsg/output_nmsg.c:44-93 | all that one call does: a message for which there is room waits if the output is buffered, and goes out with what waited if not; if there is none, exactly what waited goes out first; a message too large by itself goes out in fragments; never reports a full container |
| Container.Output.Flush | nmsg/output_nmsg.c:29-42 | nothing is held afterwards, and nothing was lost |
| Container.TightNext | nmsg/output_nmsg.c:64-93 | a message written to a buffered output leaves every container that was sent followed by a message for which it had no room |
| Container.Output.WriteAll | nmsg/output_nmsg.c:29-93 | over any run without write failure the payloads sent are exactly those written, in order; no container of a buffered output could have taken the first message of the next |
| Varint.EncodedIs | libmy/varint.c:132-143 | an encoding ends with its only byte without the high bit, and has the encoded value |
| KnownAnswers.VarintOf300 | libmy/varint.c:103-130 | 300 is encoded as 0xac 0x02 |
| Varint.EncodedLength | libmy/varint.c:77-86 | an encoding has at most n bytes if and only if the number has at most 7n bits |
| Varint.Length | libmy/varint.c:77-86 | the loop computes the length of the encoding |
| Varint.LengthPacked | libmy/varint.c:88-101 | the length of the encoding at the start of the data if it ends within the limit, otherwise 0 |
| Varint.Encode32 | libmy/varint.c:103-130 | the unrolled encoder writes the encoding and nothing else |
| Varint.Encode64 | libmy/varint.c:132-143 | the loop writes the same encoding and nothing else |
| Varint.Decode32 | libmy/varint.c:145-163 | the value of the encoding modulo 2^32, and its length |
| Varint.Decode64 | libmy/varint.c:165-189 | the value of the encoding modulo 2^64, and its length |
| Varint.RoundTrip | libmy/varint.c:77-189 | an encoding followed by any bytes is found with its length and value |
| Varint.RoundTrip32 | libmy/varint.c:103-163 | decoding an encoded 32-bit number followed by any bytes gives the number and its length |
| Varint.RoundTrip64 | libmy/varint.c:132-189 | the same for 64 bits |

## Left out

- Sockets, XS, polling, libpcap, mapping of memory, environment variables, debug output and threads around the packet loop.
- zlib, and protobuf packing and unpacking: messages are byte strings. `PackedSize` in `container` writes out the sizes of the fields of nmsg.proto that the estimate is about.
- Parsing of DNS packets and of IP packets that are no fragments, and the decision of the name and recursion filters of the DNS module: parsed packets and filter decisions are inputs.
- Failing memory allocation, freeing, and malformed packets whose lengths lie outside of their buffers or whose fragment number is above the last.
- The 32-bit product of `2 * max_values` in the DNS module: the number of slots is unbounded, and at least 2.
- The self-assembling twin of the reassembly engine in nmsg/ipreasm.c has the same lists and tables and is modelled by the same classes; that it corrects the next header field of IPv6 when parsing, not when assembling, makes no difference to the packet.
- The pointers of the list of sequence sources and of the fragment list of one reassembly entry: these are sequences, of which members are added and removed. The DNS table, the reassembly table and the red-black tree have their pointers.
- A last IP fragment with offset and length both 0: its end would be taken for an unknown length. Last fragments are required to end after byte 0.
- An empty fragment in an NMSG fragment message: protobuf makes no difference between it and a missing one, so fragments are required not to be empty, as those sent are.
- Read errors of the file stream: reading gives bytes or the end of the file.
- The literal CRC tables: the tables are defined by their recurrence, and the big-endian form is not modelled.
- `RB_PREV`, `RB_NFIND` and the splay tree in libmy/tree.h: mirror images of what is proved, or not used.
- The start position of `siftdown` in libmy/heap.c, which is 0 in every call, and `heap_peek` and `heap_get`.
- Keys of sequence sources for streams that are neither sockets nor XS: such streams do not check sequence numbers.
- Rate control, and locking around the output.
- Weak memory: the barriers of the ring buffer are taken to make its steps take effect in program order.
- Dnsqr.Context.Trim: the time that an unanswered query has waited, which trimming adds to the message.
- Dnsqr.Context.DoPacket: TCP and ICMP packets, and packets that are not DNS, are inputs with a known outcome, since they do not touch the table.
- ReasmInterleaved.InterleavedDelivery: the last piece has to come within the lifetime that the first of them gives, after that the entry is dropped, which `ReasmRun.ExpireIsExact` states; what comes with the key of a packet after it was given out is another packet.
- Container.EstimateSuffices: checksums, sequence numbers and identifiers are any numbers of their width; lengths that protobuf cannot encode in 32 bits are treated like all others.
- Container.Output.Write: a payload is taken with the source, operator and group fields of the output set, and fields other than the contents are the bytes that they are packed to.
- Container.Output.WriteFragments: the branch for compressed containers that fit into one message.
- SeqSrc.Accounting: containers of one source that arrive in order; reordered containers are counted as implausible gaps.

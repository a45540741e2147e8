# iked: selectors, proposals, workers, MACs, key exchange

iked is an IKE daemon. This project models the parts of it that hold real
algorithms and proves what they promise.

- **Traffic selectors** (`Bytes`, `BigEndian`, `Prefix`, `BitVectors`, `BitMasks`,
  `AddrMatch`, `Selectors`, `Matching`, `MatchMeaning`, `TsWire`, `TsFormat`,
  `TsNarrow`, `TsAnswer`, `TsLimits`, `TsNat`). A selector denotes a set of packets:
  address, protocol (0 means any) and port. The code works on packed octets with
  length fields; the model writes the same octets into arrays, and the theorems are
  about the packets those octets denote.
- **Proposals** (`Proposals`, `PairTree`, `ProposalHeap`, `ProposalLists`,
  `ProposalTrees`, `ProposalFilter`, `Refusals`, `Addke`, `AddkeFigures`). A proposal
  denotes the selections a responder can make from it. The filter is modelled on the
  linked `next`/`tnext` nodes, with the pointers to the link to be written and with a
  discard that frees everything it can reach: over alternatives, groups, protocols and
  proposals, every node ends up freed once or still in the filtered list.
- **Crypto worker pool** (`WorkerPool`, `PoolSafety`, `PoolLedger`, `PoolCodes`,
  `PoolOrder`, `PoolRuns`, `PoolShutdown`, `PoolProgress`, `PoolReach`, `PoolMoves`,
  `JobQueue`). A state machine with one step per lock section, pipe access and
  callback. The theorems hold for every run, every number of threads and every pipe
  capacity of at least one octet; others say which runs there are.
- **MACs** (`Gf128`, `CbcMac`, `MacLaws`). The streaming AES-XCBC-MAC and AES-CMAC against
  a definition by blocks. AES is any function of a key and a block.
- **Diffie-Hellman** (`Dh`). Octet strings of the length of the prime, the checks
  of RFC 6989, agreement of the secrets.
- **epoll cache** (`Epoll`) and **certificate names** (`Fqdn`).
- `Wrappers`, `Buffers` and `Arith` hold what the others share.

Where the code does something else than one would expect, the model follows the
code and a lemma says exactly when the expected property holds:

- `ts_add_return` increments an 8-bit count without a check, so an answer reads
  back as its selectors exactly up to 255 of them (`TsWire.AnswerReadsBack`); one
  built from 256 reads as empty (`TsLimits.WrappedAnswer`).
- Callbacks of a one-thread pool run in submission order exactly when no callback
  made by `crypto_workers_fini` submits a job while further callbacks are due: such
  a job runs inline and overtakes them (`PoolRuns.CallbacksInSubmissionOrder`,
  with the run in `PoolShutdown.OvertakingRun`). With two threads the order is lost
  without any of that (`PoolReach.OrderNeedsOneThread`).
- `ikev2_ipsec_sa_to_proplist` moves its tail pointer to the first ADDKE node only,
  so it offers all configured rounds exactly when there is at most one
  (`Addke.BuilderKeepsOneRound`, with a two-method list in `Addke.SecondRoundLost`).
- With `allow_range` off, a range that merely starts at the IKE endpoint passes and
  stays a range (`TsNat.ResponderPayload`).
- The re-arming write at the end of `crypto_workers_drain` is not needed:
  `PoolRuns.NoWakeupLost` holds with and without it.
- A proposal's selectors and the configured ones can have more than 255 common
  pairs. The answer holds all of them exactly when there are at most 255
  (`TsAnswer.NarrowedIsAllPairs`), and then covers exactly the common packets
  (`TsAnswer.NarrowedIsExact`). Beyond that it is still a subset of both sides
  (`TsAnswer.NarrowedIsSubset`), and a packet can be lost (`TsLimits.LostPacket`).
- The registration loop of the event loop leaves an entry of the kernel in place that
  the cache does not know and the caller does not ask for. One round does its work
  exactly when there is no such entry (`Epoll.StepIsExact`), and no history leads to
  one (`Epoll.AlwaysCoherent`).

## Model

| member | source | states |
|---|---|---|
| Prefix.BlockIsNetwork | iked/ike_conf.c:2496-2508 | the range written for address/prefix contains x in memcmp order if and only if x agrees with the address on its first n bits, for every length and prefix |
| BigEndian.BlockValue | iked/ike_conf.c:2496-2508 | that range is the aligned interval of 2^(bits - n) numbers around the address |
| BigEndian.LeqIsNumeric | iked/ike_conf.c:2788-2794 | memcmp order of equally long octet strings is their numeric order |
| BigEndian.U16IsNumber | iked/ike_conf.c:3005-3007 | a 16-bit field is the big-endian number of its two octets |
| AddrMatch.CompareBits | iked/ike_conf.c:1990-2004 | the byte loop with its masked last byte accepts exactly the pairs that agree on the first bitlen bits |
| AddrMatch.InCompareIsNetwork | iked/ike_conf.c:2006-2017 | the IPv4 word-mask form meets the same first-n-bits specification |
| AddrMatch.CompareWithPrefix | iked/ike_conf.c:2028-2054 | same family and same network, through either form; an unknown family never matches |
| AddrMatch.MatchAddr4 | iked/ike_conf.c:2059-2077 | the test that clears and sets the host bits of 32-bit words accepts a range if and only if the family is IPv4 and the range is exactly the block address/prefix |
| AddrMatch.MatchAddr6 | iked/ike_conf.c:2079-2107 | the byte loop accepts a range if and only if the family is IPv6 and the range is exactly that block |
| Selectors.IntersectMeaning | iked/ike_conf.c:2973-3009 | a packet is covered by the intersection of two selectors if and only if both cover it |
| Selectors.IntersectEmpty | iked/ike_conf.c:2973-3009 | the intersection is refused if and only if no packet is covered by both |
| Selectors.PairsMeaning | iked/ike_conf.c:3050-3086 | all pairwise intersections together cover exactly the packets that both lists cover |
| Selectors.PairsEmpty | iked/ike_conf.c:3050-3086 | there is no pair if and only if the two lists have no packet in common |
| Matching.TsIsWithinAddr | iked/ike_conf.c:2227-2301 | accepts exactly the selectors of the family, protocol and port whose bytes lie within the block, over the bytes the prefix touches; a prefix beyond the address size counts as the whole address |
| Matching.TsContainsAddr | iked/ike_conf.c:2306-2376 | accepts exactly the selectors that contain the block bytewise over those bytes, with the port inside and the protocol equal or any |
| Matching.TsIsMatching | iked/ike_conf.c:2382-2420 | accepts exactly when some selector contains the block and a specific first selector lies within it |
| MatchMeaning.SpecificFlow | iked/ike_conf.c:2145-2180 | for TCP, UDP, ICMP, ICMPv6, SCTP and MH a selector is specific if and only if it covers exactly one packet |
| MatchMeaning.SpecificAddress | iked/ike_conf.c:2145-2180 | for any other protocol if and only if it covers exactly one address on all ports |
| MatchMeaning.ContainsMeaning | iked/ike_conf.c:2306-2376 | in every byte the prefix touches the selector holds that byte of every address of the network; family, protocol and port in figures |
| MatchMeaning.WithinMeaning | iked/ike_conf.c:2227-2301 | in every byte the prefix touches the selector lies between bytes of addresses of the network; family, protocol and port in figures |
| Matching.ResponseMeaning | iked/ike_conf.c:2436-2511 | the response selector covers a packet if and only if it is of the family, in the network, of the protocol and of the port |
| Matching.AcceptedOverlaps | iked/ike_conf.c:2353-2365 | the bytewise containment check is enough for a non-empty intersection with the response, for every prefix, port and protocol |
| Matching.FirstChoiceKept | iked/ike_conf.c:2399-2415 | a specific first selector that is accepted lies inside the response and is itself the first narrowed entry |
| TsWire.EncodedLayout | iked/ike_conf.c:2999-3007 | a written selector is type, protocol, its own length and the two ports as big-endian numbers, and the two addresses |
| TsWire.DecodeEncoded | iked/ike_conf.c:2999-3007 | a written selector reads back as itself wherever it lies |
| TsFormat.ProposedReads | iked/ike_conf.c:3011-3086 | the proposal read is the list of selectors that the length fields of the payload lead to, field by field |
| TsFormat.AnsweredReads | iked/ike_conf.c:3050-3086 | the same for the configured answer, where unusable selectors are passed over |
| TsFormat.AnswerOctets4 | iked/ike_conf.c:2436-2511 | the octets of an answer for an IPv4 block, one by one |
| TsFormat.AnswerOctets6 | iked/ike_conf.c:2436-2511 | the octets of an answer for an IPv6 block, one by one |
| TsWire.AnswerReadsBack | iked/ike_conf.c:2525-2607 | an answer reads back as the selectors written into it if and only if there are at most 255, since the count is one octet |
| TsNarrow.IntersectInto | iked/ike_conf.c:2973-3009 | returns success if and only if the intersection exists, writes its octets, and touches nothing in front of or behind them |
| TsNarrow.NarrowToProposal | iked/ike_conf.c:3011-3097 | null, short and unallocatable inputs; otherwise an answer exactly when some pair exists, holding the pairs in order up to the capacity, with every write inside the buffer |
| TsAnswer.WriteBlock | iked/ike_conf.c:2496-2508 | the address loop writes the first and the last address of the block and leaves the rest of the buffer alone |
| TsAnswer.TsMatch | iked/ike_conf.c:2436-2511 | an answer with the one response selector, none for an unknown family or without memory |
| TsAnswer.TsAddReturn | iked/ike_conf.c:2525-2607 | one more response selector behind an existing answer; an unknown family or missing memory changes nothing |
| TsAnswer.NarrowedReadsBack | iked/ike_conf.c:3088-3096 | the narrowed answer parses to exactly its count of entries |
| TsAnswer.NarrowedIsSubset | iked/ike_conf.c:3011-3097 | every packet agreed to was both proposed and configured |
| TsAnswer.NarrowedOrigin | iked/ike_conf.c:3050-3086 | every entry is the intersection of one proposed and one configured selector |
| TsAnswer.NarrowedIsAllPairs | iked/ike_conf.c:3050-3086 | the answer holds every pairwise intersection if and only if there are at most 255 |
| TsAnswer.NarrowedIsExact | iked/ike_conf.c:3011-3097 | with at most 255 pairs, and so when the two counts multiply to at most 255, the answer covers exactly the packets both sides cover |
| TsLimits.LostPacket | iked/ike_conf.c:3050-3086 | a payload of 16 selectors and an answer of 16 whose narrowing leaves out a packet that both cover |
| TsLimits.WrappedAnswer | iked/ike_conf.c:2525-2607 | 256 calls build an answer of 256 selectors that reads as empty |
| TsAnswer.NoAnswerMeansDisjoint | iked/ike_conf.c:3088-3096 | no entry if and only if no packet is acceptable to both sides |
| TsAnswer.AcceptedIsAnswered | iked/ike_conf.c:2382-2420 | a proposal that ts_is_matching accepts never narrows to nothing, whichever selectors stand beside the response, as long as the response is within the 8-bit count of the answer |
| TsAnswer.FirstChoiceAnswered | iked/ike_conf.c:3050-3086 | a specific first selector of an accepted payload comes back as the first entry, unchanged, unless the count of the answer has wrapped to 0 |
| TsNat.InitiatorSubstitutes | iked/ike_conf.c:2805-2886 | with ranges allowed: refused exactly for a range of the family without the endpoint, else the single address; other families untouched |
| TsNat.ContainsMeaning | iked/ike_conf.c:2779-2794 | a selector contains the endpoint if and only if, on all ports, it covers a packet to it |
| TsNat.ResponderSubstitutes | iked/ike_conf.c:2805-2886 | with ranges refused: a single address becomes the endpoint, a range passes only if it starts there, and stays |
| TsNat.SubstitutePayload | iked/ike_conf.c:2895-2934 | the in-place walk over the payload succeeds exactly when every announced selector is there and passes; its octets are the rewritten ones, nothing behind the payload changes |
| TsNat.InitiatorPayload | iked/ike_conf.c:2895-2934 | a payload is accepted exactly when each selector of the family is single or around the endpoint; each of those then reads as the endpoint and the others read as before |
| TsNat.ResponderPayload | iked/ike_conf.c:2895-2934 | the same for the responder, where a range starting at the endpoint stays |
| TsNat.RewrittenFrame | iked/ike_conf.c:2895-2934 | even when the walk is refused half way, only address octets of selectors of the endpoint's family are written |
| TsFormat.SubstitutionWrites | iked/ike_conf.c:2895-2934 | the same with the selectors given by the offsets that the length fields lead to |
| TsNat.RewrittenTwice | iked/ike_conf.c:2895-2934 | a second substitution with the same setting succeeds and changes no octet |
| Proposals.FilterKeepsSelections | iked/ike_conf.c:5647-5721 | a selection can be made from the filtered proposal if and only if it could be made before and the policy refuses none of its transforms in the context of its protocol |
| Proposals.DroppedMeaning | iked/ike_conf.c:5711-5718 | a proposal is dropped if and only if it has no permitted selection |
| Proposals.FilterTwice | iked/ike_conf.c:5647-5721 | filtering a filtered list changes nothing |
| Proposals.KeepTwice | iked/ike_conf.c:5669-5700 | a filtered group is kept whole and nothing more is refused in it |
| PairTree.Discard | iked/isakmp.c:2071-2086 | frees every node that can be reached over next and tnext, each of them once, and looks at none after that |
| ProposalHeap.TakeNode | iked/ike_conf.c:5677-5699 | a node is joined to the kept ones, or its discard frees that node and no other |
| ProposalHeap.FilterGroup | iked/ike_conf.c:5669-5700 | the kept alternatives are joined again in order, exactly the refused ones have been freed, and the count is theirs |
| ProposalHeap.FilterProtocol | iked/ike_conf.c:5661-5710 | afterwards the surviving groups are linked in order, each with its kept nodes in order, and exactly the refused nodes have been freed; the count and the drop flag are those of the values |
| ProposalLists.FilterPart | iked/ike_conf.c:5661-5710 | what is left is a list of live groups again, as the filter expects it, in which only first nodes have a next pointer |
| ProposalLists.LeftValues | iked/ike_conf.c:5701-5709 | when no group is emptied, that list holds what the filter on values keeps |
| ProposalTrees.DiscardBody | iked/isakmp.c:2071-2086 | discarding a proposal frees all its nodes and nothing else |
| ProposalFilter.FilterProposal | iked/ike_conf.c:5656-5718 | a proposal with an emptied group is gone and all its nodes are freed; any other is a proposal again, of which a node is live exactly if it is still in it; the count is that of the values |
| ProposalFilter.FilterSlots | iked/ike_conf.c:5647-5721 | every slot holds what the filter on values leaves of it, every node of every proposal has been freed once or is still in its slot, and the result is the number of places whose transform the policy refuses in the context of its protocol |
| Refusals.RefusedIsCount | iked/ike_conf.c:5697-5698 | the sum over proposals, protocols and groups is the size of the set of those places |
| ProposalFilter.SelectionsLeft | iked/ike_conf.c:5647-5721 | what can be selected from a slot afterwards is what could be selected before without a transform that the policy refuses in the context of its protocol |
| ProposalFilter.NothingForSecondCall | iked/ike_conf.c:5647-5721 | in the list that is left there is nothing to refuse and nothing to drop |
| ProposalHeap.KeptTransforms | iked/ike_conf.c:5669-5700 | the kept nodes carry what the filter on values keeps |
| ProposalHeap.AllSurvive | iked/ike_conf.c:5701-5709 | when no group is emptied, all groups stay linked in their order |
| Addke.BuildRounds | iked/ike_conf.c:4234-4304 | one group per method, numbered, at most seven; nothing when a counted method is unknown or repeated or memory is missing |
| Addke.RoundsAreNumbered | iked/ike_conf.c:4234-4304 | types 6, 7, ... with pairwise different methods and no type twice |
| AddkeFigures.RoundsInFigures | iked/ike_conf.c:4234-4304 | with known and different methods the rounds have types 6, 7, ... and the registered numbers |
| AddkeFigures.NoRoundsOtherwise | iked/ike_conf.c:4234-4304 | with any other list, or without memory, there are none |
| Addke.Offer.AddPlainProposal | iked/ike_conf.c:4776-4825 | proposal 2 becomes proposal 1 without its ADDKE groups unless it is already there or the copy fails |
| Addke.Offer.MaybeOffer | iked/ike_conf.c:4827-4916 | result, first and second proposal in every case: missing, already offered, opted out, not buildable, configured, default, without memory for the groups or for the copy |
| Addke.OfferRoundTrip | iked/ike_conf.c:4776-4916 | the old groups stay in front of the rounds, stripping gives them back, proposal 2 is the original under number 2, and a second call changes nothing |
| AddkeFigures.PlainOfBoth | iked/ike_conf.c:4776-4825 | stripping goes group by group and keeps the order |
| Addke.BuildChild | iked/ike_conf.c:4919-5073 | the groups that end up in the child proposal when links are written through the tail pointer; nothing when a part cannot be converted |
| AddkeFigures.BuiltIsConfigured | iked/ike_conf.c:4919-5073 | the configured encryption and integrity groups stand at the front, the DH and sequence-number groups at the end |
| AddkeFigures.NothingElseBuilt | iked/ike_conf.c:4919-5073 | without its round the proposal holds these groups and no others |
| AddkeFigures.BuiltRound | iked/ike_conf.c:5005-5025 | there is a round, of type 6 with the first method, if and only if a list is given |
| Addke.BuilderKeepsOneRound | iked/ike_conf.c:5010-5025 | the builder offers all configured rounds if and only if there is at most one |
| Addke.SecondRoundLost | iked/ike_conf.c:5010-5025 | with two methods configured the second round is not offered |
| Addke.ChildProposal.AppendAsResponder | iked/ike_conf.c:4510-4547 | appends the configured rounds unless some round is there |
| Addke.ChildProposal.MaybeReoffer | iked/ike_conf.c:4586-4648 | appends the rounds of the first configuration that lists any, if the gate is open and none is there |
| AddkeFigures.FirstListedIsFirst | iked/ike_conf.c:4623-4646 | the list taken is that of the first configuration with a non-empty ESP list |
| Addke.ChildProposal.AddRekeyGroup | iked/ike_conf.c:4668-4719 | appends a DH group only if none is there and it is forced or some configuration lists an ADDKE method, and says so |
| AddkeFigures.RekeyGroup | iked/ike_conf.c:4668-4719 | a group is appended if and only if none of type 4 is there, one is asked for by force or by some configuration, and it can be made |
| Addke.NoRoundTwice | iked/ike_conf.c:4510-4648 | no order and no repetition of these operations makes a proposal hold two groups of one ADDKE type |
| PoolSafety.NoLostWakeupStep | iked/crypto_workers.c:40-78 | every step keeps: a non-empty done queue has an octet in the pipe, a worker about to write, or a drain before its detach |
| PoolSafety.NoLostSignalStep | iked/crypto_workers.c:244-276 | every step keeps: a queued job has a worker that is not asleep |
| PoolRuns.NoWakeupLost | iked/crypto_workers.c:198-242 | both hold after every run, with or without the re-arming write |
| PoolRuns.InOnePlace | iked/crypto_workers.c:40-78 | after every run an accepted job is in exactly one place: queued, with a worker, done-queued, detached or past its callback |
| PoolReach.AllThreadsAtOnce | iked/crypto_workers.c:123-132 | for every number of threads some run has that many jobs with workers at once |
| PoolReach.AnyStands | iked/crypto_workers.c:48-78 | the workers can stand anywhere in their loops, each independently of the others |
| PoolMoves.WorkersMove | iked/crypto_workers.c:48-78 | a worker can move if and only if it has not exited |
| PoolMoves.SubmitsWhen | iked/crypto_workers.c:244-276 | jobs can be accepted, and refused, if and only if the main thread runs code of its own |
| PoolMoves.SubmitWakesOne | iked/crypto_workers.c:263-275 | a submit wakes one sleeping worker, any of them |
| PoolMoves.PipeFills | iked/crypto_workers.c:40-46 | finished jobs that nobody drains fill the pipe octet by octet; once it is full the octet is dropped and the job still queued |
| PoolMoves.PipeHolds | iked/crypto_workers.c:40-46 | the pipe never holds more than its capacity |
| PoolMoves.RearmsAsTold | iked/crypto_workers.c:223-239 | drain can come to a re-arming write exactly when it has one |
| PoolMoves.NothingToDrop | iked/crypto_workers.c:156-168 | an accepted job is queued or started, and the queue is empty whenever fini comes to throw it away |
| PoolRuns.AsleepMeansFinished | iked/crypto_workers.c:198-242 | when the workers sleep, the pipe is empty and main is idle, every accepted job has had fn and done once |
| PoolProgress.RestIsNear | iked/crypto_workers.c:40-78 | without further submits, every schedule of workers, drain and fini comes to rest within a bounded number of steps |
| PoolProgress.RestMeansFinished | iked/crypto_workers.c:198-242 | when no step is left, every accepted job has had fn and done once |
| PoolProgress.EveryRunCanFinish | iked/crypto_workers.c:198-242 | every run can be continued, with drain started only when the pipe is readable, until every accepted job has had its callback |
| PoolRuns.AtMostOnce | iked/dh.c:421-454 | at every moment fn ran at most once and only for accepted jobs, done at most once and after fn, the structure was freed at most once, and each callback reported the code fn stored |
| PoolRuns.ShutdownCompletes | iked/crypto_workers.c:140-178 | when fini has returned nothing was dropped, every accepted job had fn and done once, every structure was freed once |
| PoolRuns.StartsInSubmissionOrder | iked/crypto_workers.c:54-66 | jobs start in submission order with any number of workers |
| PoolRuns.CallbacksInSubmissionOrder | iked/crypto_workers.c:169-178 | with at most one worker callbacks run in submission order if and only if no callback made by fini submits while others are due |
| PoolReach.OrderNeedsOneThread | iked/crypto_workers.c:68-76 | with two threads or more some run without overtaking calls back out of order |
| PoolShutdown.OvertakingRun | iked/crypto_workers.c:257-262 | a run in which a job submitted during fini finishes before one submitted earlier |
| PoolShutdown.JoinIsBounded | iked/crypto_workers.c:147-155 | under every schedule the join waits for a bounded number of worker steps |
| PoolShutdown.FiniReturns | iked/crypto_workers.c:140-178 | from every state of a shutdown there is a run in which fini returns |
| PoolLedger.AcceptedStep | iked/crypto_workers.c:48-78 | every step keeps: an accepted job is queued, with a worker before fn, or past fn |
| PoolLedger.RanStep | iked/crypto_workers.c:68-76 | every step keeps: a job past fn is with its worker, done-queued, detached or past its callback |
| PoolCodes.CodesStep | iked/dh.c:421-445 | every step keeps: the rc field holds what fn stored and callbacks reported only such values |
| JobQueue.Queue.Append | iked/crypto_workers.c:71-75 | storing through the tail pointer appends one job |
| JobQueue.Queue.PopHead | iked/crypto_workers.c:62-66 | takes the first job and resets the tail pointer when the queue runs empty |
| JobQueue.Queue.DetachAll | iked/crypto_workers.c:212-216 | takes the whole list and leaves an empty queue |
| JobQueue.Walk | iked/crypto_workers.c:217-222 | the walk over a detached list visits every job once in order |
| Gf128.GfMult | iked/crypto_openssl.c:4641-4662 | the carry loop computes the double of its input, also in place |
| Gf128.DoubleMeaning | iked/crypto_openssl.c:4641-4662 | the number doubled modulo 2^128, with 0x87 added exactly when the double overflowed |
| Gf128.DoubleIsTimesX | iked/crypto_openssl.c:4641-4670 | the block as a polynomial is multiplied by x modulo x^128 + x^7 + x^2 + x + 1, coefficient by coefficient |
| Gf128.DoubleIsLinear | iked/crypto_openssl.c:4641-4662 | doubling distributes over xor |
| Gf128.HalveDouble | iked/crypto_openssl.c:4641-4662 | doubling can be undone, so it is injective |
| CbcMac.Context.Update | iked/crypto_openssl.c:4557-4583 | the context has absorbed the old message followed by the data, with the last block held back |
| CbcMac.Context.Final | iked/crypto_openssl.c:4595-4622 | the MAC by blocks of everything absorbed, nothing without memory for it |
| CbcMac.MacInChunks | iked/crypto_openssl.c:4502-4635 | every way of cutting a message into updates gives the MAC of the whole message |
| CbcMac.XcbcNormalKey | iked/crypto_openssl.c:4513-4527 | a key of any length gives the 16-octet key of RFC 4434; the recursion ends |
| CbcMac.XcbcOne | iked/crypto_openssl.c:4624-4635 | the XCBC MAC of the data under the normalised key, for every key and message |
| MacLaws.XcbcOneBlock | iked/crypto_openssl.c:4502-4548 | a message of at most one block: which constant gives the message key, the mask of a full and the mask of a padded block |
| MacLaws.XcbcTail | iked/crypto_openssl.c:4557-4622 | a full block in front of a shorter one |
| MacLaws.XcbcFolds | iked/crypto_openssl.c:4557-4583 | the first two blocks of a longer message may be replaced by the second xored with the encrypted first |
| CbcMac.CmacNormalKey | iked/crypto_openssl.c:4674-4689 | the same normalisation for CMAC, as in RFC 4615 |
| CbcMac.CmacSubkeys | iked/crypto_openssl.c:4691-4703 | the subkeys are 2L and 4L for the encrypted zero block L |
| CbcMac.CmacOne | iked/crypto_openssl.c:4735-4748 | the CMAC of the data under the normalised key, for every key and message |
| MacLaws.CmacOneBlock | iked/crypto_openssl.c:4663-4710 | a message of at most one block is masked with the encrypted zero block doubled once or twice |
| MacLaws.CmacTail | iked/crypto_openssl.c:4557-4622 | a full block in front of a shorter one |
| MacLaws.CmacFolds | iked/crypto_openssl.c:4557-4583 | longer messages fold |
| MacLaws.OtherKeys | iked/crypto_openssl.c:4513-4527 | a short key may be continued with zeros and a long one replaced by its MAC under the zero key |
| CbcMac.SubkeysDetermineL | iked/crypto_openssl.c:4699-4703 | either subkey determines L |
| Dh.CheckPub | iked/dh.c:204-232 | refused exactly when longer than the prime, or shorter without memory; otherwise exactly prime length with the same number |
| Dh.Generate | iked/dh.c:325-405 | for every kind of group: the private value drawn and its public value in exactly prime length, the library's pair for a curve, nothing on a failure |
| Dh.ComputeInto | iked/crypto_openssl.c:5156-5250 | succeeds exactly when the peer's value passes the check and the library works; the buffer then holds the secret, left-padded |
| Dh.Compute | iked/dh.c:239-323 | a secret exactly on success and nothing on every failure, for every kind of group |
| Dh.PeersAgree | iked/crypto_openssl.c:5310-5420 | two peers derive the same octets, of prime length, from each other's public values |
| Dh.HonestValueAccepted | iked/crypto_openssl.c:5310-5337 | with a generator of the published order, an honest value is accepted if and only if it is in range |
| Dh.AcceptedRange | iked/crypto_openssl.c:5156-5175 | without a subgroup the values from 2 to the prime minus 2 are accepted and no others |
| Dh.RefusedSecrets | iked/crypto_openssl.c:5156-5175 | the values below the prime that are refused would give the secret 0, 1 or prime minus 1 for every private value |
| Epoll.StepIsExact | iked/evloop_epoll.c:85-112 | one round leaves a descriptor watched exactly as asked if and only if the kernel's entry, should there be one, is for an open descriptor and wanted or known to the cache |
| Epoll.SyncRegisters | iked/evloop_epoll.c:84-112 | from a coherent state the loop leaves every descriptor in its range watched exactly as asked |
| Epoll.SyncKeepsOthers | iked/evloop_epoll.c:84-112 | it leaves the other descriptors as they were |
| Epoll.EventLoop.Sync | iked/evloop_epoll.c:84-112 | the loop with its control calls, failures included, is the fold of that round over the descriptors below the limit |
| Epoll.EventLoop.Wait | iked/evloop_epoll.c:66-160 | state and returned sets of a wait, the fallback and the error included |
| Epoll.Report | iked/evloop_epoll.c:131-158 | a returned set holds exactly the requested descriptors with a matching or error event |
| Epoll.AlwaysCoherent | iked/evloop_epoll.c:17-112 | over every history the kernel's interest set stays within the cache and within the open descriptors |
| Epoll.WaitRegisters | iked/evloop_epoll.c:66-112 | after any history of waits, closes, reuses, starts and stops, a wait leaves each descriptor below its limit watched exactly as asked and the others as they were |
| Fqdn.FqdnIdMatch | iked/ike_conf.c:1148-1182 | accepts if and only if the label-wise specification does |
| Fqdn.MatchesInOctets | iked/ike_conf.c:1148-1182 | that specification in octets: equal but for the case of letters, or one non-empty label in place of the star |
| Fqdn.LabelsJoin | iked/ike_conf.c:1161-1176 | splitting at the dots loses nothing |
| Fqdn.LabelsCompare | iked/ike_conf.c:1178-1181 | comparing names ignoring case is comparing their labels ignoring case |
| Fqdn.WildcardByNames | iked/ike_conf.c:1161-1176 | the tests on dots, stars and lengths are the wildcard rule on labels |

## Left out

- AddrMatch.CompareWithPrefix: prefix lengths beyond the address size are excluded; the code would read past the address.
- Matching.TsContainsAddr: is the bytewise check of the code, which is weaker than containment of the range.
- TsNarrow.NarrowToProposal: expects the payload's length field to lie in memory, as the packet parser has checked.
- ProposalFilter.FilterSlots: the deprecation tables and switches are any policy on context and transform; the buffers that hang on a node are freed with it.
- Addke.Offer.MaybeOffer: the lists are sequences, so that sharing of nodes between proposals 1 and 2 is not modelled; the clone is a copy.
- Addke.BuildChild: the groups from the ordinary algorithm tables are given; key lengths inside transforms are not modelled.
- CbcMac.XcbcOne: initialisation and the result find memory; so do they in `CbcMac.CmacOne`.
- PoolRuns.AtMostOnce: job structures are allocated successfully; a failing allocation of the queue entry is the refused submit.
- Dh.ComputeInto: the library's exponentiation and its conversions are arithmetic on numbers, and its own refusal of degenerate secrets is one of its failures.
- Epoll.EventLoop.Sync: control calls fail only for missing, existing or closed descriptors; descriptors are not duplicated.
- Starting the worker pool a second time after it was shut down, and thread creation that fails half way.
- Failing memory allocation other than where an operation reports it, and timing.
- The state machine of additional key exchange rounds, fragment reassembly, EAP and configuration attributes.
- X.509, RSA, ECDSA and the other thin calls into OpenSSL, elliptic-curve groups, admin sockets, configuration checks and logging.
- The timeout conversion of the event loop and the select-based loop.

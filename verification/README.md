# NDN-DPDK data plane: models and proofs

This project models, in Dafny, the algorithms at the heart of the NDN-DPDK forwarder and of its Go NDN
library, and proves what they are for. Functions and lemmas model code that computes; classes and methods
with loops model code that changes things in place, each proved against a function of the values it works on.

| files | what they model |
|---|---|
| Common, Lists | optional values, and lists whose members are all different |
| MinTmr, FetchWindow, RttEst, FetchLogic | the segment fetcher: hashed timing wheel, ring-buffer window, RTT estimator, retransmission and congestion logic |
| CsArc | ARC cache replacement of the content store |
| Chain, Mbuf, Tlv, TlvRead | packets as chains of mbufs, the TLV decoder's cursor over them, TLV numbers and headers |
| Interest, InterestPacket | parsing Interests and rewriting their guiders (Nonce, InterestLifetime, HopLimit) |
| Lp, LpPacket, TxProc, Reassembler, RxProc, LpEndToEnd, GoLp | NDNLPv2 headers, fragmentation, reassembly, frame counters, and all of these together |
| EthLocator | Ethernet, VLAN, UDP and VXLAN face addresses |
| CoDel | the CoDel control law in fixed point |
| Fib, FibTree | two-stage longest prefix match, and the tree and updates that keep its table right |
| Name, NameOrder, NameUri | names as bytes, as components and as URIs |
| RunningStat | running mean and variance |

`dafny verify dfyconfig.toml` checks everything.

## Where the code and its promises part

- `MinTmr_After` accepts delays up to one interval longer than its documentation says (`MinTmr.MinSched.After`).
- The fetcher's in-flight counter is right only if the final segment number is not lowered below a segment
  already requested; `FetchLogic.InFlightIsArmed` says exactly when, `FetchLogic.LoweringFinalUnderflows` shows a run.
- Removing a stored entry from the ARC cache while there are ghosts can make a later request take the front of
  an empty list; `CsArc.FaultsExactly` and `CsArc.RemoveKeeps` say exactly when, `CsArc.RemoveThenFault` shows a run
  for every capacity.
- The Interest parser accepts elements in any order, but rewriting drops whatever stands between the last Nonce
  and the last guider, and fails on an assertion if nothing stands before the Nonce; `Interest.KeepsMeaningExactly`
  says exactly when it succeeds and the meaning survives, `Interest.FlagLost` and `Interest.NonceFirst` show
  Interests for which it does not.
- The fragment count is computed in 8 bits before it is compared with its limit; `TxProc.SentExactly` says exactly
  when the whole packet is sent, `TxProc.TooManyFragments` shows for every fragment size a packet for which it is not.
- 54 bytes are set aside for the header of a frame, counting 8 for a PIT token, of which there may be 32;
  `TxProc.HeadroomExactly` says exactly when a frame stays within the MTU, `TxProc.LongTokenExceeds` shows one that
  does not.
- The Go reassembler takes a slot without a payload for one that was never filled; `GoLp.AcceptOneSame` says exactly
  when it stays in step with the data plane, `GoLp.NilCountsTwice` shows a packet that is completed with a hole.
- Popping a queue whose CoDel count is at its 32-bit limit breaks the order of its counters; `CoDel.RunGood` says
  exactly when no run does, `CoDel.CountWraps` shows a run from the empty queue that does.
- Adding two snapshots that have inputs but no samples divides zero by zero; `RunningStat.AddFailsExactly` says
  exactly when.
- `ParseNameComponent` is said to accept any input, but indexes beyond the end of some; `NameUri.ParseFailsExactly` says
  exactly of which, `NameUri.ParseFailsOn` shows two.
- `RunningStat_Clear` starts the maximum at the smallest positive number; `RunningStat.MaximumExactly` says exactly
  when the reported maximum is a sample, `RunningStat.MaximumWrong` shows samples for which it is not.

## Model

| member | source | states |
|---|---|---|
| MinTmr.MinSched.constructor | csrc/core/mintmr.c:7-30 | the wheel starts empty, with nothing scheduled, and every structural invariant holds |
| MinTmr.MinSched.Cancel | csrc/core/mintmr.c:68-74 | the wheel makes the step of the abstract scheduler: the timer is not scheduled any more, no other one is affected, and the cancelled tick is recorded |
| MinTmr.MinSched.After | csrc/core/mintmr.c:76-100 | the wheel makes the step of the abstract scheduler: an arming is refused exactly when the delay is `nSlots - 1` intervals or more; otherwise the timer is due at the next tick plus the whole number of intervals, whatever it was set to before |
| MinTmr.MinSched.NothingOverdue | csrc/core/mintmr.c:38-59 | whatever is scheduled between triggers is due at a tick that has not been taken yet |
| MinTmr.MinSched.Tick | csrc/core/mintmr.c:44-47 | the slot that becomes current holds exactly the timers due at that tick |
| MinTmr.MinSched.FireFirst | csrc/core/mintmr.c:48-55 | the wheel makes the step of the abstract scheduler: a timer is unlinked before its callback and counted once, and if the callback arms it again it is due as for any arming and never lands in the slot being executed |
| MinTmr.MinSched.Drain | csrc/core/mintmr.c:47-57 | every timer of the slot has its callback invoked once, in order; the state afterwards is that of the abstract scheduler after these firings and re-armings |
| MinTmr.MinSched.Trigger | csrc/core/mintmr.c:38-59 | for every callback: exactly the ticks up to the given time are taken; in each of them exactly the timers fire that the abstract scheduler has due, including those that callbacks armed again, and the wheel ends in its state |
| MinTmr.TakeAllGrown | csrc/core/mintmr.c:38-59 | what a Trigger adds to the history: the timers of its ticks fired, in order, and armings for later ticks only |
| MinTmr.AllQuiet | csrc/core/mintmr.c:38-59 | with callbacks that arm nothing, exactly the timers due at the ticks taken fire, each once, and the others keep their ticks |
| MinTmr.MaxDelayFits | csrc/core/mintmr.h:67-72 | the documented delays are accepted, and so are those up to one interval longer |
| MinTmr.ArmingsFireOnce | csrc/core/mintmr.c:38-100 | once its tick has been taken, an arming that was not cancelled or replaced has fired exactly once |
| MinTmr.TickIsNearDeadline | csrc/core/mintmr.c:76-100 | on an up-to-date wheel the tick of an arming is less than one interval before, and at most one interval after, the requested time |
| MinTmr.Run | csrc/core/mintmr.c:7-100 | for every sequence of After, Cancel and Trigger, and every callback that arms at most its own timer: the wheel goes through the states of a run of the abstract scheduler, each operation adding exactly its events; every arming is pending, cancelled or fired, none fires twice, and nothing due by the time of a Trigger is left |
| FetchWindow.PosInjective | csrc/fetch/window.h:29-34 | different segment numbers in the window have different ring slots |
| FetchWindow.AppendedValid | csrc/fetch/window.h:57-69 | a new segment takes a slot that no live segment has, and adds exactly itself to the live ones |
| FetchWindow.MarkedShape | csrc/fetch/window.h:86-97 | deleting a segment takes exactly it out of the live ones and into the retrieved ones |
| FetchWindow.FetchWindow.Get | csrc/fetch/window.h:40-51 | a segment is found exactly if it is in the window and not deleted, and then at its own ring slot |
| FetchWindow.FetchWindow.Append | csrc/fetch/window.h:57-69 | refused exactly when the window is full; otherwise the next segment number is opened |
| FetchWindow.FetchWindow.Advance | csrc/fetch/window.h:71-83 | the lower end moves over all deleted segments and stops at the first one that is not, without losing a retrieved segment |
| FetchWindow.FetchWindow.Delete | csrc/fetch/window.h:85-97 | the segment becomes retrieved; the window stays valid, so its lower end is never a deleted segment |
| RttEst.RttEst.Push | csrc/fetch/rttest.h:36-56 | smoothing as in section 2 of RFC 6298, at most one sample per round trip, and the timeout stays between its minimum and maximum |
| RttEst.RttEst.Backoff | csrc/fetch/rttest.h:58-63 | the timeout doubles but never exceeds the maximum |
| FetchLogic.GoodRetx | csrc/fetch/logic.c:14-29 | sending a queued segment moves it from the queue to the armed timers, and everything else stays in its place |
| FetchLogic.GoodFresh | csrc/fetch/logic.c:30-41 | sending a new segment keeps the partition of live segments into armed, queued, firing and given up, and the in-flight counter in step with it |
| FetchLogic.GoodData | csrc/fetch/logic.c:64-96 | a retrieved segment leaves whichever place it was in, so no timer stays armed on a reused ring slot; the count of Data equals the number of retrieved segments |
| FetchLogic.GoodExpired | csrc/fetch/logic.c:107-125 | expired timers turn into segments about to be handled, none lost and none twice |
| FetchLogic.GoodTimeout | csrc/fetch/logic.c:107-125 | a timed out segment is queued once, and is no longer in flight |
| FetchLogic.GoodGiveUp | csrc/fetch/logic.c:115-117 | a timed out segment beyond the final one is neither armed nor queued any more |
| FetchLogic.FinishedIsComplete | csrc/fetch/logic.h:41-46 | Finished holds exactly when every segment up to the final one has been retrieved |
| FetchLogic.FinishedCount | csrc/fetch/logic.h:41-46 | when finished, the number of Data counted is the number of segments, so duplicates were not counted |
| FetchLogic.InFlightIsArmed | csrc/fetch/logic.c:7-125 | the in-flight counter is the number of armed timers exactly as long as no Data (modulo 2^32 of them) came for a segment that had been given up on |
| FetchLogic.CountAtArrival | csrc/fetch/logic.c:64-96 | at an arrival, a right counter stays right if and only if the segment was armed or queued |
| FetchLogic.LoweringFinalUnderflows | csrc/fetch/logic.c:107-125 | a concrete run with the final segment number lowered below a requested segment: the callbacks take the branches that it selects, and then Data wraps the counter to its largest value with no timer armed |
| FetchLogic.NeverStuck | csrc/fetch/logic.c:7-46 | with nothing in flight and the retrieval unfinished, a segment is queued or a new one can be opened |
| FetchLogic.FetchLogic.constructor | csrc/fetch/logic.c:127-143 | the wheel is created long enough for the largest timeout, and the invariant of every run holds |
| FetchLogic.FetchLogic.Send | csrc/fetch/logic.c:20-41 | arming the timer of a sent segment cannot be refused, because the timeout never exceeds what the wheel takes; it is due one timeout later, and no other timer moves |
| FetchLogic.FetchLogic.TxOne | csrc/fetch/logic.c:14-41 | one round of a burst: the first queued segment, or else the next new one, stamped with the time and with its timer due one timeout later; it yields nothing exactly if neither is possible |
| FetchLogic.FetchLogic.TxInterestBurst | csrc/fetch/logic.c:7-46 | a burst sends segments from the front of the queue in order and then new ones in order, keeps the invariant, stops only at a limit, and is not empty when nothing is in flight and the retrieval is unfinished |
| FetchLogic.FetchLogic.DecreaseCwnd | csrc/fetch/logic.c:48-62 | at most one decrease per window of segments |
| FetchLogic.FetchLogic.RxData | csrc/fetch/logic.c:64-96 | Data for a segment that is waited for retrieves it, and the RTT is measured exactly if the segment was not sent again; any other Data changes nothing |
| FetchLogic.FetchLogic.RtoTimeout | csrc/fetch/logic.c:107-125 | a timed out segment is given up on exactly if it is beyond the final one, and otherwise queued last; the timeout backs off exactly when the window is decreased |
| FetchLogic.FetchLogic.TriggerRtoSched | csrc/fetch/logic.c:107-125 | exactly the timers due by now are handled, each once: their segments up to the final one join the queue in that order, and the invariant holds again afterwards |
| FetchLogic.AllWanted | csrc/fetch/logic.c:115-117 | if no segment beyond the final one was requested, every timed out segment is sent again |
| FetchLogic.FetchLogic.SetFinalSegNum | csrc/fetch/logic.h:35-39 | harmless as long as no segment beyond the final one was requested |
| FetchLogic.FetchLogic.Meaning | csrc/fetch/logic.h:41-46 | what the invariant gives: each live segment is in exactly one place, the counter is the number of armed timers, and a finished retrieval has no timer and no queue left |
| FetchLogic.FetchLogic.Take | csrc/fetch/fetcher.c:92-96 | one call of the fetcher thread: which timers are handled, which segments are sent and why no more, which segment is retrieved |
| FetchLogic.Run | csrc/fetch/fetcher.c:82-99 | in every run of timers, bursts and arrivals with the final segment declared first: each event does to the fetcher what it should, the retrieved segments are exactly those whose Data arrived while they were waited for, and Finished implies that all segments arrived and each was counted once |
| FetchLogic.WheelFitsMaxRto | csrc/fetch/logic.c:127-143 | on every clock of at least 12 kHz the wheel takes the largest timeout |
| CsArc.RequestKeeps | csrc/pcct/cs-arc.c:78-166 | a request keeps the lists disjoint, T1+B1 <= c, T1+T2 <= c, all four <= 2c, 0 <= p <= c, ghosts without Data, and keeps the cache full while there are ghosts |
| CsArc.FaultsExactly | csrc/pcct/cs-arc.c:64-166 | a request takes the front of an empty list exactly when REPLACE turns to T2 and T2 is empty |
| CsArc.FullIsSafe | csrc/pcct/cs-arc.c:64-166 | as long as the cache is full while it has ghosts, no request takes the front of an empty list or divides by zero |
| CsArc.RemoveKeeps | csrc/pcct/cs-arc.c:168-174 | removing an entry keeps the bounds; it keeps the cache full while there are ghosts exactly if the entry is not stored or there are no ghosts |
| CsArc.RemoveThenFault | csrc/pcct/cs-arc.c:168-174 | for every capacity, a run without a fault: entries put twice, as many others put, the stored ones erased; the next request takes the front of an empty list |
| CsArc.PicksAsArcRounded | csrc/pcct/cs-arc.c:64-76 | REPLACE chooses T1 exactly when the rule of ARC does with p rounded down |
| CsArc.PicksAsArcExactly | csrc/pcct/cs-arc.c:64-76 | it departs from the rule with the exact p in one case only, which is stated |
| CsArc.ReplaceOrders | csrc/pcct/cs-arc.c:64-76 | REPLACE does not change the recency orders, it only moves the line between ghosts and stored entries |
| CsArc.RequestRecent | csrc/pcct/cs-arc.c:78-166 | B1 followed by T1, and B2 followed by T2, stay strictly increasing in the time of last access |
| CsArc.RequestHold | csrc/pcct/cs-arc.c:64-166 | a request takes Data from nobody but those that it makes ghosts or deletes |
| CsArc.PutGood | csrc/pcct/cs.c:137-178 | putting Data in a new, stored, ghost or deleted entry keeps everything, and that entry then holds Data |
| CsArc.RunGood | csrc/pcct/cs-arc.c:78-174 | every run of insertions, refreshments and lookups, with removals of ghosts and deleted entries, keeps all of the above, never takes the front of an empty list, and exactly the stored entries hold Data |
| CsArc.CsArc.constructor | csrc/pcct/cs-arc.c:49-62 | an empty cache satisfies the invariant |
| CsArc.CsArc.SetP | csrc/pcct/cs-arc.c:41-47 | the two integer copies of p agree with it |
| CsArc.CsArc.ReplaceOne | csrc/pcct/cs-arc.c:64-76 | in place: the least recently used entry of the chosen list loses its Data and becomes a ghost |
| CsArc.CsArc.AddB1 | csrc/pcct/cs-arc.c:78-89 | in place: a B1 hit moves the target up, replaces, and moves the entry to T2 |
| CsArc.CsArc.AddB2 | csrc/pcct/cs-arc.c:91-102 | in place: a B2 hit moves the target down, replaces, and moves the entry to T2 |
| CsArc.CsArc.AddNew | csrc/pcct/cs-arc.c:104-136 | in place: a miss forgets or replaces as ARC says, and the new entry is the most recent of T1 |
| CsArc.CsArc.Add | csrc/pcct/cs-arc.c:138-166 | in place: a request is one step of ARC, and both the bounds and fullness survive it |
| CsArc.CsArc.PutDirect | csrc/pcct/cs.c:137-178 | in place: the entry is cleared, requested and filled; bounds and fullness survive |
| CsArc.CsArc.MatchInterest | csrc/pcct/cs.c:290-317 | in place: an entry that matches is requested exactly if it holds Data |
| CsArc.CsArc.Erase | csrc/pcct/cs-arc.c:168-174 | in place: the entry is gone; fullness survives exactly if the removal was of an allowed kind |
| Chain.Around | csrc/ndni/tlv-decoder.h:15-32 | the bytes of a chain are those before a cursor and those after it |
| Chain.GatheredKeeps | csrc/ndni/tlv-decoder.c:127-190 | replacing the bytes between two cursors by one segment that holds them leaves the flat bytes as they were, and no segment becomes empty |
| Chain.PiecesConcat | csrc/ndni/tlv-decoder.c:23-83 | the pieces of segments that a clone refers to make up the next bytes, and none is empty |
| Mbuf.Init | csrc/ndni/tlv-decoder.h:24-32 | the cursor is at the first byte and may read the whole packet |
| Mbuf.Skip | csrc/ndni/tlv-decoder.h:34-53 | skipping acts as on the flat bytes, also over empty segments |
| Mbuf.CopyTo | csrc/ndni/tlv-decoder.c:3-21 | the next flat bytes are written to the buffer, nothing else in it changes, and the cursor is after them |
| Mbuf.ReadContiguous | csrc/ndni/tlv-decoder.h:73-89 | a pointer to the next bytes of the current segment; the cursor goes to the next segment at its end |
| Mbuf.Read | csrc/ndni/tlv-decoder.h:91-110 | the next bytes contiguously: in the chain if they lie in one segment, otherwise in the scratch buffer |
| Mbuf.DeleteBetween | csrc/ndni/tlv-decoder.c:127-142 | the segments between two positions are unlinked and counted out, and the segment of the cursor is trimmed |
| Mbuf.MoveToFirst | csrc/ndni/tlv-decoder.c:144-166 | the next bytes are gathered in the current segment; flat bytes, packet length and segment count stay right |
| Mbuf.CopyToNew | csrc/ndni/tlv-decoder.c:168-190 | the next bytes are gathered in a new segment after the part of the current one before the cursor; flat bytes, packet length and segment count stay right |
| Mbuf.Linearize | csrc/ndni/tlv-decoder.c:192-206 | returns the next bytes contiguously with the flat bytes of the packet unchanged, its length the sum of the segment lengths, its segment count right and no segment made empty; it fails exactly on an empty request or when the bytes exceed a buffer, and then changes nothing |
| Mbuf.Clone | csrc/ndni/tlv-decoder.c:23-83 | a new chain of indirect segments on the same buffers, none empty, holds the next bytes; both loops find the same number of segments; the packet itself is not changed |
| Mbuf.ChainVector | csrc/dpdk/mbuf.h:70-88 | the chain has the bytes of its members in order, and the right length and count |
| Mbuf.Join | csrc/dpdk/mbuf.h:50-68 | chaining concatenates the bytes and adds up lengths and counts |
| Tlv.NniRoundTrip | csrc/ndni/nni.h:7-62 | decoding undoes encoding for every 64-bit number, and no accepted encoding is shorter |
| Tlv.VarNumRoundTrip | csrc/ndni/tlv-encoder.h:8-44 | decoding undoes encoding whatever follows |
| Tlv.VarNumCanonical | csrc/ndni/tlv-decoder.h:164-196 | the only accepted encoding of a number is the one the encoder writes |
| Tlv.TLRoundTrip | csrc/ndni/tlv-encoder.h:46-57 | a TLV header is read back whenever its value is there |
| Tlv.TLCanonical | csrc/ndni/tlv-decoder.h:198-231 | an accepted TLV header is the one the encoder writes, and its value is there |
| TlvRead.ReadVarNum | csrc/ndni/tlv-decoder.h:164-196 | on a chain of mbufs as on the flat bytes, including how far the cursor moves on failure |
| TlvRead.ReadTL | csrc/ndni/tlv-decoder.h:216-231 | on a chain of mbufs as on the flat bytes, including how far the cursor moves on failure |
| TlvRead.ReadNni | csrc/ndni/tlv-decoder.h:263-275 | on a chain of mbufs as on the flat bytes, with the maximum |
| TlvRead.WriteVarNum | csrc/ndni/tlv-encoder.h:21-44 | the encoding is written at its place, and nothing else in the buffer changes |
| TlvRead.PrependTL | csrc/ndni/tlv-encoder.h:46-57 | the header comes before the contents of the mbuf, which do not change |
| Interest.RunMeans | csrc/ndni/interest.c:51-114 | the parser, as a fold over the elements, finds what the elements say and the positions of the last Nonce and the last guider |
| Interest.InterpretByField | csrc/ndni/interest.c:51-114 | what the elements say is, field by field, the last name, the flags that occur, the names of all hints and the last guiders |
| Interest.Layout | csrc/ndni/interest.c:37-130 | an accepted Interest is the elements before its last Nonce, those up to its last guider, those after, and an unread tail; the recorded offset and size are the lengths of the first two |
| Interest.RewriteKeepsMeaning | csrc/ndni/interest.c:142-175 | if nothing is lost with the elements among the guiders, the rewritten Interest parses to the requested guiders and otherwise the same name, flags, hints, offset and trailing bytes |
| Interest.KeepsMeaningExactly | csrc/ndni/interest.c:142-261 | for every accepted Interest, the chained rewriting succeeds and preserves the meaning if and only if something comes before the last Nonce, and without the elements among the guiders the last name, the flags and the forwarding hints are the same |
| Interest.OnceKept | csrc/ndni/interest.c:142-175 | when no name, flag or hint element is repeated, nothing is lost if and only if none stands among the guiders |
| Interest.NonceFirst | csrc/ndni/interest.c:231-236 | a concrete Interest that begins with its Nonce: the parser accepts it, nothing stands among its guiders, and the chained rewriting fails |
| Interest.FieldLost | csrc/ndni/interest.c:37-130 | an element among the guiders is missing from the rewritten Interest |
| Interest.FlagLost | csrc/ndni/interest.c:37-130 | a concrete Interest that the parser accepts and whose CanBePrefix is lost by rewriting |
| Interest.OrderSuffices | csrc/ndni/interest.c:37-130 | in the order of the packet format the guiders stand apart, no element is repeated, and something comes before the Nonce |
| Interest.RewrittenPacket | csrc/ndni/interest.c:167-175 | the whole rewritten packet, under its new header, parses with the requested nonce, lifetime and hop limit and everything else unchanged, for every Interest in the order of the packet format |
| InterestPacket.FwHints | csrc/ndni/interest.c:6-35 | the forwarding hint loop on a chain of mbufs as on the flat bytes, unless a name in the hint is longer than some buffer |
| InterestPacket.OneElement | csrc/ndni/interest.c:52-113 | one element on a chain of mbufs as on the flat bytes, unless a name in it is longer than some buffer; the cursor is after it |
| InterestPacket.ParseElements | csrc/ndni/interest.c:51-114 | the element loop on a chain of mbufs as on the flat bytes, unless a name in it is longer than some buffer, with the packet bytes unchanged although segments are rearranged |
| InterestPacket.Parse | csrc/ndni/interest.c:37-130 | parsing a chain of mbufs is parsing its flat bytes, unless a name in it is longer than some buffer |
| InterestPacket.AppendGuiders | csrc/ndni/interest.c:142-165 | the new mbuf holds the three guider elements |
| InterestPacket.ModifyGuiders | csrc/ndni/interest.c:212-261 | the new chain holds the rewritten Interest under a header with its length, without an empty segment, and the old packet is not changed; it fails exactly if the Nonce comes first |
| Lp.FrameRoundTrip | csrc/ndni/lp.c:33-194 | for every header and payload, parsing what was prepended gives back the layer 2 fields, the payload, and on the first fragment the layer 3 fields, whatever trailer follows |
| LpPacket.Nack | csrc/ndni/lp.c:11-31 | the Nack loop on an mbuf as on the flat bytes |
| LpPacket.HeaderFields | csrc/ndni/lp.c:54-111 | the field loop on an mbuf as on the flat bytes, and where the payload is |
| LpPacket.Parse | csrc/ndni/lp.c:33-117 | the mbuf is trimmed to exactly the payload that the flat parser finds, without header and trailer |
| TxProc.SentExactly | csrc/iface/tx-proc.c:73-129 | the payloads sent make up the packet if and only if it needs at most 31 fragments; then there are at least two and none is empty |
| TxProc.TooManyFragments | csrc/iface/tx-proc.c:77-84 | for every fragment size, a packet of more than 256 and at most 257 fragments: the 8-bit count wraps, one fragment is sent and claims to be the only one |
| TxProc.FrameSize | csrc/ndni/lp.c:119-194 | the exact size of a frame, from the length of its token, the kind of Nack, the congestion mark, the fragment fields and the payload |
| TxProc.HeadroomExactly | ndni/enum.go:14-23 | the headroom set aside for headers suffices exactly if the header takes at most 54 bytes; for payloads from 253 bytes, if the token, Nack and mark of a first fragment take at most 30 bytes, or 46 if it is the only one |
| TxProc.ShortTokenFits | ndni/enum.go:14-23 | with a token of at most 8 bytes the headroom suffices for every payload |
| TxProc.LongTokenExceeds | ndni/enum.go:14-23 | a first fragment with a token of 32 bytes and a congestion mark exceeds it by 9 bytes |
| TxProc.PrependL3 | csrc/ndni/lp.c:124-166 | the layer 3 elements come before the bytes of the packet, exactly if there is room for all of them |
| TxProc.PrependL2 | csrc/ndni/lp.c:168-191 | the fragment elements come before the bytes of the packet, if there is more than one fragment, exactly if there is room for them |
| TxProc.PrependHeader | csrc/ndni/lp.c:119-194 | with the headroom that is asked for: every prepend finds room, and the mbuf chain holds the encoded frame around its former bytes, exactly if the header fits the headroom that is there |
| TxProc.TxProc.ChainedFrag | csrc/iface/tx-proc.c:73-129 | every frame holds its piece of the packet under the right header, with consecutive sequence numbers modulo 2^64; a packet whose count is above 31 is refused and counted |
| Reassembler.AcceptGood | csrc/iface/reassembler.c:95-134 | every arrival keeps list and table in agreement, the capacity, and every bitmap equal to what is missing |
| Reassembler.AcceptReceived | csrc/iface/reassembler.c:42-134 | every arriving fragment is held, delivered or dropped, and only once, including eviction, a changed count and duplicates |
| Reassembler.DeliversOnce | csrc/iface/reassembler.c:95-134 | fragments in any order, with duplicates, between those of other messages: nothing is delivered before the last missing one, and then all of them in order |
| Reassembler.RoomKeeps | csrc/iface/reassembler.c:68-71 | while at most `capacity` messages are open, none is thrown out |
| Reassembler.FewMessagesKeep | csrc/iface/reassembler.c:68-71 | whatever was open before, a message is not thrown out while at most `capacity` messages including it have been touched since it began |
| Reassembler.Reassembler.Drop | csrc/iface/reassembler.c:52-59 | in place: the message is gone and its fragments are counted as dropped |
| Reassembler.Reassembler.Insert | csrc/iface/reassembler.c:61-81 | in place: a message begins, after the one longest untouched has made room |
| Reassembler.Reassembler.Reassemble | csrc/iface/reassembler.c:83-93 | in place: the message is gone, and its fragments are returned in order |
| Reassembler.Reassembler.Accept | csrc/iface/reassembler.c:95-134 | in place: one step of the reassembler, with the invariant kept |
| RxProc.ParsedAcceptable | csrc/ndni/lp.c:33-117 | a parsed fragment has an index below its count and a count within the limit, as the reassembler asserts |
| RxProc.RxProc.Input | csrc/iface/rx-proc.c:7-45 | each frame is parsed, reassembled and counted under the kind of packet it completes or as a decode error; frames given equal reported frames plus decode errors plus fragments held |
| RxProc.RxProc.Run | iface/counters.go:42-53 | over every run, frames given equal reported frames plus decode errors plus fragments held |
| LpEndToEnd.WireParsed | csrc/iface/tx-proc.c:73-129 | what the peer parses from the wire is the fragment that was cut, whatever trailer follows |
| LpEndToEnd.EndToEnd | csrc/iface/reassembler.c:95-134 | fragment, prepend, parse, reassemble: frames of a packet in any order, with duplicates and trailers, between fragments of other messages, deliver nothing before the last missing one and then exactly the packet and its layer 3 fields, as long as the packet is not thrown out to make room |
| LpEndToEnd.EndToEndFewOpen | csrc/iface/reassembler.c:68-71 | so in every run with at most `capacity` messages open at a time, however many there are in all |
| LpEndToEnd.EndToEndFewMessages | csrc/iface/reassembler.c:68-71 | and, whatever was left open before, in every run of at most `capacity` messages |
| GoLp.CutConcat | ndn/lp.go:98-140 | the fragments make up the payload, none is empty, each fits, and there is one only exactly when the payload fills the first |
| GoLp.LpFragmenter.Fragment | ndn/lp.go:98-140 | the frames are the fragments of one message, with consecutive sequence numbers and the layer 3 fields on the first |
| GoLp.AcceptOneSame | ndn/lp.go:209-215 | the two forms of a partial packet stay the same exactly if the fragment has a payload |
| GoLp.ReassemblersAgree | ndn/lp.go:186-225 | the Go reassembler and the one of the data plane treat a fragment that has a payload alike: they wait with the same fragments, give up, or deliver the same payload with the same layer 3 fields |
| GoLp.FragmentedIs | csrc/iface/reassembler.c:95-134 | what the agreement says of the data plane is what its reassembler does |
| GoLp.AgreeFromStart | ndn/lp.go:186-225 | they agree on all fragments of a message from its first one on |
| GoLp.NilCountsTwice | ndn/lp.go:196-204 | a first fragment without a payload that arrives twice completes a packet of two fragments in Go, while the data plane still waits |
| GoLp.LpReassembler.Get | ndn/lp.go:160-164 | in place: the key becomes the most recent one, and a new key throws the oldest one out when there is no room |
| GoLp.LpReassembler.Accept | ndn/lp.go:157-225 | in place: one step of the reassembler |
| GoLp.RoundTrip | ndn/lp.go:157-225 | the frames of a packet, in any order and with duplicates, between fragments of other packets, complete nothing before the last missing one, which gives back the payload and the layer 3 fields once |
| GoLp.FragmentThenReassemble | ndn/lp.go:98-225 | what the fragmenter cuts, the reassembler puts together, with at most `capacity` packets open at a time |
| EthLocator.MatchesExactly | csrc/ethface/locator.c:152-250 | a prepared matcher accepts exactly the frames whose fields belong to the locator, for every kind of locator |
| EthLocator.CoexistDisjoint | csrc/ethface/locator.c:26-76 | no frame is accepted by the matchers of two valid locators that may coexist |
| EthLocator.Match | csrc/ethface/locator.h:69-82 | an accepted frame loses exactly its header, another one is untouched |
| EthLocator.Accept | csrc/ethface/rxtable.c:4-17 | a frame goes to the first face that takes it, without its header |
| EthLocator.OrderDoesNotMatter | csrc/ethface/rxtable.c:4-17 | when all faces may coexist, the face that gets a frame does not depend on their order |
| EthLocator.TransmitAccepted | csrc/ethface/locator.c:342-465 | for every valid locator and payload, the transmitted frame is accepted by the matcher of the mirrored locator, and stripping its header gives back the payload |
| CoDel.NewtonBound | csrc/iface/pktqueue.c:40-49 | a Newton step leaves count*r^2 <= 2^32 even if it was up to twice that before |
| CoDel.NewtonFits | csrc/iface/pktqueue.c:40-49 | the step neither underflows nor overflows 64 bits |
| CoDel.NewtonGood | csrc/iface/pktqueue.c:40-49 | for a count of two or more the estimate stays within 16 bits, positive and bounded |
| CoDel.ControlLawBound | csrc/iface/pktqueue.c:51-61 | the step s of the control law satisfies s^2*count <= interval^2 |
| CoDel.ControlLawAdvances | csrc/iface/pktqueue.c:51-61 | with a positive estimate and an interval of at least 2^16 the next drop time advances |
| CoDel.UpdatedGood | csrc/iface/pktqueue.c:80-113 | a pop keeps lastCount <= count, count*r^2 <= 2^32 and the 16-bit range exactly if it does not take the count beyond 32 bits |
| CoDel.UpdatedStep | csrc/iface/pktqueue.c:80-113 | whenever a pop schedules the next drop, the step s satisfies s^2*count <= interval^2 |
| CoDel.RunGood | csrc/iface/pktqueue.c:80-113 | in every run the bounds hold all the time if and only if no pop takes the count beyond 32 bits |
| CoDel.SmallCountsSuffice | csrc/iface/pktqueue.c:80-113 | in particular if the count is below 2^32 - 1 at each pop |
| CoDel.CountReaches | csrc/iface/pktqueue.c:63-113 | for every count that fits 32 bits there is a run of slow packets from the empty queue that gets there, with the bounds kept all the time |
| CoDel.CountWraps | csrc/iface/pktqueue.c:80-113 | so there is such a run whose next pop takes the count beyond 32 bits and breaks the bounds |
| CoDel.PktQueue.PopCoDel | csrc/iface/pktqueue.c:80-113 | in place: one pop, which keeps the bounds exactly if it does not take the 32-bit count beyond its range |
| CoDel.PktQueue.Run | csrc/iface/pktqueue.c:80-113 | in place: every run, however long, in which no pop takes the count beyond 32 bits keeps the bounds |
| Fib.Lpm | csrc/fib/fib.c:91-116 | two-stage lookup returns the entry of the longest prefix, for every name and start depth, on every table whose virtual entries stand above all deeper entries and are high enough |
| FibTree.HighEnough | container/fib/fibtree/tree.go:131-151 | a node is at least as high as its descendants are deep |
| FibTree.ReflectsShows | container/fib/fibreplica/update.go:34-39 | a table in line with a well-formed tree has what the two-stage lookup needs |
| FibTree.Execute | container/fib/fibreplica/update.go:91-173 | an update changes the entries it names, as described, and no others |
| FibTree.NewHeight | container/fib/fibtree/node.go:37-43 | one more than the highest child, or zero |
| FibTree.Seek | container/fib/fibtree/tree.go:51-68 | all prefixes of the name are there, new ones empty, and nothing else has changed |
| FibTree.GrownDescribes | container/fib/fibtree/tree.go:89-153 | after an insertion the returned updates tell exactly how the table must change |
| FibTree.ShrunkDescribes | container/fib/fibtree/tree.go:156-207 | after a removal the returned updates tell exactly how the table must change |
| FibTree.Fib.TreeInsert | container/fib/fibtree/tree.go:89-153 | the tree stays well-formed, holds the entry besides the others, and the update is right |
| FibTree.Fib.TreeErase | container/fib/fibtree/tree.go:156-207 | the tree stays well-formed, holds all other entries, and the update is right, although heights may stay too large |
| FibTree.Fib.Insert | container/fib/fib.go:71-110 | tree and table agree after every insertion; a name that is too long is refused |
| FibTree.Fib.Erase | container/fib/fib.go:83-110 | tree and table agree after every removal |
| FibTree.Fib.Find | csrc/fib/fib.c:91-116 | after any insertions and removals, the lookup in the table returns the entry of the longest prefix among the entries of the tree |
| Name.ParseComponentsOf | csrc/ndni/name.h:44-60 | parsing an encoded name gives back its components |
| Name.Parse | csrc/ndni/name.c:46-70 | number of components, first non-generic component and digest component are those of the component list; a malformed name is refused |
| NameOrder.CompareLoop | ndn/name.go:110-118 | the loop finds the first difference |
| NameOrder.CompareIsByteOrder | ndn/name.go:95-100 | the order of names has the sign of the lexicographic order of their encodings |
| NameOrder.PrefixTestsAgree | csrc/ndni/name.h:69-82 | the byte-level prefix test agrees with the component-level one, and says when names are equal |
| NameOrder.CanSatisfyAgrees | csrc/ndni/data.c:118-134 | with the digest known and digest components of 32 bytes, the byte-level test says yes exactly when the component-level one (ndn/data.go, lines 147 to 160) does |
| NameOrder.DigestAskedFor | csrc/ndni/data.c:100-116 | without the digest it is asked for exactly when some digest would satisfy the Interest |
| NameUri.ComponentRoundTrip | ndn/name-component.go:126-163 | parsing undoes printing for every component with a valid type, including empty, all-period and arbitrary values |
| NameUri.ParseFailsExactly | ndn/name-component.go:124-163 | for every text: the parser indexes beyond its end if and only if the text has at least three characters and its type is followed by fewer than three periods and nothing else |
| NameUri.ParseFails | ndn/name-component.go:124-163 | it does so for every valid type followed by fewer than three periods, in a text of at least three characters |
| NameUri.ParseFailsOn | ndn/name-component.go:124-163 | it does so on `8=.` and on `12=` |
| NameUri.NameRoundTrip | ndn/name.go:172-184 | parsing undoes printing for every name with valid types |
| NameUri.Print | ndn/name.go:160-170 | the loop prints the URI form |
| NameUri.PrintComponent | ndn/name-component.go:79-100 | the loop prints the escaped value, with three more periods exactly if it has nothing but periods |
| NameUri.UnescapeFrom | ndn/name-component.go:147-161 | the loop undoes escapes |
| RunningStat.UpdateSamples | csrc/core/running-stat.h:59-68 | the update turns the exact mean and sum of squared deviations of some samples into those with one more |
| RunningStat.MaximumExactly | csrc/core/running-stat.h:35-57 | the maximum is one of the samples exactly if some sample reaches the starting value, the smallest positive number |
| RunningStat.MaximumWrong | csrc/core/running-stat.h:35-57 | a single sample of zero: the reported maximum is not a sample |
| RunningStat.RunningStat.Push | csrc/core/running-stat.h:70-80 | after any inputs the statistics are exact for the samples taken, every n-th input |
| RunningStat.RunningStat.Read | core/runningstat/running-stat.go:45-49 | a snapshot is one of the samples taken from the inputs so far, with their extremes |
| RunningStat.AddJoins | core/runningstat/snapshot.go:71-89 | adding snapshots gives a snapshot of the concatenated samples: their mean, squared deviations, minimum and maximum |
| RunningStat.AddFailsExactly | core/runningstat/snapshot.go:71-89 | snapshots read after some inputs cannot be added if and only if both saw inputs, but each fewer than its sampling period |
| RunningStat.SubUndoesAdd | core/runningstat/snapshot.go:92-105 | subtracting undoes adding whenever the remaining sample count is positive |
| RunningStat.SubLeaves | core/runningstat/snapshot.go:92-105 | subtracting an earlier snapshot leaves a snapshot of the later samples |

## Left out

- Linked lists (timer slots, ARC lists, the reassembler's list, the retransmission queue) are sequences; the
  pointers that link them are not modelled.
- Hash tables are maps; SipHash and cached prefix hashes (`PName_ComputePrefixHash`) and `PName_Slice` are not modelled.
- Clocks, RTTs and congestion window sizes are inputs; the growth curve of TCP CUBIC is not modelled.
- Floating point numbers (ARC's target size, RTT smoothing, running statistics) are real numbers.
- Allocation failures, mempools, rings, RCU, reference counts and the limit of 65535 segments per packet.
- Masks with a power of two minus one are remainders; 64-bit times and segment numbers do not wrap.
- The decoder struct is a value, and an mbuf pointer is a position in the chain; pointers that were returned before
  a later `Linearize` are not followed.
- MinTmr.Run: a callback may arm the timer it is given, but no other one; the list of a slot is not safe against more.
  Timers that are due at the same tick may fire in any order.
- FetchLogic.FetchLogic.DecreaseCwnd: the new window size is not modelled, only when a decrease happens.
- CsArc.CsArc.Erase: the CS, PIT and PCCT around the cache, and direct and indirect entries, are not modelled.
- Interest.RewriteKeepsMeaning: the linear form of the rewriting, which copies into fragments, is not modelled.
- InterestPacket.Parse: whether a name that is longer than some buffer makes it fail depends on how the name lies in the
  chain at that point, of which only Mbuf.Linearize says exactly when.
- InterestPacket.FwHints: as InterestPacket.Parse.
- InterestPacket.OneElement: as InterestPacket.Parse.
- InterestPacket.ParseElements: as InterestPacket.Parse.
- Mbuf.Join: the refusal of chains longer than 65535 segments is not modelled.
- LpPacket.Parse: where the first header is truncated, the length left in the discarded mbuf is not modelled.
- TxProc.PrependHeader: where a prepend has no room, the code goes on with a null pointer; the model stops there.
- TxProc.TxProc.ChainedFrag: the linear form, which takes one fragment per segment, is not modelled.
- RxProc.RxProc.Input: the network layer parser is a parameter; counters do not wrap.
- Reassembler.Reassembler.Insert: adding to the hash table is assumed to succeed.
- GoLp.RoundTrip: the encoding and decoding of frames in Go are not modelled, nor the parsing of the whole packet.
- EthLocator.TransmitAccepted: checksums are inputs; flow patterns for hardware filtering are not modelled.
- CoDel.PktQueue.PopCoDel: PopPlain and PopDelay are not modelled; the interval is below 2^32, to which the code truncates it.
- FibTree.Fib.Erase: as FibTree.Fib.Insert.
- FibTree.Fib.Insert: nexthops and strategy are one opaque body; reverting an update after an allocation failure and
  several replicas are not modelled.
- NameOrder.CanSatisfyAgrees: for digest components of 32 bytes, the only length the digest of a Data can have.
- RunningStat.SubLeaves: `Scale` and JSON are not modelled; a wrapped count is not modelled.
- PIT, forwarding threads, strategies, Data parsing and encoding, the file server, configuration and management.

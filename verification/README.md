# Verified model of the mipstack protocol logic

mipstack is a userspace TCP/IP stack. This project models the parts of it that carry protocol state or must invert one
another, and proves what they promise:

* **Fragmentation and reassembly.** The range planner, both fragmenting encoders, the per-datagram machine that takes
  fragments in any order with duplicates, overlaps and lying lengths, the public `IPPacketReassembly`, and the bounded table
  of such machines. The main results say that a datagram cut anywhere, arriving in any order with any repeats, comes back
  octet for octet (`ArrivalOrder.AnyOrderRestores`), for IPv4 also when routers cut the fragments again along any tree of
  paths (`Refragmentation.AnyTreeAnyOrder`), for IPv6 with extension headers and with an atomic Fragment header taken out
  (`IPv6RoundTrip.AnyOrderRestores`).
* **Packet codecs.** IPv4 and IPv6 marshalling and parsing, normalization, marshalling over memory that overlaps the packet's
  own payload or options, appending in place or not, the IPv6 extension chain and its walkers, ICMP errors with RFC 4884 extensions, and the Internet
  checksum over wide words in either byte order.
* **Multicast membership.** The merge of per-socket filters, copy-on-write publication to readers without a lock, and the
  retransmission machine, with the listener's convergence under loss.
* **Forwarder requests.** The life of a forwarded UDP request as interleaved atomic steps.
* **Estimators and selection.** The windowed maximum filter, exact uniform sampling, packed delivery counters and timestamps,
  the BBRv3 probe machine and window bounds, and unicast source selection.

Integers are unbounded; wherever the program's width matters (32-bit rounds and stamps, 31-bit counts, 64-bit words, 16-bit
fields) the wrap-around is written out. Octets are integers below 256. Objects that the program updates in place are classes,
arrays that it fills are arrays, and atomic shared state is a transition system over its steps. Times are integers; rates
are reals or, in `Bbr3`, arbitrary inputs.

Each module is one file of the same name. `dafny verify dfyconfig.toml` checks all of them.

Where a promise holds only under a condition, the condition is stated exactly and the code kept as it is:

* Timestamps count microseconds, but a tick that would be stored as zero is stored as one. A recovered interval is therefore
  always within one tick of the ticks' difference, but within a microsecond of real time exactly under the condition of
  `DeliveryRate.IntervalIsClose`; `DeliveryRate.CloseFails` is an input where two microseconds come back for a nanosecond.
* An ICMP error can be built whose quoted extension chain crosses its declared length; its receiver cannot parse it.
  `IcmpErrors.BuiltMessageParses` says exactly when, and `IcmpErrors.BuiltButNotParsed` gives such an error.
* A timer-driven loss between an ACK's losses and its sample swallows those losses. `DeliveryRate.LossesReportedOnce` says
  exactly when none is lost, and `DeliveryRate.SwallowedLoss` gives a run where one is.
* Losing exactly as many reports in a row as the robustness value can leave a listener wrong for good;
  `MulticastReports.TooManyLosses` gives the run.
* Re-encoding a received packet need not reproduce it. `IPv4Codec.MarshalOfParse` and `IPv6Codec.MarshalOfParse` say exactly
  when it does, in terms of the octets received, and `IPv4Codec.ReencodingChanges` and `IPv6Codec.ReencodingChanges` give
  packets that it changes.
* The maximum filter counts rounds modulo 2^32. `BandwidthFilter.Filter.Update` says exactly when its answer lies within the
  window, and `BandwidthFilter.LongPauseIsNotTold` gives a pause after which it does not.

## Model

| member | source | states |
|---|---|---|
| FragmentRanges.PlanTiles | fragment.go:43-54 | The planned ranges are consecutive, nonempty, within capacity, multiples of eight but the last, flagged "more" exactly when something follows, and end at the payload's end |
| FragmentRanges.PlanIsShortest | fragment.go:43-54 | No other tiling under the same rules has fewer ranges |
| FragmentRanges.RangeCursor.Next | fragment.go:43-54 | The cursor yields the plan range by range and stops at its end |
| FragmentRanges.PlanRanges | fragment.go:34-40 | Exactly positive lengths with a capacity of at least eight are served, with a tiling |
| Coverage.ByteCountDecides | fragment.go:594-600 | For sorted disjoint pieces within a limit, the byte count reaches the limit exactly when every octet is covered |
| Coverage.RangeState | fragment.go:717-741 | The binary search answers exactly "all octets of the range are held" and "some octet of it is held" |
| Coverage.InsertPiece | fragment.go:566-572 | The in-place insertion puts the piece at its sorted slot |
| Coverage.InsertKeepsSorted | fragment.go:566-572 | Inserting a piece that touches nothing held keeps the pieces sorted and disjoint |
| Reassembly.CompleteByCounting | fragment.go:594-600 | In every reachable state the byte-count test holds exactly when the pieces cover the announced length |
| Reassembly.WholeIsBuildable | fragment.go:603-610 | A datagram that is complete can always be built: header and size were settled earlier |
| Reassembly.FragmentEcnIsCombined | fragment.go:1005-1015 | In every reachable state the ECN table gives the combination of section 5.3 of RFC 3168 and never fails |
| Reassembly.StepCases | fragment.go:494-588 | A fragment is a duplicate, refused, or retained, each under exactly the stated conditions on covered octets, lengths, header and ECN |
| Reassembly.StepInv | fragment.go:494-588 | Every accepted fragment keeps pieces sorted, disjoint and within limits, the header tied to octet zero, and the byte counter exact |
| Reassembly.EveryRunIsSound | fragment.go:494-610 | Over any run of arbitrary fragments the state stays sound and a completed datagram is exactly the octets received |
| Reassembly.BuildReassembled4 | fragment.go:745-778 | The in-place builder yields the rebuilt IPv4 header followed by every octet in its place |
| Reassembly.BuildReassembled6 | fragment.go:745-778 | The in-place builder yields the relinked IPv6 headers followed by every octet in its place |
| Reassembly.Reassembler.AddFragment | fragment.go:494-588 | The object's method does exactly one step of the reference machine, in its order of checks |
| Reassembly.Reassembler.FinishWire | fragment.go:603-610 | Builds the whole packet exactly when that is possible |
| ArrivalOrder.AnyOrderRestores | fragment.go:350-375 | For any split into legal ranges and any arrival order with any repeats, nothing is refused, nothing completes early, and the last missing part returns the datagram octet for octet |
| ArrivalOrder.RepeatedPart | fragment.go:502-523 | A repeated part changes nothing and never completes the datagram |
| ArrivalOrder.NextPart | fragment.go:494-588 | The machine completes exactly on the arrival of the last missing part |
| PublicReassembly.IPPacketReassembly.Add | fragment.go:350-375 | A fragment that is invalid or of another packet changes nothing; otherwise one machine step, reset on error and on completion |
| PublicReassembly.IPPacketReassembly.Reset | fragment.go:379-381 | Discards an incomplete packet; idempotent |
| PublicReassembly.PublicIsValid | fragment.go:387-443 | Every packet the conversion accepts, of either family, meets what the machine assumes of a fragment |
| PublicReassembly.AddAllRuns | fragment.go:350-375 | Feeding the fragments of one datagram to the object is a run of the machine |
| StackFragments.ParsedIsValid | fragment.go:782-928 | Whatever arrives and whichever options the host admits, a fragment that the stack hands to reassembly meets what the machine assumes |
| StackFragments.StackAgrees | fragment.go:782-928 | The stack reads the Fragment header that the public accessor reads, and keeps the octet that names it |
| StackFragments.SeekFragment | fragment.go:835-928 | The loop over the inbound chain finds the Fragment header or refuses, as specified |
| FragmentTable.Table.Reassemble | fragment.go:647-713 | One entry under the lock: due sets are gone, the result is one machine step on the right set, every other live set is untouched unless evicted, the evicted ones are the least recently updated, and below the limits nothing is evicted |
| FragmentTable.Table.Retain | fragment.go:680-708 | Storing a set keeps the byte total exact and at most 4 MiB, evicting others only if needed and never the set just stored |
| FragmentTable.Table.EvictOldestExcept | fragment.go:1065-1082 | Exactly the least recently updated other set goes |
| FragmentTable.Table.Clean | fragment.go:1019-1031 | Exactly the sets past their deadline go; those to be reported are exactly the ones with a first fragment |
| FragmentTable.Table.NextExpiry | fragment.go:1045-1054 | The earliest deadline of all sets, none exactly when the table is empty |
| FragmentTable.Table.DiscardFragment | fragment.go:1095-1101 | Exactly one set goes |
| FragmentTable.Table.PruneFragments | fragment.go:1106-1114 | Exactly the sets whose target is no longer accepted go |
| FragmentTable.DeadlineIsEarliest | fragment.go:1035-1041 | A set's deadline is its earliest arrival plus its family's lifetime and is never extended by a later fragment |
| FragmentTable.TotalUpdated | fragment.go:680-681 | The byte total after a set changes differs by exactly that set's change |
| FragmentTable.OneSetFits | fragment.go:699-708 | No single set can exceed the table's byte limit, so that eviction always ends below it |
| Checksum.ByteOrderIndependence | packet.go:1182-1218 | Summing in native order and swapping the folded result equals summing in network order |
| Checksum.ChecksumSum | packet.go:1182-1218 | The wide-word loop gives exactly the folded big-endian 16-bit sum, for any length and either byte order |
| Checksum.ChecksumOf | packet.go:1159-1165 | The checksum is that of section 1 of RFC 1071 |
| Checksum.ChecksumParts | packet.go:1223-1254 | The checksum of parts is that of their concatenation, for any odd or empty split |
| Checksum.TransportChecksumParts | packet.go:1264-1295 | The two-part transport checksum is that of pseudo-header and payload as one region |
| Checksum.WordSumOddConcat | packet.go:1223-1254 | The 16-bit sum of a concatenation whose first part is odd |
| Checksum.VerifiesExactlyWhenStored | packet.go:1159-1165 | A region with a zeroed even-offset field verifies to zero exactly for the values congruent to its checksum, so in particular for the checksum itself |
| IPv4Codec.ParseOfMarshal | packet.go:646-674 | Parsing a marshalled IPv4 packet, whatever padding follows, returns its canonical form |
| IPv4Codec.MarshalIsIdempotent | packet.go:918-950 | Marshalling is idempotent through the parser |
| IPv4Codec.NormalEncodesTheSame | packet.go:918-950 | The canonical form encodes to the same octets |
| IPv4Codec.MarshalOfParse | packet.go:646-674 | Re-encoding a received packet reproduces its octets exactly when nothing but zeros follows its options and its checksum is not the other zero |
| IPv4Codec.ReencodingChanges | packet.go:918-932 | A received packet that re-encoding changes: an octet stands behind the End of its options |
| IPv4Codec.OptionsContentLength | packet.go:1640-1662 | The loop accepts exactly the framed option areas and returns the content through End |
| IPv4Codec.CanonicalIsStable | packet.go:918-932 | Zeroing behind End keeps the framing, and doing it again changes nothing |
| MarshalInPlace.Move | packet.go:928-929 | Copying between overlapping regions acts as through a temporary |
| MarshalInPlace.MarshalPublicIPPacket | packet.go:918-950 | Writes exactly the packet's encoding at any place in a longer array, however the destination overlaps payload and options |
| PacketCodec.AppendBinary | packet.go:771-780 | For either family, the encoding stands behind the first octets, in place or not, payload and options read as they were wherever they lie; octets behind the packet stay, and an error changes nothing |
| PacketCodec.ParseOfMarshal | packet.go:646-703 | Parsing a marshalled packet of either family, whatever padding follows, returns its normal form |
| IPv4Fragments.LaterIPv4FragmentOptions | fragment.go:1598-1627 | The walk over a copy yields the later fragments' options |
| IPv4Fragments.CopiedOptionsStay | fragment.go:1598-1627 | Copied options stay whole and in place in every fragment; all others become NOPs |
| IPv4Fragments.LaterIsFramed | fragment.go:1598-1627 | Later options are framed whenever the original ones are |
| IPv4Fragments.MarshalFragments | packet.go:816-839 | Which IPv4 packets are refused, encoded whole, or cut, and into which wires |
| IPv4Fragments.MarshalPublicIPv4Fragments | fragment.go:1379-1405 | Cuts or recuts a packet into the wires of the planned ranges |
| IPv4Fragments.EveryWireFits | fragment.go:1379-1405 | Nothing larger than the MTU is ever emitted |
| Refragmentation.WholeHeaderIsHeader | fragment.go:745-778 | The in-place edit of the first fragment's header is the header of the unfragmented packet |
| Refragmentation.TravelKeeps | packet.go:816-839 | Along any tree of hops the packets in flight stay slices that tile the original payload |
| Refragmentation.EveryHopFits | packet.go:816-839 | Every packet that leaves a hop fits that hop's MTU |
| Refragmentation.AnyTreeAnyOrder | packet.go:816-839 | Cut by any routers with any MTUs along any tree, arriving in any order with any repeats, the fragments yield the original packet, whose encoding is the original one |
| Refragmentation.AddKeepsOwned | fragment.go:350-375 | Whatever IPv4 fragments were added, a completed packet never fails to parse |
| IPv6Chain.SplitOfJoin | packet.go:323-373 | Splitting a joined chain gives the chain back |
| IPv6Chain.JoinOfSplit | packet.go:397-475 | Joining a split payload gives the octets back, and only proper chains are produced |
| IPv6Chain.ExtensionHeaders | packet.go:323-373 | The loop splits exactly as specified |
| IPv6Chain.SetExtensionHeaders | packet.go:397-475 | Succeeds exactly for proper chains that fit one packet, with the error of the first check that fails otherwise |
| IPv6Chain.FaultMeans | packet.go:397-475 | The checks in their order find a fault exactly when the chain is not proper or does not fit |
| IPv6Chain.CheckHeaders | packet.go:397-475 | The loop returns the error of the first check that fails, in the order they are made |
| IPv6Chain.InspectOptions | packet.go:1716-1737 | The loop tells exactly whether the area is framed, and in a framed one whether a Home Address and whether a Jumbo Payload option is among its options |
| IPv6Chain.UpperLayerAgrees | packet.go:1483-1533 | The validating walker accepts the same packets, with the same final protocol and payload except after No Next Header |
| IPv6Chain.WalkUpperLayer | packet.go:1483-1533 | The loop computes its specification, and reports the pseudo-header unsafe exactly when a Home Address option or a Routing header with segments left was passed |
| IPv6Chain.FragmentAgrees | packet.go:480-516 | The Fragment accessor finds the Fragment header of the split chain |
| IPv6Chain.LocateAgrees | fragment.go:450-464 | The reassembly locator finds the same header, and the octet it returns names it |
| IPv6Codec.ParseOfMarshal | packet.go:675-700 | Parsing a marshalled IPv6 packet, whatever padding follows, returns its normal form |
| IPv6Codec.MarshalIsIdempotent | packet.go:951-967 | Marshalling is idempotent through the parser |
| IPv6Codec.MarshalOfParse | packet.go:675-700 | Re-encoding a received packet reproduces its octets exactly when every PadN content received is zero and so are the reserved octet and bits of every Fragment header |
| IPv6Codec.CleanChain | packet.go:973-1021 | Read off the octets of a chain: they are clean exactly when normalization changes none of its headers |
| IPv6Codec.ReencodingChanges | packet.go:973-1021 | A received packet that re-encoding changes: its PadN option holds an octet that is not zero |
| IPv6Codec.NormalIsProper | packet.go:973-1021 | Normalization keeps a proper chain proper and of the same size |
| IPv6Codec.NormalChainStays | packet.go:973-1021 | Normalizing again changes nothing, and a fragment stays a fragment |
| IPv6InPlace.NormalizeOptions | packet.go:984-997 | The in-place loop zeroes exactly the contents of PadN options |
| IPv6InPlace.NormalizeExtensionFields | packet.go:973-1021 | The in-place walk from start to end leaves exactly the encoding of the normalized chain there, and all else as it was |
| IPv6InPlace.MarshalPublicIPPacket | packet.go:951-967 | Writes exactly the packet's encoding at any place in a longer array, however the destination overlaps the payload, and nothing before or behind it |
| IPv6Fragments.InspectFragmentPoint | fragment.go:72-150 | Finds the end of the Per-Fragment headers and an atomic Fragment header, failing exactly when a Routing header follows the fragmentable part's start |
| IPv6Fragments.RemoveAtomic | fragment.go:1420-1429 | The cut and relinked octets are the encoding of the chain without the Fragment header |
| IPv6Fragments.WholeIsProper | fragment.go:1420-1429 | Removing the atomic Fragment header leaves a proper chain with none |
| IPv6Fragments.WholeKeeps | fragment.go:1420-1429 | Removal changes neither whether a Fragment header can be placed nor any other size |
| IPv6Fragments.FirstFragmentHeadersEnd | fragment.go:1492-1507 | The walk computes how far the extension and upper-layer headers reach |
| IPv6Fragments.HeadersSurviveCut | fragment.go:933-952 | A cut behind the headers leaves all of them visible to the receiver's check of RFC 7112 |
| IPv6Fragments.BuildFragment | fragment.go:1439-1456 | The filled octets are the encoding of the fragment's chain |
| IPv6Fragments.MarshalPublicIPv6Fragments | fragment.go:1410-1458 | Cuts a packet with extension headers into the wires of the planned ranges, or refuses exactly as stated |
| IPv6Fragments.MarshalPublicIPv6PayloadFragments | fragment.go:1462-1488 | The path without an unfragmented copy produces the same wires |
| IPv6Fragments.MarshalFragments | packet.go:816-839 | Which IPv6 packets are refused, encoded whole, or cut, and into which wires |
| IPv6Fragments.EveryWireFits | packet.go:816-839 | Nothing larger than the MTU is emitted, and a packet that does not fit has at least two fragments |
| IPv6Fragments.FragmentTells | packet.go:480-516 | The accessor tells a fragment of a larger datagram from every other valid packet |
| IPv6RoundTrip.FragmentIsSeen | fragment.go:387-443 | A receiver accepts every emitted fragment, the first one included, and sees its range |
| IPv6RoundTrip.FirstHoldsHeaders | fragment.go:1436-1439 | The first fragment holds every header, as section 5 of RFC 7112 demands |
| IPv6RoundTrip.FrontRestored | fragment.go:745-778 | Relinking and resizing the first fragment's headers gives the unfragmented front |
| IPv6RoundTrip.AnyOrderRestores | packet.go:816-839 | The fragments of an IPv6 packet, in any order with any repeats, yield the packet without its atomic Fragment header |
| IPv6RoundTrip.SentEncodes | packet.go:816-839 | What is restored encodes to exactly its octets; without a Fragment header in the original it is the unfragmented encoding |
| MulticastReports.ListenerConverges | multicast.go:2629-2647 | Over every run with fewer losses in a row than the robustness value, a listener holds exactly the interface filter whenever nothing is pending |
| MulticastReports.EveryDeliveryLevels | multicast.go:2263-2370 | Every delivered report with records brings the listener level with the interface |
| MulticastReports.FewLossesAreTolerable | multicast.go:2263-2370 | Fewer losses in all than the robustness value are in particular tolerable |
| MulticastReports.SettlesAfterChanges | multicast.go:2629-2662 | After the last change, twice the robustness value of emissions settle everything |
| MulticastReports.QuietEventually | multicast.go:2650-2662 | Retransmission always ends, whatever is lost |
| MulticastReports.TooManyLosses | multicast.go:2629-2647 | The bound is tight: losing exactly the robustness value of reports can leave the listener wrong |
| MulticastReports.StepInv | multicast.go:1148-1211 | Allow and block stay disjoint and consistent with the current filter through every change, loss and delivery |
| MulticastReports.Retransmission.Note | multicast.go:1148-1211 | The in-place merge of a change into the pending counters |
| MulticastReports.Retransmission.Advance | multicast.go:2629-2662 | Emits the records due and counts them down, in place |
| MulticastMembership.InterfaceAccepts | multicast.go:1064-1111 | The merged filter accepts a source exactly when some member's filter does |
| MulticastMembership.InterfaceIsUnique | multicast.go:1064-1111 | No other filter of the right mode accepts the same sources |
| MulticastMembership.AggregateMulticastFilter | multicast.go:1064-1111 | The merging loops over maps compute that filter, sharing a member's map only unchanged |
| MulticastMembership.ApplyOperation | multicast.go:903-980 | Each join, leave and source delta on one socket's filter, with its error, on a fresh copy |
| MulticastMembership.MulticastState.Change | multicast.go:893-988 | One delta: exactly that membership changes, with the stated error otherwise, and the retransmission is that of the transition |
| MulticastMembership.MulticastState.Set | multicast.go:991-1021 | One full-state change, likewise |
| MulticastMembership.MulticastState.RemoveEndpoint | multicast.go:1024-1050 | Exactly that socket's memberships go, each group's transition announced |
| MulticastMembership.MulticastState.RemoveInvalidSources | multicast.go:2729-2775 | Exactly the sources that lost their prefix go from every filter, and filters emptied by it with them |
| MulticastMembership.MulticastState.InterfaceAcceptsWhatSomeSocketAccepts | multicast.go:1322-1329 | The published data accepts a source for a group exactly when some socket's filter does |
| MulticastMembership.MulticastState.ReadersSeeEverySocket | multicast.go:1273-1317 | A reader without the lock finds exactly the groups and filters of the membership maps |
| MulticastMembership.MulticastState.NothingEmpty | multicast.go:1053-1061 | No group is left without members and no member with an empty INCLUDE filter |
| MulticastMembership.SnapshotSurvives | multicast.go:1273-1293 | No operation changes a snapshot that a reader already holds |
| MulticastMembership.TransitionIsCurrent | multicast.go:1148-1211 | What is pending for a group always describes its current interface filter |
| Forwarder.StepRespectsDecisions | forwarder.go:1394-1466 | One atomic step of anyone: a final outcome stays, a claim ends only by its own owner, no reply begins after a decision |
| Forwarder.OutcomeIsFinal | forwarder.go:1436-1466 | Over every continuation a request keeps its one outcome and its replies |
| Forwarder.ClaimIsUndisturbed | forwarder.go:1394-1404 | Over every interleaving without its owner's own finish, a claimed request stays claimed |
| Forwarder.OneUndecidedPerTuple | forwarder.go:1299-1319 | While open, two undecided or claimed requests never share a four-tuple |
| Forwarder.CloseDecidesAll | forwarder.go:1714-1733 | Once close has done its work no request is undecided |
| Forwarder.UpdateDecidesRefused | forwarder.go:1633-1647 | An update leaves no undecided request that the new configuration refuses |
| Forwarder.ReturnDecides | forwarder.go:1424-1433 | Once its handler has returned a request is decided |
| Forwarder.ConservationAtRest | forwarder.go:1299-1466 | At rest, requests equal accepted plus rejected plus dropped plus detached plus completed after replies only |
| Forwarder.StepKeepsInv | forwarder.go:1299-1887 | The table, lock and counter invariants survive every atomic step |
| BandwidthFilter.Filter.Update | congestion_bbr.go:186-208 | The answer is an observed rate and at least every rate observed since it; it lies within the window exactly when the wrapped ages of the candidates that decide are true ages; the candidates stay ordered |
| BandwidthFilter.Filter.Reset | congestion_bbr.go:179-183 | All three candidates become the given observation |
| BandwidthFilter.MinusIsAge | congestion_bbr.go:186-208 | The wrapped difference of rounds is their age exactly when that fits the counter |
| BandwidthFilter.YoungIsTold | congestion_bbr.go:186-208 | As long as no held candidate is 2^32 rounds old, the answer always lies within the window |
| BandwidthFilter.LongPauseIsNotTold | congestion_bbr.go:186-208 | After a pause of exactly 2^32 rounds a slower measurement leaves the old maximum in place |
| UniformRandom.ExactlyUniform | congestion_bbr3.go:705-717 | Every result below the limit has exactly floor(2^64/limit) accepted words |
| UniformRandom.RandomBelow | congestion_bbr3.go:705-717 | The rejection loop returns the reduction of the first accepted word |
| UniformRandom.InitialPhaseIsUniform | congestion_bbr.go:959-968 | Every phase but the draining one has exactly floor(2^64/7) words, that one none |
| UniformRandom.InitialCycle | congestion_bbr.go:959-968 | The initial phase is the one of the first accepted word |
| DeliveryRate.IntervalRecovered | congestion_rate.go:11-32 | The exact interval that two 32-bit stamps give back, across wrap |
| DeliveryRate.IntervalIsClose | congestion_rate.go:11-32 | It is within one tick of the ticks' difference and within two microseconds of real time, and within one microsecond exactly when both or neither end lies in a doubled tick, or the doubled end has the fraction that makes up for it |
| DeliveryRate.CloseFails | congestion_rate.go:11-32 | One nanosecond into the doubled tick comes back as two microseconds |
| DeliveryRate.DeliveredRecovered | congestion_rate.go:329-335 | The 31-bit count in a snapshot gives back the octets delivered since exactly when they are below 2^31 |
| DeliveryRate.Estimator.TakeSnapshot | congestion_rate.go:329-335 | The packed word holds the low 31 bits and the flag |
| DeliveryRate.Estimator.FinishRateSample | congestion_rate.go:230-277 | The sample recovers the 64-bit count at the snapshot and the octets since, reports the losses not yet sampled, and is valid exactly when stated |
| DeliveryRate.Estimator.RecordLoss | congestion_rate.go:286-291 | An ACK's loss waits for its sample; a timer's is settled at once |
| DeliveryRate.LossesBalance | congestion_rate.go:286-291 | Over any run, losses reported, swallowed and waiting add up to those ACKs declared |
| DeliveryRate.LossesReportedOnce | congestion_rate.go:286-291 | Every ACK-declared loss is reported exactly once if and only if no timer loss comes between it and its sample |
| DeliveryRate.SwallowedLoss | congestion_rate.go:286-291 | An ACK's loss, a timer's, then the sample: the ACK's loss is never reported |
| DeliveryRate.Account | congestion_rate.go:286-291 | The object's fields follow that ledger event by event |
| Bbr3.UpFollowsRefill | congestion_bbr3.go:563-610 | On every path an upward probe comes straight from REFILL, and that from DOWN or CRUISE |
| Bbr3.DownBetweenUps | congestion_bbr3.go:563-610 | Between any two upward probes stands a DOWN |
| Bbr3.CrossingIsTight | congestion_bbr3.go:791-812 | The flight that a loss lowers the bound to is where the loss rate crosses the threshold, to within one octet on either side |
| Bbr3.BoundedIsGreatest | congestion_bbr3.go:991-1011 | The bounded window obeys every bound in force and no larger window up to the grown one does |
| Bbr3.Controller.AckSample | congestion_bbr3.go:352-373 | After every ACK sample the phases agree, the mode has moved only along allowed edges, and the window lies between four segments and the maximum and under every bound in force |
| Bbr3.Controller.HandleCongestionEvent | congestion_bbr3.go:234-304 | Any event keeps the phases in agreement and the modes on allowed edges, the window changes only by an ACK's sample, a transmission or recovery, and the transport's counts are taken over where the program does |
| Bbr3.Controller.HandleRecovery | congestion_bbr3.go:316-334 | The window that each stage of the transport's recovery asks for; only an undo widens the bounds |
| Bbr3.Controller.SetCongestionWindow | congestion_bbr3.go:924-988 | The exact window: recovery, conservation or growth, then the bounds |
| Bbr3.Controller.AdaptUpperBounds | congestion_bbr3.go:613-648 | Only a probe stopped for caution restarts at REFILL, only an upward probe falls to DOWN, and the ACK phase keeps agreeing |
| Bbr3.Controller.AdvancePhase | congestion_bbr3.go:568-609 | The next phase for each phase and condition |
| Bbr3.Controller.UpdateUp | congestion_bbr3.go:585-598 | An upward probe ends exactly when risky or when the pipe is full and the window is not at the bound |
| Bbr3.Controller.ProbeInflightHighUpward | congestion_bbr3.go:748-764 | The bound grows by whole groups of credit, keeps the remainder, and only when the window limits the flight |
| Bbr3.Controller.HandleInflightTooHigh | congestion_bbr3.go:830-849 | The lowered bound, and that an upward probe stops |
| Bbr3.Controller.CheckDrain | congestion_bbr3.go:536-560 | STARTUP ends with the event that finds the pipe full; PROBE_BW is entered at DOWN |
| Bbr3.Controller.UpdateMinimumRTT | congestion_bbr3.go:864-910 | PROBE_RTT is entered with the stopping ACK phase and left with the saved window restored |
| Bbr3.Controller.ExitProbeRTT | congestion_bbr3.go:913-921 | Leads to CRUISE by way of DOWN, or back to STARTUP if the pipe was never full |
| Bbr3.Controller.PacketSent | congestion_bbr3.go:1340-1360 | A transmission changes the mode only by ending PROBE_RTT after an idle time |
| Bbr3.Controller.PacketLost | congestion_bbr3.go:778-813 | Which losses count, and where the bound falls |
| Bbr3.Controller.UpdateCongestionSignals | congestion_bbr3.go:437-466 | The short-term bound falls at the end of a lossy round outside probes, not below what was delivered |
| Bbr3.Controller.UndoRecovery | congestion_bbr3.go:1379-1392 | Each bound becomes the wider of what it is and what it was |
| IcmpErrors.BuiltMessageParses | icmp.go:782-832 | A built message parses back exactly when the quoted chain lies inside the declared length, wherever that matters, with every field unchanged but an inferred IPv4 MTU |
| IcmpErrors.BuiltButNotParsed | icmp.go:782-832 | An IPv6 error that is built and that its receiver cannot parse: the quote is trimmed inside a quoted header |
| IcmpErrors.ReceivedIsClose | icmp.go:701-712 | The quote received is the quote sent up to zeros past the declared length or less than one unit of zero padding |
| IcmpErrors.RoundTrip | icmp.go:1374-1429 | Parsing fails only for a quote whose header chain the receiver no longer holds |
| IcmpErrors.ObjectsRoundTrip | icmp.go:557-590 | Parsing encoded extension objects gives them back |
| IcmpErrors.EncodedRoundTrip | icmp.go:490-507 | Encoding parsed extension objects gives the octets back |
| IcmpErrors.ValidateObjects | icmp.go:511-527 | The cursor loop accepts exactly nonempty well-framed sequences and finds a Pointer object exactly when there is one |
| IcmpErrors.Extended.ExtensionObjects | icmp.go:533-549 | The cursor loop parses exactly the objects |
| IcmpErrors.Extended.SetExtensionObjects | icmp.go:557-590 | Encodes the objects, or leaves the value unchanged with the first object's error |
| IcmpErrors.SetAccepts | icmp.go:557-590 | Accepted are exactly the encodable sequences that fit |
| IcmpErrors.QuotedHeaders | icmp.go:1520-1575 | The reader's loop finds the end of the quoted headers |
| IcmpErrors.TrimQuote | icmp.go:701-712 | The loop drops padding exactly when the declared length proves it and it is zero |
| IcmpErrors.Message | icmp.go:782-832 | The filled buffer is the specified message, with the checks in their order |
| SourceSelection.RulesCompareRanks | config.go:822-849 | The cascade of rules is the lexicographic comparison of one rank per address |
| SourceSelection.PreferenceIsStrictWeakOrder | config.go:822-849 | On distinct addresses the preference is asymmetric, transitive, and ties are transitive |
| SourceSelection.AgreementMeans | config.go:960-987 | The agreement is the number of leading bits two addresses share: all up to it equal, the next one different |
| SourceSelection.CommonPrefixBits | config.go:960-987 | The octet loop computes that number, capped by the prefix length |
| SourceSelection.BuildSources | config.go:277-323 | Each address once, in order of first mention, with the longest of its prefixes |
| SourceSelection.PrefixOrderDoesNotMatter | config.go:277-323 | The longest prefix depends only on which prefixes are configured |
| SourceSelection.Scan | config.go:664-684 | The one-pass scan returns a same-family address that no other beats, the first of its rank, and nothing exactly when there is none |
| SourceSelection.BestIsUnique | config.go:664-684 | There is only one such address |
| SourceSelection.OrderDecidesOnlyTies | config.go:664-684 | Reordering the configuration can only exchange addresses of equal rank |
| SourceSelection.RouteFor | config.go:619-636 | The longest-prefix, then lowest-metric, then first route, or the local one |
| SourceSelection.SourceForUnicast | config.go:641-684 | Which address or error every request gets |

## Left out

- IPv4Fragments.CutLoop: the range cursor is drained into its plan before the fragments are built; the program asks it for one range at a time.
- FragmentTable.Table.Reassemble: entries are values in a map; the program holds pointers and compares them to see that an entry it worked on is still the one in the table, always under the same lock.
- StackFragments.Parse: which options a host admits enters as two predicates, and packets that the program answers with a parameter problem count as refused, as do those it drops.
- FragmentTable.Table.Clean: sending the time-exceeded messages for the expired sets is not modelled.
- Bbr3.Controller.AckSample: the floating-point path model (bandwidth maxima, pacing, ACK aggregation) is not modelled; its results enter as arbitrary numbers and comparisons, so that the results hold whatever it computes.
- Bbr3.Controller.ProbeInflightHighUpward: segment sizes are between 1 and 65535, so that the program's guards for smaller ones have no counterpart.
- Bbr3.Controller.PacketSent: the pacing effects of a transmission are not modelled, since they follow from the floating-point rates.
- IcmpErrors.Message: addresses, routing and the fields that the parser derives from the quote (ports, inner addresses and payload) are not modelled.
- MulticastReports.ListenerConverges: covers the latest compatibility mode; the older IGMP and MLD versions and report truncation weaken convergence on purpose. Packing records into packets is not modelled.
- Forwarder.StepKeepsInv: models UDP requests; TCP, IP and ICMP requests share the shape with fewer outcomes. Input validation and the writing of replies are not modelled.
- SourceSelection.SourceForUnicast: configurations are those that validation accepts; the validation itself is not modelled.
- DeliveryRate.LossesBalance: the 64-bit loss counters are taken not to wrap.
- PublicReassembly.IPPacketReassembly.Add: packets are values; that a completed packet owns its storage is not modelled.
- `AppendRawBinary`, which keeps malformed options and reserved fields, and the raw form of the extension setter.
- Source fragmentation of the stack's own sockets and of forwarder replies, which share the range planner with the encoders modelled here.
- Addresses with zones.
- Sockets, receive queues, timers, wake-up channels, rate limits, statistics and goroutine scheduling.
- TCP itself, the older congestion controllers, control messages, checksum offload and device plumbing.

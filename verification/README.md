# NFD forwarder: a verified model

This project models the hard parts of a fork of the Named Data Networking forwarder and proves what
they are for. `dafny verify dfyconfig.toml` checks all of it.

**Links.** `Tlv` and `StreamTransport` frame a byte stream in one fixed buffer. `LpPacket`,
`LpFragmenter`, `GenericLinkService` and `LpReassembler` are NDNLPv2 indexed fragmentation;
`LpRoundTrip` follows any number of messages from the sender, across the wrap of 64-bit sequence
numbers, through any interleaving, reordering and timeout to delivery.

**Name tree.** `Hashtable` is the chained table with its pointers, growing and shrinking in place,
and shows that it is a finite map from names to nodes; `HashtableIterator` enumerates it. On that
ground `NameTree` addresses entries by name: parent and child links, table entries with their back
links, creation and upward erasure; `HashedNameTree` joins tree and hash table and keeps them in
step. `NameTreeIterator` is the stackless walk of a subtree, `NameTreeSearch` longest-prefix match
and PIT matching. `Fib`, `Pit`, `Measurements`, `StrategyChoice` and `Cleanup` are the operations on
the tree, `TreeTables` what they share, and `TableRuns` any run of them. Load factors are the exact
rationals 1/2 and 1/10, and the hash is an arbitrary function.

**Content Store.** `CsOrder` is the order of the index, `CsLookup` the search, `CsPolicy` insertion
and the three priority queues with their timers, `CsResults` what a lookup may rely on after it.

**Forwarder.** `Forwarder` gives the pipelines as steps on a state; a strategy is any list of actions
in a trigger. `ForwarderPipelines` is the object whose methods do those steps in place,
`ForwarderEffects` what each pipeline changes, `ForwarderRuns` what every run keeps, `ForwarderResults`
where packets go and where a promise fails, and `ForwarderNacks` the names under which Nacks travel.
`QueryRewriting` is the fork's own rewriting of query names, on the shared Interest objects.
`DeadNonceList` is the self-sizing list of dead nonces.

In most modules the state change is a function on values, the class method is proved to perform
that function on its fields, and the properties are lemmas about the function.

Times are integers and the clock is an input of each step. Names are sequences of components known
by their rank in canonical order, with implicit digests below all others; in `Forwarder` and
`QueryRewriting` they are URIs, parsing and printing taken as inverse. Matching beyond the name
prefix (selectors) is an arbitrary predicate. The decoder of ndn-cxx is a prefix-stable TLV parser,
and an NDNLPv2 packet a record with a wire size.

Where the code does other than its comments say or its callers would expect, the model follows the code:

- `table/pit-out-record.hpp:66-74` says that a Nack on an out-record is cleared in the outgoing Interest
  pipeline; the pipeline does not do it, so an Interest sent again can be rejected while it is pending
  (`ForwarderResults.RejectRefusedIff` says when, `ResentThenRejected` is a run).
- A query Interest leaves under a rewritten name. A node with these pipelines cuts it and sends its Nack
  under the cut name, which finds the entry (`ForwarderNacks.NoNeighboursNackLost`); a peer that gives the
  Interest back as it came, such as an application, has its Nack dropped (`EchoedNackAccepted`,
  `EchoedNackLost`).
- Reassembly forgets a message once it is delivered, so late copies of all its fragments deliver it
  again (`LpRoundTrip.DeliveredExactlyOnce`, `LateCopiesDeliverAgain`).
- `Fib::erase(Name)` counts down even where there was no FIB entry (`Fib.Fib.EraseName`,
  `EraseNameMiscounts`), and `Fib::removeNextHop` can leave a name tree entry empty
  (`Fib.RemoveNextHopOk`, `RemoveNextHopLeavesEmpty`). Its only caller, face removal, erases such
  entries afterwards (`Cleanup.CleanupOk`); the FIB manager does without it and erases the entry.
- A rightmost lookup in the Content Store for a full name can move its iterators past each other
  (`CsLookup.FindRightmost`, `StraysSomewhere`).
- A duplicate fragment does not put off the drop timer of its partial packet, so a message can be lost
  although copies of all its fragments arrive within the timeout of one another (`LpRoundTrip.TimerOf`,
  `TimeoutLosesMessage`).
- A choice of strategy at a full name leaves the StrategyInfo of PIT entries with that name
  (`StrategyChoice.InsertMissesDigestEntry`, `DigestEntryKeepsInfo`).
- `table/dead-nonce-list.hpp` says that capacity goes down if all counts are above the expected one; the
  code would also take it down when nothing was counted, which is so only without a mark since the last
  adjustment (`DeadNonceList.CountedSinceMark`); marks come five times in every adjustment interval.

## Model

| member | source | states |
|---|---|---|
| `Tlv.ReadBack` | fuzzy-NFDAndroid/face/stream-transport.hpp:207-220 | a TLV-TYPE or TLV-LENGTH is read back as the NDN Packet Format encodes it, whatever follows |
| `Tlv.EncodedElement` | fuzzy-NFDAndroid/face/stream-transport.hpp:207-220 | an encoded element is exactly what is found at the head of a stream that begins with it |
| `Tlv.ElementSizeStable` | fuzzy-NFDAndroid/face/stream-transport.hpp:207-220 | a complete element found at the head of the octets stays the same element when more octets follow; so an element cut short becomes complete only by its own missing octets |
| `Tlv.ParseResumes` | fuzzy-NFDAndroid/face/stream-transport.hpp:190-239 | parsing the unparsed tail with new octets behind it continues the parse of the whole stream |
| `StreamTransport.ChunkIndependence` | fuzzy-NFDAndroid/face/stream-transport.hpp:190-239 | for every sequence of receives: what was delivered is the TLV parse of the concatenated stream, the buffer holds exactly the unparsed tail, and the transport has failed if and only if that tail fills the buffer |
| `StreamTransport.SameStreamSameOutcome` | fuzzy-NFDAndroid/face/stream-transport.hpp:190-239 | two ways of cutting the same stream into receives end in the same state |
| `StreamTransport.WellFramedStreamNeverFails` | fuzzy-NFDAndroid/face/stream-transport.hpp:190-239 | a stream of elements of at most 8800 octets never makes the transport fail, and delivers exactly those elements |
| `StreamTransport.StreamTransport.HandleReceive` | fuzzy-NFDAndroid/face/stream-transport.hpp:190-239 | framing and shifting the fixed buffer in place does what the stream specification says, and leaves room for the next receive unless failed |
| `LpFragmenter.SlowPathSplits` | fuzzy-NFDAndroid/face/lp-fragmenter.cpp:89-144 | a packet that misses the fast path has more octets than the first fragment takes |
| `LpFragmenter.FragmentSpecCorrect` | fuzzy-NFDAndroid/face/lp-fragmenter.cpp:82-147 | where it is not dropped: on the fast path the packet itself; on the slow path at least two fragments, indexed, with the packet's headers on the first only and its payload end to end, each within the MTU whatever its sequence number |
| `LpFragmenter.FragmentedIff` | fuzzy-NFDAndroid/face/lp-fragmenter.cpp:89-123 | a packet is dropped if and only if it misses the fast path and either the first fragment has no room for one octet beside the headers or the payload is more than the allowed fragments can hold |
| `LpFragmenter.FragmentPacket` | fuzzy-NFDAndroid/face/lp-fragmenter.cpp:82-147 | the loop over the octets yields exactly those fragments, or drops the packet under exactly that condition |
| `GenericLinkService.FramesFitMtu` | fuzzy-NFDAndroid/face/generic-link-service.cpp:102-141 | with fragmentation on nothing sent is over the MTU, single frames carry no index or count, several are numbered consecutively mod 2^64 and still carry payload and headers |
| `GenericLinkService.FramesIff` | fuzzy-NFDAndroid/face/generic-link-service.cpp:102-115 | a packet leaves some frames if and only if the link does not fragment, has no MTU, or the packet fits, whole or in the fragments allowed |
| `GenericLinkService.FittingExactly` | fuzzy-NFDAndroid/face/generic-link-service.cpp:132-140 | exactly the frames within the MTU are handed on |
| `GenericLinkService.GenericLinkService.SendNetPacket` | fuzzy-NFDAndroid/face/generic-link-service.cpp:102-141 | new sequence counter, frames handed to the transport, and the two error counters, in each branch; a fragmentation error just where the link does not take the packet, and no frame over the MTU |
| `GenericLinkService.GenericLinkService.AssignSequences` | fuzzy-NFDAndroid/face/generic-link-service.cpp:143-154 | fragments take the next numbers after the last one used, across the wrap |
| `LpReassembler.FragmentDroppedIff` | fuzzy-NFDAndroid/face/lp-reassembler.cpp:54-103 | a fragment is dropped without a trace if and only if index or count are out of range, or it has no sequence number, disagrees in count with those held, or is held already |
| `LpReassembler.LpReassembler.ReceiveFragment` | fuzzy-NFDAndroid/face/lp-reassembler.cpp:47-125 | one fragment does to the table of partial packets exactly what Receive says, and keeps every partial packet well-formed |
| `LpReassembler.DoReassembly` | fuzzy-NFDAndroid/face/lp-reassembler.cpp:127-149 | sizing one buffer and copying the fragments into it gives their payloads end to end |
| `LpReassembler.LpReassembler.TimeoutPartialPacket` | fuzzy-NFDAndroid/face/lp-reassembler.cpp:151-163 | drops that partial packet only and reports how many fragments it had |
| `LpRoundTrip.RoundTrip` | fuzzy-NFDAndroid/face/lp-reassembler.cpp:47-149 | any messages with distinct keys, in any interleaving and order, with duplicates, and with drop timers firing anywhere in between: an arrival delivers if and only if it completes its message since that was last complete or timed out, and the table holds exactly the incomplete messages |
| `LpRoundTrip.DeliveredOnceARound` | fuzzy-NFDAndroid/face/lp-reassembler.cpp:84-125 | a message is handed up exactly as often as all its fragments were held together |
| `LpRoundTrip.RoundsAreFullSets` | fuzzy-NFDAndroid/face/lp-reassembler.cpp:84-125 | that was so at least r times if and only if r full sets of its fragments arrive one behind the other, each without a timeout of the message inside, for every r |
| `LpRoundTrip.DeliveredExactlyOnce` | fuzzy-NFDAndroid/face/lp-reassembler.cpp:47-149 | a message is delivered at least once if and only if all its fragments arrive with no timeout of it in between, and at most once if and only if that does not happen again behind it |
| `LpRoundTrip.NothingLeftBehind` | fuzzy-NFDAndroid/face/lp-reassembler.cpp:105-125 | the table is empty if and only if nothing arrived of any message since it was last complete or timed out |
| `LpRoundTrip.TimerOf` | fuzzy-NFDAndroid/face/lp-reassembler.cpp:112-122 | the table has a partial packet exactly for what is partly received, and its drop timer is due one reassembly timeout after the last arrival that brought something new; duplicates do not put it off |
| `LpRoundTrip.TimelyIff` | fuzzy-NFDAndroid/face/lp-reassembler.cpp:112-163 | whether the scheduler can bring an event next, no drop timer being overdue and none early, stated by what has happened |
| `LpRoundTrip.DecidedByTimes` | fuzzy-NFDAndroid/face/lp-reassembler.cpp:47-163 | where drop timers fire on time, the arrival times alone decide which arrival delivers a message, ties with the timer apart |
| `LpRoundTrip.TimeoutLosesMessage` | fuzzy-NFDAndroid/face/lp-reassembler.cpp:112-163 | a run on time in which both fragments of a message arrive and none is delivered; the same two arrivals without the timeout are no run on time |
| `LpRoundTrip.LateFragmentReopens` | fuzzy-NFDAndroid/face/lp-reassembler.cpp:47-103 | a fragment of a message of which nothing is held, a late copy included, opens a partial packet with its own drop timer and delivers nothing |
| `LpRoundTrip.LateCopiesDeliverAgain` | fuzzy-NFDAndroid/face/lp-reassembler.cpp:84-125 | every message of two fragments, both of them arriving twice, is handed up twice |
| `LpRoundTrip.SenderAdmits` | fuzzy-NFDAndroid/face/generic-link-service.cpp:143-154 | whatever a link service sends within 2^64 sequence numbers, starting anywhere, consists of messages with distinct keys that carry their packets |
| `LpRoundTrip.EndpointsCombine` | fuzzy-NFDAndroid/face/lp-reassembler.cpp:76-83 | messages of several endpoints may arrive together |
| `LpRoundTrip.AllSent` | fuzzy-NFDAndroid/face/generic-link-service.cpp:102-141 | for any run of packets each one leaves a message, in order, if and only if the link takes each |
| `LpRoundTrip.EndToEnd` | fuzzy-NFDAndroid/face/lp-reassembler.cpp:47-149 | from sendNetPacket to delivery, drop timers firing or not: the completing arrival delivers the original payload with the first fragment's headers, every other event nothing; and no packet is missing where the link takes all |
| `Hashtable.HashOfPrefix` | fuzzy-NFDAndroid/table/name-tree-hashtable.cpp:59-71 | the hash of a prefix does not depend on what follows it |
| `Hashtable.ComputeHashes` | fuzzy-NFDAndroid/table/name-tree-hashtable.cpp:72-88 | the incremental sequence equals the direct hash of the prefix at every length |
| `Hashtable.Hashtable.Attach` | fuzzy-NFDAndroid/table/name-tree-hashtable.cpp:144-156 | pointer updates put the node at the head of its bucket's doubly linked chain and leave the other chains alone |
| `Hashtable.Hashtable.Detach` | fuzzy-NFDAndroid/table/name-tree-hashtable.cpp:158-176 | pointer updates take exactly that node out and keep every chain well-formed |
| `Hashtable.Hashtable.FindOrInsert` | fuzzy-NFDAndroid/table/name-tree-hashtable.cpp:178-206 | the table as a finite map: an existing node is found, a new one is added if allowed; the buckets are doubled just when more than half as many nodes are there |
| `Hashtable.Hashtable.Find` | fuzzy-NFDAndroid/table/name-tree-hashtable.cpp:207-220 | lookup equals the map |
| `Hashtable.Hashtable.Erase` | fuzzy-NFDAndroid/table/name-tree-hashtable.cpp:228-247 | removes exactly that name from the map; the buckets are halved, not below the minimum, just when fewer than a tenth as many nodes are left |
| `Hashtable.Hashtable.Resize` | fuzzy-NFDAndroid/table/name-tree-hashtable.cpp:256-276 | every node, the same object, ends up in the chain its hash selects among the new buckets |
| `HashtableIterator.Advance` | fuzzy-NFDAndroid/table/name-tree-iterator.cpp:119-161 | moves to the next accepted node in bucket and chain order, or to the end if none is left |
| `HashtableIterator.Enumerate` | fuzzy-NFDAndroid/table/name-tree-iterator.cpp:119-161 | full enumeration yields the accepted nodes of the map, each once, in bucket and chain order |
| `NameTree.LookupOk` | fuzzy-NFDAndroid/table/name-tree.cpp:43-62 | looking a name up keeps parent and child links mutually inverse, adds entries for missing prefixes only and leaves all table entries |
| `NameTree.EraseOk` | fuzzy-NFDAndroid/table/name-tree.cpp:120-145 | erasing upwards removes only prefixes that carry nothing, keeps the links, and leaves no empty entry if there was none but the start |
| `NameTree.EntriesAreUsedPrefixes` | fuzzy-NFDAndroid/table/name-tree.cpp:43-145 | the entries are exactly the prefixes of names that carry table entries |
| `NameTree.NameTree.LookupEntry` | fuzzy-NFDAndroid/table/name-tree.cpp:43-62 | one pass over the prefixes, shortest first, makes the new tree Lookup of the old |
| `NameTree.NameTree.EraseEntryIfEmpty` | fuzzy-NFDAndroid/table/name-tree.cpp:120-145 | the loop up the parents ends, makes the new tree EraseIfEmpty of the old, and counts what it erased |
| `NameTree.LinkOk` | fuzzy-NFDAndroid/table/name-tree-entry.cpp:39-49 | a new entry put under its parent leaves every link its own inverse, its own included |
| `NameTree.UnlinkOk` | fuzzy-NFDAndroid/table/name-tree-entry.cpp:51-61 | taking a childless entry from its parent leaves every other link its own inverse |
| `NameTreeIterator.PreOrderMembers` | fuzzy-NFDAndroid/table/name-tree-iterator.cpp:169-231 | the pre-order of a subtree contains exactly the names that the selector accepts and whose ancestors it lets the walk enter |
| `NameTreeIterator.PreOrderDistinct` | fuzzy-NFDAndroid/table/name-tree-iterator.cpp:169-231 | the pre-order of a subtree holds no name twice |
| `NameTreeIterator.Advance` | fuzzy-NFDAndroid/table/name-tree-iterator.cpp:169-231 | the stackless iterator, with one entry and one bit of state, produces the next element of that pre-order, or the end, for every pruning selector; it terminates |
| `NameTreeSearch.LongestMatchUnique` | fuzzy-NFDAndroid/table/name-tree.cpp:154-220 | there is one longest selected prefix, so the searches below agree |
| `NameTreeSearch.FindLongestPrefixMatch` | fuzzy-NFDAndroid/table/name-tree.cpp:154-167 | probing prefixes finds the longest selected one |
| `NameTreeSearch.FindLongestPrefixMatchFrom` | fuzzy-NFDAndroid/table/name-tree.cpp:169-181 | walking up the parent links from an entry finds its longest selected prefix |
| `NameTreeSearch.FindLongestPrefixMatchOfPit` | fuzzy-NFDAndroid/table/name-tree.cpp:202-220 | the search from a PIT entry finds the longest selected prefix of its name, also when the name ends with a digest and the entry is attached one level up |
| `NameTreeSearch.FindLongestPrefixMatchByHash` | fuzzy-NFDAndroid/table/name-tree.cpp:154-167 | probing the hash table with the precomputed hashes finds the longest prefix among its nodes that is selected |
| `NameTreeSearch.AllMatchesMembers` | fuzzy-NFDAndroid/table/name-tree.cpp:222-233 | the list of matches holds each selected prefix once |
| `NameTreeSearch.LongestComesFirst` | fuzzy-NFDAndroid/table/name-tree-iterator.cpp:239-260 | the list of matches begins with the longest match |
| `NameTreeSearch.AdvancePrefixMatch` | fuzzy-NFDAndroid/table/name-tree-iterator.cpp:239-260 | advancing from one match goes to the next one in the list of all matches, longest first |
| `NameTreeSearch.FindAllDataMatches` | fuzzy-NFDAndroid/table/pit.cpp:91-105 | PIT matching is sound, complete and without duplicates, digest-ended Interests included |
| `HashedNameTree.HashedNameTree.LookupEntry` | fuzzy-NFDAndroid/table/name-tree.cpp:43-62 | with tree and hash table as in the source: creation is Lookup on the tree, the table's names stay those of the tree, and nodes that were there stay the same objects |
| `HashedNameTree.HashedNameTree.EraseEntryIfEmpty` | fuzzy-NFDAndroid/table/name-tree.cpp:120-145 | erasure is EraseIfEmpty on the tree, the table's names stay those of the tree, and the nodes that remain are the same objects |
| `HashedNameTree.HashedNameTree.FindLongestPrefixMatch` | fuzzy-NFDAndroid/table/name-tree.cpp:154-167 | the search by hash returns the node of the longest selected prefix of the tree, as all other searches do |
| `Fib.InsertOk` | fuzzy-NFDAndroid/table/fib.cpp:101-113 | insertion keeps the tree's invariant and changes one name's tables |
| `Fib.RemovalOk` | fuzzy-NFDAndroid/table/fib.cpp:115-134 | erasure takes exactly that FIB entry away; all other tables everywhere stay |
| `Fib.WithNextHopOk` | fuzzy-NFDAndroid/table/fib-entry.cpp:50-63 | adding a next hop replaces or adds the one for its face; one per face |
| `Fib.SortedOk` | fuzzy-NFDAndroid/table/fib-entry.cpp:74-79 | sorting by cost keeps one next hop for each face |
| `Fib.WithoutFaceGone` | fuzzy-NFDAndroid/table/fib-entry.cpp:65-72 | removing leaves the next hops of exactly the other faces |
| `Fib.RemoveNextHopOk` | fuzzy-NFDAndroid/table/fib.cpp:147-156 | removing a next hop changes that FIB entry only and keeps all links; no empty name tree entry is left if and only if another next hop, a child or another table entry remains there |
| `Fib.RemoveNextHopLeavesEmpty` | fuzzy-NFDAndroid/table/fib.cpp:147-156 | an input for which an empty name tree entry is left |
| `Fib.Fib.InsertEntry` | fuzzy-NFDAndroid/table/fib.cpp:101-113 | says whether the entry is new and counts it |
| `Fib.Fib.EraseName` | fuzzy-NFDAndroid/table/fib.cpp:127-134 | the item count is right afterwards if and only if the name had a FIB entry or no name tree entry at all |
| `Fib.EraseNameMiscounts` | fuzzy-NFDAndroid/table/fib.cpp:115-134 | an input for which it is wrong: a name without FIB entry above one that has one, whose erasure leaves the number of entries as it was |
| `Fib.Fib.RemoveHop` | fuzzy-NFDAndroid/table/fib.cpp:147-156 | performs the removal on the shared tree; the item count stays exact, the invariant holds if and only if something remains |
| `Pit.OneEntryPerInterest` | fuzzy-NFDAndroid/table/pit.cpp:43-88 | no two PIT entries agree in name and selectors |
| `Pit.InsertOk` | fuzzy-NFDAndroid/table/pit.cpp:43-88 | insertion makes exactly that Interest pending, attached one level up if its name ends with a digest |
| `Pit.RemovalOk` | fuzzy-NFDAndroid/table/pit.cpp:107-117 | erasure makes exactly that Interest no longer pending; every other entry and table stays as it is, up to the swap into the gap |
| `Pit.SwapRemovedOk` | fuzzy-NFDAndroid/table/name-tree-entry.cpp:97-110 | swapping the last entry into the gap removes exactly one entry |
| `Pit.UpdatedOk` | fuzzy-NFDAndroid/table/pit-entry.cpp:45-104 | every update of in- and out-records keeps one record for each face and the entry's Interest, and changes what it is for and nothing else |
| `Pit.WithoutFaceGone` | fuzzy-NFDAndroid/table/pit-entry.cpp:59-104 | deleting leaves the records of exactly the other faces |
| `Pit.Pit.FindOrInsert` | fuzzy-NFDAndroid/table/pit.cpp:43-88 | finds or makes the entry, says whether it was missing, and counts it |
| `Pit.Pit.EraseEntry` | fuzzy-NFDAndroid/table/pit.cpp:107-117 | erases the entry from the tree; the item count stays exact |
| `Measurements.GetOk` | fuzzy-NFDAndroid/table/measurements.cpp:40-57 | getting makes the entry if need be and changes nothing else |
| `Measurements.CleanupOk` | fuzzy-NFDAndroid/table/measurements.cpp:143-152 | cleanup takes exactly that entry away; all other tables everywhere stay |
| `Measurements.Measurements.GetEntry` | fuzzy-NFDAndroid/table/measurements.cpp:40-57 | makes the entry on the shared tree if need be, keeps the tree's invariant and the item count exact |
| `Measurements.Measurements.GetParent` | fuzzy-NFDAndroid/table/measurements.cpp:80-91 | the parent name's entry, made if need be; none for the root |
| `Measurements.ExtendNeverShortens` | fuzzy-NFDAndroid/table/measurements.cpp:127-141 | an expiry is put off to the new time or stays, is never brought forward, and nothing else changes |
| `Measurements.Measurements.ExtendEntry` | fuzzy-NFDAndroid/table/measurements.cpp:127-141 | performs ExtendLifetime on the shared tree, keeps the tree's invariant and the item count exact |
| `Measurements.Measurements.CleanupEntry` | fuzzy-NFDAndroid/table/measurements.cpp:143-152 | takes the entry off the shared tree, keeps the tree's invariant and the item count exact |
| `StrategyChoice.EffectiveByMatch` | fuzzy-NFDAndroid/table/strategy-choice.cpp:174-181 | the effective strategy, defined by inheritance, is that of the longest prefix match |
| `StrategyChoice.RegionEnumerated` | fuzzy-NFDAndroid/table/strategy-choice.cpp:239-267 | the enumeration of changeStrategy visits exactly the names that inherit from the prefix |
| `StrategyChoice.ClearInfoClears` | fuzzy-NFDAndroid/table/strategy-choice.cpp:219-237 | clearing an entry leaves no info on PIT entries, in- and out-records and measurements, and their names, selectors, faces, expiries and back links as they were |
| `StrategyChoice.InsertClearsExactlyChanged` | fuzzy-NFDAndroid/table/strategy-choice.cpp:97-131 | insertion leaves no StrategyInfo at exactly the name tree entries whose effective strategy changes, all else there as before; other entries stay as they are, the choice apart |
| `StrategyChoice.EraseClearsExactlyChanged` | fuzzy-NFDAndroid/table/strategy-choice.cpp:133-156 | erasure leaves no StrategyInfo at exactly the name tree entries whose effective strategy changes, all else there as before; other entries stay as they are, the choice apart |
| `StrategyChoice.InsertMissesDigestEntry` | fuzzy-NFDAndroid/table/strategy-choice.cpp:97-131 | a PIT entry named by digest hangs one level up: insertion changes its strategy and leaves its StrategyInfo if and only if it is at that full name and brings a new strategy; it clears needlessly if and only if it reaches the entry above and the full name has its own choice |
| `StrategyChoice.EraseMissesDigestEntry` | fuzzy-NFDAndroid/table/strategy-choice.cpp:133-156 | the same of erasure |
| `StrategyChoice.DigestEntryKeepsInfo` | fuzzy-NFDAndroid/table/strategy-choice.cpp:97-131 | a tree, a PIT entry and a choice for which the StrategyInfo of the old strategy stays |
| `StrategyChoice.StrategyChoice.InsertChoice` | fuzzy-NFDAndroid/table/strategy-choice.cpp:97-131 | the new tree is Insert of the old, or the old one if the strategy is not installed; the item count stays exact |
| `StrategyChoice.StrategyChoice.EraseChoice` | fuzzy-NFDAndroid/table/strategy-choice.cpp:133-156 | the new tree is Erase of the old; the item count stays exact |
| `StrategyChoice.StrategyChoice.ChangeFrom` | fuzzy-NFDAndroid/table/strategy-choice.cpp:239-267 | clearing along the enumeration leaves no StrategyInfo at any entry that inherits from the prefix and touches no other; nothing happens if the instance stays |
| `StrategyChoice.StrategyChoice.FindEffectiveStrategy` | fuzzy-NFDAndroid/table/strategy-choice.cpp:174-187 | finds the effective strategy |
| `Cleanup.EraseAllOk` | fuzzy-NFDAndroid/table/cleanup.cpp:52-58 | erasing longest names first, one by one and without ancestors, leaves no empty entry |
| `Cleanup.CleanupOk` | fuzzy-NFDAndroid/table/cleanup.cpp:30-59 | removing a face leaves the invariant and of each name exactly the records and next hops of other faces, a FIB entry where one of those is left, and all else as it was, in whatever order entries are visited |
| `Cleanup.CleanupOnFaceRemoval` | fuzzy-NFDAndroid/table/cleanup.cpp:30-59 | the pass over all entries and the erasure loop have that effect on every name, leave no empty entry, and keep the FIB's item count exact |
| `TableRuns.StepReady` | fuzzy-NFDAndroid/table/name-tree-entry.cpp:39-141 | every operation on any table keeps the tree's invariant and the root's strategy choice; removal of a next hop where something remains of the entry, or as the FIB manager does it, with erasure |
| `TableRuns.AnyRun` | fuzzy-NFDAndroid/table/name-tree.cpp:43-145 | after any run of operations: links inverse and prefix-closed, back links right, no entry empty, and the entries are the prefixes of names in use |
| `TableRuns.OnePitEntryAfterAnyRun` | fuzzy-NFDAndroid/table/pit.cpp:43-117 | after any run of operations no two PIT entries are for the same Interest |
| `CsOrder.CompareAntisymmetric` | fuzzy-NFDAndroid/table/cs-entry-impl.cpp:84-93 | exactly one of less, equal and greater holds of two names, and equal means the same name |
| `CsOrder.CompareTransitive` | fuzzy-NFDAndroid/table/cs-entry-impl.cpp:84-93 | the order of names is transitive |
| `CsOrder.LessIsCanonical` | fuzzy-NFDAndroid/table/cs-entry-impl.cpp:63-114 | comparing queries and stored Data in any combination is canonical order on their (full) names |
| `CsOrder.PrefixRange` | fuzzy-NFDAndroid/table/cs.cpp:133-137 | the extensions of a name are exactly the names from it up to its successor |
| `CsLookup.RangeIsNamespace` | fuzzy-NFDAndroid/table/cs.cpp:133-137 | the two lower bounds enclose exactly the entries under the Interest name |
| `CsLookup.BestMatchUnique` | fuzzy-NFDAndroid/table/cs.cpp:122-200 | at most one entry is the best match, so the specification fixes the result |
| `CsLookup.FindLeftmost` | fuzzy-NFDAndroid/table/cs.cpp:158-162 | the first match in a range |
| `CsLookup.FindRightmostAmongExact` | fuzzy-NFDAndroid/table/cs.cpp:196-200 | the last match in a range |
| `CsLookup.StraysIff` | fuzzy-NFDAndroid/table/cs.cpp:164-194 | the condition in terms of the range searched: straying means a full name whose packet is stored, does not satisfy, and has another packet of its Data name before it |
| `CsLookup.StraysSomewhere` | fuzzy-NFDAndroid/table/cs.cpp:164-194 | a store and an Interest for which the condition holds |
| `CsLookup.FindRightmost` | fuzzy-NFDAndroid/table/cs.cpp:164-194 | the loop from right to left ends with the least match of the greatest one-component-longer sub-namespace that has one, else with the greatest exact match, else with none; its iterators leave their range if and only if the lookup strays |
| `CsLookup.Find` | fuzzy-NFDAndroid/table/cs.cpp:122-156 | strays if and only if the Interest asks for the rightmost child and the condition above holds; otherwise a hit if and only if some stored entry satisfies the Interest, and then the best one |
| `CsPolicy.EvictEntriesOk` | fuzzy-NFDAndroid/table/cs-policy-priority-fifo.cpp:74-104 | eviction takes just as many entries as are too many, from the front of the unsolicited, then the stale, then the last queue, and leaves the others untouched |
| `CsPolicy.EvictionPriority` | fuzzy-NFDAndroid/table/cs-policy-priority-fifo.cpp:84-104 | nothing stale or fresh goes while a queue before it has entries left |
| `CsPolicy.AttachOk` | fuzzy-NFDAndroid/table/cs-policy-priority-fifo.cpp:106-130 | attaching puts an entry in the one queue its attributes call for, with an event pending exactly if it can go stale there |
| `CsPolicy.DetachOk` | fuzzy-NFDAndroid/table/cs-policy-priority-fifo.cpp:132-145 | detaching takes it out of its queue and cancels the event |
| `CsPolicy.MoveOk` | fuzzy-NFDAndroid/table/cs-policy-priority-fifo.cpp:147-161 | the event moves an entry whose time has come to the back of the stale queue; the others keep their order |
| `CsPolicy.RefreshOk` | fuzzy-NFDAndroid/table/cs.cpp:108-115 | the same packet again keeps the index, renews the entry and its queue; unsolicited Data never makes a solicited entry unsolicited |
| `CsPolicy.InsertOk` | fuzzy-NFDAndroid/table/cs.cpp:82-120 | insertion keeps partition and limit; the shortcuts change nothing; a new packet pushes out what stands first, itself included |
| `CsPolicy.UnsolicitedIntoFull` | fuzzy-NFDAndroid/table/cs-policy-priority-fifo.cpp:84-104 | a full store without unsolicited entries does not take an unsolicited packet |
| `CsPolicy.AnyRun` | fuzzy-NFDAndroid/table/cs-policy-priority-fifo.cpp:48-161 | after any run each stored entry is in exactly one queue and recorded there, the size is within the limit, and events are pending exactly for entries of the last queue that can go stale |
| `CsPolicy.ContentStore.InsertData` | fuzzy-NFDAndroid/table/cs.cpp:82-120 | index, queues, records and events change in place so that the new state is Insert of the old |
| `CsPolicy.ContentStore.ChangeLimit` | fuzzy-NFDAndroid/table/cs-policy.cpp:41-47 | sets the limit and evicts down to it |
| `CsPolicy.ContentStore.Evict` | fuzzy-NFDAndroid/table/cs-policy-priority-fifo.cpp:74-82 | the eviction loop ends and does what EvictEntries says |
| `CsPolicy.ContentStore.MoveToStale` | fuzzy-NFDAndroid/table/cs-policy-priority-fifo.cpp:147-161 | the entry goes from the last queue to the stale one in place, and its event is gone |
| `CsPolicy.ContentStore.FindData` | fuzzy-NFDAndroid/table/cs.cpp:122-156 | lookup on the store; what is found is in a queue |
| `CsResults.InsertRenews` | fuzzy-NFDAndroid/table/cs.cpp:82-120 | insertion of a packet, stored or new: if it is there afterwards, its time starts anew, it is unsolicited only if all its arrivals were, it is last in its queue with its event due when it goes stale; it stays if it was there, and all else is as before or pushed out |
| `CsResults.AnswersWhile` | fuzzy-NFDAndroid/table/cs-entry.cpp:41-72 | an entry that has just arrived answers exactly the Interests for a prefix of its full name whose selectors take it, those with MustBeFresh until its freshness period is over |
| `CsResults.StoredUntilGone` | fuzzy-NFDAndroid/table/cs.cpp:82-120 | over every run of arrivals, changes of limit and events: what was put in is stored, renewed then or later, in every state until it leaves |
| `CsResults.StoredIsFound` | fuzzy-NFDAndroid/table/cs.cpp:122-156 | so until then some stored entry satisfies every Interest that the packet satisfies, with MustBeFresh while it is fresh, and no lookup misses |
| `DeadNonceList.CapacityInBounds` | fuzzy-NFDAndroid/table/dead-nonce-list.cpp:131-156 | capacity stays within 8 and 2^24 over every run |
| `DeadNonceList.CapacityMoves` | fuzzy-NFDAndroid/table/dead-nonce-list.cpp:131-156 | an adjustment takes the capacity down by a tenth if all counts are above five, up by a fifth if all are below, cut to an integer and to the bounds, and leaves it else |
| `DeadNonceList.EvictsExactly` | fuzzy-NFDAndroid/table/dead-nonce-list.cpp:158-169 | after an addition or adjustment just what is over capacity is gone, oldest first, 64 at most |
| `DeadNonceList.QueueIsSuffix` | fuzzy-NFDAndroid/table/dead-nonce-list.cpp:96-169 | the queue is always a suffix of all that was pushed |
| `DeadNonceList.Window` | fuzzy-NFDAndroid/table/dead-nonce-list.cpp:89-169 | an added entry is found while fewer later pushes have happened than the least capacity since |
| `DeadNonceList.WindowAtLeastMinimum` | fuzzy-NFDAndroid/table/dead-nonce-list.cpp:89-169 | an added entry survives seven later pushes whatever happens to the capacity |
| `DeadNonceList.CountedSinceMark` | fuzzy-NFDAndroid/table/dead-nonce-list.cpp:119-156 | something has been counted if and only if a mark was put since the last adjustment, over every run |
| `DeadNonceList.DeadNonceList.AddNonce` | fuzzy-NFDAndroid/table/dead-nonce-list.cpp:96-103 | pushes the hash of name and nonce, then evicts |
| `DeadNonceList.DeadNonceList.Adjust` | fuzzy-NFDAndroid/table/dead-nonce-list.cpp:131-156 | goes down if all counts are above five, none counted included; up if all are below |
| `DeadNonceList.DeadNonceList.EvictEntries` | fuzzy-NFDAndroid/table/dead-nonce-list.cpp:158-169 | at most 64 entries go, oldest first, never below the capacity |
| `QueryRewriting.CutRewritten` | fuzzy-NFDAndroid/fw/forwarder.cpp:320-333 | cutting a name followed by /queried and anything else gives back the name, if it has no /queried itself |
| `QueryRewriting.CutIdempotent` | fuzzy-NFDAndroid/fw/forwarder.cpp:704-717 | cutting twice is cutting once |
| `QueryRewriting.RewriteRoundTrip` | fuzzy-NFDAndroid/fw/forwarder.cpp:557-596 | whatever word a query name leaves with, the receiver of the Interest, or of Data under it, gets the original name |
| `QueryRewriting.NextHopForwardsSameName` | fuzzy-NFDAndroid/fw/forwarder.cpp:561-572 | the next node sends the rewritten name on unchanged |
| `QueryRewriting.Interest.Arrive` | fuzzy-NFDAndroid/fw/forwarder.cpp:320-333 | the queried name is put aside once and the name cut, in place |
| `QueryRewriting.SendPicked` | fuzzy-NFDAndroid/fw/forwarder.cpp:546-607 | the Interest object shared by PIT entry and records is renamed while it is sent and has its name back afterwards; a copy with a new nonce goes out under the plain name |
| `ForwarderRuns.PerformAllOk` | fuzzy-NFDAndroid/fw/forwarder.cpp:512-630 | whatever actions a strategy takes on an entry, no face's credit changes, the entry keeps its shape and timer discipline, and the rest of the PIT is untouched |
| `ForwarderRuns.IncomingInterestOk` | fuzzy-NFDAndroid/fw/forwarder.cpp:290-510 | the Interest pipeline, through loop, hit and miss, keeps balance, timers and entries |
| `ForwarderRuns.SatisfyAllOk` | fuzzy-NFDAndroid/fw/forwarder.cpp:734-768 | marking all matching entries satisfied, whatever the strategy does in each trigger, keeps the invariant and leaves every other entry alone |
| `ForwarderRuns.SatisfyAllCredit` | fuzzy-NFDAndroid/fw/forwarder.cpp:734-768 | each face's credit grows by the number of matching entries that still had its in-record after the trigger |
| `ForwarderRuns.SatisfyAllPending` | fuzzy-NFDAndroid/fw/forwarder.cpp:738-749 | the pending downstreams are the faces with an unexpired in-record in some matching entry before any trigger, each once |
| `ForwarderRuns.DataCredit` | fuzzy-NFDAndroid/fw/forwarder.cpp:681-781 | the account of the Data pipeline for any matches and any actions: old credit, plus the matching entries that still had the face's in-record, less one if the face is sent the Data |
| `ForwarderRuns.NoLossIffNoneOverdrawn` | fuzzy-NFDAndroid/fw/forwarder.cpp:744-781 | no face loses credit to Data if and only if every face that is sent it still had its in-record in one of the matching entries when that was satisfied |
| `ForwarderRuns.IncomingDataOk` | fuzzy-NFDAndroid/fw/forwarder.cpp:681-781 | under that condition the Data pipeline keeps balance, timers and entries |
| `ForwarderRuns.IncomingNackOk` | fuzzy-NFDAndroid/fw/forwarder.cpp:845-898 | the Nack pipeline, with whatever the strategy does in its trigger, keeps balance, timers and entries |
| `ForwarderRuns.UnsatisfiedOk` | fuzzy-NFDAndroid/fw/forwarder.cpp:632-658 | the unsatisfy timer, with whatever the strategy does before expiry, keeps balance, timers and entries |
| `ForwarderRuns.RemoveFaceOk` | fuzzy-NFDAndroid/fw/forwarder.cpp:70-72 | removing a face keeps balance, timers and entries, and leaves no record of it |
| `ForwarderRuns.StepOk` | fuzzy-NFDAndroid/fw/forwarder.cpp:290-945 | every step (Interest, Data, Nack, either timer, a timer of the strategy, a face coming or going) keeps flow balance, the shape and timers of all entries, and unique ids |
| `ForwarderRuns.FlowBalance` | fuzzy-NFDAndroid/fw/forwarder.cpp:290-945 | over every run and for each face, Data sent, Nacks sent and in-records held never exceed Interests received |
| `ForwarderRuns.TimerDiscipline` | fuzzy-NFDAndroid/fw/forwarder.cpp:953-986 | between pipelines each entry has exactly one timer pending, and the unsatisfy timer outlasts every in-record |
| `ForwarderRuns.FinalisedAtMostOnce` | fuzzy-NFDAndroid/fw/forwarder.cpp:645-658 | no entry is finalised twice, and none that was is in the PIT |
| `ForwarderRuns.NamesKept` | fuzzy-NFDAndroid/fw/forwarder.cpp:320-333 | over every run each PIT entry and its in-records have the name it is found by, without a queried part, and records belong to live faces, one for each |
| `ForwarderResults.DataReachesExactlyPending` | fuzzy-NFDAndroid/fw/forwarder.cpp:734-781 | Data goes once to each live face in scope with an unexpired in-record in a matching entry, never back, and to no other face at all |
| `ForwarderResults.QueriedNackDropped` | fuzzy-NFDAndroid/fw/forwarder.cpp:859-867 | in every state that keeps the invariant a Nack whose Interest has a queried part is not accepted |
| `ForwarderResults.ForwardedReached` | fuzzy-NFDAndroid/fw/forwarder.cpp:290-612 | the state after one Interest was received and sent on, where the runs of the other rows start |
| `ForwarderResults.RejectRefusedIff` | fuzzy-NFDAndroid/fw/forwarder.cpp:598-630 | right after an Interest was sent, rejecting it is refused if and only if another face's out-record is pending or the one of its face was not Nacked before |
| `ForwarderResults.ResentThenRejected` | fuzzy-NFDAndroid/fw/forwarder.cpp:598-630 | from the state of ForwardedReached: sent, Nacked, sent again, rejected; the Interest is out and its entry given up |
| `ForwarderResults.NackBeforeSatisfyOverdraws` | fuzzy-NFDAndroid/fw/forwarder.cpp:744-757 | from the state of ForwardedReached: a Nack in the trigger before satisfaction, and the face got one packet more than it asked for |
| `ForwarderNacks.PerformAllTraced` | fuzzy-NFDAndroid/fw/forwarder.cpp:901-944 | whatever a strategy does, an entry gets no in-records, and each Nack is sent on the face of one it had, with that record's Interest |
| `ForwarderNacks.NacksOfInterest` | fuzzy-NFDAndroid/fw/forwarder.cpp:290-494 | for any receiving state: every Nack that an arriving Interest leads to carries its cut name, and its nonce if it goes back; only a hit in the Dead Nonce List is answered under the name it came with |
| `ForwarderNacks.SentNameCut` | fuzzy-NFDAndroid/fw/forwarder.cpp:546-607 | whatever name an Interest leaves with, rewritten, kept queried or plain, cutting it gives the name of the entry |
| `ForwarderNacks.NackAcceptedIff` | fuzzy-NFDAndroid/fw/forwarder.cpp:845-898 | a Nack under any name, with the nonce just sent, is accepted if and only if the name is that of the entry or leads to another entry with that nonce out on the face |
| `ForwarderNacks.NeighboursNackAccepted` | fuzzy-NFDAndroid/fw/forwarder.cpp:411-431 | sender and receiver together: the Nack is accepted if and only if the receiver's Dead Nonce List did not stop a query Interest under its rewritten name |
| `ForwarderNacks.NoNeighboursNackLost` | fuzzy-NFDAndroid/fw/forwarder.cpp:995-1028 | which does not happen where that list finds only what was recorded: then every Nack of a neighbour is accepted |
| `ForwarderNacks.EchoedNackAccepted` | fuzzy-NFDAndroid/fw/forwarder.cpp:557-581 | a peer that gives the Interest back as it was sent: its Nack is accepted if and only if that was a copy with a new nonce or its name is no query name |
| `ForwarderNacks.NeighbourNacks` | fuzzy-NFDAndroid/fw/forwarder.cpp:320-333 | from the state of ForwardedReached: a query Interest is out, the neighbour's Nack comes back under the entry's name and is accepted |
| `ForwarderNacks.EchoedNackLost` | fuzzy-NFDAndroid/fw/forwarder.cpp:859-867 | from there: a Nack that gives the rewritten name back is dropped |
| `ForwarderNacks.NamesTidy` | fuzzy-NFDAndroid/fw/forwarder.cpp:290-1028 | over every run without false hits in the Dead Nonce List: no Nack is sent and no nonce recorded under a queried name, and a queried name kept with an Interest cuts to its name |
| `ForwarderEffects.InterestRefused` | fuzzy-NFDAndroid/fw/forwarder.cpp:290-431 | an Interest out of scope is dropped; one that is dead, or whose nonce is on a record of its PIT entry, gets one Duplicate Nack unless the face is multi-access; PIT and timers stay as they are |
| `ForwarderEffects.InterestTaken` | fuzzy-NFDAndroid/fw/forwarder.cpp:336-510 | any other Interest: cached Data answers it only where no in-record was there; else the face has exactly this in-record, the unsatisfy timer is due at the last expiry, and only then the strategy or the named next hop comes into play |
| `ForwarderEffects.InterestLeaves` | fuzzy-NFDAndroid/fw/forwarder.cpp:512-612 | an Interest goes out if and only if scope and an in-record let it, as the one renewed last by another face, with its nonce or the new one, and the out-record is set to say so |
| `ForwarderEffects.NackLeaves` | fuzzy-NFDAndroid/fw/forwarder.cpp:901-944 | a Nack goes out if and only if the face takes it and has an in-record, with that record's Interest, and just that record goes |
| `ForwarderEffects.NackArrives` | fuzzy-NFDAndroid/fw/forwarder.cpp:845-898 | a Nack comes to the strategy if and only if its face takes Nacks and the entry has an out-record of that face with its nonce, and then with just that record marked; any other changes nothing |
| `ForwarderEffects.DeadNoncesExactly` | fuzzy-NFDAndroid/fw/forwarder.cpp:995-1028 | which nonces are recorded: those of all out-records or of one upstream, and of a satisfied entry only if fresh Data was asked for and goes stale within the list's lifetime |
| `ForwarderEffects.Finalizes` | fuzzy-NFDAndroid/fw/forwarder.cpp:645-658 | the entry goes, its id is used up, and exactly those nonces are recorded |
| `ForwarderEffects.UnsatisfiedFinalizes` | fuzzy-NFDAndroid/fw/forwarder.cpp:632-658 | when the unsatisfy timer fires the entry goes once the strategy has acted, and all nonces of its out-records are recorded |
| `ForwarderEffects.SatisfySettles` | fuzzy-NFDAndroid/fw/forwarder.cpp:744-765 | after the strategy has acted, no in-record is left and of the out-records just the upstream's is gone; the straggler timer is set and the nonce recorded as above |
| `ForwarderEffects.DataSettles` | fuzzy-NFDAndroid/fw/forwarder.cpp:681-768 | Data out of scope changes nothing; unsolicited Data is cached if admitted; other Data is cached and settles exactly the entries it matches |
| `ForwarderEffects.UnderPrefixExactly` | fuzzy-NFDAndroid/fw/pit-algorithm.cpp:36-57 | scope control and matching go by components: a name is under another if and only if it is that one or goes on from it with a new component |
| `ForwarderEffects.FaceRemoved` | fuzzy-NFDAndroid/table/pit.cpp:120-128 | removing a face takes exactly its own records out of every entry |
| `ForwarderPipelines.FindDuplicateNonce` | fuzzy-NFDAndroid/fw/pit-algorithm.cpp:83-111 | where a nonce occurs among in- and out-records, of the same or of other faces |
| `ForwarderPipelines.PickInRecord` | fuzzy-NFDAndroid/fw/forwarder.cpp:533-545 | the last renewed in-record of another face, or of the face itself if there is no other |
| `ForwarderPipelines.LastExpiry` | fuzzy-NFDAndroid/fw/forwarder.cpp:953-958 | the greatest expiry of the in-records |
| `ForwarderPipelines.Forwarder.Violates` | fuzzy-NFDAndroid/fw/pit-algorithm.cpp:36-57 | scope control for /localhost and /localhop |
| `ForwarderPipelines.Forwarder.IncomingInterest` | fuzzy-NFDAndroid/fw/forwarder.cpp:290-408 | keeps balance, timers and ids, and performs OnIncomingInterest in place, whose effects InterestRefused and InterestTaken give |
| `ForwarderPipelines.Forwarder.ContentStoreMiss` | fuzzy-NFDAndroid/fw/forwarder.cpp:433-494 | in-record inserted or renewed, unsatisfy timer at the last expiry, then the chosen next hop or the strategy: the new state is OnContentStoreMiss of the old |
| `ForwarderPipelines.Forwarder.OutgoingInterest` | fuzzy-NFDAndroid/fw/forwarder.cpp:512-612 | refused for an invalid face or out of scope; else out-record and one Interest |
| `ForwarderPipelines.Forwarder.InterestUnsatisfied` | fuzzy-NFDAndroid/fw/forwarder.cpp:632-643 | keeps balance, timers and ids; the strategy acts, then the entry is finalised: the new state is OnInterestUnsatisfied of the old |
| `ForwarderPipelines.Forwarder.InterestFinalize` | fuzzy-NFDAndroid/fw/forwarder.cpp:645-658 | restores balance, timers and ids where only that entry's timers were out of order; its nonces go to the Dead Nonce List and the entry goes |
| `ForwarderPipelines.Forwarder.InsertDeadNonceList` | fuzzy-NFDAndroid/fw/forwarder.cpp:995-1028 | which nonces are recorded, in each case |
| `ForwarderPipelines.Forwarder.IncomingData` | fuzzy-NFDAndroid/fw/forwarder.cpp:681-795 | keeps balance, timers and ids where no face is overdrawn; the loops over matching entries and over downstreams make the new state OnIncomingData of the old, unsolicited Data included |
| `ForwarderPipelines.Forwarder.IncomingNack` | fuzzy-NFDAndroid/fw/forwarder.cpp:845-898 | keeps balance, timers and ids; dropped on multi-access, without entry, without out-record, or for another nonce, else the strategy's loop: the new state is OnIncomingNack of the old |
| `ForwarderPipelines.Forwarder.FaceGone` | fuzzy-NFDAndroid/table/pit.cpp:120-128 | keeps balance, timers and ids; one pass deletes the face's records everywhere |

## Left out

- Sockets, Boost.Asio, channels, factories, configuration, logging, the Android application, and management except how the FIB manager removes a next hop (`mgmt/fib-manager.cpp:84-105`): input and output over libraries that are not part of this model.
- `getFuzzWord` and `getpartName`: the word a query name is rewritten with is arbitrary; `getpartName` is used by no pipeline.
- RTT estimation, ASF probing, NCC delays, and the choice a strategy makes: strategies are nondeterministic. They act only on entries in the PIT, which is what their weak pointers allow.
- ForwarderRuns.FlowBalance: a strategy overdraws no face from the trigger before an entry is satisfied (`NoneOverdrawn`), and none in the repository sends a Nack there; `ForwarderRuns.NoLossIffNoneOverdrawn` and `DataCredit` give the exact consequence if one did.
- ForwarderPipelines.Forwarder.IncomingInterest: in a run the Dead Nonce List and the Content Store answer arbitrarily, each being modelled on its own; the lookup of a queried Interest in the Dead Nonce List is by its uncut name.
- ForwarderPipelines.Forwarder.IncomingData: Data goes to the downstreams in the order they were found, not in pointer order; the order of matching entries is arbitrary.
- ForwarderPipelines.Forwarder.OutgoingInterest: an entry without in-records has nothing to send, where the source asserts that there are some.
- QueryRewriting.SendPicked: with a new nonce the packet is a copy made before the renaming, so the rewriting does not reach it.
- ForwarderNacks.NamesTidy: an Interest that arrives with a queried name already put aside has that of its own name; whether ndn-cxx carries one between nodes is not modelled.
- LpRoundTrip.DecidedByTimes: an arrival in the very instant in which a drop timer is due may come before or after it.
- CsLookup.Find: digests stand in last position only, in stored and queried names; what happens once an iterator has left its range is undefined in the source and not modelled further.
- CsPolicy.ContentStore.InsertData: packets with the same full name are the same packet; replacing the policy of a running store is not modelled.
- TableRuns.AnyRun: `Fib::removeNextHop` is called where something remains of the name tree entry; `Fib.RemoveNextHopOk` says exactly what happens otherwise.
- NameTree.NameTree.LookupEntry: entries are addressed by name and kept in a map, which `HashedNameTree` keeps in step with the hash table; the pointers between entries are not modelled as pointers, and the iterators use the map.
- StrategyChoice.StrategyChoice.InsertChoice: finding a strategy instance by versioned name is an input.
- Measurements.Measurements.CleanupEntry: the timer that calls it is an event of the environment.
- LpReassembler.LpReassembler.ReceiveFragment: memory limits of the receiver and the counters of the link service on the receiving side.
- Hashtable.Hashtable.Resize: load factors are exact, and the hash function is arbitrary, so nothing is said about how evenly chains fill.
- DeadNonceList.Window: whether a different name and nonce hash to the same entry depends on the hash, which is arbitrary.
- Malformed Link objects, NextHopFaceId tags other than their effect on the next hop, forwarding hints and region tables.

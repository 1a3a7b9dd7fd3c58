# Verified models of the pWeb cores

This project models the cores of pWeb that carry state or unbounded input and proves properties of
them in Dafny: the Plexus overlay with its lookup cache, the DNS gateway's wire codec, the digest,
matching, escaping and queueing code of the embedded web server, the crawler's message protocol and
agent allocator, the registration client's token counter and the metric sender.
`dafny verify dfyconfig.toml` covers all of it.

Code that changes fields or buffers in place is a class or a method over arrays, proved against
specification functions; what the code is for is then proved about those functions, over every
input or every run. Where a promised property fails on some inputs, the project keeps the code's
behaviour, gives such an input and proves exactly when the property holds.

| Part | Files |
|---|---|
| Shared definitions | Shared |
| Overlay tree and routing | Powers, OverlayId, LookupTable, PlexusTree, PlexusRouting, BuildTree |
| Lookup cache | RecencyList, DoublyLinkedList, LruCache |
| DNS messages | Wire, DnsNames, DnsRecords, DnsHeader, DnsMessages |
| Web server | StreamingDigests, Md5, Sha1, Glob, PercentCodec, SocketRing |
| Crawler | CrawlerProtocol, LeastLoaded, CrawlerManager |
| Registration and metrics | TokenRegistration, MetricPacker |

## Findings

Places where the code meets its purpose only under a condition; each is stated for all inputs.

- Routing reaches every owner if and only if identifiers are longer than the tree is high, because
  the prefix comparison never looks at bit 0. When they are not longer, exactly the identifiers of
  the second host of each deepest pair are lost, from every host but that one
  (`PlexusRouting.RoutingWorksExactlyWhen`, `PlexusRouting.DeliversExactlyWhen`,
  `PlexusTree.SearchFindsOwnerExactlyWhen`).
- The cache counter stays the number of entries if and only if the capacity is not zero; with
  capacity 0 the first add drives it to -1 before inserting. That it also stays within the capacity
  holds if and only if the capacity is positive (`RecencyList.CounterIsLengthExactlyWhen`,
  `RecencyList.FirstAddMiscounts`, `RecencyList.RunsAreSoundExactlyWhen`).
- A name that is not in dotted canonical form is accepted by the writer and comes back changed, a
  label that holds a dot does not survive being read and written, and a record with more than 1024
  bytes of data can be written but not read (`DnsNames.CanonicalExactlyWhen`,
  `DnsNames.ReadNameWritesBack`, `DnsMessages.BodySurvivesExactlyWhen`).
- SHA1Update makes its block test in 32 bits, which is right if and only if position and length
  together stay below 2^32 (`Sha1.BlockTestIsRightExactlyWhen`).
- With several alternatives the matcher can report no match although an earlier alternative matches
  the empty prefix (`Glob.NoMatchExactlyWhen`, `Glob.EmptyMatchIsForgotten`). Within one
  alternative its backtracking always finds the longest matching prefix (`Glob.LongestMatchExactly`).
- Called during a write, `connected()` puts the first queued item behind the others, which keeps the
  order if and only if all queued items are equal. This is about the class's interface: neither of
  its callers in these programs does so (`CrawlerProtocol.ConnectedKeepsOrderExactlyWhen`,
  `CrawlerProtocol.ConnectedDuringWriteReorders`).
- A failed registration gives up its connection for good. Once all is quiet an agent has names left
  over if and only if its successes and its connections together fall short of them, and then every
  one of its connections was lost to a failure; where there is a token at all, names can be left over
  if and only if it has more names than connections (`TokenRegistration.AllIssuedExactlyWhen`,
  `TokenRegistration.NeverStrandedExactlyWhen`, `TokenRegistration.FailureStrandsNames`).
- A metric above 65507 bytes produces a datagram that is too large
  (`MetricPacker.DatagramsFitExactlyWhen`).

## Model

| member | source | states |
|---|---|---|
| PlexusTree.IntervalsPartition | dnsgw_test_ha/klink/monitor/tree/BuildTree.h:111-166 | for any number of hosts, one included, and any identifier length of at least the tree height, every identifier lies in the interval of exactly one host, named in closed form by Owner |
| PlexusTree.IntervalsAreConsecutive | dnsgw_test_ha/klink/monitor/tree/BuildTree.h:113-161 | each host's interval starts where its predecessor's ends |
| PlexusTree.IntervalsSpanEverything | dnsgw_test_ha/klink/monitor/tree/BuildTree.h:113-161 | the first interval starts at 0 and the last one ends at 2^K |
| PlexusTree.IdentifiersAssigned | dnsgw_test_ha/klink/monitor/tree/BuildTree.h:113-161 | the identifiers in closed form: the first 2n - 2^h hosts are the deep leaves, numbered from 0 at prefix length h, the others follow on at prefix length h - 1 |
| PlexusTree.OwnsIsPrefix | dnsgw_test_ha/klink/monitor/tree/BuildTree.h:152-161 | lying in a host's interval is the same as sharing that host's whole prefix |
| PlexusTree.SearchFindsFirstLongest | dnsgw_test_ha/klink/monitor/tree/BuildTree.h:70-81 | the scan returns the first host with the longest match, and no other host fits that description |
| PlexusTree.SearchFindsOwnerExactlyWhen | dnsgw_test_ha/klink/monitor/tree/BuildTree.h:70-81 | the scan returns the owner of an identifier if and only if not (K equals the tree height, the identifier is below the number of deep leaves, and it is odd); these are the identifiers that only bit 0 tells from a sibling |
| PlexusTree.SearchFindsOwner | dnsgw_test_ha/klink/monitor/tree/BuildTree.h:70-81 | with K above the tree height the scan returns the owner of every identifier |
| OverlayIds.OverlayId.GetMatchedPrefixLength | dnsgw_test_ha/klink/plnode/ds/overlay_id.h:82-91 | returns the length of the longest common prefix among the first K - 1 bits: that prefix is shared and the next longer one is not |
| OverlayIds.MatchedLengthIsLongestPrefix | dnsgw_test_ha/klink/plnode/ds/overlay_id.h:82-91 | a prefix of at most K - 1 bits is shared exactly when it is no longer than the scan's result |
| OverlayIds.ToggleFlipsOneBit | dnsgw_test_ha/klink/plnode/ds/overlay_id.h:76-80 | toggling bit n inverts it, keeps all higher bits and stays within K bits |
| OverlayIds.ToggleIsAnInvolution | dnsgw_test_ha/klink/plnode/ds/overlay_id.h:76-80 | toggling the same bit twice gives the identifier back |
| PlexusRouting.ToggleLeadingKeepsTail | dnsgw_test_ha/klink/monitor/tree/BuildTree.h:179-188 | the replica pattern agrees with the host's own pattern below the prefix |
| PlexusRouting.ToggleLeadingComplements | dnsgw_test_ha/klink/monitor/tree/BuildTree.h:179-188 | toggling the prefix bits one after the other complements the prefix |
| PlexusRouting.NeighbourSharesExactly | dnsgw_test_ha/klink/monitor/tree/BuildTree.h:182-195 | the link for bit j leads to the owner of the flipped pattern, which is another host and shares exactly j bits with this one |
| PlexusRouting.ReplicaSharesNothing | dnsgw_test_ha/klink/monitor/tree/BuildTree.h:201-208 | the replica link leads to the owner of the complemented prefix, which is another host and shares no bit with this one |
| PlexusRouting.LinksContents | dnsgw_test_ha/klink/monitor/tree/BuildTree.h:182-195 | after j turns of the loop the table has exactly j entries under j distinct keys, each another host with its own address |
| PlexusRouting.TableContents | dnsgw_test_ha/klink/monitor/tree/BuildTree.h:175-209 | the finished table holds exactly the neighbours of all prefix bits and the replica, prefix length or prefix length + 1 entries in all, each with that host's own address; a single host's table is empty |
| PlexusRouting.TableLinksToTargets | dnsgw_test_ha/klink/monitor/tree/BuildTree.h:175-209 | for every K and bit by bit: the finished table has an entry, with the right address, for exactly the hosts that the search names for the identifiers that differ from the host's pattern in one prefix bit and no other, or in all prefix bits and no other |
| PlexusRouting.TableLinksToOwners | dnsgw_test_ha/klink/monitor/tree/BuildTree.h:175-209 | with K above the height these are exactly the owners of those identifiers, all of them other hosts |
| PlexusRouting.BitsDetermine | dnsgw_test_ha/klink/plnode/ds/overlay_id.h:71-80 | identifiers below 2^K with the same K bits are the same |
| PlexusRouting.DirectoryLookup | dnsgw_test_ha/klink/monitor/tree/BuildTree.h:165-166 | looking up a host's identifier in the directory gives that host's own address, or nothing before it was added |
| PlexusRouting.TableMakesProgress | dnsgw_test_ha/klink/monitor/tree/BuildTree.h:175-209 | for every identifier a host does not own, its table holds a host that shares strictly more of it |
| PlexusRouting.GreedyHopGetsCloser | dnsgw_test_ha/klink/monitor/tree/BuildTree.h:175-209 | a greedy hop shares strictly more of the identifier than the host it leaves |
| PlexusRouting.EveryGreedyWalkIsShort | dnsgw_test_ha/klink/monitor/tree/BuildTree.h:175-209 | however ties are broken a greedy walk makes at most tree-height hops, and it can go on until it stands at the owner |
| PlexusRouting.GreedyWalkReachesOwner | dnsgw_test_ha/klink/monitor/tree/BuildTree.h:175-209 | from every host there is a greedy walk of at most tree-height hops that ends at the owner |
| PlexusRouting.TableAvoidsOdd | dnsgw_test_ha/klink/monitor/tree/BuildTree.h:175-209 | with K equal to the tree height the second host of a deep pair stands in no routing table |
| PlexusRouting.LinkIsInTable | dnsgw_test_ha/klink/monitor/tree/BuildTree.h:182-208 | for every K, each link that does not lead back to its own host is in the finished table |
| PlexusRouting.ShortWalk | dnsgw_test_ha/klink/monitor/tree/BuildTree.h:175-209 | with K equal to the tree height, an identifier that does not depend on bit 0 is reached from every host within as many hops as there are bits not shared yet |
| PlexusRouting.DeliversExactlyWhen | dnsgw_test_ha/klink/monitor/tree/BuildTree.h:175-209 | pair by pair and for every K: greedy routing delivers an identifier from a host if and only if bit 0 does not decide its owner or the host owns it already |
| PlexusRouting.RoutingWorksExactlyWhen | dnsgw_test_ha/klink/monitor/tree/BuildTree.h:175-209 | greedy routing delivers every identifier from every host if and only if K is above the tree height |
| BuildTrees.BuildTree.GetIndexOfLongestMatchedPrefix | dnsgw_test_ha/klink/monitor/tree/BuildTree.h:70-81 | the loop returns the first longest match over all hosts |
| BuildTrees.BuildTree.Execute | dnsgw_test_ha/klink/monitor/tree/BuildTree.h:83-209 | for every nonempty host list whose tree height is at most K, identifiers, addresses and routing tables are those of the specification; each table links to exactly the hosts for the one-bit flips of the prefix and for its complement |
| BuildTrees.BuildTree.AssignIds | dnsgw_test_ha/klink/monitor/tree/BuildTree.h:113-167 | the loop with the running counter `st` hands out exactly the specified identifiers and fills the directory |
| BuildTrees.BuildTree.FillTables | dnsgw_test_ha/klink/monitor/tree/BuildTree.h:175-209 | the loop over hosts fills every table as specified |
| BuildTrees.BuildTree.FillTable | dnsgw_test_ha/klink/monitor/tree/BuildTree.h:177-208 | one turn of it replaces host i's table by the specified one and leaves the other tables alone |
| BuildTrees.BuildTree.AddLink | dnsgw_test_ha/klink/monitor/tree/BuildTree.h:188-195 | a link is added under the found host's identifier with that host's address unless the host is i itself |
| RecencyList.CounterIsLengthExactlyWhen | dnsgw_test_ha/klink/plnode/ds/cache.h:81-110 | over every run from the empty cache the counter is the number of entries: if and only if the capacity is not zero |
| RecencyList.FirstAddMiscounts | dnsgw_test_ha/klink/plnode/ds/cache.h:84-88 | with capacity 0 the first add leaves one entry and a counter of 0 |
| RecencyList.RunsAreSoundExactlyWhen | dnsgw_test_ha/klink/plnode/ds/cache.h:81-110 | over every run the counter is the number of entries and never above the capacity, and keys are distinct: if and only if the capacity is positive |
| RecencyList.RunKeepsSound | dnsgw_test_ha/klink/plnode/ds/cache.h:81-110 | the same invariant over every run from any sound state |
| RecencyList.StepKeepsSound | dnsgw_test_ha/klink/plnode/ds/cache.h:81-110 | each add and each lookup keeps that invariant |
| RecencyList.PromoteMovesOneEntry | dnsgw_test_ha/klink/plnode/ds/cache_replace_LRU.h:30-40 | a hit puts exactly the entry for that key in front and keeps all others in order |
| RecencyList.AddMeaning | dnsgw_test_ha/klink/plnode/ds/cache.h:81-95 | an add in full: a present key is never overwritten and moves only when the cache is full; a refused key still evicts the last entry of a full cache; any other key goes in front |
| RecencyList.LookupMeaning | dnsgw_test_ha/klink/plnode/ds/cache.h:97-110 | a lookup in full: a hit at any position puts that entry in front of the others, which keep their order; a miss changes nothing |
| RecencyList.FoundMeaning | dnsgw_test_ha/klink/plnode/ds/cache.h:97-110 | a lookup finds the value of the entry with that key wherever it stands, and nothing without one |
| RecencyList.AddedIsPresent | dnsgw_test_ha/klink/plnode/ds/cache.h:81-95 | after an add the key is cached if and only if it was before or is not refused, whatever the capacity |
| RecencyList.RecentEntriesStay | dnsgw_test_ha/klink/plnode/ds/cache.h:81-110 | an entry just used, by a lookup that hits it anywhere in the list or by an add that refreshes it or puts it in, is still found with its value after any run that names fewer than `capacity` other keys |
| RecencyList.EnoughOthersEvict | dnsgw_test_ha/klink/plnode/ds/cache.h:81-95 | the bound is tight: after k <= capacity fresh keys were added the first k entries are those keys, latest first |
| DoublyLinkedLists.DoublyLinkedList.Append2Head | dnsgw_test_ha/klink/plnode/ds/double_linked_list.h:64-74 | the node goes in front of the list, in both link directions |
| DoublyLinkedLists.DoublyLinkedList.Append2Tail | dnsgw_test_ha/klink/plnode/ds/double_linked_list.h:81-91 | the node goes behind the list, in both link directions |
| DoublyLinkedLists.DoublyLinkedList.RemoveTail | dnsgw_test_ha/klink/plnode/ds/double_linked_list.h:102-114 | the last node leaves the list; an empty list stays empty |
| DoublyLinkedLists.DoublyLinkedList.Extract | dnsgw_test_ha/klink/plnode/ds/double_linked_list.h:120-137 | exactly the given node leaves the list, wherever it stands, with its links cleared |
| RecencyList.RemoveAtMeaning | dnsgw_test_ha/klink/plnode/ds/double_linked_list.h:120-137 | what remains after extracting position k is every other node in its order |
| DoublyLinkedLists.DoublyLinkedList.Move2Head | dnsgw_test_ha/klink/plnode/ds/double_linked_list.h:143-162 | exactly the given node moves to the front |
| LruCaches.TableIsMembership | dnsgw_test_ha/klink/plnode/ds/cache.h:97-110 | a key is in the table exactly when the list has an entry for it, and the table leads to the node at its position |
| LookupTables.LookupMeaning | dnsgw_test_ha/klink/plnode/ds/lookup_table.h:101-168 | an add never overwrites a present key, a removal removes just that key, and keys differ only by their identifiers |
| LruCaches.Cache.constructor | dnsgw_test_ha/klink/plnode/ds/cache.h:43-57 | a new cache, of any capacity, is the empty recency list |
| LruCaches.Cache.ProcessHit | dnsgw_test_ha/klink/plnode/ds/cache_replace_LRU.h:30-40 | reports whether the key is cached and acts on the recency list as a promotion of it |
| LruCaches.Cache.Evict | dnsgw_test_ha/klink/plnode/ds/cache_replace_LRU.h:15-28 | drops exactly the last entry, if there is one, from list and table; the counter goes down in any case |
| LruCaches.Cache.InsertNew | dnsgw_test_ha/klink/plnode/ds/cache_insert_endpoint.h:22-28 | a fresh node with key and value goes to the head of the list and into the table, and the counter rises |
| LruCaches.Cache.Insert | dnsgw_test_ha/klink/plnode/ds/cache_insert_endpoint.h:13-31 | inserts in front unless the key is in the routing table, the peer table or the cache, or is the node's own identifier |
| LruCaches.Cache.MakeRoom | dnsgw_test_ha/klink/plnode/ds/cache.h:84-88 | at capacity a present key is refreshed and otherwise the last entry is evicted; below capacity nothing happens |
| LruCaches.Cache.Add | dnsgw_test_ha/klink/plnode/ds/cache.h:81-95 | for any capacity, linked list, table and counter change as one add step of the recency list; the key is cached afterwards if and only if it was before or is in neither the routing nor the peer table and is not the node's own; with a positive capacity the invariant stays |
| LruCaches.Cache.Lookup | dnsgw_test_ha/klink/plnode/ds/cache.h:97-110 | for any capacity, returns what the recency list has for the key and moves that entry to the front; with a positive one the invariant stays |
| Wire.ShortRoundTrip | shared/protocol_helper.hpp:58-72 | two bytes are the encoding of v exactly when they parse as v |
| Wire.UlongRoundTrip | shared/protocol_helper.hpp:74-88 | four bytes are the encoding of v exactly when they parse as v |
| Wire.ShortInNetworkOrder | shared/protocol_helper.hpp:66-72 | the two bytes spell the value with the most significant one first |
| Wire.UlongInNetworkOrder | shared/protocol_helper.hpp:82-88 | the four bytes spell the value with the most significant one first |
| Wire.ShortParsesExactlyWhen | shared/protocol_helper.hpp:58-64 | a short is read exactly when two bytes are left, and is the number they spell |
| Wire.UlongParsesExactlyWhen | shared/protocol_helper.hpp:74-80 | a long is read exactly when four bytes are left, and is the number they spell |
| Wire.OverwriteMeaning | shared/protocol_helper.hpp:66-88 | a write changes the bytes it covers and no other |
| Wire.WriteShort | shared/protocol_helper.hpp:66-72 | succeeds exactly when two bytes fit, and then changes only these |
| Wire.WriteUlong | shared/protocol_helper.hpp:82-88 | succeeds exactly when four bytes fit, and then changes only these |
| Wire.WriteBytes | dnsgw/dnsspeaker.cpp:107-109 | a block copy behind its length test succeeds exactly when the block fits, and then changes only the block |
| DnsNames.ParseLabelLen | dnsgw/dnsspeaker.cpp:42-54 | fails exactly at the end of the buffer or on a length above 63 |
| DnsNames.ParseLabel | dnsgw/dnsspeaker.cpp:56-66 | appends the label and a dot, and fails exactly when the label runs past the end |
| DnsNames.ParseName | dnsgw/dnsspeaker.cpp:68-88 | the loop returns what the recursive definition of a wire name says, with every failure |
| DnsNames.WriteLabel | dnsgw/dnsspeaker.cpp:90-110 | writes length and label exactly when it has at most 63 octets and fits |
| DnsNames.WriteLabels | dnsgw/dnsspeaker.cpp:124-129 | the loop over the labels writes their concatenated encodings exactly when all are short enough and fit |
| DnsNames.WriteName | dnsgw/dnsspeaker.cpp:112-134 | succeeds exactly when the name has at most 255 octets, its labels at most 63 and the encoding fits; then exactly the encoding is written |
| DnsNames.NameRoundTrip | dnsgw/dnsspeaker.cpp:68-134 | a written name is read back in canonical form, ending right behind it, wherever it stands in a buffer |
| DnsNames.NameParsesExactlyWhen | dnsgw/dnsspeaker.cpp:68-88 | bytes read as a name if and only if they are length-prefixed nonempty labels of at most 63 octets each and 255 together with a zero behind them, and then as these labels with a dot behind each |
| DnsNames.LabelsOfJoin | dnsgw/dnsspeaker.cpp:122-129 | the tokenizer cuts at every dot: the labels of two names joined by a dot are those of one and then of the other |
| DnsNames.LabelsOfDotFree | dnsgw/dnsspeaker.cpp:122-129 | text without a dot is one label, or none if it is empty |
| DnsNames.FirstOnWire | dnsgw/dnsspeaker.cpp:90-110 | a label stands on the wire as its length in one byte followed by its octets |
| DnsNames.CanonicalExactlyWhen | dnsgw/dnsspeaker.cpp:112-134 | a name comes back unchanged if and only if it has no leading dot, no two dots in a row and a trailing dot unless empty |
| DnsNames.CanonicalIsStable | dnsgw/dnsspeaker.cpp:112-134 | the canonical form is its own canonical form |
| DnsNames.ReadNameWritesBack | dnsgw/dnsspeaker.cpp:68-134 | a name read from the wire encodes to the very bytes it was read from if and only if none of its labels holds a dot |
| DnsNames.DottedLabelIsLost | dnsgw/dnsspeaker.cpp:68-134 | the bytes 1, dot, 0 read as two dots, which encode to the empty name |
| DnsRecords.WriteQuestion | dnsgw/dnsspeaker.cpp:225-232 | writes name, type and class exactly when the name may be written and all fits |
| DnsRecords.WriteRecord | dnsgw/dnsspeaker.cpp:234-246 | writes all fields and the first rdlength bytes of data exactly when the name may be written, the data is long enough and all fits |
| DnsRecords.QuestionLayout | dnsgw/dnsspeaker.cpp:225-232 | name, type and class stand in this order, two bytes each in network order |
| DnsRecords.RecordLayout | dnsgw/dnsspeaker.cpp:234-246 | name, type, class, ttl, rdlength and the first rdlength bytes of data stand in this order, in network order |
| DnsRecords.QuestionParsesExactlyWhen | dnsgw/dnsspeaker.cpp:183-193 | which bytes read as a question, and as what |
| DnsRecords.RecordParsesExactlyWhen | dnsgw/dnsspeaker.cpp:166-181 | which bytes read as a record, and as what: a name, ten bytes, and at most 1024 bytes of data, all of them there |
| DnsRecords.QuestionRoundTrip | dnsgw/dnsspeaker.cpp:183-232 | a written question is read back with its name in canonical form |
| DnsRecords.RecordRoundTrip | dnsgw/dnsspeaker.cpp:166-246 | a written record is read back with canonical name and data cut to rdlength, and is refused exactly when rdlength is above 1024 |
| DnsHeader.DnsQueryHeader.WriteShort | dnsgw/dnsspeaker.hpp:255-259 | stores a 16-bit value with its high byte first in its two bytes only |
| DnsHeader.DnsQueryHeader.Compose | dnsgw/dnsspeaker.cpp:301-313 | the twelve bytes are those of an authoritative reply, with every count reduced modulo 2^16 |
| DnsHeader.ReplyHeaderReadsBack | dnsgw/dnsspeaker.hpp:75-232 | all getters on a composed header give back id, rd, rcode, the fixed flags, and each count modulo 2^16 |
| DnsHeader.ReplyHeaderLayout | dnsgw/dnsspeaker.cpp:301-313 | the byte and bit positions of every field of a reply header |
| DnsHeader.GettersMeaning | dnsgw/dnsspeaker.hpp:75-232 | what each getter reads from any twelve bytes, by bit and byte position |
| DnsHeader.WithBitMeaning | dnsgw/dnsspeaker.hpp:240-246 | setting a bit takes its old value out of the byte and puts the new one in |
| DnsHeader.DnsQueryHeader.SetBit | dnsgw/dnsspeaker.hpp:240-246 | exactly one byte changes, by one bit in the sense of WithBitMeaning |
| DnsMessages.WriteQuestions | dnsgw/dnsspeaker.cpp:321-324 | the loop over questions writes their encodings in order exactly when each may be written and all fit |
| DnsMessages.WriteRecords | dnsgw/dnsspeaker.cpp:326-339 | the loops over records write their encodings in order exactly when each may be written and all fit |
| DnsMessages.ComposeDnsResponse | dnsgw/dnsspeaker.cpp:315-342 | succeeds exactly when every part may be written and the body fits, and then writes exactly the body from the start of the buffer |
| DnsMessages.ReadQuestions | dnsgw/dnsspeaker.cpp:271-275 | the loop reads n questions behind one another or fails |
| DnsMessages.ReadRecords | dnsgw/dnsspeaker.cpp:277-293 | the loops read n records behind one another or fail |
| DnsMessages.ParseDnsQuery | dnsgw/dnsspeaker.cpp:249-299 | succeeds exactly when all sections parse and end at the end of the buffer; then id and rd are set, the sections are appended and additional records are dropped |
| DnsMessages.BodyRoundTrip | dnsgw/dnsspeaker.cpp:249-342 | a composed body parses back to its end into canonical questions, answers and authorities, and fails exactly when some record exceeds 1024 bytes of data |
| DnsMessages.TrailingBytesAreRefused | dnsgw/dnsspeaker.cpp:295-298 | a body that parses does not parse any more with anything behind it |
| DnsMessages.BodyLayout | dnsgw/dnsspeaker.cpp:321-341 | questions, answers, authorities and additionals stand behind one another in this order |
| DnsMessages.BodySurvivesExactlyWhen | dnsgw/dnsspeaker.cpp:249-342 | any writable body parses if and only if no record exceeds 1024 bytes of data, and comes back unchanged if and only if, besides, all names are canonical, all data is as long as announced and there are no additional records |
| DnsMessages.ReplyParsesBack | dnsgw/dnsspeaker.cpp:249-342 | header and body of any composed reply parse back to the same message if and only if its counts fit 16 bits, its records are readable and it survives in that sense; id, rd and rcode always do |
| StreamingDigests.AddBits | mongoose/mongoose.c:2153-2156 | the carry test and `len >> 29` make the two counter words an exact 64-bit addition of 8 * len |
| StreamingDigests.CounterAfter | mongoose/mongoose.c:2153-2156 | the words stay at 8 times the byte count modulo 2^64 |
| StreamingDigests.PositionInBlock | mongoose/mongoose.c:2158-2158 | bits 3 to 8 of the low word are the byte count modulo 64 |
| StreamingDigests.CompressConcat | mongoose/mongoose.c:2175-2181 | compressing two runs of blocks one after the other is compressing their concatenation |
| StreamingDigests.AbsorbWithin | mongoose/mongoose.c:2183-2183 | input that stays within the block leaves the context in the state for the longer message |
| StreamingDigests.AbsorbToBoundary | mongoose/mongoose.c:2168-2170 | input that completes the block, once compressed, gives the registers for the longer message |
| StreamingDigests.PaddedCompress | mongoose/mongoose.c:2192-2208 | padding in one or two blocks, as the room left demands, gives the compression of the padded message of RFC 1321 section 3 |
| StreamingDigests.Md5PaddingIsStandard | mongoose/mongoose.c:2190-2206 | the padded message byte by byte: the message, 0x80, zeros, and in the last eight bytes the bit length with the low-order byte first |
| StreamingDigests.Sha1PaddingIsStandard | mongoose/mongoose.c:3772-3782 | the padded message byte by byte: the same with the high-order byte first |
| StreamingDigests.PaddingIsUnique | mongoose/mongoose.c:2190-2206 | these descriptions leave no choice of a padded message |
| Md5.Md5Context.CountBits | mongoose/mongoose.c:2153-2156 | the counter words become those of AddedLow and AddedHigh |
| Md5.Md5Context.Update | mongoose/mongoose.c:2150-2184 | afterwards the context has been fed the old input followed by the new, however the input is split |
| Md5.Md5Context.PadTo56 | mongoose/mongoose.c:2192-2202 | 0x80 and zeros fill the block up to byte 56, with one compression in between exactly when fewer than eight bytes are left |
| Md5.Md5Context.Final | mongoose/mongoose.c:2186-2208 | the registers are the compression of the one message that pads what was fed as RFC 1321 section 3 prescribes, byte by byte |
| Md5.MgMd5 | mongoose/mongoose.c:2228-2242 | the digest of a list of strings is that standard digest of their concatenation |
| Sha1.BlockTestIsRightExactlyWhen | mongoose/mongoose.c:3756-3756 | the 32-bit test `(j + len) > 63` answers correctly if and only if j + len is below 2^32 |
| Sha1.GuardDoesNotWrap | mongoose/mongoose.c:3759-3759 | where the block test is right the 32-bit guard `i + 63 < len` does not wrap either |
| Sha1.Sha1Context.AbsorbBlocks | mongoose/mongoose.c:3759-3761 | the loop compresses all whole blocks where they stand and leaves fewer than 64 bytes |
| Sha1.Sha1Context.CountBits | mongoose/mongoose.c:3751-3754 | the counter words become those of AddedLow and AddedHigh |
| Sha1.Sha1Context.Update | mongoose/mongoose.c:3747-3766 | afterwards the context has been fed the old input followed by the new, however the input is split |
| Sha1.Sha1Context.Final | mongoose/mongoose.c:3768-3782 | the byte-by-byte padding loop ends and the registers are the compression of the one message that pads what was fed as RFC 3174 section 4 prescribes, byte by byte |
| Sha1.PositionBefore56 | mongoose/mongoose.c:3778-3781 | the loop condition turns false for the first time after exactly the specified number of zero bytes |
| Glob.MatchesByTokens | mongoose/mongoose.c:890-913 | the meaning of patterns token by token: `?` takes one character, `*` a slash-free run, `**` any run, `$` the end, anything else itself, and the rest matches behind |
| Glob.SlashFreeMeaning | mongoose/mongoose.c:901-901 | a single star reaches to the first slash or the end |
| Glob.MatchLengthMeaning | mongoose/mongoose.c:888-914 | for a pattern without bars the search reports no match exactly when no prefix of the string matches, and otherwise a length that does |
| Glob.LongestMatchExactly | mongoose/mongoose.c:888-914 | the reported length is k if and only if the first k characters match and no longer prefix does |
| Glob.NonemptyMatchExactly | mongoose/mongoose.c:888-914 | the result is positive exactly when some nonempty prefix matches |
| Glob.AlternativesMeaning | mongoose/mongoose.c:882-886 | the alternatives hold no bar and make up the pattern when bars are put between them |
| Glob.PrefixLengthMeaning | mongoose/mongoose.c:882-886 | with bars the result is that of the first alternative that matches a nonempty prefix, or of the last one |
| Glob.NoMatchExactlyWhen | mongoose/mongoose.c:878-915 | no match is reported if and only if the last alternative matches no prefix and no other one matches a nonempty prefix |
| Glob.EmptyMatchIsForgotten | mongoose/mongoose.c:882-886 | an input where an empty match of an earlier alternative is forgotten: the alternatives `*` and `x` on `/` |
| Glob.TryRuns | mongoose/mongoose.c:906-909 | the do-while loop tries run lengths downwards and returns the first success |
| Glob.MatchPlain | mongoose/mongoose.c:888-914 | the loop over the pattern returns the specified length |
| Glob.MatchPrefix | mongoose/mongoose.c:878-915 | the whole function returns the specified length and always terminates |
| PercentCodec.EncodeMeaning | mongoose/mongoose.c:2539-2552 | letters, digits and nine punctuation characters stay, every other byte becomes a percent sign and two lower-case hexadecimal digits |
| PercentCodec.EscapeDecodes | mongoose/mongoose.c:1679-1685 | a percent sign before two hexadecimal digits of either case stands with them for the byte they spell |
| PercentCodec.OtherBytesDecode | mongoose/mongoose.c:1686-1690 | a plus sign is a space exactly in form data; everything else, a percent sign without two digits included, stands for itself |
| PercentCodec.PlainDecodes | mongoose/mongoose.c:1678-1691 | a source without percent signs decodes position by position |
| PercentCodec.RoundTrip | mongoose/mongoose.c:1673-1696 | decoding an encoding gives the original bytes under either form flag |
| PercentCodec.EncodedLength | mongoose/mongoose.c:2538-2556 | an encoding is at least as long as its input and at most three times as long |
| PercentCodec.UrlEncode | mongoose/mongoose.c:2538-2556 | writes the longest encoded prefix that leaves room for the terminator: all of it, directly terminated, exactly when it fits; nothing at or after dst_len changes |
| PercentCodec.UrlDecode | mongoose/mongoose.c:1673-1696 | into another buffer or in place: all decoded bytes and their number when they fit, else the first dst_len - 1 of them and -1; terminated in both cases |
| PercentCodec.EncodeThenDecodeInPlace | mongoose/mongoose.c:1673-1696 | encoding into a buffer that is large enough and decoding it in place restores the string |
| SocketRing.ProduceKeepsSound | mongoose/mongoose.c:4971-4976 | storing appends to the queue unless it holds twenty, and keeps the counters in their window |
| SocketRing.ConsumeKeepsSound | mongoose/mongoose.c:4893-4904 | taking removes the oldest entry, and renormalising the counters keeps every queued socket in its slot |
| SocketRing.EveryRunIsAFifo | mongoose/mongoose.c:4883-4980 | over every interleaving the ring equals a FIFO of at most twenty: taken followed by queued is stored, 0 <= tail <= 20 and tail <= head <= 40 |
| SocketRing.SocketQueue.ProduceSocket | mongoose/mongoose.c:4962-4980 | past its wait the critical section is one produce step |
| SocketRing.SocketQueue.ConsumeSocket | mongoose/mongoose.c:4883-4910 | past its wait the critical section is one consume step and returns the oldest socket; it returns none only when stopping |
| SocketRing.SocketQueue.WrapCounters | mongoose/mongoose.c:4900-4903 | the loop takes one ring length off both counters exactly when the tail has passed it |
| CrawlerProtocol.HeaderRoundTrip | crawler_protocol/messages.hpp:40-82 | type and length read back as they were set, the length modulo 2^16 |
| CrawlerProtocol.ItemLayout | crawler_protocol/messages.hpp:40-82 | one byte for the type, 1 or 2 for the two messages, two for the length modulo 2^16 in network order, then the body |
| CrawlerProtocol.KindMeaning | crawler_protocol/messages.hpp:53-64 | only the bytes 1 and 2 read as a message type |
| CrawlerProtocol.Header.SetLength | crawler_protocol/messages.hpp:66-70 | stores the length modulo 2^16 in bytes 1 and 2 only |
| CrawlerProtocol.WriterStaysSound | crawler_protocol/bufreadwrite.cpp:41-111 | sending, connecting while idle and each completion keep reported, in-flight and queued messages together equal to those given, in order |
| CrawlerProtocol.ConnectedKeepsOrderExactlyWhen | crawler_protocol/bufreadwrite.hpp:70-70 | connected() keeps the order if and only if nothing is in flight or all queued items are equal |
| CrawlerProtocol.ConnectedDuringWriteReorders | crawler_protocol/bufreadwrite.hpp:70-70 | a run in which it does not: three sends after connecting, the last two different, and connected() again |
| CrawlerProtocol.EveryWriterRunKeepsOrder | crawler_protocol/bufreadwrite.cpp:29-111 | over every run, with write errors anywhere, the given messages split in order into reported, in flight (at most one) and queued |
| CrawlerProtocol.BufWrite.SendBufitem | crawler_protocol/bufreadwrite.cpp:41-71 | starts the write when connected and idle, and queues otherwise |
| CrawlerProtocol.BufWrite.SendNextBufitem | crawler_protocol/bufreadwrite.cpp:100-111 | submits the front of the queue, if any |
| CrawlerProtocol.BufWrite.Send | crawler_protocol/bufreadwrite.cpp:29-39 | one send step that keeps the queue invariant |
| CrawlerProtocol.BufWrite.OnConnected | crawler_protocol/bufreadwrite.hpp:70-70 | one connect step, at any time; the queue invariant survives if and only if no write is under way or all queued items are equal |
| CrawlerProtocol.BufWrite.HandleBufitemSent | crawler_protocol/bufreadwrite.cpp:73-98 | success reports the item and starts the next; failure reports the item and every queued one, in order, and empties the queue |
| CrawlerProtocol.ParseString | shared/protocol_helper.hpp:90-96 | succeeds exactly when the length fits and the last byte is NUL, and keeps what stands before the first NUL |
| CrawlerProtocol.CutKeepsExactlyWhen | shared/protocol_helper.hpp:90-96 | a string comes through whole if and only if it holds no NUL |
| CrawlerProtocol.CutMeaning | shared/protocol_helper.hpp:90-96 | what is kept of a string is what stands before its first NUL |
| CrawlerProtocol.BufRead.HandleHeaderRead | crawler_protocol/bufreadwrite.cpp:120-147 | asks for the body when it fits 255 bytes and the type is registered, and stops otherwise |
| CrawlerProtocol.BufRead.HandleBodyRead | crawler_protocol/bufreadwrite.cpp:149-171 | hands the body to the handler, cut at its first NUL, and waits for the next header |
| CrawlerProtocol.MessageTakenExactlyWhen | crawler_protocol/bufreadwrite.cpp:113-171 | a message of any length is handed on unchanged if and only if its type is registered, its body has at most 255 bytes and holds no NUL |
| CrawlerProtocol.OversizedBodyIsSplit | crawler_protocol/bufreadwrite.cpp:120-171 | a body of 2^16 bytes or more is announced modulo 2^16: the reader stops, or hands on that many bytes and takes the rest for headers |
| CrawlerProtocol.EventKeepsLink | crawler_protocol/bufreadwrite.cpp:29-171 | each step of sender, transport or receiver keeps the bytes under way equal to what the receiver lacks of the messages launched |
| CrawlerProtocol.RunKeepsLink | crawler_protocol/bufreadwrite.cpp:29-171 | the same over every run |
| CrawlerProtocol.DeliveredIsAlwaysAPrefix | crawler_protocol/bufreadwrite.cpp:29-171 | without write errors and with bodies below 2^16 bytes, what was delivered is at every moment a prefix of what was given to sendmsg, each body cut at its first NUL, and never reaches the first item the reader does not take |
| CrawlerProtocol.StoppedExactlyWhen | crawler_protocol/bufreadwrite.cpp:120-171 | the reader is stopped if and only if the next launched item is one it does not take and its header has been read |
| CrawlerProtocol.NothingIsLost | crawler_protocol/bufreadwrite.cpp:29-171 | once the link is idle exactly the items before the first refused one have been delivered, and the reader is stopped if and only if there is one |
| CrawlerProtocol.CutKeepsNulFree | crawler_protocol/bufreadwrite.cpp:149-171 | cutting changes none of the messages if and only if no body holds a NUL |
| CrawlerManager.NamesAreAssignedOrQueued | crawler_manager/homeagentdb.cpp:29-99 | after every run: with a poller the queue is empty and every name ever added stands exactly once in exactly one list; without one the database is empty and all names are queued |
| CrawlerManager.OnePlace | crawler_manager/homeagentdb.cpp:68-90 | a name counted once stands in one poller's list and in no other |
| CrawlerManager.StepKeeps | crawler_manager/homeagentdb.cpp:29-66 | every connect, disconnect and add keeps the tables consistent and forgets no name |
| CrawlerManager.RunKeeps | crawler_manager/homeagentdb.cpp:29-99 | the same over every run |
| CrawlerManager.ProcessQueueMeaning | crawler_manager/homeagentdb.cpp:92-99 | with a poller the whole queue moves into the database and no poller appears or vanishes; without one nothing changes |
| CrawlerManager.InsertMeaning | crawler_manager/homeagentdb.cpp:31-31 | connecting adds one empty entry for a new poller and changes nothing for a known one |
| CrawlerManager.PollersAreTold | crawler_manager/homeagentdb.cpp:82-83 | after every run each poller has been sent every agent on its list |
| CrawlerManager.AssignMeaning | crawler_manager/homeagentdb.cpp:68-90 | a new name goes to the first poller with the shortest list, and that poller alone is told |
| CrawlerManager.QueueIsToldInOrder | crawler_manager/homeagentdb.cpp:92-99 | processing a queue sends out exactly the new names, once each and in the order of the queue, each to the poller that has it on its list |
| CrawlerManager.StepTellsExactly | crawler_manager/homeagentdb.cpp:29-66 | for every connect, disconnect and add: with a poller connected the new ones among the waiting and lost names are sent out once each, in order; with none they wait in this order |
| CrawlerManager.QueueBalances | crawler_manager/homeagentdb.cpp:68-99 | processing a queue keeps the maximum load best possible and the spread within max(1, spread before) |
| CrawlerManager.QueueProcessingIsOptimal | crawler_manager/homeagentdb.cpp:68-99 | from any loads the maximum becomes max(old maximum, ceil(total / pollers)), the spread at most max(1, spread before), and no placement that keeps the existing assignments has a smaller maximum |
| CrawlerManager.HomeAgentDb.AssignHomeAgent | crawler_manager/homeagentdb.cpp:68-90 | a new name goes to the first poller with the shortest list, a known name changes nothing |
| CrawlerManager.HomeAgentDb.ProcessPollerQueue | crawler_manager/homeagentdb.cpp:92-99 | the loop assigns the queued names in order |
| CrawlerManager.HomeAgentDb.OnPollerConnected | crawler_manager/homeagentdb.cpp:29-33 | registers the poller and processes the queue |
| CrawlerManager.HomeAgentDb.OnPollerDisconnected | crawler_manager/homeagentdb.cpp:35-53 | queues the lost poller's names in order, takes them out of the database, removes the poller and processes the queue |
| CrawlerManager.HomeAgentDb.OnHomeAgentDiscovered | crawler_manager/homeagentdb.cpp:55-66 | assigns when a poller is connected and queues otherwise |
| LeastLoaded.IncrementLeast | crawler_manager/homeagentdb.cpp:77-82 | one more unit on the first least-loaded place keeps the maximum best possible and the spread within max(1, spread before) |
| LeastLoaded.BestIsFormula | crawler_manager/homeagentdb.cpp:77-82 | best possible means max(floor, ceil(total / places)) and nothing else |
| LeastLoaded.NoPlacementIsBetter | crawler_manager/homeagentdb.cpp:77-82 | no placement of the same total that takes nothing away has a smaller maximum |
| TokenRegistration.EveryMomentIsSound | dnsgw_test_client/ha_register.cpp:26-60 | at every moment of every run: free tokens plus live registrations equal the initial tokens, no agent exceeds its connections, each name index is issued at most once and none is negative, and nobody waits while a token is free |
| TokenRegistration.AsyncRunKeepsBalance | dnsgw_test_client/ha_register.cpp:26-33 | async_run keeps token conservation and each agent's bounds |
| TokenRegistration.AsyncRunMeaning | dnsgw_test_client/ha_register.cpp:26-33 | async_run in full: as many registrations as connections, names and tokens allow, with the next lower names, and a place behind all waiters exactly when only tokens were short |
| TokenRegistration.NotifyServesInOrder | dnsgw_test_client/token_counter.hpp:52-59 | waiters are served in the order in which they came; of those served only the last may be back, at the end; the loop stops without waiters or without tokens |
| TokenRegistration.NotifyKeeps | dnsgw_test_client/token_counter.hpp:52-59 | the notify loop, whose callbacks queue themselves again, terminates and leaves waiters only when no token is free |
| TokenRegistration.CompleteKeeps | dnsgw_test_client/ha_register.cpp:46-60 | a finished registration, good or bad, keeps all of that |
| TokenRegistration.JoinKeeps | dnsgw_test_client/ha_register.hpp:63-75 | starting one more agent keeps all of that |
| TokenRegistration.EveryMomentIsBusy | dnsgw_test_client/ha_register.cpp:26-60 | in every run, failures included, an agent with names left has each of its connections live or lost to a failure, and either waits for tokens or has as many as it may |
| TokenRegistration.OutcomesAreCounted | dnsgw_test_client/ha_register.cpp:46-60 | the agent's counters are the numbers of its good and bad completions in the run |
| TokenRegistration.AllIssuedExactlyWhen | dnsgw_test_client/ha_register.cpp:26-60 | at every quiet moment of every run an agent has issued all its names if and only if its successes and its connections together reach their number; names are left only when all its connections were lost to its own failures |
| TokenRegistration.NeverStrandedExactlyWhen | dnsgw_test_client/ha_register.cpp:26-60 | in terms of the configuration: no run that comes to rest leaves names over if and only if the agent has no more names than connections, or wants connections where there is no token at all and so never comes to rest |
| TokenRegistration.FailureStrandsNames | dnsgw_test_client/ha_register.cpp:55-59 | a concrete run in which one failure leaves a name that nobody will register |
| TokenRegistration.Registrar.Request | dnsgw_test_client/token_counter.hpp:33-38 | grants the smaller of the request and the free tokens |
| TokenRegistration.Registrar.RegisterName | dnsgw_test_client/ha_register.cpp:35-44 | issues the next lower name index |
| TokenRegistration.Registrar.RunAgent | dnsgw_test_client/ha_register.cpp:26-33 | the loop over granted tokens is one async_run of the specification |
| TokenRegistration.Registrar.RunWaiting | dnsgw_test_client/token_counter.hpp:52-59 | the loop is notify of the specification; it ends because free tokens and queue cannot both keep growing |
| TokenRegistration.Registrar.ReleaseTokens | dnsgw_test_client/token_counter.hpp:40-44 | adds the tokens and notifies |
| TokenRegistration.Registrar.HandleRegisterName | dnsgw_test_client/ha_register.cpp:46-60 | registers the next name on success while names are left, and releases the token otherwise |
| TokenRegistration.Registrar.AddAgent | dnsgw_test_client/ha_register.hpp:63-75 | creates an agent and runs it |
| MetricPacker.EveryRunConserves | dnsgw/instrumenter.cpp:81-144 | over every run and for any sizes: sent datagrams followed by the buffer are the metrics added, in order, the counter is the buffer's size and the timer is pending exactly when the buffer is not empty |
| MetricPacker.AddKeeps | dnsgw/instrumenter.cpp:81-91 | one add keeps the invariant and adds exactly that metric |
| MetricPacker.AddMeaning | dnsgw/instrumenter.cpp:81-91 | an add in full: buffered only, if it fits with room to spare; sent with the buffer, if it fills it exactly; else the buffer is sent first, for its size |
| MetricPacker.TimeoutMeaning | dnsgw/instrumenter.cpp:132-144 | an expiry sends the buffer as one datagram and stops the timer |
| MetricPacker.TimerSendsAreExpiries | dnsgw/instrumenter.cpp:81-144 | over every run the datagrams not sent for their size are exactly as many as the expiries that found the timer pending |
| MetricPacker.AddFitsExactlyWhen | dnsgw/instrumenter.cpp:81-91 | after an add all datagrams fit if and only if they did before and the metric has at most 65507 bytes |
| MetricPacker.DatagramsFitExactlyWhen | dnsgw/instrumenter.cpp:81-108 | no datagram of a run exceeds 65507 bytes if and only if no metric does |
| MetricPacker.EveryRunIsPacked | dnsgw/instrumenter.cpp:81-108 | a datagram sent for its size does not fit into one together with its successor |
| MetricPacker.SizeTriggeredAreHalfFull | dnsgw/instrumenter.cpp:81-108 | D datagrams in a row sent for their size carry at least floor(D / 2) * 65507 bytes |
| MetricPacker.UdpInstrumenter.AddMetric | dnsgw/instrumenter.cpp:81-91 | one add step of the specification |
| MetricPacker.UdpInstrumenter.SendBuffer | dnsgw/instrumenter.cpp:93-108 | sends all buffered metrics in order, empties the buffer and stops the timer |
| MetricPacker.UdpInstrumenter.HandleNagleTimeout | dnsgw/instrumenter.cpp:132-144 | a timer that ran out sends the buffer, an aborted one does nothing |

## Left out

- PlexusTree: `log2` and `pow` are exact integers here, and identifiers are unbounded; the code's `int` shifts agree for K up to 31.
- PlexusRouting: the message processor that forwards along the tables is not part of this model; a greedy walk is defined over the tables instead.
- BuildTrees.BuildTree.Execute: the host list is a nonempty parameter, because the code's logarithm of 0 is undefined, and K is at least 1; reading the file, aliases and printing are not modelled.
- `BuildTree::GetHeight` belongs to an identifier scheme that is switched off.
- OverlayIds: `GetBitAtPosition`, `operator==` and `operator<` are one-line expressions; tables compare keys by identifier alone, as `operator<` does.
- LookupTables: the tables are maps; locks, iteration and the return values of `add` and `remove` are not modelled.
- LruCaches.Cache.Evict: nodes are never freed; the code deletes the only node of a list and then uses its key.
- The insertion and replacement policies are methods of the cache; other policies, `contains`, `setSize`, string output and locking are not modelled.
- DnsNames.ParseName: which message a parse error carries is not modelled, and names are read without compression, as the code does.
- DnsMessages.ParseDnsQuery: what a query holds after a parse error is not stated; the caller throws it away.
- DnsHeader: the setters for opcode, tc and ra, which composing a reply does not use; the other setters are one assignment each and are covered by Compose.
- Md5.Md5Context.Final: the compression function is a parameter and its result the registers; writing them out as bytes or hex, wiping the context and the big-endian branch are not modelled.
- Sha1.Sha1Context.Update: asks for position plus length below 2^32; beyond that the code does not compute SHA-1.
- Glob.MatchPrefix: a pattern slice is taken to end where its length says; the code looks one character further after a final star, which matters only when another star stands there.
- PercentCodec.UrlEncode: when the encoding does not fit, the few bytes between the encoded prefix and the terminator are not specified; the code leaves some of them unwritten.
- PercentCodec.UrlDecode: memory behind the source is taken to hold the terminating NUL.
- SocketRing: condition variables appear as the guards of the two waits; waking order and fairness are not modelled.
- CrawlerProtocol.DeliveredIsAlwaysAPrefix: runs without write errors and with bodies below 2^16 bytes; with errors the sender's half is `EveryWriterRunKeepsOrder`, and `OversizedBodyIsSplit` says what a longer body does to the reader.
- CrawlerProtocol: handlers that send or reconnect from inside a callback, and read errors.
- CrawlerManager.HomeAgentDb.OnPollerDisconnected: the poller must be registered, as the code asserts; connections are numbers that order like the map's keys.
- CrawlerManager: the not-connected branch of the poller connection, which re-enters the database.
- TokenRegistration.Registrar.RegisterName: requests that complete inside `fetch`, the name text and the URL.
- TokenRegistration.Registrar.RunWaiting: callbacks are indices of agents, the only kind of callback the program queues.
- MetricPacker.UdpInstrumenter.HandleNagleTimeout: an expiry that was already queued when the timer was cancelled is not modelled; neither is serialising a metric.
- Sockets, asio, name resolution, libcurl, logging, options, threads and files.
- Completion of DNS queries through the query map, the load balancer, the duplicate filter, the instrumentation database, the web interface with its older copy of the web server, the Spirit grammar, and date and address parsing.

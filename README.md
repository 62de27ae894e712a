# Cluster topology codec, modelled and verified in Dafny

This project models `cluster2/topo.go` of a Redis cluster client in Go. That
file describes the cluster's shape and converts it to and from the reply of
the Redis `CLUSTER SLOTS` command. It defines:

- `Node`: a member of the cluster. It has an address, an optional id, the
  half-open slot ranges it serves and, for a replica, the address and id of
  its master.
- `Topo`: a list of nodes.
- `topoSlotSet`: one entry of the reply, holding one range and the nodes
  serving it, master first.

These operations are modelled:

- `Topo.MarshalRESP` groups the nodes by range and sorts the groups by
  range start. It then writes a header followed by one entry per group.
- `Topo.UnmarshalRESP` reads the entries and merges the nodes by address.
  It appends the merged nodes to the topology and sorts the result.
- `Topo.sort` sorts each node's ranges by start. It then sorts the nodes by
  the start of their first range, with masters first.
- `Topo.Map` builds a map from address to node.
- `topoSlotSet.MarshalRESP` and `topoSlotSet.UnmarshalRESP` write and read
  one entry. On the wire the end of a range is inclusive, so the writer
  subtracts one and the reader adds one, both in wrapping `uint16`
  arithmetic.

The wire is modelled one level above RESP bytes: a reply is the sequence of
values (`Wire.Token`) that the RESP reader yields, one per read call. The
writer (`Wire.Writer`) is a class that keeps what it has written and accepts
`room` more writes; the write after those fails.

Each loop of the source is a Dafny method with loop invariants, except the
two-step loop that reads the two slot numbers (`cluster2/topo.go:166-170`),
which `SlotSetCodec.ReadSlotSet` unrolls into two reads. Each method
is proved against a specification function, and the properties the source
promises are proved about those functions:

- reading is specified by `TopoDecode.ParseTopo`;
- merging by `TopoDecode.MergeSpec`;
- grouping by `TopoEncode.Buckets`;
- writing by `TopoEncode.TopoTokens`.

Go's map iteration order and `sort.Slice` are not specified to be stable or
deterministic. Results depending on them are therefore stated up to that
freedom, as a multiset of `Topology.NodeView`s (a node with its ranges
taken as a multiset) together with sortedness.

Files: `wrappers.dfy` (Option, Result), `slots.dfy` (uint16, ranges),
`sorting.dfy` (in-place insertion sort by a key), `topology.dfy` (Node,
Topo, sort, Map), `wire.dfy` (values, errors, writer), `slotset.dfy`
(topoSlotSet and its codec), `decode.dfy` (Topo.UnmarshalRESP),
`encode.dfy` (Topo.MarshalRESP), `roundtrip.dfy` (encode then decode).

## Model

| member | source | states |
|---|---|---|
| Slots.IncDec | cluster2/topo.go:144 | decoding's +1 undoes encoding's -1 on the exclusive end, for every uint16 including 0 (wrap-around) |
| Slots.DecInc | cluster2/topo.go:171 | encoding's -1 undoes decoding's +1 on the inclusive wire end, for every uint16 including 65535 |
| Slots.IncWrapsOnlyAtTop | cluster2/topo.go:171 | the increment of the end yields 0 exactly when the wire end is 65535 |
| Topology.LastColon | cluster2/topo.go:147 | the index of the last ':' in the address, or -1 when there is none |
| Topology.IndexOfChar | cluster2/topo.go:147 | the index of the first occurrence of a character, or -1 when there is none |
| Topology.SplitHostPort | cluster2/topo.go:147 | `net.SplitHostPort`'s rules: the port follows the last ':' and holds none; an unbracketed host is the text before it, which then rebuilds the address |
| Topology.SplitJoin | cluster2/topo.go:147 | splitting the address decode builds from a host and a port gives back both, whenever neither holds ':', '[' or ']' |
| Topology.SplitsBackIff | cluster2/topo.go:147 | an address is rebuilt by joining its split halves exactly when it holds exactly one ':' and no bracket |
| Topology.ColonHostLost | cluster2/topo.go:189 | the address decode builds from a host holding a ':' (an IPv6 address) is written back as two empty strings and does not round-trip |
| Topology.CanonicalOrder | cluster2/topo.go:107-114 | in the sorted order, first-range starts never decrease, and of two nodes with the same first range a master never follows a replica |
| Topology.Sort | cluster2/topo.go:98-116 | each node's ranges end up sorted by start and the nodes sorted by first range with masters first; each node keeps its fields and ranges, and node ranges stay non-empty |
| Topology.AddrMap | cluster2/topo.go:118-125 | every address maps to a node of the topology with that address; where an address repeats, the last node with it wins |
| Sorting.SortInPlace | cluster2/topo.go:107-114 | the array ends sorted by the key and is a permutation of what it held |
| Sorting.Sort | cluster2/topo.go:101-105 | the result is sorted by the key and is a permutation of the input |
| SlotSetCodec.NoEntryError | cluster2/topo.go:175-181 | the node loop finds no error exactly when every announced node entry is an array of at least two strings |
| SlotSetCodec.FirstEntryErrorAt | cluster2/topo.go:175-181 | the error reported is the one of the first rejected node entry: a read failure, or a malformed node array holding its strings |
| SlotSetCodec.EntryNodes | cluster2/topo.go:182-199 | node i has address host:port, the third string as id or "" when absent, the entry's range as its only range; node 0 has no master, and every later node names node 0's address and id as its master |
| SlotSetCodec.ParseSlotSetMeaning | cluster2/topo.go:158-205 | reading an entry succeeds exactly when it starts with a header, two integers and as many valid node entries as the header announces beyond two; it then ends past those values and yields the range [start, end+1) in uint16 with the nodes decoded from the entries |
| SlotSetCodec.ShortNodeEntryFails | cluster2/topo.go:179-180 | a node entry of fewer than two strings, after valid ones, makes the read fail with that array |
| SlotSetCodec.ReadSlotSet | cluster2/topo.go:158-205 | the reading method returns exactly the specified result, errors included |
| SlotSetCodec.WriteIfOk | cluster2/topo.go:136-140 | a value is written only while no earlier write failed |
| SlotSetCodec.WriteNode | cluster2/topo.go:146-153 | a node is written as host and port split from its address, followed by its id only when that is non-empty, unless an earlier write failed |
| SlotSetCodec.WriteSlotSet | cluster2/topo.go:134-156 | the writer receives the longest prefix of [header 2+k, start, end-1, node entries] that the transport accepts; success exactly when all of it fits |
| SlotSetCodec.ParseSlotSetWritten | cluster2/topo.go:158-205 | an entry whose header counts its node entries and whose end is stored minus one reads back as that range with the nodes decoded from the entries' strings |
| SlotSetCodec.ParseSlotSetTokens | cluster2/topo.go:142-153 | reading what was written for an entry succeeds, gives back the same range and the nodes rebuilt from their written strings, and ends right after the entry's values |
| TopoDecode.ParseSetsFrom | cluster2/topo.go:72-77 | reading entries one after another yields all of them in order and stops after the last |
| TopoDecode.ParseSetsFailurePersists | cluster2/topo.go:73-76 | once reading an entry fails, reading more entries fails with that same error |
| TopoDecode.ParsedSetsProvisional | cluster2/topo.go:191 | every decoded node holds exactly its entry's range |
| TopoDecode.MergeStepPresent | cluster2/topo.go:82-84 | merging a node whose address is present appends its ranges to the stored node and changes nothing else |
| TopoDecode.MergeStepNew | cluster2/topo.go:85-87 | merging a node with a new address stores it unchanged and changes nothing else |
| TopoDecode.MergeByAddr | cluster2/topo.go:79-89 | the merge loop builds the map from each address to its first node carrying the ranges of all nodes with that address, in input order |
| TopoDecode.MergedSlots | cluster2/topo.go:83 | the merged node of an address holds a range as many times as entries list that address under that range |
| TopoDecode.MergedIdentity | cluster2/topo.go:86 | the merged node keeps the id and master fields of the first node with its address |
| TopoDecode.MergedOwnSlots | cluster2/topo.go:83 | a merged node owns at least one range when every input node does |
| TopoDecode.FlattenOwnSlots | cluster2/topo.go:188-192 | every node decoded from the entries owns a range |
| TopoDecode.ReadSlotSets | cluster2/topo.go:68-77 | the reading loop returns exactly the specified result, failing at the first entry that fails |
| TopoDecode.AppendMerged | cluster2/topo.go:91-93 | the result is the old topology followed by exactly the map's nodes, each once |
| TopoDecode.Unmarshal | cluster2/topo.go:67-96 | decoding fails exactly when reading fails, with that error and the topology unchanged; otherwise one node per distinct address is appended, nothing is lost or duplicated, the result is in canonical order, and nodes keep owning ranges |
| TopoEncode.RangesOfIff | cluster2/topo.go:33-40 | a range is a key of the grouping exactly when some node holds it |
| TopoEncode.BucketMembers | cluster2/topo.go:33-38 | every node in a range's group is a node of the topology that holds that range |
| TopoEncode.BucketEmptyIff | cluster2/topo.go:33-40 | a range's group is empty exactly when no node holds that range |
| TopoEncode.BucketCount | cluster2/topo.go:33-38 | an address appears in a range's group as often as its nodes hold that range |
| TopoEncode.Buckets | cluster2/topo.go:32-40 | the grouping's keys are the ranges held by some node, and each group is labelled with its own range |
| TopoEncode.GroupStep | cluster2/topo.go:35-38 | one inner step appends the node to its range's group, creating the group if absent |
| TopoEncode.BucketByRange | cluster2/topo.go:32-40 | the grouping loop builds exactly the specified grouping |
| TopoEncode.CollectEntries | cluster2/topo.go:45-48 | every group of the map is collected exactly once, under its own range |
| TopoEncode.SlotSetsOf | cluster2/topo.go:45-51 | the entry list holds each group exactly once, ordered by range start |
| TopoEncode.EncodedEntries | cluster2/topo.go:31-62 | the reply's header counts the distinct ranges; each range has an entry; each entry lists the nodes holding its range in topology order and is non-empty; starts never decrease |
| TopoEncode.EntryListsOwner | cluster2/topo.go:33-38 | with unique addresses, a node is listed in an entry as often as it holds the entry's range |
| TopoEncode.StoppedInEntry | cluster2/topo.go:56-59 | when writing stops inside an entry, what was written is the prefix of the reply up to that point |
| TopoEncode.WriteEntries | cluster2/topo.go:56-60 | the entries are written in order until the first failure; what was written is the longest prefix that fits |
| TopoEncode.WriteReply | cluster2/topo.go:53-60 | the header is written, then the entries; success exactly when the whole reply fits, otherwise the longest prefix that fits |
| TopoEncode.Marshal | cluster2/topo.go:31-62 | the written values are a prefix of the reply built from the sorted grouping; success exactly when the whole reply fits |
| RoundTrip.EntryReadsBack | cluster2/topo.go:74 | the i-th written entry reads back from where it was written, up to where the next one starts |
| RoundTrip.ParseSetsAt | cluster2/topo.go:72-77 | reading the written entries gives each entry back in order and ends right after them |
| RoundTrip.ParseTopoTokens | cluster2/topo.go:67-77 | reading a whole written reply succeeds and gives every entry back |
| RoundTrip.RedecodedNodeAt | cluster2/topo.go:182-199 | a node read back has its original address and id and exactly the entry's range; it has no master when first, otherwise the first node as master |
| RoundTrip.RedecodedAddrs | cluster2/topo.go:147 | the node addresses of an entry survive writing and reading back when they split back |
| RoundTrip.BucketListListings | cluster2/topo.go:32-40 | the written entries list an address under a range as often as the topology's nodes with that address hold it |
| RoundTrip.CountsAgree | cluster2/topo.go:83 | after the round trip an address holds each range as often as before |
| RoundTrip.KeysAgree | cluster2/topo.go:79-89 | after the round trip the addresses are exactly those of the topology |
| RoundTrip.SlotsComeBack | cluster2/topo.go:83 | after the round trip every node's ranges come back as a multiset |
| RoundTrip.IdentityComesBack | cluster2/topo.go:86 | after the round trip every node's id and master fields come back |
| RoundTrip.NodeComesBack | cluster2/topo.go:79-89 | every node of the topology comes back merged, equal up to the order of its ranges |
| RoundTrip.SameViewsByAddr | cluster2/topo.go:91-92 | the nodes appended from a map are, up to order, those of a topology with unique addresses when the map has exactly its addresses and holds each of its nodes up to range order |
| RoundTrip.RoundTripViews | cluster2/topo.go:31-96 | the written reply decodes successfully, and its merged nodes are the topology's nodes up to order |
| RoundTrip.EncodeThenDecode | cluster2/topo.go:31-96 | when the whole reply fits, decoding what was written into an empty topology gives the original nodes up to order, in canonical order |

## Left out

- RESP bytes: framing, bulk-string encoding and the `resp` package itself are not modelled. A reply is the sequence of values one read or write call moves. A value the reader cannot convert to the requested Go type is one `Unreadable` value and yields a read failure.
- Negative array headers (RESP null arrays) are not modelled; a header carries a `nat`. A header announcing fewer than two elements reads no node entries, as the loop bound `N - 2` does in the source.
- Integers outside 16 bits: the reader's conversion into `uint16` is not modelled; an integer value is a `u16`.
- The write failure itself: I/O errors come from the transport, so the writer is a `room` of accepted writes. Which `error` value is returned is not modelled, only whether writing succeeded and what was written.
- `net.SplitHostPort`: its error cases are one `None`, which the encoder turns into two empty strings, as it ignores the error. Which error it is is not modelled.
- Addresses with more than one ':' or with brackets do not round-trip. Decode joins host and port with a bare ':', so an IPv6 host gives an address the encoder cannot split (`Topology.ColonHostLost`). The round trip therefore requires every address to split back, which means exactly one ':' and no bracket.
- Go's map iteration order and `sort.Slice`'s order among equal keys are left open. Results that depend on them are stated up to that order: the entry list up to the order of entries with equal starts, and decoded nodes up to the order of ties and of each node's ranges.
- Topology.Sort: the node key is the first range's start, doubled, plus one for a replica. This breaks ties between masters and replicas whose first ranges share a start but differ in end, where the source's comparator falls back to comparing starts only. Within its own ties the source's comparator is not a strict weak ordering (two masters with the same first range each compare less than the other), so its exact order among them is not modelled.
- Topology.Sort: requires every node to own a range when there are two nodes or more. The source indexes the first range in the comparator and panics otherwise.
- TopoDecode.Unmarshal: when reading succeeds and the result has two nodes or more, requires every node already in the topology to own a range, for the same reason. The source panics only when the final sort compares a node without one. Failed reads and single-node results need no such condition.
- Idempotence of `Topo.sort` is not claimed: re-sorting with an unstable sort may reorder nodes with equal keys.
- Agreement of a replica's recorded master id with the master's own id is not checked by the source, nor by the model.
- RoundTrip.EncodeThenDecode: states the round trip only for topologies a reply can describe. Addresses must be unique and split back, every node must own a range, and in every range's group the first node must be a master and each later node a replica of it. Decoding makes the first node of an entry the master by position.

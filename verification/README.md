# sndnet: overlay addresses, routing and forwarding, in Dafny

sndnet is a Pastry/Tapestry-style overlay: nodes have 256-bit addresses on a ring, keep a prefix
table and two leafsets, and pass packets towards the address nearest the destination. This project
models its address arithmetic, its router, its packets and nodes, and its growable vector, and
proves what they do for every input and over every run. `dafny verify dfyconfig.toml` checks all of it.

The address length `n` in bytes and the leafset size `k` are parameters (32 and 8 in the program; the
wire modules use 32-byte addresses and 64-byte signatures). Arrays, fields and loops of the C code are
arrays, fields and loops here; each method is proved against a specification on values, and the
results about runs and networks are lemmas about those specifications. `qsort` leaves equal keys in
any order, so a router step is a relation between states, and results speak of addresses.

## Modules

| module | models |
|---|---|
| Numerals, Address | big-endian values, byte comparison, nibbles, the table index |
| RingDistance, DistanceLaws, PrefixDistance | borrow subtraction with folding, exactly as written, against integers; when it is zero, symmetric, bounded by a prefix |
| HexText | printing and parsing of addresses |
| Entries, Sorting, Leafsets | closest-entry search, in-place sort, insert and extract |
| RouterStates, Routers | router states, runs of add/remove, the router object |
| RouterHistory | routers against the calls made: what is set was added, what was removed is forgotten |
| NextHops, Optimality | next hop: progress, optimality over everything ever added |
| NearestKnown, UnsafeDestinations | when that is the truly nearest address; the converse: destinations that some router misroutes |
| RunsExist, LoopFreedom | every call sequence is a run; paths through many routers, and what every loop contains |
| Bounces, IntendedRange | exactly when two routers send a packet back and forth, as written and with the intended bounds |
| Queries, LeafsetQueries | what a query lists, and whether its allocation suffices; what leafset positions mean |
| Packets, Nodes | wire format, signatures, the node object |
| NodeLaws, Network, Delivery, WorstCase | what a node drops, sends, hands up and answers; whole networks; chains of nodes; bounds and runs that attain them |
| Vectors | the growable vector |

## Where the code departs from its aim

The code is modelled as it stands. Each departure below is a result: a witness, and the exact
condition under which the intended property holds. Only what is said of loops between routers in
arbitrary states goes one way.

- **The subtraction forgets a borrow** that reaches a byte of `b` at 0xFF, past byte 0
  (src/net/addr.c:90-92). `DistExactIff` gives the pairs measured exactly, `ExactFromEverywhereIff`
  the destinations measured exactly from everywhere ("borrow-safe": no 0xFF byte past the first is
  followed by a non-zero byte). Besides itself, one address measures 0 to each address: its
  *shadow*, what taking one away with the same forgotten borrows leaves (`DistZeroIff`). The shadow
  is the predecessor iff the address is borrow-safe, and else at least 255 positions away
  (`ShadowIsPredecessorIff`, `DistZeroFarApart`). So **the next hop is optimal for every router iff
  the destination is borrow-safe**: with the intended leafset bounds (`IntendedOptimalIff`), and
  with the test as written whenever it passes between the farthest leaves or with neither side full
  (`WrittenOptimalIff`; `ShortOptimalIff` for routers that read nothing outside their arrays). For
  every other destination `UnsafeDestinationIsMisrouted` is, with the intended bounds, a router with
  one leaf that forwards the packet to the shadow, or keeps it there, while it knows an address at
  most one away; as written, for `k >= 2`, the same router does so too (`PassesWithoutRight`),
  unless the destination is all 0xFF, for which `HighestIsKept` is the witness.
- **The fold is a one's complement** (src/net/addr.c:98-100), so the distance is one short below the
  destination, where include/net/addr.h:82-88 documents the absolute distance. It is symmetric only
  between equal and opposite addresses (`DistSymmetricIff`). Whenever the leafsets decide about a
  borrow-safe destination, after adds, between the farthest leaves or with neither side full, the
  next hop is within one of the nearest known address, and misses it iff two known addresses lie
  mirrored around the destination at the least folded distance and the farther one is met first
  (`HopIsTrulyNearestIff`). As written with neither side full, that farther one can only be the
  router itself (`WrittenHopIsTrulyNearestIff`). With bounds at count - 1, the order comes down to
  the router being below the destination, or being the farther one (`MissedTieIff`): a router below
  a destination that knows both it and its predecessor then sends to the predecessor, which keeps
  the packet (`PredecessorIsPreferred`, `PredecessorKeepsPacket`). As written it does not come to
  that: with neither side full, a router below a destination it knows never consults its leafsets
  for it and forwards through its table (`KnownAboveIsForwarded`, `PredecessorForwardsAsWritten`).
- **The leafset range test reads one slot past the last leaf** (src/net/router.c:370 and 375). After
  adds that fill neither side that slot is zeroed memory (`RangeTestIff` is the resulting
  condition); on a full side it lies outside the array, so its contents are an unconstrained
  parameter, `Beyond`. Whenever the written test passes between the farthest leaves or with neither
  side full, the next hop is optimal for borrow-safe destinations (`NextHopIsOptimal`). With the
  bounds evidently meant, it is optimal for every destination between the farthest leaves, full
  leafsets included (`IntendedNextHopIsOptimal`). In every state the written test covers all
  destinations between the farthest leaves iff the bounds it reads are no nearer than those leaves
  (`RangeTestCoversBetweenIff`), and is the intended test iff it reads those very leaves
  (`RangeTestIsIntendedIff`); after adds that fill neither side it covers them iff nothing is known
  above the router (`RangeTestCoversIff`, `WrittenRangeTestMisses`). **Two routers that know only
  each other can bounce a packet until its time to live ends**: as written, exactly when its
  destination is not above both, and the lower router measures closer to it but shares fewer nibbles
  (`WrittenBounceIff`, for every pair, destination and `k >= 2`; `RoutingLoop` is a witness for
  every `n`; `BounceIff` covers any answers of the two tests). With the intended bounds they never
  do (`IntendedNeverBounces`), but once the lower one has filled its leafset with nearer addresses
  they do, for destinations past those, under the same condition (`IntendedBounceIff`,
  `IntendedRangeStillLoops`). `RevisitNeedsBoth` says what every loop through any number of routers
  contains.
- **A prefix does not bound the distance** when a borrow wraps inside it: `PrefixBoundsDistanceIff`.
- **The slot assertion** at src/net/router.c:397 fires for a router at the all-zero address, and
  only then: `AssertionHoldsIff`.
- **A full right leafset keeps a stale network address**: the refusal test is strict on one side only
  (src/net/router.c:435), so its farthest leaf, added again at another network address, is refused on
  the right and replaced on the left (`RefusedIff`, `FarthestReadded`).
- **A table query allocates one row too few** (src/net/router.c:269): `QueryTable` answers `Overrun`
  when an entry goes past the allocation, `OverrunsIff` says when.
- **A 16-bit length field wraps** for payloads of 65536 bytes and more, and receivers refuse more
  than 1000: `PayloadArrivesIff`, `UserPayloadArrivesIff`.

## Model

| member | source | states |
|---|---|---|
| Address.Compare | src/net/addr.c:60-74 | the byte loop returns the difference of the first differing bytes |
| Address.CmpIsNumericOrder | src/net/addr.c:60-74 | the sign of the comparison is the order of the two integers, 0 iff equal |
| Address.ToNibbles | src/net/addr.c:157-169 | the loop writes the high and low nibble of every byte |
| Address.NibblesKeepNum | src/net/addr.c:157-169 | the nibbles in base 16 denote the same integer as the bytes in base 256 |
| Address.Index | src/net/addr.c:105-135 | level is the common nibble prefix length, column the next nibble of the second address or 255 |
| Address.OrdersAgree | src/net/addr.c:105-135 | for distinct addresses the index is in bounds, and the column compares with self's digit as the addresses compare |
| Address.LevelSymmetric | src/net/addr.c:105-135 | shared nibbles are symmetric, and all shared iff equal |
| Address.LevelChains | src/net/addr.c:105-135 | b and c share at least the nibbles both share with a, and one more if they agree there |
| RingDistance.NegateBytes | src/net/addr.c:171-180 | in-place one's complement of every byte |
| RingDistance.NegateValue | src/net/addr.c:171-180 | the complement denotes 256^n - 1 minus the value |
| RingDistance.Distance | src/net/addr.c:76-103 | the borrow loop and fold compute `Dist` |
| RingDistance.SubValue | src/net/addr.c:85-96 | for all inputs: result = a - b + final borrow * 256^n + weight of forgotten borrows |
| RingDistance.SubModuloRing | src/net/addr.c:85-96 | for all inputs: the result is a - b modulo 256^n shifted by a multiple of 256, the forgotten borrows |
| RingDistance.DistExactIff | src/net/addr.c:76-103 | the distance is the folded ring offset iff no byte past the first of b is 0xFF with a's lower bytes below b's |
| RingDistance.FoldVersusRing | include/net/addr.h:82-88 | the fold is the shorter way round the ring, less one on the negative side |
| RingDistance.ExactFromEverywhereIff | src/net/addr.c:88-96 | every address is measured exactly to b iff no 0xFF byte of b past the first is followed by a non-zero byte |
| DistanceLaws.DistZeroIff | src/net/addr.c:76-103 | for all inputs: distance 0 iff a equals b or is b's shadow, the one address from which the difference reads all ones |
| DistanceLaws.ShadowIsPredecessorIff | src/net/addr.c:85-96 | the shadow is b's predecessor on the ring iff b is borrow-safe; otherwise it is 255 positions away or more, both ways round |
| DistanceLaws.DistZeroWhenSafe | src/net/addr.c:76-103 | to a borrow-safe b: distance 0 iff b equals a or is its successor |
| DistanceLaws.DistZeroFarApart | src/net/addr.c:90-92 | 00ff00 and 01ff01 are 65537 apart and at distance 0 |
| DistanceLaws.DistSymmetricIff | src/net/addr.c:76-103 | for all inputs: symmetric iff equal or diametrically opposite |
| PrefixDistance.PrefixBoundsDistanceIff | src/net/addr.c:76-135 | addresses sharing m >= 1 nibbles are at distance below 16^(2n-m) iff no borrow wraps inside the shared prefix |
| PrefixDistance.PrefixBoundsDistance | src/net/addr.c:76-135 | the bound always holds when no borrow is lost |
| PrefixDistance.PrefixBoundFails | src/net/addr.c:90-92 | 00ff00 and 00ff01 share 4 nibbles and measure 256 or more |
| HexText.ToPrintable | src/net/addr.c:182-202 | one lower-case character per nibble, then the terminator |
| HexText.AddressToStr | src/net/addr.c:43-58 | the text is the printed nibbles without trailing zeros, terminated inside the buffer |
| HexText.ParseAddress | src/net/addr.c:204-235 | refuses iff one of the first 2n characters is not alphanumeric; else two characters make a byte, odd and short texts padded with zeros |
| HexText.ParsableIff | src/net/addr.c:214 | a text is accepted iff its first 2n characters are digits or letters of either case |
| HexText.OddLettersCountOn | src/net/addr.c:216-222 | letters past f are not refused but count on from 15: gz is the byte 0x23 |
| HexText.ParsePrinted | src/net/addr.c:19-58 | parsing the printed form gives the address back, for every address |
| HexText.PrintParsed | src/net/addr.c:19-58 | for every text accepted: printing the parsed form gives it lower-cased, cut to 2n digits, without trailing zeros, iff those digits are hexadecimal |
| Entries.CompareEntries | src/net/entry.c:9-11 | compares the addresses |
| Entries.ArrayLen | src/net/entry.c:17-26 | the number of set entries before the first unset one |
| Entries.FindClosest | src/net/entry.c:28-71 | the search loop computes `Closest` |
| Entries.ClosestIsFirstMinimiser | src/net/entry.c:28-71 | the result is the first eligible candidate at minimal distance; unset iff nothing is eligible |
| Entries.ClosestOfConcat | src/net/entry.c:28-71 | searching a concatenation is searching both parts, the first winning ties |
| Leafsets.KeyOrder | src/net/entry.c:9-15 | the two comparators order by key, ascending right and descending left |
| Leafsets.SortLeafset | src/net/router.c:465-470 | in place, the set prefix is permuted into key order and the rest untouched |
| Leafsets.InsertLeaf | src/net/router.c:424-442 | in place, appends or replaces the last leaf or refuses, then sorts |
| Leafsets.InsertKeepsNearest | src/net/router.c:424-442 | afterwards the keys are the k smallest of the old ones and the new one, sorted; the array's invariant is kept |
| Leafsets.RefusedIff | src/net/router.c:430-436 | refused iff full and past the farthest leaf, or equal to it on the right side only |
| Leafsets.FarthestReadded | src/net/router.c:434-438 | a full leafset's farthest address added at another network address: the right side keeps the old one, the left takes the new |
| Leafsets.ExtractLeaf | src/net/router.c:444-463 | in place, drops the first entry with the address, if any, then sorts |
| Leafsets.ExtractRemovesOne | src/net/router.c:444-463 | exactly one copy leaves the multiset of keys, or nothing changes; the invariant is kept |
| RouterStates.ForeignIndexInBounds | src/net/router.c:393-395 | any address but the router's own indexes inside the table |
| RouterStates.StepKeepsInv | src/net/router.c:30-59 | add and remove keep: set entries in the slot they index to, leafsets sorted, set entries first, left below self and right above |
| RouterStates.RunKeepsInv | src/net/router.c:18-59 | the invariant holds after every run of adds and removes |
| RouterStates.TableIsHistory | src/net/router.c:382-400 | a slot is what the last call indexing to it wrote, zeroed memory if there was none |
| RouterHistory.TableSetIff | src/net/router.c:30-59 | over every run: a slot is set iff the last call indexing to it was an add, and then holds that add's address and network address |
| RouterHistory.HopWasAdded | src/net/router.c:61-116 | over every run: a set next hop names an address and network address that one add named together |
| RouterHistory.RemovalUnsetsSlot | src/net/router.c:48-59 | right after the removal of x the slot x indexes to is unset |
| RouterHistory.RemovedIsForgotten | src/net/router.c:48-59 | over every run: an address whose adds have all been undone by removals is held nowhere, and no next hop names it |
| RouterStates.AssertionHoldsIff | src/net/router.c:397 | after every run the assertion on the slot holds iff the router's address is not zero |
| RouterStates.LeafsetsRefineHeld | src/net/router.c:402-463 | over every run both leafsets equal a sorted list bounded to k, by address |
| RouterStates.LeafsetsKeepNearest | src/net/router.c:402-442 | after any adds: exactly the k smallest addresses added above self ascending, the k largest below descending |
| Routers.Router.constructor | src/net/router.c:18-28 | self set with its addresses, every table slot and leaf zeroed memory |
| Routers.Router.Set | src/net/router.c:382-400 | overwrites the indexed slot with what the call names and nothing else, unless the assertion fires |
| Routers.Router.UpdateLeafset | src/net/router.c:402-422 | only the leafset of the address's side changes, by insert or extract |
| Routers.Router.Add | src/net/router.c:30-46 | one add step, its slot set to the addresses given, or no change when the assertion fires |
| Routers.Router.Remove | src/net/router.c:48-59 | one remove step, its slot unset, or no change when the assertion fires |
| Routers.Router.IsOnRange | src/net/router.c:357-380 | the range test with its bounds read at index count |
| Routers.Router.FindNextHop | src/net/router.c:61-116 | computes `NextHop` of the state |
| Routers.Router.LeafsetGet | src/net/router.c:218-230 | right leaves at positive positions, left at negative, self at 0, each sign on its own |
| Routers.Router.QueryTable | src/net/router.c:256-305 | refused on bad bounds, overrun iff an entry finds all allocated slots used, else the wanted entries of the levels in order |
| Routers.Router.QueryLeafset | src/net/router.c:307-353 | refused on bad bounds, else the wanted entries of the positions in order; never overruns |
| NextHops.LeafsetHop | src/net/router.c:73-87 | a set leafset answer is a held foreign entry strictly closer than self |
| NextHops.TableHop | src/net/router.c:89-104 | a table hit shares strictly more nibbles with the destination |
| NextHops.BestAnswerHop | src/net/router.c:106-115 | a set best answer is strictly closer and shares no fewer nibbles |
| NextHops.HopMakesProgress | src/net/router.c:61-116 | all three together, whatever the range test answers |
| NextHops.OwnAddressStays | src/net/router.c:61-116 | a packet for the router's own address is never forwarded |
| NextHops.ClosestOfClosests | src/net/router.c:73-80 | the closest of closests is the closest over self, left and right in that order |
| NextHops.LeafsetPickIsNearest | src/net/router.c:73-80 | no leaf and not self is closer than the leafset answer |
| NextHops.AnswerPickIsNearest | src/net/router.c:106-111 | nothing in self, the row, or the leaves with enough shared nibbles is closer than the best answer |
| Optimality.OutsideIsFarther | src/net/router.c:73-87 | the wrap-around argument: nothing outside an interval is closer to a point in it than both its ends |
| Optimality.HeldOrBeyond | src/net/router.c:424-442 | after any adds, each known address is a leaf, or its side is full and it lies past the farthest leaf |
| Optimality.LeafsetPickIsOptimal | src/net/router.c:73-87 | between the farthest leaves, or with neither side full, nothing ever added is closer than the leafset answer |
| Optimality.OnRangeIff | src/net/router.c:357-380 | in every state: the written test passes iff the destination is between the bounds, each self when the side is empty, else the slot after the last leaf, foreign memory on a full side |
| Optimality.RangeTestIff | src/net/router.c:366-379 | after adds filling neither side, exactly when the written range test passes |
| Optimality.RangeTestCoversBetweenIff | src/net/router.c:357-380 | in every state: the written test covers all destinations between the farthest leaves iff the left bound read is at most the farthest left leaf and the right one at least the farthest right leaf |
| Optimality.RangeTestIsIntendedIff | src/net/router.c:357-380 | in every state: it is the intended test iff the bounds read are those leaves |
| Optimality.RangeTestCoversIff | src/net/router.c:366-379 | so after adds filling neither side: iff the right side is empty |
| Optimality.NextHopIsOptimal | src/net/router.c:61-87 | as written: when the range test passes, between the farthest leaves or with neither side full, the next hop is optimal among all ever added |
| Optimality.IntendedNextHopIsOptimal | src/net/router.c:61-87 | with bounds at count - 1: the next hop is optimal for every destination between the farthest leaves |
| NearestKnown.HopIsTrulyNearestIff | src/net/router.c:73-87 | in the same states the leafset hop is within one of the nearest known address by the documented distance, and is nearest iff no known pair is mirrored at the least folded distance with the farther one met first |
| NearestKnown.MissedTieIff | src/net/router.c:73-80 | between the farthest leaves, the farther one is met first iff self is below the destination or is that address |
| NearestKnown.WrittenHopIsTrulyNearestIff | src/net/router.c:61-87 | as written, whenever the test passes there: the same; with neither side full it misses only what is mirrored by self as the farther one |
| NearestKnown.PredecessorIsPreferred | src/net/addr.c:98-100 | with bounds at count - 1: a router below a destination that knows it and its predecessor picks the predecessor |
| NearestKnown.PredecessorKeepsPacket | src/net/addr.c:98-100 | with bounds at count - 1: the predecessor with the destination as only leaf keeps the packet |
| NearestKnown.KnownAboveIsForwarded | src/net/router.c:66-104 | as written, neither side full: a router below a destination it knows forwards it to what the last add to its slot wrote, sharing more nibbles |
| NearestKnown.PredecessorForwardsAsWritten | src/net/router.c:66-104 | as written, with two slots or more, that predecessor forwards to the destination |
| UnsafeDestinations.MeasuredUpsideDown | src/net/addr.c:88-96 | every destination that is not borrow-safe has a byte below which the closer of two addresses measures farther; the distance in closed form |
| UnsafeDestinations.UnsafeDestinationIsMisrouted | src/net/router.c:61-87 | with bounds at count - 1: for every destination that is not borrow-safe, a router after one add, the destination between its leaves, whose next hop (self when unset) is the shadow, 255 away or more, though it knows an address at most one away |
| UnsafeDestinations.HighestIsKept | src/net/router.c:61-87 | as written, for all 0xFF bytes: the shadow, its leafset full of that destination, keeps the packet |
| UnsafeDestinations.IntendedOptimalIff | src/net/router.c:61-87 | with bounds at count - 1: optimal for every router and run of adds iff the destination is borrow-safe |
| UnsafeDestinations.WrittenOptimalIff | src/net/router.c:61-87 | as written: optimal whenever the test passes, between the leaves or neither side full, iff the destination is borrow-safe |
| UnsafeDestinations.ShortOptimalIff | src/net/router.c:61-87 | as written, neither side full: optimal for every router iff the destination is borrow-safe or highest, or leafsets have one slot |
| RunsExist.RunExists | src/net/router.c:18-59 | every sequence of calls naming other routers is a run, for every non-zero address |
| RunsExist.OneAdd | src/net/router.c:30-46 | after one add to a fresh router its leafset holds exactly that address |
| RunsExist.CloserLeafIsPicked | src/net/router.c:73-80 | a single leaf is the leafset answer when it is closer than self |
| LoopFreedom.HopLowersRank | src/net/router.c:89-115 | table and best-answer hops keep nibbles; any hop that keeps them lowers (nibbles missing, distance) lexicographically |
| LoopFreedom.RevisitNeedsBoth | src/net/router.c:61-116 | a path that returns to a router contains a leafset hop losing nibbles and a table hop |
| LoopFreedom.TableAndBestHopsNeverRevisit | src/net/router.c:89-115 | a run of table and best-answer hops visits no router twice, whatever each router knows |
| Bounces.OnlyLeafHopIff | src/net/router.c:73-87 | a router that knows one other answers with it from its leafsets iff it measures closer than self |
| Bounces.OnlyTableHopIff | src/net/router.c:89-115 | and from table or best answer iff it is lower in (nibbles missing, distance) |
| Bounces.BounceIff | src/net/router.c:61-116 | two routers that know only each other form a path of any length iff just one consults its leafsets, and the other measures closer but shares fewer nibbles |
| Bounces.WrittenBounceIff | src/net/router.c:366-379 | as written: iff the destination is not above both, and the lower measures closer but shares fewer nibbles |
| Bounces.IntendedNeverBounces | src/net/router.c:366-379 | with bounds at count - 1: never |
| Bounces.RoutingLoop | src/net/router.c:366-379 | for every address length and leafset size from 2, such a pair and destination as written |
| Bounces.WrittenRangeTestMisses | src/net/router.c:374-379 | a destination between self and its only leaf, whose next hop is farther than self |
| IntendedRange.IntendedBounceIff | src/net/router.c:61-116 | with bounds at count - 1, the lower one crowded with a nearer address: iff the destination is past that address and not above both, and the lower measures closer but shares fewer nibbles |
| IntendedRange.IntendedRangeStillLoops | src/net/router.c:61-116 | so for every address and leafset size such a pair exists |
| Queries.PickIsExact | src/net/router.c:276-293 | listed in position order, once each, are precisely the set entries that have an endpoint, with their coordinates |
| LeafsetQueries.SidesOfPositions | src/net/router.c:218-230 | position 0 is self; a set leaf lies above self iff its position is positive, below iff negative |
| LeafsetQueries.PositionsAscend | src/net/router.c:218-230 | over set positions the addresses ascend, strictly past self |
| LeafsetQueries.LeafsetQueryAscends | src/net/router.c:307-353 | a leafset query lists precisely the set entries of its range that have an endpoint, positions and addresses ascending, each with the position the getter returns it at |
| LeafsetQueries.PositionIsRank | src/net/router.c:218-230 | after adds only: position p > 0 is the p-th smallest address added above self, position -p the p-th largest below |
| Queries.RangeSizedNeverOverruns | src/net/router.c:320-342 | a slot per position is always enough |
| Queries.OverrunsIff | src/net/router.c:269-293 | overrun iff more entries are wanted than slots allocated, or as many and a set entry that cannot be serialised follows the last of them |
| Queries.OneRowQueryOverruns | src/net/router.c:269-293 | a one-row query over a row with two such entries overruns |
| Packets.Packet.Pack | src/net/packet.c:59-84 | header fields, zeroed signature, copied payload with terminator, length cut to 16 bits |
| Packets.PackedFields | src/net/packet.c:59-84 | the packet packed: time to live 32, source, destination and type as given, 64 zeros as signature, the payload's first (size mod 65536) bytes |
| Packets.Packet.Recv | src/net/packet.c:11-57 | null iff the datagram is refused; else the packet decoded, payload terminated |
| Packets.Packet.SignWith | src/net/packet.c:86-95 | only the signature field changes, to the signature of the signed bytes |
| Packets.Packet.CheckSign | src/net/packet.c:97-106 | the outcome of the check on source, signature, and destination, type and payload |
| Packets.Packet.Send | src/net/packet.c:108-124 | the bytes sent are the packed header and the payload |
| Packets.WireLayout | include/wire.h:93-100 | on the wire: length little-endian, time to live, source at byte 3, signature at 35, destination at 99, type at 131, payload from 132 |
| Packets.WireRoundTripIff | src/net/packet.c:11-124 | decoding what was sent gives the packet back iff the payload is at most 1000 bytes |
| Packets.PayloadArrivesIff | src/net/packet.c:59-84 | a payload of any size arrives whole iff it is at most 1000 bytes; otherwise at most a prefix does |
| Packets.Decode | src/net/packet.c:19-52 | refused iff under 2 bytes, declared length over 1000, or shorter than header plus declared length |
| Packets.EncodeDecoded | src/net/packet.c:35-56 | an accepted datagram begins with the encoding of the packet read from it; further bytes are ignored |
| Packets.SignedRegion | src/net/packet.c:86-95 | the length arithmetic covers exactly destination, type and payload |
| Packets.ChecksIff | src/net/packet.c:97-106 | a packet checks iff its source's key accepts its signature for destination, type and payload |
| Packets.UnsignedFields | include/wire.h:93-100 | time to live and signature are outside the signed bytes |
| Packets.SignedChecks | src/net/packet.c:86-106 | a packet signed with the key its source is the public half of checks at any time to live |
| Nodes.Node.constructor | src/node.c:45-104 | a node over a fresh router at its own address, with nothing sent and no up-call |
| Nodes.Node.SetUpcall | src/node.c:146-151 | only the up-call registration changes |
| Nodes.Node.DoForward | src/node.c:283-356 | drops at time to live 0, else lowers it and transmits to the next hop or delivers |
| Nodes.Node.DoDeliver | src/node.c:248-281 | dispatch by type: up-call, reply consumed, ping answered; `NodeLaws` says with what |
| Nodes.Node.DoSendTyped | src/node.c:205-227 | pack, sign when a key is set, forward |
| Nodes.Node.DoReceive | src/node.c:358-394 | one turn of the loop computes `Receive`, pinned by `NodeLaws.ReceiveLaw` |
| NodeLaws.ReceiveLaw | src/node.c:365-391 | nothing happens for a datagram refused or, at a checking node, whose source's key does not accept its signature for destination, type and payload; any other is forwarded |
| NodeLaws.UnknownTypesGoNowhere | src/node.c:272-324 | a packet of type 3 or more is neither sent nor handed up |
| NodeLaws.DeliveredIff | src/node.c:248-281 | the payload is handed up iff it is a user packet with time to live left, the node has an up-call and no next hop for it; and then nothing is sent |
| NodeLaws.SentToNextHop | src/node.c:315-335 | at most one datagram is sent, to the network address of the next hop for its destination: the packet with its time to live lowered, or the reply to a ping kept |
| NodeLaws.RelayedToNextHop | src/node.c:317-335 | a packet of a known type with time to live left and a next hop is sent there, once |
| NodeLaws.ReplyCarriesPing | src/handler.c:60-72 | the reply goes to the ping's source and its 20 bytes begin with the ping's own; signed if the node has a key |
| NodeLaws.PingHandled | src/handler.c:60-72 | a ping at its end comes to that reply sent to the next hop for its source, or to nothing when there is none |
| NodeLaws.DeliveriesAccounted | src/node.c:248-391 | over every run, whatever was in flight at its start: with multiplicity, what was handed up are the user payloads their sender keeps and those that arrived with time to live left, at a node with an up-call, no next hop and, if it checks, a signature that checks |
| NodeLaws.BadlySignedIsDropped | src/node.c:371-386 | over every run: the arrival of a badly signed packet at a checking node only takes it out of flight |
| Network.RunKeepsOk | src/node.c:365-391 | after every run the network is fit for the next event |
| Network.ForwardOutcome | src/node.c:283-356 | handling comes to nothing, to relaying with only the time to live changed, to one delivery, or to one reply sent |
| Network.OutcomeCost | src/handler.c:60-72 | sends made and still possible never exceed the packet's budget, reply included |
| Network.StepTransmissions | src/node.c:205-227 | sends made plus sends possible grow by at most 32 per injected packet, 63 per ping |
| Network.ArrivalLowersWeight | src/node.c:365-391 | every arrival or loss lowers the weight of what is in flight |
| Network.RunsTerminate | src/node.c:283-391 | a run without injections has at most as many arrivals and losses as its initial weight |
| Network.TransmissionsBounded | include/net/packet.h:24 | over every run: at most 32 transmissions per packet sent and 63 per ping with its reply |
| Network.SignaturesSurvive | src/net/packet.c:86-106 | over every run, every datagram claiming a signing node as source carries a signature that checks |
| Network.SignedIsNeverRejected | src/node.c:371-386 | such a datagram is never rejected, wherever and after however many hops it arrives |
| WorstCase.PacketBoundAttained | include/net/packet.h:24 | a run in which one packet is transmitted 32 times |
| WorstCase.PingBoundAttained | src/handler.c:60-72 | a run in which one ping and its reply are transmitted 63 times |
| Network.DeliveriesWereInjected | src/node.c:205-356 | over every run, user payloads delivered or in flight are, with multiplicity, what the length field keeps of payloads injected; the payloads themselves below 65536 bytes |
| Delivery.TravelSpendsTtl | src/node.c:283-391 | along a chain of nodes, each sending to the network address of the next, a packet is delivered at the end iff its time to live covers the chain, else lost |
| Delivery.UserPayloadArrivesIff | src/node.c:205-391 | the payload is handed up whole at the end of the chain iff it has at most 32 nodes and the payload 1000 bytes; at the sender itself iff the payload is under 65536 bytes |
| Delivery.PingIsAnswered | src/handler.c:60-72 | a ping of at most 1000 bytes along a chain of at most 32 nodes comes to a reply with its first 20 bytes, sent by the last node to its next hop for the pinging one |
| Vectors.Vec.WithCapacity | src/data/vec.c:14-27 | empty, with the given capacity |
| Vectors.Vec.constructor | src/data/vec.c:10-12 | empty, with capacity 8 |
| Vectors.Vec.At | src/data/vec.c:44-54 | the element, or nothing past the size |
| Vectors.Vec.Realloc | src/data/vec.c:70-75 | contents kept under the new capacity, every element counted as moved |
| Vectors.Vec.Push | src/data/vec.c:56-81 | contents gain the element; capacity doubles, or becomes 1, when full |
| Vectors.Vec.RemoveAt | src/data/vec.c:83-109 | the last element replaces the removed one; capacity halves at half use, not below 8 |
| Vectors.RemovalKeepsOthers | src/data/vec.c:83-95 | the last element takes the removed one's place, every other stays where it is, and with multiplicity only the removed one is gone |
| Vectors.ContentsConserved | src/data/vec.c:56-109 | over every run: contents and elements returned by removals are, with multiplicity, the initial contents and the elements pushed |
| Vectors.SpaceBound | src/data/vec.c:83-109 | over every run from the default: the contents fit, and capacity is 8 or under twice the size |
| Vectors.PushesMoveLittle | src/data/vec.c:62-76 | m pushes onto a fresh vector move fewer than 2m elements |
| Vectors.BoundaryCallsMoveAll | src/data/vec.c:97-106 | at a full vector, a push undone by a removal moves everything twice |

## Left out

- Routers.Router.Set: takes an address other than the router's own; that one indexes to (2n, 255), and the source writes there, outside the table.
- Routers.Router.UpdateLeafset: takes an address other than the router's own, which would enter its right leafset, because the call before it has by then written outside the table.
- Routers.Router.Add: takes an address other than the router's own, whose index (2n, 255) lies outside the table.
- Routers.Router.Remove: takes an address other than the router's own, for the same reason.
- Leafsets.SortLeafset: an insertion sort stands in for the C library's `qsort`; only the contract they share is used.
- Optimality.NextHopIsOptimal: says nothing when a side is full and the destination is not between the farthest leaves; the test's outcome then depends on what it reads outside the array.
- Optimality.LeafsetPickIsOptimal: covers runs of adds; after a removal, addresses evicted earlier are not brought back.
- HexText.ParseAddress: takes the text before its terminator; reading past an unterminated 64-character array is not modelled.
- Vectors.Vec.Push: allocation succeeds, elements are opaque values rather than `elem_size` bytes, and capacities do not overflow.
- Nodes.Node.DoDeliver: the reply handler, an unimplemented stub that asserts, consumes the packet; a ping of less than 20 bytes by its length field is answered with bytes of an unconstrained parameter after its own, be they its terminator, the rest of a payload too long for that field, or foreign memory.
- Network.ForwardOutcome: a ping and the reply sent while handling it see the same foreign memory.
- `sn_net_router_table_set` and `sn_net_router_leafset_set`: raw writes that bypass the invariants are not part of the runs.
- Network addresses are opaque, with a flag for whether they can be serialised; what serialisation keeps of them (src/io/naddr.c) is not part of this model.
- Signatures are any scheme whose check accepts what the matching key signed; libsodium and unforgeability are not part of this model.
- Sockets, threads, atomics, return codes and send failures: the network is a sequence of datagrams in flight that may arrive in any order or be lost, but not duplicated.
- Logging, string rendering of routers and packets, closures, joining and reply registration: plumbing or stubs that would add only easy members.

# A verified model of librtbit-dht

A Dafny model of the Mainline DHT node in librtbit-dht: its routing table, the protocol around its
outgoing requests, the recursive find-node lookup, the store of announced peers with its garbage
collector, the store of mutable items, and the buffer a mutable item's signature covers.

`dafny verify dfyconfig.toml` checks the whole project.

## How it is organised

- `Ids.dfy` has 160-bit identifiers as bits, most significant first, ordered as big-endian numbers,
  with XOR distance. Its lemmas connect shared prefixes, numeric ranges and distances.
- `Nodes.dfy` has one routing table entry, its status, and the replay of the events that happened to it.
- `KBuckets.dfy` is the routing table in its simple form: bucket `k` holds the entries that share
  exactly `k` leading bits with our id, and one bucket of our own splits. Insertion is shown to be an
  update of a map from id to entry, with the exact condition of each result.
- `Arenas.dfy` and `BucketTree.dfy` have the table as the program keeps it, an array of tree nodes
  linked by index. The predicate `Arena` fixes the array completely for a given k-bucket table, and
  every method is proved to do to the array what the k-bucket functions do to the table.
- `LeafIteration.dfy`, `TableOrder.dfy` and `RoutingTable.dfy` have the explicit-stack iterator, the
  ranking by status and distance, and the table object with what holds after any run of operations.
- `Transactions.dfy` is the in-flight protocol as a state machine; `InFlight.dfy` is the program's side
  of it, with the wrapping counter.
- `UsefulNodes.dfy`, `Traversal.dfy` and `FindNode.dfy` have the list of useful nodes, why the lookup
  ends, and the lookup itself with what it finds.
- `Tokens.dfy`, `PeerMaps.dfy`, `PeerStore.dfy` and `PeerCollector.dfy` have the token queue, the peer
  lists, the store as a state machine, and the store in place with the phases of its collector;
  `Evictions.dfy` says which peers the collector lets go first.
- `MutableItems.dfy` and `SignableData.dfy` have the mutable items and the signing buffer.
- `Sorting.dfy` and `Wrappers.dfy` are shared helpers: a stable sort, searching and filtering, options,
  addresses, clock readings.

## What the code does that a reader may not expect

- A refused contact is refused for exactly one reason besides a full table: eight entries that are not
  Bad share just as many leading bits with us as it does. The lazy splitting is invisible
  (`KBuckets.AddRefinesMap`).
- The length of a routing table counts replacements. The repository's own expectation that it stays
  within the limit (src/routing_table.rs:968-973) holds over a run exactly when no contact is taken in
  while the length is at the limit (`RoutingTables.LengthWithinLimitIff`). It fails when a Bad entry is
  replaced then, and also when, after earlier replacements, a contact is added to the room still left.
  `RoutingTables.LengthCanExceedLimit` is a run that fails, and `RoutingTables.RunCounts` gives the
  exact length.
- The collector is documented to evict the oldest peers first (src/peer_store.rs:236), but it drains
  whole hashes. `Evictions.NewerPeerEvictedFirst` is a run in which a newer peer is evicted and an older
  one kept. `Evictions.FairAtIff` says, from the lists and the excess, when the documented order holds
  under a given limit, and `Evictions.OldestGoFirstIff` when it does whatever the limit.
- Announcing never exceeds the peer limit, so a collection evicts for the limit only after a dump was
  loaded that holds more peers than its limit. `PeerStores.RunKeepsLimitsIff` says exactly when the peers and the tokens stay
  within their limits, and `PeerStores.WithinLimitOnlySweeps` that nothing is evicted while they do.
- A mutable item store with a limit of zero still keeps an item; `MutableItems.RunsKeepLimitIff` says
  that every other limit is kept.
- The in-flight protocol relies on the 16-bit counter not coming round while a request is live.
  `Transactions.WrapAroundLosesBoth` is a run that loses two requests otherwise, and
  `Transactions.OrphanedIffClash` is the exact condition over whole executions.
- A reply to an announcement can remove the entry of a cancelled request that was left behind under the
  same id and address; it reaches no live request (`Transactions.AnnounceReplyReachesNobody`), and
  `Transactions.AnnounceReplyRemovesLeftBehind` is a run within the window in which it does so.
- A node that drops off the list of useful nodes, or is refused when first found, is never asked again in
  that lookup (`UsefulNodes.GoneStays`): what pushed it off ranks before it for good.
- A find-node visit fails when the reply brings peers, because nobody listens for them
  (src/dht.rs:275, 452-456); the nodes in such a reply are not visited (`FindNode.RequestOne`).

## Model

| member | source | states |
|---|---|---|
| Nodes.HistoryFields | src/routing_table.rs:450-468 | after any events the error count is the number of errors since the last response, the request, response and query times are the latest ones, with a first response standing in for a request, and a recorded response implies a recorded request |
| Nodes.BadFromHistory | src/routing_table.rs:422-425 | an entry is Bad, at any time, exactly when it was ever asked and failed at least twice since its last response |
| Nodes.GoodFromHistory | src/routing_table.rs:427-434 | an entry is Good exactly when it has fewer than two errors since its last response, has responded, and responded or queried us within 15 minutes |
| Nodes.QuestionableFromHistory | src/routing_table.rs:436-447 | an entry is Questionable exactly when it is neither Bad nor Good, its latest response or query is more than 15 minutes old and so is its latest request, if there was one; what is left is Unknown |
| Nodes.StatusOverTime | src/routing_table.rs:422-448 | an entry asked and answered once is Good for 15 minutes, Unknown at that moment and Questionable after; one never contacted is Unknown |
| Nodes.BadPersists | src/routing_table.rs:450-468 | nothing but a response ends Bad |
| Nodes.RequestClearsQuestionable | src/routing_table.rs:436-452 | after a request an entry is not Questionable for a whole inactivity period, whatever else happens |
| KBuckets.SplitIsDeepEnough | src/routing_table.rs:304-338 | pigeonhole: a full bucket that contains us and is offered a ninth id spans at least four bits, so splitting never underflows |
| KBuckets.AddKeepsValid | src/routing_table.rs:247-366 | insertion keeps every bucket ordered, within eight entries and on its side of our id, the counter exact and within the limit |
| KBuckets.AddRefinesMap | src/routing_table.rs:261-365 | insertion is an update of the map from id to entry: each of the four results has an exact condition on the table before, Added adds one entry, ReplacedBad swaps the Bad entry of smallest id in the bucket, the others change nothing, however many splits happened |
| KBuckets.OwnBucketNeverRefuses | src/routing_table.rs:312-315 | below the limit a refusal means the contact's final bucket is not ours and holds eight entries, none Bad |
| KBuckets.AddRefreshes | src/routing_table.rs:283-348 | insertion refreshes the bucket of a contact it takes in and the buckets that come from splitting, and no others |
| KBuckets.TouchRefinesMap | src/routing_table.rs:222-240 | an event changes the entry it is for, if stored, and no other; a response also refreshes the bucket |
| Arenas.ArenaStructure | src/routing_table.rs:143-172 | every range is an aligned block of 2^bits ids, children are its two halves, inner nodes contain us, and a leaf is exactly a power-of-two band of XOR distances, or the ball around us |
| Arenas.LeavesPartition | src/routing_table.rs:204-220 | every id lies in the range of exactly one leaf, and that leaf holds its bucket |
| Arenas.ArenaBound | src/routing_table.rs:261-365 | at most 157 inner nodes, 158 leaves and 315 arena entries, always |
| Arenas.SplitBoundsOrdered | src/routing_table.rs:159-171 | the three debug assertions on the bounds of a split hold for every block of at least four ids |
| Arenas.SplitOfBlock | src/routing_table.rs:148-171 | clearing and setting the first free bit gives the blocks of the two longer prefixes |
| Arenas.ArenaSplit | src/routing_table.rs:329-359 | appending two leaves and linking them gives the arena of the split table |
| BucketTrees.GenerateRandomId | src/routing_table.rs:132-141 | the id takes its fixed bits from the range start and the rest at random |
| BucketTrees.RandomWithinRoutesBack | src/routing_table.rs:86-90 | a random id drawn within a leaf is looked up in that leaf |
| BucketTrees.BucketTree.constructor | src/routing_table.rs:183-194 | one empty leaf for the whole space |
| BucketTrees.BucketTree.GetLeaf | src/routing_table.rs:204-220 | the walk ends at the only leaf whose range holds the id |
| BucketTrees.BucketTree.GetMut | src/routing_table.rs:222-240 | a hit exactly when the id is stored, and only a hit refreshes the leaf |
| BucketTrees.BucketTree.AddNode | src/routing_table.rs:242-245 | the arena ends up as the one for the table after insertion, with the same result |
| BucketTrees.BucketTree.InsertIntoLeaf | src/routing_table.rs:247-366 | the split loop ends and equals the insertion on k-buckets |
| BucketTrees.BucketTree.OfferToLeaf | src/routing_table.rs:262-310 | one pass of the loop short of splitting: existing, replaced, refused for size, or added |
| BucketTrees.BucketTree.SplitLeaf | src/routing_table.rs:317-359 | the leaf becomes an inner node over its two halves, at the two new indices |
| LeafIteration.LeafIterator.Next | src/routing_table.rs:104-130 | each call yields the next leaf of the recursive in-order walk, and none only when all were yielded |
| LeafIteration.IterationTilesTheSpace | src/routing_table.rs:196-202 | a full iteration visits every leaf once, and their ranges follow each other without gap from 0 to 2^160 - 1 |
| TableOrder.EntriesAreTheMap | src/routing_table.rs:200-202 | a full scan is strictly ascending by id, has as many entries as the counter says, and has exactly the entries a lookup finds |
| TableOrder.RankingIsStrict | src/routing_table.rs:495-511 | the ranking has every stored entry once, in strict order of status and distance |
| TableOrder.RankingByStatusAndDistance | src/routing_table.rs:501-509 | Good entries rank first, then Questionable, Unknown and Bad ones, and among those of one status the closer ones |
| TableOrder.RankingIgnoresShape | src/routing_table.rs:495-511 | the ranking depends only on the stored entries, the target and the clock |
| TableOrder.CompactNodesAreClosest | src/dht.rs:747-768 | at most eight distinct stored nodes of the wanted family; a node of the family is left out only when eight are given, all ranking before it |
| TableOrder.CompactNodesPreferGood | src/dht.rs:757-766 | a Good node is left out only for Good ones that are closer, a Bad one is given only before farther Bad ones |
| RoutingTables.RunCounts | src/routing_table.rs:492-533 | after any run the stored entries are within the limit and the length is their number plus the number of past replacements |
| RoutingTables.StepLengthens | src/routing_table.rs:521-533 | an operation lengthens the table by one exactly when it offers a contact that is not stored while the contact's bucket has a Bad entry or there is room |
| RoutingTables.LengthWithinLimitIff | src/routing_table.rs:968-973 | over any run the length stays within the limit exactly when no operation takes a contact in, by replacement or into free room, while the length is at the limit |
| RoutingTables.LengthIsStoredIffNoReplacement | src/routing_table.rs:521-533 | the length is the number of stored entries exactly when no operation of the run offers a contact that is not stored to a bucket with a Bad entry |
| RoutingTables.LengthCanExceedLimit | src/routing_table.rs:521-533 | replacing the only entry of a table limited to one gives length two |
| RoutingTables.EntryIsItsHistory | src/routing_table.rs:534-568 | in any run a stored entry has the address it was added with and is the replay of what was reported for it since |
| RoutingTables.BadInRuns | src/routing_table.rs:422-425 | in any run a stored entry is Bad exactly when it was asked and failed twice since its last response |
| RoutingTables.ReportRefreshes | src/routing_table.rs:534-568 | a response refreshes the bucket of its entry and no other; other reports refresh none |
| RoutingTables.RoutingTable.AddNode | src/routing_table.rs:521-533 | the whole new table, and the counter moved for additions and replacements |
| RoutingTables.RoutingTable.MarkOutgoingRequest | src/routing_table.rs:534-541 | the request is recorded for the stored entry, and the result says whether there is one |
| RoutingTables.RoutingTable.MarkResponse | src/routing_table.rs:543-550 | the response is recorded for the stored entry and its bucket refreshed |
| RoutingTables.RoutingTable.MarkError | src/routing_table.rs:552-559 | the error is recorded for the stored entry |
| RoutingTables.RoutingTable.MarkLastQuery | src/routing_table.rs:561-568 | the query is recorded for the stored entry |
| RoutingTables.RoutingTable.SortedByDistanceFrom | src/routing_table.rs:495-511 | collecting leaf by leaf and sorting gives the ranking of all entries |
| Transactions.TidRoundTrip | src/bprotocol.rs:423-430 | exactly the two bytes written for an id read back as that id |
| Transactions.TidIsBigEndian | src/bprotocol.rs:423-430 | the high byte of an id comes first |
| Transactions.LiveIdsDiffer | src/dht.rs:656-658 | no two live requests share an id |
| Transactions.OrphanedIffClash | src/dht.rs:621-654 | over every interleaving, no request loses its entry to another exactly when no step inserts over, or on a dead worker removes, the entry of another waiting request |
| Transactions.CleanKeepsTable | src/dht.rs:621-654 | in every execution without such a clash the table holds exactly the waiting requests under their own keys, plus abandoned ones |
| Transactions.RunsAreClean | src/dht.rs:621-658 | no interleaving within the window of 65536 ids has a clash, and its ids are the serials wrapped, in order |
| Transactions.StepEffect | src/dht.rs:621-654 | each step changes the phases of the requests it is about and of no others |
| Transactions.ReplyGoesToItsRequest | src/dht.rs:778-809 | a reply completes exactly the waiting request whose two-byte id and address it carries |
| Transactions.AnnounceReplyReachesNobody | src/dht.rs:143-156 | a reply to an announcement reaches no request, and changes the table only if an abandoned entry has its key |
| Transactions.FirstOwnStepDecides | src/dht.rs:621-654 | in every execution without a clash the steps after its insertion fix what becomes of a request: it waits until its first own reply, send error, timeout, dead worker or cancellation; the last three end it for good, and an outcome is returned unless the worker dies or the request is cancelled before it is collected |
| Transactions.TimedOutIffNothingCame | src/dht.rs:640-653 | a request returns a timeout exactly when its timer fires before any reply or send error for it and before it ends otherwise |
| Transactions.AnswersAreGenuine | src/dht.rs:778-809 | in every execution without a clash an answer that is returned came, while the request waited, in a reply with its id and from its address |
| Transactions.FairRequestsReturnOnce | src/dht.rs:640-653 | in every endless execution a request that was sent and is not starved of its timer or channel returns or is dropped, exactly one of the two and exactly once, clashes or not |
| Transactions.AnnounceReplyRemovesLeftBehind | src/dht.rs:143-156 | a run within the window whose last step, the reply to an announcement, removes the entry a cancelled request left behind |
| Transactions.WrapAroundLosesBoth | src/dht.rs:645-648 | without the window assumption a concrete run loses two requests |
| InFlight.DhtState.CreateRequest | src/dht.rs:656-658 | the wrapping counter hands out the next serial modulo 65536, and its bytes read back as it |
| InFlight.DhtState.InsertOutstanding | src/dht.rs:624-627 | the insertion step of the protocol |
| InFlight.DhtState.OnReply | src/dht.rs:778-809 | the reply step, with each of its two errors exactly when its condition holds |
| InFlight.DhtState.OnSendError | src/dht.rs:1032-1038 | the send error step |
| InFlight.DhtState.GiveUp | src/dht.rs:633-653 | the timeout and dead worker steps |
| UsefulNodes.ApplyKeepsOk | src/dht.rs:488-570 | no id is listed twice and the list stays within its limit |
| UsefulNodes.AskKeepsTheBest | src/dht.rs:542-569 | the list becomes the best `limit` of the old nodes and the new one in strict order, and the answer is whether the new one is among them |
| UsefulNodes.YesIsRecorded | src/dht.rs:533-540 | yes means listed as asked now, and for a listed node only after a minute |
| UsefulNodes.ListedIsAskedAfterAMinute | src/dht.rs:527-540 | within the depth bound a listed node is asked again exactly when its last request is more than a minute old; then that request becomes now, and otherwise nothing changes |
| UsefulNodes.NothingAtTheBound | src/dht.rs:527-529 | at the depth bound no node is asked and nothing is noted |
| UsefulNodes.NewcomerIsOrdered | src/dht.rs:542-569 | a node that is not listed enters as asked now and never answered, is asked exactly when it stays and always when there is room; the list is ordered by returned peers, then responses, then distance |
| UsefulNodes.ResponseIsNoted | src/dht.rs:499-518 | a response sets the time, ends the errors and says whether it brought peers, for the first node with the address only |
| UsefulNodes.FailureIsNoted | src/dht.rs:488-497 | a failure is one more error of the first node with the address and nothing else |
| UsefulNodes.LeavingIsGone | src/dht.rs:542-569 | a node that drops off the list leaves it full of other nodes that responded, returned peers or are closer |
| UsefulNodes.RefusedIsGone | src/dht.rs:542-569 | so does a node that is refused on its first try within the depth bound |
| UsefulNodes.GoneStays | src/dht.rs:488-570 | whatever happens the list stays so: a node that was dropped or refused never gets back on it nor another yes |
| UsefulNodes.OneYesAMinute | src/dht.rs:533-569 | over any run, also one in which it is dropped, a node gets its next yes only more than a minute after the last |
| UsefulNodes.RecursiveRequest.ShouldRequestNode | src/dht.rs:520-570 | the new list and the answer, and no yes at the depth bound |
| UsefulNodes.RecursiveRequest.MarkNodeResponded | src/dht.rs:499-518 | the first node with the address is marked, and the result says whether there is one |
| UsefulNodes.RecursiveRequest.MarkNodeError | src/dht.rs:488-497 | the first node with the address gets an error, and the result says whether there is one |
| Traversal.NextLowers | src/dht.rs:304-327 | every turn of the loop lowers the pending work at one depth and leaves shallower depths alone |
| Traversal.NoEndlessTraversal | src/dht.rs:304-327 | whatever the replies and whatever the depth bound, no traversal goes on for ever |
| FindNode.FinishFollows | src/dht.rs:440-486 | a visit keeps the list in order and leads only to nodes of its reply, of its own family, one level deeper and within the bound, and to none unless the reply counts as a success |
| FindNode.NewNodesAreVisited | src/dht.rs:472-484 | while the list has room and depth is left every node of a reply that was not listed is visited, whatever its place in the reply |
| FindNode.NewNodesOfReplyAreVisited | src/dht.rs:458-484 | while the list has room and depth is left a reply leads to every node it names that is of the visited family and not listed, one level deeper |
| FindNode.OneMoreOfTheFamily | src/dht.rs:458-484 | a reply is worked through to its end: one more node of the visited family is one more decision on the list so far, and a visit exactly on yes |
| FindNode.OneMoreOfTheOther | src/dht.rs:458-470 | a node of the other family changes nothing, and neither does a reply without nodes |
| FindNode.OtherOutcomes | src/dht.rs:440-456 | without a reply the node gets one more error; an error reply or one with peers changes nothing; none of them leads to a visit |
| FindNode.QueueNodes | src/dht.rs:472-484 | deciding on the nodes one by one gives the list and the visits of the fold, in order |
| FindNode.RequestOne | src/dht.rs:440-486 | a visit succeeds exactly on a reply without peers; the list and the visits afterwards are what the reply determines |
| FindNode.FindNodeForRoutingTable | src/dht.rs:262-335 | for any network the loop ends; the visits ever queued are the addresses and all that the replies led to, each ended exactly once and after it was queued, with the network's reply; it fails exactly when no reply counts as a success |
| FindNode.FinishOnce | src/dht.rs:472-484 | no reply leads to two visits of one node, even if it names the node twice |
| FindNode.VisitedAgainAfterAMinute | src/dht.rs:472-484 | a reply leads to a node found before only more than a minute after the end of a visit that led to it |
| FindNode.VisitsOnceAMinute | src/dht.rs:472-484 | a lookup whose visits all end within a minute visits no node found in a reply twice |
| Tokens.QueueIsLastUnexpired | src/peer_store.rs:119-133 | the queue is the last tokens handed out up to the limit, less those expired at the latest cleaning |
| Tokens.AcceptedIsBacked | src/peer_store.rs:144-149 | a token is accepted exactly when it was handed out to that node at that address and is neither pushed out nor collected |
| PeerMaps.CleanListKeepsNewest | src/peer_store.rs:262-269 | a cleaned list has at most a hundred distinct recent peers and drops a recent one only for a hundred that are no older; cleaning again changes nothing |
| PeerMaps.SweptIsFixed | src/peer_store.rs:257-282 | sweeping all lists leaves none empty, and sweeping again changes nothing |
| PeerMaps.LeftAtCutIsNewest | src/peer_store.rs:313-319 | the hash at the cut loses exactly the given number of peers, none newer than one it keeps |
| Evictions.OldestGoFirstIff | src/peer_store.rs:293-325 | whatever the limit, and in whatever order it takes equally old hashes, a collection evicts no peer newer than one it keeps, exactly when the swept lists do not interleave in time |
| Evictions.FairAtIff | src/peer_store.rs:288-325 | under a given limit, in whatever order equally old hashes are taken, no evicted peer is newer than a kept one exactly when what each list may lose is no newer than what any later one keeps, as far as the excess reaches |
| Evictions.DrainedInOrder | src/peer_store.rs:307-325 | over the cap a hash loses peers only when all hashes with older peers are gone, and at most one hash is left in part |
| Evictions.NewerPeerEvictedFirst | src/peer_store.rs:236 | a run from an empty store, ending in a collection that evicts a newer peer and keeps an older one |
| PeerStores.StorePeerKeepsInv | src/peer_store.rs:135-188 | the counter stays the sum of the list lengths, lists stay non-empty and without repeated addresses, and the count is never pushed past the cap |
| PeerStores.StorePeerStoresIff | src/peer_store.rs:135-188 | an announcement is stored exactly when it is close enough, shows a token and refreshes a listed peer or finds room; then that peer is listed as of now and nothing else changes |
| PeerStores.StoredUnderAddress | src/peer_store.rs:155-157 | with an implied port the peer is listed under the address it announced from, otherwise under that address with the announced port; listed peers keep their places |
| PeerStores.CollectionGuarantees | src/peer_store.rs:237-332 | after a collection the invariant holds, exactly the excess over the cap is gone, and each list has at most a hundred peers within the lifetime, none older than a recent one the per-list limit dropped |
| PeerStores.RecentPeersSurvive | src/peer_store.rs:252-327 | a peer seen within the last 15 minutes survives a collection unless a hundred peers of its list are no older, or the cap was exceeded and the collection ends right at it |
| PeerStores.OldOnesGo | src/peer_store.rs:240-282 | what stays is peers seen within the last 15 minutes, at most a hundred a list and no empty list, and exactly the tokens of the last 10 minutes |
| PeerStores.CollectTwice | src/peer_store.rs:237-332 | collecting again at the same time changes nothing |
| PeerStores.RunKeepsInv | src/peer_store.rs:94-102 | over every run of announcing, handing out tokens, collecting and reloading any earlier dump the counter is exact and every list in order |
| PeerStores.RunKeepsLimitsIff | src/peer_store.rs:94-102 | over any run the peers and the tokens stay within their limits exactly when no reload, of whatever earlier point of the run, sets a limit below what its dump holds |
| PeerStores.WithinLimitOnlySweeps | src/peer_store.rs:288-326 | a collection of a store within its limit evicts nothing beyond the sweep |
| PeerStores.StoredWasHandedOut | src/peer_store.rs:144-149 | over any run, with reloads of any earlier dump and any clock, a stored announcement shows a token that was handed out to that node at that address |
| PeerStores.StoredIsBacked | src/peer_store.rs:144-149 | between reloads, from any tokens within the limit and under a clock that never goes back, that token was loaded or handed out and is neither pushed out nor collected |
| PeerCollector.SweepLists | src/peer_store.rs:252-282 | for every iteration order the result is the swept map, and the peers removed are counted exactly |
| PeerCollector.CountPeers | src/peer_store.rs:284-286 | the sum of the list lengths, in any iteration order |
| PeerCollector.EntriesByOldest | src/peer_store.rs:295-307 | every hash once, by the time of its oldest peer |
| PeerCollector.EvictOldest | src/peer_store.rs:289-326 | hashes before a cut emptied and removed, the one at the cut trimmed of its oldest peers, later ones untouched, and exactly the excess evicted |
| PeerCollector.PeerStore.GenTokenFor | src/peer_store.rs:119-133 | the new token is queued, the oldest one pushed out beyond the limit, and the token is then accepted |
| PeerCollector.PeerStore.StorePeer | src/peer_store.rs:135-188 | the whole new store and the answer |
| PeerCollector.PeerStore.GetForInfoHash | src/peer_store.rs:190-205 | exactly the listed addresses of the wanted families |
| PeerCollector.PeerStore.LookupKeepsOrder | src/peer_store.rs:190-205 | each listing of a wanted family is given once, in the order of the list |
| PeerCollector.PeerStore.GarbageCollectPeers | src/peer_store.rs:237-341 | the four phases amount to a collection, and the removed total is the drop of the counter |
| MutableItems.StoreKeepsLimit | src/mutable_item_store.rs:54-69 | a store within a limit of at least one stays within it |
| MutableItems.StoredExactly | src/mutable_item_store.rs:54-69 | an item is refused, and nothing changes, exactly when its sequence number is no greater than the stored one; storing evicts nothing unless the target is new and there is no room, and then one oldest item |
| MutableItems.RunsKeepLimitIff | src/mutable_item_store.rs:54-69 | every run stays within the limit exactly when the limit is at least one |
| MutableItems.StepOnTarget | src/mutable_item_store.rs:54-69 | while a target stays stored its item is replaced only by a strictly greater sequence number |
| MutableItems.HeldIsGreatestOffer | src/mutable_item_store.rs:54-69 | in any run the sequence number held is the greatest offered since the target last entered |
| MutableItems.EvictionShrinks | src/mutable_item_store.rs:95-105 | evicting removes one item, no newer than any that stays |
| MutableItems.MutableItemStore.StoreItem | src/mutable_item_store.rs:54-69 | the new contents and the answer |
| MutableItems.MutableItemStore.GarbageCollect | src/mutable_item_store.rs:78-82 | the loop ends at the limit, and everything removed is no newer than everything kept |
| MutableItems.MutableItemStore.EvictOldest | src/mutable_item_store.rs:95-105 | one least recently updated item goes, if there is any |
| SignableData.Build | src/bep44_crypto.rs:33-50 | the appends give the encoding of the three parts |
| SignableData.KnownBuffers | src/bep44_crypto.rs:33-50 | two buffers in full, byte by byte, with a salt and without, for a positive and a negative sequence number |
| SignableData.DecimalIsPositional | src/bep44_crypto.rs:38-44 | numbers are written in decimal ASCII digits, the last digit at the end, without leading zeros |
| SignableData.DecodeEncode | src/bep44_crypto.rs:33-50 | every salt, sequence number and value reads back exactly, whatever bytes they contain |
| SignableData.EncodeDecode | src/bep44_crypto.rs:33-50 | the reader accepts nothing but what the writer produces |
| SignableData.EncodeInjective | src/bep44_crypto.rs:33-50 | two items share a signing buffer only if all three parts agree |

## Left out

- Sockets, tasks, rate limiting, bootstrap, retries and logging: input and output; replies, timeouts and
  interleavings are arbitrary steps.
- Message encoding and decoding apart from the two-byte transaction id; the crates it rests on are not
  part of this model.
- Ed25519 and SHA-1, and the target of a mutable item: foreign functions.
- Persistence and JSON, except that a reload recounts the peers and takes the two limits of the dump; the
  rest of the dump was written at an earlier point of the run, under the same id and distance limit.
- The replies to queries, beyond which nodes they list and which tokens they hand out.
- Atomics and locks inside the peer and mutable item stores, which are modelled as sequential objects.
- Clocks and random bytes are parameters; the several clock readings inside one call are taken as one.
- Machine integers: counts, error counters and lengths are unbounded; the bounds proved for tables and
  peers are far below the widths used. The sum of a reloaded dump is taken not to overflow 32 bits.
- FindNode.RequestOne: the callbacks into the routing table. The first of the two sends of a visit only
  marks its node, at any time while the visit runs, and the choice of which visit ends next is arbitrary.
- Transactions.RunsAreClean: within the assumption that fewer than 65536 ids are handed out while a
  request is live; without it `Transactions.WrapAroundLosesBoth` and `Transactions.OrphanedIffClash`
  apply.
- The forever-running get-peers lookup, the pinger and the bucket refresher, which drive the operations
  modelled here.
- Routing table entries and stored peers are values owned by their list, as in the source; there is no
  aliasing to model.

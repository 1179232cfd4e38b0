# A verified model of py-ipv8's stateful algorithms

py-ipv8 is a peer-to-peer networking library. This project models the parts of it that carry real algorithmic
state and proves what they promise:

- **Routing table** (`Tries`, `RoutingSpec`, `RoutingRuns`, `RoutingSearch`, `Routing`, on top of `BitStrings` and
  `Ranking`): the Kademlia table, whose buckets hang on a prefix tree of linked nodes. The prefix tree refines a
  finite map; the buckets always partition the 160-bit ids; adding a node always ends and conserves nodes; the
  widening search finds exactly what brute force would find.
- **Token tree** (`TokenSpec`, `TokenChains`, `TokenPaths`, `TokenExchange`, `TokenTrees`, `TokenRuns`): hash-linked
  tokens that arrive in any order. Delivery is confluent, the exchange of missing tokens converges, a dump rebuilds
  the tree, and every element of every run hangs on the owner's key.
- **Identity overlay** (`Identity`): serving missing tokens, the smallest disclosure that satisfies a request, and the
  framing of metadata and attestations.
- **Crawl** (`CrawlFrontier`, `CrawlRuns`, `Crawls`): the iterative lookup, as an object and as a state machine over all
  interleavings of its contact tasks.
- **Storage** (`Storages`): versioned values with recency order.
- **Loader** (`Loader`): the scheduler with its n² budget.
- **Serializer** (`Serialization`) and **attestation chunks** (`Chunks`): round trips.

Objects that the program changes in place are classes whose methods are proved against functions on values; the
theorems are lemmas about those functions. A `None` result stands for the exception or the `None` of the program.

Assumptions that the model makes explicit: hash functions and signature checks are parameters; where a theorem needs
that a hash has no collisions, its precondition says so; the hash of the owner's key is not the hash of a token; a
node's id does not change while the node is in a table (the address update of a known id keeps the id). Time and
randomness are parameters. Children of a prefix-tree node keep their order of insertion. Node records are values, and
`RoutingRuns.Op.Observe` stands for the changes that other code makes to the failure count and round-trip time of a
node inside a table.

Where the code falls short of its evident purpose, the code is kept and its exact limit is proved: when the search for
nearest nodes is not the brute-force one because nodes share a public key (`SearchExact`, `AheadDecides`,
`SharedKeyIsReached`), when a crawl keeps a key under a farther id (`FilterExact`, `NearerIdIsMissed`), when packed data
does not come back (`RoundTrip`), when a chain of tokens is too long for the buffer (`TokensConfluent`,
`LongChainLosesTokens`), when cleaning keeps expired values (`CleanExact`, `KeyIdShields`), that deleting the last key of
a prefix tree raises after the removal (`Trie.Delete`), and that an empty blob is never completed (`ReassemblyExact`).

## Model

| member | source | states |
|---|---|---|
| `BitStrings.IdBitsInjective` | ipv8/dht/routing.py:33-37 | Different ids have different 160-character binary strings. |
| `BitStrings.IdBit` | ipv8/dht/routing.py:33-37 | Bit 8i + j of the binary string is bit j, counted from the most significant, of byte i: the first byte comes first. |
| `BitStrings.DistanceOrder` | ipv8/dht/routing.py:40-44 | Which of two ids is nearer is decided by the XOR of the first byte in which they differ. |
| `BitStrings.SharedPrefixIsNearer` | ipv8/dht/routing.py:40-44 | An id that shares the first i bits with a target is strictly nearer, by XOR distance, than any id that does not. |
| `BitStrings.DistanceInjective` | ipv8/dht/routing.py:40-44 | Two ids at the same distance from a target are the same id. |
| `BitStrings.BitStringCount` | ipv8/dht/routing.py:208-226 | There are at most 2^n bit strings of length n: the pigeonhole behind the bound on splits. |
| `Tries.Trie.FindNode` | ipv8/dht/trie.py:41-50 | Walking the linked nodes finds the node of exactly the keys that have one. |
| `Tries.Trie.Get` | ipv8/dht/trie.py:52-59 | Reading agrees with the finite map the tree stands for; the KeyError is exactly the missing key. |
| `Tries.Trie.Set` | ipv8/dht/trie.py:61-75 | Writing updates the map at one key, makes no dead branches, and raises exactly for a character outside the alphabet, leaving the map as it was; children stay in alphabetic order when the key leaves the stored keys behind all of them. |
| `Tries.Trie.Delete` | ipv8/dht/trie.py:77-98 | Deleting removes exactly one key and leaves no dead branch; it raises exactly when the key is absent or was the last one. |
| `Tries.Trie.Prune` | ipv8/dht/trie.py:96-98 | The pruning loop removes nodes only, never stored keys, and fails exactly when nothing is stored any more. |
| `Tries.Trie.LongestPrefixItem` | ipv8/dht/trie.py:117-139 | The result is the longest non-empty stored prefix of the key, with its value; none exactly when there is none. |
| `Tries.Trie.Values` | ipv8/dht/trie.py:100-115 | Every stored key contributes its value exactly once: as many values as keys, and no others. |
| `Tries.Trie.Suffixes` | ipv8/dht/trie.py:159-179 | The stored extensions of a key are listed, each exactly once, and nothing else; in alphabetic order when the children were inserted in that order. |
| `Tries.AppendNew` | ipv8/dht/trie.py:174-177 | The inner loop adds exactly the prefixed nested suffixes that were not listed, and keeps the alphabetic order. |
| `Routing.Bucket.Add` | ipv8/dht/routing.py:169-206 | Taken exactly when the bucket owns the id and knows it, has room, or has a node to give up. A full bucket gives up its first BAD node and the first of the others too slow for the newcomer, if there are such, and no more; the others keep their order, the newcomer comes last; a refusal changes nothing; the change time is set exactly on success. |
| `Routing.Bucket.Split` | ipv8/dht/routing.py:208-226 | None exactly when not full; otherwise each new bucket has, in order, the nodes its prefix owns, and below 160 bits every node is in one of them, so the branch that fails to place a node is not taken. |
| `Routing.Bucket.RemoveBad` | ipv8/dht/routing.py:281-285 | Exactly the BAD nodes leave, in order for the rest. |
| `RoutingSpec.BucketAddKeeps` | ipv8/dht/routing.py:169-206 | A bucket never exceeds its size, never holds an id twice, holds owned ids only; a refusal changes nothing and means a full bucket without the id. |
| `RoutingSpec.BucketInsertElements` | ipv8/dht/routing.py:187-204 | Taking a new id: exactly the nodes in `Evicted` leave a full bucket and none leaves another; the rest keeps its order and the newcomer comes last. |
| `RoutingSpec.MakeRoomExact` | ipv8/dht/routing.py:187-197 | Both loops run: who leaves is the first BAD node and, of the others, the first too slow one, independently of whether the first loop found one. |
| `RoutingSpec.BucketTakes` | ipv8/dht/routing.py:175-206 | A node is taken if and only if its id is owned and is known, or there is room, or someone can be evicted. |
| `RoutingSpec.SlowMeans` | ipv8/dht/routing.py:195 | Too slow means at least twice the round-trip time of a newcomer whose time is known. |
| `RoutingSpec.BucketUpdateElements` | ipv8/dht/routing.py:180-185 | Adding a known id changes that node's address and nothing else; every node keeps its place. |
| `RoutingSpec.PrefixesCover` | ipv8/dht/routing.py:243-248 | One prefix of our own id and the siblings of its bits: each id belongs to exactly one of them. |
| `RoutingSpec.PrefixFree` | ipv8/dht/routing.py:265-268 | No prefix of a table extends another. |
| `RoutingSpec.PrefixesSplit` | ipv8/dht/routing.py:265-268 | Splitting our own bucket exchanges its prefix for the two extensions and keeps the shape. |
| `RoutingSpec.NineIdsNeedBits` | ipv8/dht/routing.py:208-226 | Nine different ids under one prefix force the prefix to be shorter than 157 bits. |
| `RoutingSpec.SplitAllowed` | ipv8/dht/routing.py:257-264 | Whenever a split is asked for, the bucket is our own, full, and short enough, so `split is None` is unreachable. |
| `RoutingSpec.SplitKeeps` | ipv8/dht/routing.py:259-268 | A split keeps the whole invariant and lowers the termination measure of `add`. |
| `RoutingRuns.GetFinds` | ipv8/dht/routing.py:294-298 | A node is in the table exactly when `get` finds it under its id. |
| `RoutingRuns.GetMisses` | ipv8/dht/routing.py:294-298 | `get` finds nothing exactly when no bucket holds the id. |
| `RoutingRuns.SplitConserves` | ipv8/dht/routing.py:208-226 | A split loses and invents no node. |
| `RoutingRuns.AddConserves` | ipv8/dht/routing.py:250-273 | One call of `add`, with all its splits: refused, if and only if the bucket it ends at is full, not ours and has no one to evict, means no node came or went; taken means one id came or was updated and exactly the evicted nodes of its full bucket left, and then nothing was split; what is returned is what `get` then finds. |
| `RoutingRuns.RemoveBadExact` | ipv8/dht/routing.py:275-286 | The table afterwards holds exactly the nodes that are not BAD. |
| `RoutingRuns.StepMeans` | ipv8/dht/routing.py:250-286 | In a run `add` has exactly that effect, and `remove_bad_nodes` leaves exactly the nodes with fewer than two failed queries. |
| `RoutingRuns.RunPartition` | ipv8/dht/routing.py:229-298 | After any run: at most 158 buckets of at most 8 nodes with prefixes of at most 157 bits, of the known shape, prefix-free, covering every id, each node in the bucket that owns it. |
| `RoutingSearch.SearchExact` | ipv8/dht/routing.py:308-321 | Wherever the search stops, at a level with more than k keys or at the root: the answer is the brute-force list of the whole table if and only if each of the k nearest candidates was visited before every other candidate of its key; it always holds candidates only, sorted, one per key, as many as there are keys up to k. |
| `RoutingSearch.AheadDecides` | ipv8/dht/routing.py:308-321 | In terms of the table alone: exact if and only if each of the k nearest candidates is ahead of every other candidate of its key, that is in a deeper level, or in the same level in an alphabetically earlier bucket or earlier in the same bucket. |
| `RoutingSearch.AheadTotal` | ipv8/dht/routing.py:309-314 | Of two nodes of a table one is ahead, so the condition leaves no case open. |
| `RoutingSearch.CollectHolds` | ipv8/dht/routing.py:309-314 | A set of nodes that compare by key keeps, of any order of visits, exactly the first candidate of each key. |
| `RoutingSearch.SharedKeyIsReached` | ipv8/dht/routing.py:308-321 | Adding one peer under two ids to a new table reaches a table on which the condition fails for every search for two or more nodes. |
| `Ranking.SortCorrect` | ipv8/dht/routing.py:321 | Sorting by rank gives a sorted list of the same elements without new duplicates. |
| `Ranking.SortedIsNearest` | ipv8/dht/routing.py:321 | A sorted list cut at k is what picking the lowest k times gives. |
| `Routing.RoutingTable.constructor` | ipv8/dht/routing.py:234-241 | A new table is one empty bucket with the empty prefix, and valid. |
| `Routing.RoutingTable.GetBucket` | ipv8/dht/routing.py:243-248 | Never raises; returns the one bucket whose prefix the id has. |
| `Routing.RoutingTable.Add` | ipv8/dht/routing.py:250-273 | Terminates, keeps trie, buckets and table linked, and does what the functional `Add` does. |
| `Routing.RoutingTable.RemoveBadNodes` | ipv8/dht/routing.py:275-286 | Removes and returns exactly the BAD nodes. |
| `Routing.RoutingTable.Get` | ipv8/dht/routing.py:294-298 | Agrees with the lookup that `GetFinds` and `GetMisses` characterise. |
| `Routing.RoutingTable.ClosestNodes` | ipv8/dht/routing.py:300-321 | For every target, limit and excluded node: only nodes of the table with fewer than two failed queries and without the excluded id, sorted, one per key, as many as there are keys up to the limit, and the brute-force list if and only if the nearest are ahead (`IsAnswer`). |
| `Routing.HalvesComeLast` | ipv8/dht/routing.py:266-267 | Setting the half with 0 before the half with 1 keeps the children of every trie node in alphabetic order. |
| `TokenSpec.GatherKeeps` | ipv8/attestation/tokentree/tree.py:83-105 | Gathering any token, with the whole chain reaction, keeps every element signed and hanging on the key, and at most the maximum waiting. |
| `TokenSpec.GatherMeans` | ipv8/attestation/tokentree/tree.py:83-105 | The answer is a token if and only if the token is signed and its parent is there, and then its hash is an element. A known token takes offered content if it has none and the hash fits, and nothing else changes; a new one goes behind all elements; an orphan waits, and at most the one that waited longest makes room for it; an unsigned one changes nothing. |
| `TokenSpec.ReactionLosesNone` | ipv8/attestation/tokentree/tree.py:205-220 | In a chain reaction every waiting token still waits or has become an element. |
| `TokenSpec.AppendKeeps` | ipv8/attestation/tokentree/tree.py:195-203 | So does the owner's append after a token of the tree. |
| `TokenSpec.AppendStores` | ipv8/attestation/tokentree/tree.py:195-203 | The token that is returned is an element; it comes behind all others if its hash was not there, and what waits is untouched. |
| `TokenRuns.RunsAreSound` | ipv8/attestation/tokentree/tree.py:55-105 | In every state of every run each element is verified and has a linked path to the key no longer than the tree, at most the maximum waits, no earlier element is lost or moved, and every token issued so far, or received when its parent was there, is an element. |
| `TokenRuns.RunsAreHonest` | ipv8/attestation/tokentree/tree.py:96-100 | When tokens come with the content they were signed for or none, no element ever has any other content. |
| `TokenChains.ReactWakes` | ipv8/attestation/tokentree/tree.py:205-220 | On a chain the recursive reaction is the machine that takes over the next waiting token as long as there is one. |
| `TokenChains.GatherDelivers` | ipv8/attestation/tokentree/tree.py:83-105 | Gathering a token of a chain is delivering its index, evictions included. |
| `TokenChains.DeliveryConfluent` | ipv8/attestation/tokentree/tree.py:83-105 | After any deliveries the machine has the longest delivered prefix, and exactly the rest waits. |
| `TokenChains.TokensConfluent` | ipv8/attestation/tokentree/tree.py:83-105 | A chain at most one longer than the buffer, in any order with any repetition: the elements are exactly the longest delivered prefix; when all have arrived nothing waits. |
| `TokenChains.LongChainLosesTokens` | ipv8/attestation/tokentree/tree.py:91-94 | For every chain at least two longer than the buffer, an order of delivery after which the tree holds the first token only, although a longer prefix was delivered: the length in `TokensConfluent` is exact. |
| `TokenPaths.RootPathLeads` | ipv8/attestation/tokentree/tree.py:138-161 | The path to the key is linked step by step. |
| `TokenPaths.RootPathUnique` | ipv8/attestation/tokentree/tree.py:138-161 | It is the only linked path from its token. |
| `TokenPaths.AscentIsPrefix` | ipv8/attestation/tokentree/tree.py:115-136 | Whatever the elements are, there is one way up: a climb is the beginning of every signed path. |
| `TokenPaths.VerifyMeansDepth` | ipv8/attestation/tokentree/tree.py:115-136 | On a sound tree a signed path within the limit exists exactly when the token has a path to the key of depth below the limit. |
| `TokenPaths.SignedPathIsRootPath` | ipv8/attestation/tokentree/tree.py:138-161 | On a sound tree the signed path is the unique path to the key. |
| `TokenPaths.KnownPathClimbs` | ipv8/attestation/tokentree/tree.py:169-177 | The known tokens from a token back: each points at the next, which is an element, and the last points at no element. |
| `TokenTrees.TokenTree.AddByHash` | ipv8/attestation/tokentree/tree.py:69-81 | Without a private key it raises and changes nothing; otherwise the new token points at its predecessor or the key, is signed, and is stored: behind all elements if its hash is new, in the place of the one with its hash if not. |
| `TokenTrees.TokenTree.GatherToken` | ipv8/attestation/tokentree/tree.py:83-105 | The mutually recursive methods compute `Gather`, result included. |
| `TokenTrees.TokenTree.AppendChainReaction` | ipv8/attestation/tokentree/tree.py:205-220 | Appends the token and wakes the first waiting token that points at it. |
| `TokenTrees.TokenTree.Verify` | ipv8/attestation/tokentree/tree.py:115-136 | True exactly when a signed path of at most maxdepth tokens leads from the token to the key, for any dictionary of elements. |
| `TokenTrees.TokenTree.GetRootPath` | ipv8/attestation/tokentree/tree.py:138-161 | Returns that path, and the empty list exactly when there is none within the limit. |
| `TokenTrees.TokenTree.SerializePublic` | ipv8/attestation/tokentree/tree.py:178-179 | The dump of all elements in insertion order. |
| `TokenTrees.TokenTree.SerializeUpTo` | ipv8/attestation/tokentree/tree.py:169-177 | The dump of the known tokens from one token back to the key, each followed by the one it points at. |
| `TokenTrees.TokenTree.UnserializePublic` | ipv8/attestation/tokentree/tree.py:181-193 | Reads token by token; a trailing fragment raises after the whole tokens were gathered. |
| `TokenExchange.UnserializeDump` | ipv8/attestation/tokentree/tree.py:181-193 | Reading the dump of any list of tokens is gathering them in order, and the answer tells whether each was taken. |
| `TokenExchange.DumpRebuilds` | ipv8/attestation/tokentree/tree.py:163-193 | A full dump of a sound tree, read into a fresh tree of the same key, returns True and rebuilds the same double pointers with nothing waiting. |
| `TokenRuns.RunsDump` | ipv8/attestation/tokentree/tree.py:163-193 | So does the dump of every state of every run over tokens of the right size. |
| `TokenRuns.UpToArrives` | ipv8/attestation/tokentree/tree.py:163-193 | The dump up to a token of a chain at most one longer than the buffer, which lists children first: a fresh tree that reads it ends with exactly the tokens up to that one and none waiting. |
| `TokenExchange.UnserializeRaises` | ipv8/attestation/tokentree/tree.py:188-193 | Reading raises if and only if the bytes are not whole tokens. |
| `TokenExchange.ResponseContent` | ipv8/attestation/identity/community.py:296-311 | For every permission and every claim: a response holds the tokens right after the known ones, as many as fit into 1296 bytes or are permitted. |
| `TokenExchange.RoundIsOnTheWire` | ipv8/attestation/identity/community.py:296-318 | One round is what `UnserializePublic` makes of the bytes that `OnRequestMissing` sends. |
| `TokenExchange.RoundProgress` | ipv8/attestation/identity/community.py:205-318 | Every round extends the receiver's prefix by a packet of tokens or by all that is left of the permitted range, whatever was waiting or evicted. |
| `TokenExchange.ExchangeConverges` | ipv8/attestation/identity/community.py:205-318 | After n rounds the receiver holds a prefix of the chain at least n packets longer, or everything permitted. |
| `Identity.IdentityCommunity.OnRequestMissing` | ipv8/attestation/identity/community.py:296-311 | The loop with its break sends the dump of that response, never more than 1296 bytes; a peer without permission gets nothing. |
| `Identity.ChooseTokens` | ipv8/attestation/identity/manager.py:180-194 | Raises exactly when a required hash is unknown or its token too deep; otherwise the tokens are the smallest predecessor-closed set that contains the required ones. |
| `Identity.PathOf` | ipv8/attestation/identity/manager.py:189-193 | The inner loop collects exactly the tokens from one token up to the key. |
| `Identity.ClosedHoldsPath` | ipv8/attestation/identity/manager.py:189-193 | A predecessor-closed set that holds a token holds its whole path. |
| `Identity.ClosedIsPrefix` | ipv8/attestation/identity/manager.py:180-194 | On a chain, a predecessor-closed set is a prefix. |
| `Identity.DisclosureArrives` | ipv8/attestation/identity/manager.py:238-240 | Tokens disclosed from a chain at most one longer than the buffer, in any order: a fresh receiver ends with exactly those tokens and none waiting. |
| `Identity.WriteMetadata` | ipv8/attestation/identity/manager.py:166-169 | The loop writes each item behind its four-byte length, and fails exactly when one does not fit 32 bits. |
| `Identity.WriteAttestations` | ipv8/attestation/identity/manager.py:170-179 | The selected attestations and their framed authorities come out in the same order; it fails exactly when a selected authority does not fit 16 bits. |
| `Identity.ReadMetadata` | ipv8/attestation/identity/manager.py:243-249 | The loop computes `ReadFrames`. |
| `Identity.ReadAttestations` | ipv8/attestation/identity/manager.py:252-262 | The loop, with its two offsets, computes `ReadPairs`. |
| `Identity.FramesRoundTrip` | ipv8/attestation/identity/manager.py:243-249 | Framed items are read back exactly, from any offset to the end. |
| `Identity.PairsRoundTrip` | ipv8/attestation/identity/manager.py:252-262 | Both offsets stay in step, so every (authority, attestation) pair is read back. |
| `Identity.ReadPairsSized` | ipv8/attestation/identity/manager.py:252-262 | Whatever bytes arrive, every attestation that is taken has its whole pointer and signature, out of the bytes received, and the loop does not end before the authorities do. |
| `Identity.DisclosureReadBack` | ipv8/attestation/identity/manager.py:153-264 | What a disclosure writes, the receiver reads: the same metadata and the same pairs. |
| `CrawlFrontier.AbsorbKeeps` | ipv8/dht/community.py:188-209 | Whatever a response holds, the list of nodes to contact stays sorted by distance, without duplicates and disjoint from the nodes tried. |
| `CrawlFrontier.FilterExact` | ipv8/dht/community.py:188-209 | After any response the distances of the first four entries are the four least at which keys are known, if and only if there are four nearest keys none of which is offered nearer while it already stands in the list, from before or from the same response, under a farther id. |
| `CrawlFrontier.OneDistanceIsExact` | ipv8/dht/community.py:188-209 | So the filter loses nothing when no key is known at two distances. |
| `Ranking.NearestRanks` | ipv8/dht/community.py:198-201 | Being the k nearest determines the distances, place by place, even with ties. |
| `CrawlFrontier.NoneNearerMissing` | ipv8/dht/community.py:188-209 | Without any condition: each node of the response was tried, is listed, or is farther than the fourth entry. |
| `CrawlFrontier.PunctureExact` | ipv8/dht/community.py:193-208 | After a response the last of its places that names an entry and passes the filter decides the puncture node of that entry: none for the first place, the sender for any other; an entry that no place names and passes is unchanged. |
| `CrawlFrontier.AbsorbGrows` | ipv8/dht/community.py:188-209 | No entry leaves the list during a response, and the fourth only gets nearer. |
| `CrawlFrontier.NearerIdIsMissed` | ipv8/dht/community.py:203-206 | It does fail: a peer listed alone and named again under a nearer id stays at its old distance. |
| `CrawlRuns.LaunchAllKeeps` | ipv8/dht/community.py:600-604 | The inner loop stays within the budgets and stops exactly when the crawl is done or has four tasks. |
| `CrawlRuns.LaunchesInOrder` | ipv8/dht/community.py:600-604 | What is launched is the beginning of the list, nearest first, and nobody is forgotten. |
| `CrawlRuns.NextKeeps` | ipv8/dht/community.py:587-607 | Every completion of a task and every wake-up keeps the invariant and lowers the measure. |
| `CrawlRuns.RunsAreBounded` | ipv8/dht/community.py:595-607 | In every interleaving no node is contacted twice, at most 24 are tried, at most 4 tasks are outstanding, the list stays in order, and there are at most 72 steps. |
| `CrawlRuns.NextSees` | ipv8/dht/community.py:587-593 | A completed answer is taken in: each node it names is contacted, listed, or farther than the fourth entry; no step forgets anybody. |
| `CrawlRuns.RunsForgetNone` | ipv8/dht/community.py:587-607 | In every interleaving, each node that any answer named, unless it was farther than the fourth entry then, stays contacted or listed for good; a crawl that ends before its requests are spent has contacted them all. |
| `CrawlRuns.CrawlProgress` | ipv8/dht/community.py:595-607 | The loop is stuck exactly when it has ended, and then 24 nodes were tried or nobody is left to ask. |
| `Crawls.StartCrawl` | ipv8/dht/community.py:168-186 | Fails exactly when the table has no candidate; otherwise starts with one to eight nodes in order, the nearest of the table whenever the nearest are ahead. |
| `Crawls.Crawl.AddResponse` | ipv8/dht/community.py:188-209 | The loop computes `Absorb` and keeps the list in order; the contract carries the if-and-only-if of `FilterExact`, the account of `NoneNearerMissing` and the puncture nodes of `PunctureExact`. |
| `Crawls.Crawl.Offer` | ipv8/dht/community.py:195-209 | One turn of the loop: skip, update the puncture node, or insert and sort. |
| `Crawls.Crawl.LaunchTasks` | ipv8/dht/community.py:600-604 | Contacts the first entries of the list, each counted as tried at once, until done or full. |
| `Storages.PutKeeps` | ipv8/dht/storage.py:63-80 | A put leaves ids unique and the value under the key's own id last; it changes one id only, and that one to the newcomer unless a higher version is there. |
| `Storages.RunStores` | ipv8/dht/storage.py:63-80 | After any run, a put of data under an id, or the hash of the data when the id is missing or empty, leaves the list as it is if a higher version is there; otherwise that value with the version, age and time of the put stands before the values with other ids, or behind them if its id is the key. |
| `Storages.RunKeeps` | ipv8/dht/storage.py:63-107 | So in every run of puts and cleans. |
| `Storages.RunVersions` | ipv8/dht/storage.py:63-107 | No step of any run lowers the version of a present entry; entries disappear only by cleaning and only when expired. |
| `Storages.CleanPrefix` | ipv8/dht/storage.py:98-107 | Cleaning keeps a prefix that ends with an unexpired value and removes expired ones only. |
| `Storages.CleanExact` | ipv8/dht/storage.py:98-107 | Cleaning keeps exactly the unexpired values if and only if no expired value stands before an unexpired one. |
| `Storages.UniformRun` | ipv8/dht/storage.py:63-107 | With one maximum age, no id equal to its key and time that does not go back, every list is newest first, and cleaning leaves exactly the unexpired values. |
| `Storages.KeyIdShields` | ipv8/dht/storage.py:98-107 | An unexpired value under the key's own id keeps all expired ones alive. |
| `Storages.Storage.PutValue` | ipv8/dht/storage.py:63-80 | In the arguments of the call: the outcome of `RunStores` for the key, and every other key unchanged. |
| `Storages.Storage.Get` | ipv8/dht/storage.py:82-87 | The data of the values from the starting point on, up to the limit, in order. |
| `Storages.Storage.CleanAll` | ipv8/dht/storage.py:98-107 | The reverse removal loop, for every key in any order: each list is cut behind its last unexpired value. |
| `Loader.StuckHasCycle` | ipv8/loader.py:184-187 | Launchers that each wait for one of them contain a ring. |
| `Loader.OrderedHasNoCycle` | ipv8/loader.py:162-183 | If all enabled launchers can be launched after their dependencies, there is no ring. |
| `Loader.FundedSteps` | ipv8/loader.py:167-170 | Every pop of the queue, whatever comes of it, leaves the rest of the n² budget large enough. |
| `Loader.FundedEnd` | ipv8/loader.py:184-187 | So it only runs out when the whole queue is blocked. |
| `Loader.CommunityLoader.Load` | ipv8/loader.py:162-187 | Raises exactly when enabled launchers wait for each other in a ring; every launch is of an enabled launcher, after all the enabled ones its not_before names, and happens once; on success exactly the enabled ones are launched, on failure exactly the stuck ones are left, each naming another one left. |
| `Loader.CommunityLoader.Validate` | ipv8/loader.py:172-179 | A launcher is held back exactly by a registered, enabled dependency that has not been launched. |
| `Loader.CommunityLoader.SetLauncher` | ipv8/loader.py:137-151 | A launched launcher cannot be replaced, any other can, and no other name is touched. |
| `Serialization.PackFits` | ipv8/messaging/serialization.py:53-332 | For every format, nested to any depth, packing fails for exactly the values that do not fit (wrong kind, a number out of range, a length beyond its prefix, several arguments in a list), and otherwise takes exactly as many bytes as the value has. |
| `Serialization.ToBytesOrder` | ipv8/messaging/serialization.py:381-385 | Numbers of one width order as their packed forms do: the most significant byte comes first. |
| `Serialization.SignedOnWire` | ipv8/messaging/serialization.py:381-385 | A signed number is packed in two's complement, with the highest bit for the negative ones. |
| `Serialization.FlagOnWire` | ipv8/messaging/serialization.py:369-393 | A flag is packed as the byte 1 or 0, and read as true from any byte but 0. |
| `Serialization.DataOnWire` | ipv8/messaging/serialization.py:193-197 | `varlenH` data: its length in two bytes, high byte first, and the data. |
| `Serialization.ListOnWire` | ipv8/messaging/serialization.py:315-319 | A list: its count in one byte, and the items. |
| `Serialization.PayloadOnWire` | ipv8/messaging/serialization.py:86-94 | A nested payload: its size in two bytes, high byte first, and its fields. |
| `Serialization.AddressOnWire` | ipv8/messaging/serialization.py:249-297 | An address is its type, the host, for a name with its length, and the port, high byte first. |
| `Serialization.PackedBit` | ipv8/messaging/serialization.py:124-140 | Flag k is bit 7 - k of the byte. |
| `Serialization.AtomRoundTrip` | ipv8/messaging/serialization.py:369-393 | A struct item that packs comes back if and only if it is not a byte string that is padded or cut. |
| `Serialization.BitsRoundTrip` | ipv8/messaging/serialization.py:119-158 | Eight flags survive the byte, whatever they are. |
| `Serialization.AddressRoundTrip` | ipv8/messaging/serialization.py:249-297 | IPv4, IPv6 and host addresses come back, with the exact end offset. |
| `Serialization.AddressRead` | ipv8/messaging/serialization.py:278-297 | Whatever the bytes are: an address is read only from a known type that is allowed, whole, and with the end offset of its type; any other type raises. |
| `Serialization.VarLenRoundTrip` | ipv8/messaging/serialization.py:180-205 | Length-prefixed data comes back if and only if its length is a multiple of the base; otherwise a shorter value does. |
| `Serialization.RoundTrip` | ipv8/messaging/serialization.py:53-332 | Every format with raw last at its level, nested to any depth, unpacks what it packed at any offset and stops right behind it, if and only if nothing was cut, padded or rounded; otherwise an error or another value comes back. |
| `Serialization.AllRoundTrip` | ipv8/messaging/serialization.py:500-554 | The same if-and-only-if for a payload; only one that ends with raw must be the end of the data. |
| `Serialization.ManyRoundTrip` | ipv8/messaging/serialization.py:517-583 | Payloads packed one behind the other come back and consume all of the data, if and only if each is intact. |
| `Serialization.PackSerializable` | ipv8/messaging/serialization.py:500-515 | The packing loop computes `PackAll`, errors included. |
| `Serialization.UnpackSerializable` | ipv8/messaging/serialization.py:527-554 | The unpacking loop computes `UnpackAll` and the offset behind the last value. |
| `Serialization.UnpackSerializableList` | ipv8/messaging/serialization.py:556-583 | Succeeds exactly when every payload unpacks and nothing is left, or what is left is handed over. |
| `Chunks.SendAttestation` | ipv8/attestation/wallet/community.py:333-348 | Sends the 800-byte chunks of the blob, numbered from 0, and fails exactly when a number does not fit 16 bits. |
| `Chunks.PartialConcat` | ipv8/attestation/wallet/community.py:364-366 | Some of the first m chunks in order are shorter than all of them, and all of them are the start of the blob. |
| `Chunks.WholeIffComplete` | ipv8/attestation/wallet/community.py:364-366 | However chunks are sorted, they make up the blob if and only if none is missing. |
| `Chunks.AttestationCommunity.OnAttestationChunk` | ipv8/attestation/wallet/community.py:350-372 | Adds the chunk, joins the sorted chunks, hands over the result and drops the cache exactly when the hash matches; other transfers are untouched. |
| `Chunks.SortChunks` | ipv8/attestation/wallet/community.py:365 | A sorted list of exactly the chunks, each once. |
| `Chunks.ReassemblyExact` | ipv8/attestation/wallet/community.py:333-372 | Chunks in any order with any repetition: the blob comes out at the one delivery that completes the set, never before, and nothing happens after it. |

## Left out

- Node and token objects as shared references: the lists and dictionaries hold records, so two places that hold the same object do not see each other's updates; a table change made from outside is the operation `Observe`.
- The iteration order of Python sets: it is chosen arbitrarily, so what is proved holds for every order.
- Stored values that are falsy in the prefix tree: `longest_prefix_item` and `suffixes` skip them; buckets and other objects never are.
- `Bucket.generate_id`: the generated id is not kept inside the bucket's prefix, and nothing modelled uses it.
- The GOOD and UNKNOWN status of a node, and with it the tie-break of `closest_nodes`: no two nodes of a table are at the same distance.
- `Network`, `RequestCache`, `TaskManager` and timeouts: they rest on asyncio callbacks and cancellation.
- The puncture request before a contact, and the `routing_table.add` after an answer: they do not touch the state of the crawl.
- `Crawl.values`, `Crawl.nodes`, `cache_candidate` and `post_process_values`: merging and sorting of results that would only add easy members.
- Forked token trees: the reaction wakes only the first waiting child, so completeness is claimed for chains only.
- `TokenTree.add` and `receive_content` beyond the hash comparison in `Filled`: they differ from `add_by_hash` in the stored content only.
- `_fit_disclosure`: when no whole token fits it keeps all tokens, so it has no size bound to prove.
- The part of `_received_disclosure_for_attest` that signs credentials, and the database behind `PseudonymManager`.
- TokenExchange.ExchangeConverges: speaks of an honest owner with a linear chain; rounds that are lost on the network are rounds that did not happen.
- The private branch of `on_attestation_chunk`: it reassembles in the same way under another cache.
- Chunks.ReassemblyExact: speaks of genuine chunks; a foreign chunk under a used number spoils a transfer, since chunks of equal number may be sorted either way.
- Unpacking a list of bit fields, which the program flattens: such a list cannot be packed, in the program or the model.
- Floating-point, UTF-8 and `array` formats of the serializer, and the text form of IP addresses: values are integers, flags and bytes.
- `IntroductionRequestPayload`: its advice flag is negated on unpacking, so it has no round trip.
- Exceptions raised while a community is launched, and launchers whose answers change during one `load`.
- `del_launcher`, `items_older_than` and other one-line members.
- Cryptography, SQLite, sockets, REST endpoints, bootstrapping, configuration, tutorials and scripts.

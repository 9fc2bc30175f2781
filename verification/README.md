# Aquachain in Dafny

A model of the stateful core of the aquachain node and proofs of what it keeps: the
reference-counted trie node cache, RLP encoding and decoding, trie iteration, the
transaction pool's lists, the header chain and the block chain, the chain indexer, RLPx
framing and the matching of peer protocols. `dafny verify dfyconfig.toml` checks all of it.

Main results, each for all inputs and for all runs:

- **Trie cache** (`TrieCache`, `TrieDatabase`): under any interleaving of stores, root
  references and dereferences, flushes and uncaches, every node below a referenced root can
  be fetched; a node that is not on disk counts exactly the cached edges to it; after every
  single batch write the disk is closed under references; a commit changes no answer of `Node`;
  a dereference evicts exactly the nodes off disk that nothing refers to any more, so without
  garbage at the start every cached node off disk hangs off a referenced root.
- **State retention** (`StateRetention`): after any sequence of block writes the complete
  state of every written block less than 128 below the highest one can be fetched; older states
  have left the queue, and memory holds only nodes of queued states.
- **RLP** (`Rlp`, `RlpTheory`, `RlpEncoder`, `RlpBuffer`, `RlpStream`, `RlpRaw`): decoding
  and encoding are exact inverses on nested items; a failing decoder means that no item's
  encoding stands there; the flat buffer with deferred list headers yields the recursive
  definition through `toBytes`, through `toWriter` and through any sequence of reads.
- **Tries in order** (`ByteOrder`, `TriePreorder`, `TrieKeys`, `TrieIterator`,
  `TrieDifference`): an iteration from a start visits exactly the nodes whose path is not
  below it, in strictly increasing order, and lists exactly what a lookup by key finds; the
  difference iterator emits exactly what is in the second trie and not in the first although it
  skips equal subtrees.
- **Transaction pool** (`Heap`, `TxItems`, `TxSortedMap`, `TxList`, `TxPricedList`,
  `PendingLimit`): the nonce index refines a plain map, the price heap answers for the live
  transactions although it holds stale entries, and the pending limit is water-filling.
- **Chains** (`ChainPath`, `HeaderChain`, `TxLookup`, `BlockChain`, `SectionStore`,
  `ChainIndexer`): after any sequence of writes the number index is the head's ancestry, the
  head is the best block and the lookup index holds exactly the transactions of that ancestry;
  the section heads on disk form one chain from genesis after every single write of any
  interleaving, except for overlaps of a failed reset with a notification that are
  characterised exactly.
- **Peers** (`RlpxFrame`, `Rlpx`, `Protocols`): two ends with the same secrets stay in step
  over any exchange of messages, altered and repeated frames are refused as far as the truncated
  hash tells its inputs apart, and no part of the key stream is used twice; two peers lay the shared protocols out alike and route a
  code to the protocol it was sent on.

Conventions. Hashes are numbers with 0 for the zero hash. Content addressing is a parameter
(what a hash stands for), as are the hash function, the ciphers, coins and other randomness,
the outcome of database writes and what the chain database answers at a given moment.
`container/heap`, the priority queue, `sort.Sort` and LRU eviction are given by their
contracts; the bodies that stand for them are one way to meet them. Map iteration in any
order is a choice from a set.

## What the code does not do

- Seeking by key does not skip keys that are proper prefixes of the start: `KeysFromStart`
  gives the exact condition, `PrefixBelowStart` a trie.
- `rlpxFrameRW.WriteMsg` adds sizes in 32 bits. A message whose size wraps around is taken and
  cannot be read back: `WriterTakes` says which messages are taken, `ComesBack` which of them
  come back, and `WrappingMessage` is one that does not.
- A failed reset of the indexer's backend drops all sections without the lock
  (core/chain_indexer.go:348-350). If a notification takes sections back at the same time, the
  chain on disk can lose its beginning. `OverlapGood` says exactly which overlaps break it
  (the notification keeps some section and writes its count after the reset's), `OverlapEnd`
  exactly which leave disk and counter in order, `SectionLost` and `CounterAhead` are traces.
- The indexer can have more sections stored than known. `OnFinish` gives the condition for one
  step and `StoredWithinKnown` for any run; `KnownFallsBehind` is a run.
- Reorganising to a shorter chain leaves index entries above the head. The index always reaches
  exactly as far as the highest head did; `LeftAbove` says when entries are left, and
  `ShorterChainWins` is a run.
- The reference count of a node on disk need not be the number of edges to it. For nodes not on
  disk it always is; `CountAfterInsert`, `CountAfterEdge`, `CountAfterDrop` and
  `CountAfterRemoval` say for every node exactly which operation makes a count wrong, and
  `CountOnDisk` is a run.

## Model

| member | source | states |
|---|---|---|
| `TrieCache.PathAvailable` | trie/database.go:123-134 | along true child links from an available node every node is available |
| `TrieCache.AvailableIsComplete` | trie/database.go:123-134 | an available node's whole trie can be fetched |
| `TrieCache.InsertKeeps` | trie/database.go:98-107 | a new node with no edges keeps the invariant, excused until its children are recorded |
| `TrieCache.CountAfterInsert` | trie/database.go:98-107 | a new node's count is exact exactly if nothing refers to it; the others are untouched |
| `TrieCache.CountAfterEdge` | trie/database.go:185-197 | a recorded reference leaves every count as exact as it was |
| `TrieCache.CountAfterDrop` | trie/database.go:216-230 | a dropped reference leaves every count as exact as it was |
| `TrieCache.CountAfterRemoval` | trie/database.go:334-346 | an evicted node takes its edges along: a count stays exact exactly if the node had no edge there |
| `TrieCache.AddEdgeKeeps` | trie/database.go:185-197 | recording a reference keeps all counts exact and all edges true |
| `TrieCache.DropEdgeKeeps` | trie/database.go:216-238 | dropping one reference keeps all counts exact |
| `TrieCache.RemoveUnreferenced` | trie/database.go:229-237 | an unreferenced node without edges can leave the cache |
| `TrieCache.RemoveOnDisk` | trie/database.go:334-346 | a node on disk can leave the cache whatever refers to it |
| `TrieCache.DiskGrows` | trie/database.go:320-326 | writing a batch that leaves the disk closed keeps the invariant |
| `TrieCache.BatchPut` | trie/database.go:306-328 | adding a node whose children are on disk or in the batch leaves disk plus batch closed under references |
| `TrieCache.SameAnswers` | trie/database.go:244-303 | moving nodes from cache to disk changes no answer and no root count |
| `TrieCache.TidyIsRooted` | trie/database.go:216-238 | without garbage, whatever is cached and not on disk hangs off a referenced root |
| `TrieCache.CollectedExactly` | trie/database.go:216-238 | among the nodes that were referenced and are not on disk, those that stay are exactly those still referenced |
| `TrieCache.TidyAfterCommit` | trie/database.go:244-303 | a commit, also a failed one, leaves no garbage |
| `TrieCache.TidyAfterBuild` | trie/hasher.go:153-212 | storing the nodes of a trie leaves no garbage except its root |
| `TrieDatabase.Database.constructor` | trie/database.go:73-81 | a new cache over a closed disk satisfies the invariant and holds only the metaroot |
| `TrieDatabase.Database.Node` | trie/database.go:123-134 | finds exactly the available nodes and returns the content the hash stands for |
| `TrieDatabase.Database.Insert` | trie/database.go:98-107 | adds a node once with its size, leaves a known one alone |
| `TrieDatabase.Database.Reference` | trie/database.go:185-197 | adds exactly one edge, none to unknown children and no second one below a node |
| `TrieDatabase.Database.Store` | trie/hasher.go:153-212 | inserts a node with one edge to each cached child, counted there once and only if new; invariant kept, root counts untouched |
| `TrieDatabase.Database.Drop` | trie/database.go:216-238 | drops one reference and evicts the child exactly at count zero; no other count falls to zero and stays cached, and only nodes below the child leave |
| `TrieDatabase.Database.TearDown` | trie/database.go:229-237 | a node without references leaves after its edges, with whatever they alone kept |
| `TrieDatabase.Database.DropChildren` | trie/database.go:229-236 | drops all edges of a dying node and, cascading, whatever they alone kept; no count falls to zero and stays cached |
| `TrieDatabase.Database.Dereference` | trie/database.go:200-238 | takes one root reference off exactly one root; of the nodes not on disk exactly those leave that nothing refers to any more, all of them below the root; no garbage arises |
| `TrieDatabase.Database.WriteBatch` | trie/database.go:320-326 | succeeds or leaves the disk as it was; every disk state after a write is recorded and closed |
| `TrieDatabase.Database.CommitNode` | trie/database.go:306-328 | children before parents: disk plus batch stay closed; only nodes below the given one are written; fails only when the disk does |
| `TrieDatabase.Database.Put` | trie/database.go:318-328 | the node joins the batch, which is written exactly once it is large |
| `TrieDatabase.Database.Flush` | trie/database.go:244-281 | on success the node and so all below it is on disk, and nothing else is new there; fails only when the disk does; the cache is untouched |
| `TrieDatabase.Database.Uncache` | trie/database.go:334-346 | the node leaves with everything its cached edges lead to; only nodes on disk and below it do; the size stays exact |
| `TrieDatabase.Database.Commit` | trie/database.go:244-303 | the same nodes are available with the same content before and after; exactly the tries below the node move to disk; a failure changes no cached node |
| `TrieDatabase.Database.Run` | trie/database.go:98-346 | after every step of any run every trie below a referenced root is complete; root references change exactly as the steps say |
| `TrieDatabase.Database.Take` | trie/database.go:98-346 | each step that a caller may take is done, the others change no root reference |
| `TrieDatabase.DoneMeans` | trie/database.go:98-346 | what being done means for storing, referencing, dereferencing, flushing and uncaching |
| `TrieDatabase.CountOnDisk` | trie/database.go:98-107 | a run that ends with a node on disk whose count is zero while an edge leads to it |
| `StateRetention.PopLowest` | core/blockchain.go:964-969 | takes an entry with the lowest number off the queue and keeps the rest |
| `StateRetention.Retention.Collect` | core/blockchain.go:963-971 | dereferences exactly the queued roots up to the chosen number; no garbage arises |
| `StateRetention.Retention.Enqueue` | core/blockchain.go:931-933 | one root reference per queue entry |
| `StateRetention.Retention.Build` | core/blockchain.go:919-922 | exactly the new nodes are added; of a trie only the root is left unreferenced |
| `StateRetention.Retention.Persist` | core/blockchain.go:926-928 | commits a state; fails only when the disk does and leaves no garbage |
| `StateRetention.Retention.Retain` | core/blockchain.go:930-972 | the new state is queued, a chosen one is on disk unless writing fails, and exactly the states 128 or more behind are dropped |
| `StateRetention.Retention.WriteBlock` | core/blockchain.go:919-972 | keeps the retention invariant; recent states are complete; the queue is exact: nothing 128 or more behind is left in it; an archive has the state on disk or its disk has failed; no garbage arises |
| `StateRetention.Retention.ValidIsComplete` | core/blockchain.go:931-972 | queued and archived roots are complete |
| `StateRetention.Retention.LeanIsQueued` | core/blockchain.go:930-972 | without garbage, every node in memory only belongs to a queued state |
| `StateRetention.Retention.Run` | core/blockchain.go:919-972 | after any block writes the state of each recent written block is complete, and on a full node no garbage has arisen |
| `RlpTheory.HeaderOfHead` | rlp/encode.go:150-159 | a written header is parsed back to its kind and size |
| `RlpTheory.HeadOfHeader` | rlp/decode.go:909-969 | a header that is accepted is the one the encoder writes |
| `RlpTheory.SplitOfEncode` | rlp/raw.go:39-45 | an encoding followed by anything is taken apart at its end |
| `RlpTheory.Unique` | rlp/decode.go:119-129 | two items whose encodings start the same bytes are the same item |
| `RlpTheory.NextItem` | rlp/decode.go:322-349 | inside a list the next item starts where the items read so far end |
| `RlpTheory.UintFits` | rlp/decode.go:710-741 | 64-bit numbers are those of at most eight digits |
| `RlpTheory.StringForm` | rlp/encode.go:191-211 | the three forms of a string with their tags |
| `RlpTheory.ListForm` | rlp/encode.go:150-159 | the two forms of a list with their tags |
| `RlpEncoder.IntSize` | rlp/encode.go:646-652 | the number of big-endian digits, one for zero |
| `RlpEncoder.HeadSizeOf` | rlp/encode.go:141-146 | the length of the header the definition gives |
| `RlpEncoder.ShortFormIsBigEndian` | rlp/encode.go:588-643 | the eight-way case split writes the shortest big-endian form |
| `RlpEncoder.PutInt` | rlp/encode.go:588-643 | writes the shortest big-endian form, one zero byte for zero, and nothing beside it |
| `RlpEncoder.PutHead` | rlp/encode.go:150-159 | writes exactly the header of the definition and nothing beside it |
| `RlpEncoder.FlatIsEncode` | rlp/encode.go:212-247 | strings interleaved with the deferred list headers are the recursive encoding |
| `RlpBuffer.EncBuf.EncodeStringHeader` | rlp/encode.go:191-200 | appends the string header of the definition |
| `RlpBuffer.EncBuf.EncodeString` | rlp/encode.go:202-210 | appends the encoding of the string |
| `RlpBuffer.EncBuf.WriteUint` | rlp/encode.go:392-406 | appends the encoding of the number's digits |
| `RlpBuffer.EncBuf.List` | rlp/encode.go:212-216 | opens a list header at the current position |
| `RlpBuffer.EncBuf.ListEnd` | rlp/encode.go:218-225 | closes it with the content size and accounts for its length |
| `RlpBuffer.EncBuf.EncodeItem` | rlp/encode.go:182-225 | a nested item appends its strings and list headers, with the sizes accounted for |
| `RlpBuffer.EncBuf.ToBytes` | rlp/encode.go:231-247 | the encoding the buffer stands for |
| `RlpBuffer.EncBuf.ToWriter` | rlp/encode.go:249-271 | the same bytes, or a prefix of them when the writer fails |
| `RlpBuffer.EncodeToBytes` | rlp/encode.go:97-105 | the recursive definition, for every item that fits |
| `RlpBuffer.EncReader.Next` | rlp/encode.go:307-339 | the next piece of what is left, nothing exactly at the end |
| `RlpBuffer.EncReader.Read` | rlp/encode.go:282-303 | fills the slice with what comes next, end of input exactly when all is delivered |
| `RlpBuffer.ReadAll` | rlp/encode.go:282-339 | reads of any sizes concatenate to the output, cut only at the ends of the slices; the end is reported exactly when everything has been handed out |
| `RlpStream.Stream.WillRead` | rlp/decode.go:1023-1041 | allows exactly what is left in the list or the input, and accounts for it; says which of the two is exceeded |
| `RlpStream.Stream.ReadFull` | rlp/decode.go:997-1010 | the next bytes, or an error when fewer are left |
| `RlpStream.Stream.ReadByte` | rlp/decode.go:1012-1021 | the next byte, or an error at the end |
| `RlpStream.Stream.ReadUint` | rlp/decode.go:971-995 | the value of the digits; leading zeros are refused |
| `RlpStream.Stream.ReadKind` | rlp/decode.go:909-969 | succeeds exactly on canonical headers; reports the end of input exactly at its end outside of lists, a size error exactly for a complete header that is not canonical |
| `RlpStream.Stream.NextKind` | rlp/decode.go:876-907 | succeeds exactly when a complete value follows; end of list and end of input exactly there; the other errors tell a bad header from a value too large |
| `RlpStream.Stream.Bytes` | rlp/decode.go:655-676 | a string and its exact bytes, or no string's encoding starts here; says so exactly for lists |
| `RlpStream.Stream.List` | rlp/decode.go:764-776 | enters a list exactly when one starts here, and sees exactly its content; says so exactly for strings |
| `RlpStream.Stream.ListEnd` | rlp/decode.go:780-795 | leaves a list exactly at its end, also past an empty last value whose header was read, and advances the list around it |
| `RlpStream.Stream.Raw` | rlp/decode.go:679-701 | returns exactly the bytes it consumed |
| `RlpStream.Stream.Uint` | rlp/decode.go:710-741 | a number whose encoding starts here, or there is none |
| `RlpStream.Stream.UintAhead` | rlp/decode.go:710-741 | the number ahead, or the one error the source gives: a list, too long, leading zeros, or not the shortest form |
| `RlpStream.Stream.DecodeItem` | rlp/decode.go:495-517 | an item whose encoding starts here, or no item's encoding does |
| `RlpStream.Stream.DecodeList` | rlp/decode.go:307-320 | a list item and its exact bytes, or no item |
| `RlpStream.Stream.DecodeElems` | rlp/decode.go:322-349 | the items whose encodings make up the content, or there are none |
| `RlpStream.DecodeBytes` | rlp/decode.go:119-129 | accepts exactly the encodings: what it returns encodes to the input, and every encoding is decoded; more than one value is reported exactly if an encoding is followed by something |
| `RlpRaw.ReadSize` | rlp/raw.go:127-156 | succeeds exactly if the bytes are the shortest form of a size of 56 or more, the form an encoder writes, and returns that size |
| `RlpRaw.JoinedIsValue` | rlp/raw.go:131-149 | the eight cases of shifts compute the big-endian value |
| `RlpRaw.ReadFront` | rlp/raw.go:86-125 | accepts exactly complete values with canonical headers; tells a cut header, a cut value and a bad size apart |
| `RlpRaw.FrontIsValue` | rlp/raw.go:86-125 | what is accepted is the encoding of a string, or a list header with its content |
| `RlpRaw.RawFrontOfEncode` | rlp/raw.go:86-125 | sees the header of the item whose encoding starts the input |
| `RlpRaw.SplitValue` | rlp/raw.go:39-45 | content and rest rebuild the input as a string's encoding or a list behind its header; every such input is taken apart there |
| `RlpRaw.CountValues` | rlp/raw.go:74-84 | n exactly if the bytes are n values one after the other, however they are cut; on concatenated encodings, their number |
| `RlpRaw.ValuesOfEncodings` | rlp/raw.go:74-84 | concatenated encodings fall apart into just these |
| `RlpRaw.PiecesAreValues` | rlp/raw.go:74-84 | values one after the other are counted as so many |
| `RlpRaw.ValuesArePieces` | rlp/raw.go:74-84 | bytes that can be counted are so many values one after the other |
| `ByteOrder.LtTotal` | trie/iterator.go:317-319 | the byte order is total |
| `ByteOrder.LtTransitive` | trie/iterator.go:317-319 | the byte order is transitive |
| `TriePreorder.PreorderSorted` | trie/iterator.go:264-300 | visiting a node before its children in slot order is strictly increasing in the path |
| `TriePreorder.LeavesHaveTerm` | trie/iterator.go:138-140 | exactly the leaves have a terminated path |
| `TriePreorder.PreorderIsWalk` | trie/iterator.go:264-300 | the nodes visited are exactly those that a path leads to, going down key by key and slot by slot |
| `TriePreorder.GetIsWalk` | trie/trie.go:142-178 | a lookup finds a value exactly if the key leads to it |
| `TrieKeys.KeybytesToHex` | trie/encoding.go:66-75 | two nibbles per byte and a terminator |
| `TrieKeys.HexToKeybytes` | trie/encoding.go:79-89 | packs the nibbles back, with or without terminator |
| `TrieKeys.KeyRoundTrip` | trie/encoding.go:66-95 | the key comes back from its hex form |
| `TrieKeys.HexToCompact` | trie/encoding.go:37-52 | flag, odd nibble and packed rest |
| `TrieKeys.CompactToHex` | trie/encoding.go:54-64 | unpacks what the flag says |
| `TrieKeys.FlagParts` | trie/encoding.go:37-52 | the high nibble of the first byte is two for a terminator plus one for odd length, the low one an odd first nibble or zero |
| `TrieKeys.ExpandParts` | trie/encoding.go:54-64 | what the first byte says about terminator and odd nibble |
| `TrieKeys.CompactRoundTrip` | trie/encoding.go:37-64 | every hex key comes back from its compact form |
| `TrieKeys.ExpandRoundTrip` | trie/encoding.go:37-64 | bytes come back from their expansion exactly when they are a compact form |
| `TrieKeys.HexOrder` | trie/encoding.go:66-75 | the hex form keeps the byte order of keys, up to prefixes |
| `TrieIterator.NodeIterator.Pop` | trie/iterator.go:310-314 | leaves the top node and cuts the path back to it |
| `TrieIterator.NodeIterator.NextChild` | trie/iterator.go:264-300 | the next child to visit, or nothing is left below the node |
| `TrieIterator.NodeIterator.Peek` | trie/iterator.go:216-250 | finds the next node without visiting it; what is left to visit is unchanged |
| `TrieIterator.NodeIterator.Push` | trie/iterator.go:302-308 | visits the node found; it was the first of what is left |
| `TrieIterator.NodeIterator.Next` | trie/iterator.go:178-195 | visits the first of what is left, past the current subtree unless descending |
| `TrieIterator.NodeIterator.Seek` | trie/iterator.go:197-213 | leaves to visit exactly the nodes whose path is not below the start |
| `TrieIterator.NodeIterator.VisitAll` | trie/iterator.go:178-195 | repeated Next visits all that is left, in order |
| `TrieIterator.NodeIterator.LeafKey` | trie/iterator.go:151-158 | the key whose hex form is the path |
| `TrieIterator.Iterator.Next` | trie/iterator.go:44-57 | moves to the next leaf and gives its key and value; nothing exactly if no leaf is left |
| `TrieIterator.Iterator.All` | trie/iterator.go:44-57 | repeated Next lists all entries that are left, in order |
| `TrieIterator.EntriesAreLeaves` | trie/iterator.go:138-158 | an entry is listed exactly if a leaf with its value stands at the hex form of its key |
| `TrieIterator.EntriesInOrder` | trie/iterator.go:44-57 | entries come in strictly increasing order of the hex form of their keys |
| `TrieIterator.GetIsVisit` | trie/trie.go:132-178 | a lookup of a key finds exactly the value an iteration comes to there |
| `TrieIterator.EntriesFrom` | trie/iterator.go:37-57 | from a start key, exactly the entries that a lookup finds and whose key is not below it or is a prefix of it, each once and in the order of the hex keys |
| `TrieIterator.IterateFrom` | trie/iterator.go:115-122 | exactly the nodes that a path not below the start leads to, each once, strictly increasing |
| `TrieIterator.KeysFromStart` | trie/iterator.go:197-213 | a key is visited exactly when it is not below the start or is a prefix of it |
| `TrieIterator.PrefixBelowStart` | trie/iterator.go:197-213 | a trie with a key below the start that is among the nodes visited |
| `TrieDifference.CompareNodes` | trie/iterator.go:316-332 | zero exactly for equal path, leaf status and content; otherwise a path order |
| `TrieDifference.SameStretch` | trie/iterator.go:402-413 | equal hashes mean equal subtrees, so both may be skipped together |
| `TrieDifference.DifferenceIterator.constructor` | trie/iterator.go:343-350 | starts on whatever both iterators have left, with the first on its first node |
| `TrieDifference.DifferenceIterator.Next` | trie/iterator.go:376-416 | moves to the next node that is not in the first trie; at the end all the rest was |
| `TrieDifference.DifferenceOf` | trie/iterator.go:343-416 | emits, in path order, exactly the nodes that a path leads to in the second trie and that the first does not have there |
| `TrieDifference.HasIsMark` | trie/iterator.go:316-332 | a trie has a node exactly if the path leads to the same value or to a node of the same hash |
| `TrieDifference.HasMeans` | trie/iterator.go:316-332 | of two inner nodes at a path the hash decides, of two values the value |
| `TrieDifference.DifferenceFrom` | trie/iterator.go:343-416 | the same for iterators moved to a start key in each trie: exactly the nodes from the second start on that the first trie does not have from its start on |
| `TrieDifference.LeavesOfDifference` | trie/iterator.go:316-416 | the emitted leaves are those whose key and value the first trie does not have |
| `TxItems.FlatUnique` | core/tx_list.go:203-216 | there is one nonce-sorted sequence of given contents |
| `TxItems.LowestSize` | core/tx_list.go:127-148 | cutting to k leaves k transactions, or all |
| `TxItems.LowestBelow` | core/tx_list.go:127-148 | what is kept has lower nonces than what is cut |
| `TxSortedMap.SortedMap.Get` | core/tx_list.go:67-69 | the transaction with the nonce |
| `TxSortedMap.SortedMap.Put` | core/tx_list.go:73-79 | the map with the transaction; the index stays a heap of the keys |
| `TxSortedMap.SortedMap.Forward` | core/tx_list.go:84-98 | removes exactly the nonces below the threshold, in order; index and cache stay right |
| `TxSortedMap.SortedMap.Filter` | core/tx_list.go:102-123 | keeps exactly what the filter rejects and returns exactly the rest |
| `TxSortedMap.SortedMap.Cap` | core/tx_list.go:127-148 | keeps the lowest nonces and returns the others strictly from the highest down |
| `TxSortedMap.SortedMap.Remove` | core/tx_list.go:152-169 | the map without the nonce; reports whether it was there |
| `TxSortedMap.SortedMap.Ready` | core/tx_list.go:178-193 | takes off the longest run of consecutive nonces from the lowest one |
| `TxSortedMap.SortedMap.Flatten` | core/tx_list.go:203-216 | the contents in nonce order, from the cache or sorted anew |
| `TxSortedMap.SortedIsFlat` | core/tx_list.go:203-216 | sorting the contents in any order gives the nonce order |
| `TxList.List.Add` | core/tx_list.go:251-272 | replaces exactly when the price rises by the bump; the caps stay bounds |
| `TxList.List.Forward` | core/tx_list.go:277-279 | removes the nonces below the threshold |
| `TxList.List.Cap` | core/tx_list.go:318-320 | keeps the lowest nonces |
| `TxList.List.Filter` | core/tx_list.go:290-314 | removes exactly what costs more or needs more gas than allowed, in strict mode also what follows the first such; the three parts split the old contents; a strict list stays contiguous |
| `TxList.List.Remove` | core/tx_list.go:325-336 | the nonce leaves, in strict mode with all higher ones; the three parts split the old contents; a strict list stays contiguous |
| `TxList.SurvivorsContiguous` | core/tx_list.go:290-314 | what a strict filter keeps of a contiguous list is contiguous |
| `TxPricedList.PricedList.Put` | core/tx_list.go:403-405 | the pooled transaction gets an entry; every pooled transaction has one |
| `TxPricedList.PricedList.Removed` | core/tx_list.go:410-424 | counts, or rebuilds the heap from the pool when more than a quarter is stale |
| `TxPricedList.PricedList.Cap` | core/tx_list.go:428-455 | returns exactly the pooled remote transactions below the threshold; all others keep their entries |
| `TxPricedList.PricedList.Underpriced` | core/tx_list.go:459-481 | whether a remote transaction pays no more than any pooled one |
| `TxPricedList.PricedList.Discard` | core/tx_list.go:485-508 | drops cheapest remote transactions first, and all of them if it drops fewer than asked |
| `TxPricedList.PricedList.RemoveTx` | core/tx_pool.go:867-877 | the pool without the transaction; the heap still covers the pool |
| `TxPricedList.PricedList.SetGasPrice` | core/tx_pool.go:467-476 | leaves exactly the transactions that are local or pay the price |
| `TxPricedList.PricedList.MakeRoom` | core/tx_pool.go:622-637 | rejects exactly the underpriced; otherwise removes only remote transactions, none dearer than a remote one kept; if no transaction has two heap entries, exactly one slot is free or only local ones are left |
| `PendingLimit.Pool.Count` | core/tx_pool.go:963-966 | the total of all list lengths |
| `PendingLimit.Pool.CutOne` | core/tx_pool.go:992-1005 | drops the highest nonce, from the pool as well, and rewinds the account nonce |
| `PendingLimit.RewoundIs` | core/tx_pool.go:992-1005 | an account's nonce is at most its lowest dropped one, and otherwise as it was |
| `PendingLimit.Pool.Reduce` | core/tx_pool.go:991-1006 | one round takes one transaction from every given account |
| `PendingLimit.Pool.LowerTo` | core/tx_pool.go:984-1008 | cuts the earlier offenders to the newest one's length, or until the total fits |
| `PendingLimit.Pool.LowerAll` | core/tx_pool.go:1010-1030 | cuts all offenders to the guaranteed slots, or until the total fits |
| `PendingLimit.Pool.Equalize` | core/tx_pool.go:969-1009 | offenders, largest first, are cut to one level; one level more was too much |
| `PendingLimit.Pool.Limit` | core/tx_pool.go:962-1032 | some level of at least the guaranteed slots: everyone not local keeps the lowest nonces up to it, locals all; anything dropped means one level more exceeds the limit; the total fits or the level is the guaranteed one |
| `PendingLimit.WaterLevelIsUnique` | core/tx_pool.go:962-1032 | any two such levels leave the same transactions |
| `ChainPath.PathKeys` | core/headerchain.go:141-206 | a path has one header for each number up to its end |
| `ChainPath.PathsAgree` | core/headerchain.go:174-186 | paths that meet at a number agree below it |
| `ChainPath.PathStep` | core/headerchain.go:174-186 | neighbours on a path are parent and child |
| `HeaderChain.Chain.constructor` | core/headerchain.go:73-113 | a chain of the genesis header alone |
| `HeaderChain.Chain.Load` | core/headerchain.go:73-113 | resumes from the head block, or genesis; in order exactly if index, header head and weight on disk are that block's |
| `HeaderChain.Chain.GetTd` | core/headerchain.go:323-335 | the stored total difficulty, through the cache |
| `HeaderChain.Chain.GetHeader` | core/headerchain.go:355-372 | the stored header, through the cache |
| `HeaderChain.Chain.WriteHeader` | core/headerchain.go:141-206 | stores the header and moves the head exactly if it is heavier, or as heavy and the coin says so; the index is the head's path and no header is heavier |
| `HeaderChain.Chain.StoreHeader` | core/headerchain.go:155-161 | header and total difficulty are stored; the head's path is not affected |
| `HeaderChain.Chain.DeleteAbove` | core/headerchain.go:166-173 | nothing is left above the new head |
| `HeaderChain.Chain.Overwrite` | core/headerchain.go:174-186 | terminates with the index equal to the new head's path |
| `HeaderChain.Chain.Reroute` | core/headerchain.go:165-195 | the index becomes exactly the path of the new head |
| `HeaderChain.Chain.IndexIsAncestry` | core/headerchain.go:141-206 | entry n is there exactly up to the head's number and links to the entry below |
| `HeaderChain.Chain.Run` | core/headerchain.go:141-206 | any headers in any order with any coins: exactly those are stored whose parent was stored in time; index and head stay right |
| `HeaderChain.TakenStep` | core/headerchain.go:141-161 | a header is taken exactly if its parent is stored, whatever the coin |
| `TxLookup.ExactPlace` | core/database_util.go:284-296 | an exact index gives every transaction of the path its one place |
| `TxLookup.ReorganisedIsExact` | core/blockchain.go:1365-1382 | writing the new part and deleting the difference makes the index of one path that of the other |
| `TxLookup.WrittenIsExact` | core/database_util.go:484-501 | writing a block's entries extends an exact index by the block |
| `BlockChain.TxDifference` | core/types/transaction.go:332-347 | the transactions of the first list that are not in the second, in order |
| `BlockChain.BestAfter` | core/blockchain.go:977-985 | whichever way ties of the same number go, the fork choice leaves the head unbeaten: none heavier, none as heavy with a lower number |
| `BlockChain.Chain.WriteTxLookupEntries` | core/database_util.go:484-501 | every transaction of the block points to its block and position, nothing else changes |
| `BlockChain.Chain.Insert` | core/blockchain.go:479-501 | the block is head and in the index; the other markers follow unless it was there already |
| `BlockChain.Chain.Descend` | core/blockchain.go:1313-1327 | walks a chain down to a number, collecting its blocks and transactions |
| `BlockChain.Chain.FindFork` | core/blockchain.go:1313-1353 | the last common block: the chains agree up to it and differ above it |
| `BlockChain.Chain.Adopt` | core/blockchain.go:1365-1375 | index and lookup entries are those of the new chain above the fork, all others unchanged |
| `BlockChain.Chain.Reorg` | core/blockchain.go:1290-1382 | index and lookup become those of the new head's path, whatever the shape of the fork |
| `BlockChain.NotListed` | core/blockchain.go:479-501 | a block that wins is not in the index already, so the head markers follow |
| `BlockChain.Chain.WriteBlockWithState` | core/blockchain.go:890-1015 | canonical if heavier, or as heavy with a lower number, or as heavy with the same number and the coin says so, otherwise a side block; index at and below the head is its path, a number is in it exactly if it was or is at most the head's; lookup exact, head markers equal, head unbeaten |
| `BlockChain.Chain.LeftAbove` | core/blockchain.go:1365-1382 | entries are left above the head exactly if some head was higher |
| `BlockChain.ShorterChainWins` | core/blockchain.go:1365-1382 | a run that ends with an entry above the head |
| `BlockChain.Chain.WriteBlockWithoutState` | core/blockchain.go:876-887 | storing a lighter block changes neither head nor indexes |
| `BlockChain.Chain.GetTransaction` | core/database_util.go:284-296 | finds exactly the transactions of the canonical chain, where they stand |
| `BlockChain.Chain.Run` | core/blockchain.go:876-1015 | any blocks of any tree in any order with any coins: all of it stays right, and of the blocks with state exactly those are stored whose parent was stored in time |
| `BlockChain.Chain.Offer` | core/blockchain.go:876-1015 | one write: a block with state is stored exactly if its parent is |
| `BlockChain.TakenStep` | core/blockchain.go:890-897 | a block with state is taken exactly if its parent is stored, whatever the coin |
| `SectionStore.FromGenesis` | core/chain_indexer.go:343-373 | a stored head is a whole number of sections above genesis by parent links |
| `SectionStore.OneChain` | core/chain_indexer.go:343-373 | every stored head lies on the chain below any later one |
| `SectionStore.OverlapGood` | core/chain_indexer.go:343-351 | a failed reset and a notification, action by action in any order: the chain on disk is good throughout exactly if the notification keeps nothing or writes its count before the reset |
| `SectionStore.LateNotification` | core/chain_indexer.go:343-351 | a notification that begins while the reset deletes and keeps some section breaks the chain, whatever the order |
| `SectionStore.OverlapEnd` | core/chain_indexer.go:408-420 | both finished: disk and counter are in order exactly if the notification keeps nothing or both writes its count first and ends first |
| `SectionStore.SectionLost` | core/chain_indexer.go:408-420 | an order of writes that ends with one section counted and no head stored |
| `SectionStore.CounterAhead` | core/chain_indexer.go:408-420 | an order of writes that leaves the counter ahead, so that a later notification breaks the chain |
| `ChainIndexer.Indexer.constructor` | core/chain_indexer.go:93-111 | starts from any good database, with nothing known, whatever sections it holds |
| `ChainIndexer.Indexer.TakeAction` | core/chain_indexer.go:408-420 | one write of setValidSections: the count first, then the heads beyond it, then the counter |
| `ChainIndexer.ConfirmedIs` | core/chain_indexer.go:249-253 | a section counts as confirmed exactly if its last block has the required confirmations |
| `ChainIndexer.KnownIs` | core/chain_indexer.go:227-254 | which sections are known after a notification |
| `ChainIndexer.Indexer.OnNewHead` | core/chain_indexer.go:223-262 | after a reorganisation exactly the known sections that end before the new head stay known, otherwise those come in addition whose last block has the required confirmations; stored ones are to be taken back exactly if they reach further |
| `ChainIndexer.Indexer.OnNoteStep` | core/chain_indexer.go:235-246 | a harmless action of a notification keeps the invariant, also between the writes of a failed reset |
| `ChainIndexer.UndisturbedIsHarmless` | core/chain_indexer.go:348-351 | an action of a notification is harmless unless a failed reset is deleting or has lowered the count below what is kept |
| `ChainIndexer.Indexer.OnPickUp` | core/chain_indexer.go:282-299 | takes the next section and the head below it, under the lock |
| `ChainIndexer.Indexer.OnReset` | core/chain_indexer.go:346-351 | a successful reset begins the section, a failed one begins to drop all sections |
| `ChainIndexer.Indexer.OnResetStep` | core/chain_indexer.go:348-350 | every action of a failed reset keeps the invariant, without the lock |
| `ChainIndexer.Indexer.OnRead` | core/chain_indexer.go:353-367 | accepts a block only if its parent is the last one read |
| `ChainIndexer.Indexer.Enter` | core/chain_indexer.go:306-308 | writes the head before the count; both databases on the way are good |
| `ChainIndexer.Indexer.OnFinish` | core/chain_indexer.go:303-324 | enters the section exactly if its predecessor is still there; stored stays within known exactly if the section is still known; a failure makes them equal |
| `ChainIndexer.Indexer.Run` | core/chain_indexer.go:223-373 | any interleaving of single writes, up to the first harmful action: after every write the stored heads form one gap-free hash-linked chain, and the state is what the events make of it |
| `ChainIndexer.Indexer.React` | core/chain_indexer.go:223-373 | every event has the effect the event function says |
| `ChainIndexer.StepsAreWhole` | core/chain_indexer.go:235-246 | the single actions of a notification come to what the whole notification does |
| `ChainIndexer.Indexer.Notify` | core/chain_indexer.go:223-262 | a whole notification: exactly the sections that end before the reorganised head stay stored and known; otherwise the confirmed ones become known |
| `ChainIndexer.Indexer.TakeBack` | core/chain_indexer.go:235-246 | exactly the heads from the reorganised section on are gone, the rest is untouched |
| `ChainIndexer.Indexer.DropAll` | core/chain_indexer.go:348-351 | a failed reset on its own deletes exactly the stored heads and leaves count and counter zero |
| `ChainIndexer.Indexer.TakeStep` | core/chain_indexer.go:223-373 | every step has the effect the step function says |
| `ChainIndexer.Indexer.RunAlone` | core/chain_indexer.go:223-373 | runs of whole notifications and resets need no exception for overlaps; counts, heads and work in progress are those of the step function |
| `ChainIndexer.StoredWithinKnown` | core/chain_indexer.go:223-324 | over any such run, stored stays within known after every step exactly if it was at the start and no section is entered that is no longer known |
| `ChainIndexer.KnownFallsBehind` | core/chain_indexer.go:226-236 | a run that ends with more sections stored than known |
| `RlpxFrame.XorTwice` | p2p/rlpx.go:610-610 | decrypting at the same stream position undoes encrypting |
| `RlpxFrame.XorPieces` | p2p/rlpx.go:618-632 | encrypting piece by piece is encrypting the whole |
| `RlpxFrame.XorAt` | p2p/rlpx.go:610 | encrypting takes the exclusive or with the key stream, bit by bit |
| `RlpxFrame.Int24RoundTrip` | p2p/rlpx.go:722-730 | 24-bit sizes come back |
| `RlpxFrame.Int24IsBigEndian` | p2p/rlpx.go:722-730 | the most significant byte comes first |
| `RlpxFrame.HeaderIs` | p2p/rlpx.go:608-609 | size, the encoded list of two zeros, and zeros |
| `RlpxFrame.ReseedFeeds` | p2p/rlpx.go:712-719 | the hash is fed one block more: the seed under the encrypted hash so far |
| `RlpxFrame.ReseedTellsApart` | p2p/rlpx.go:712-719 | different seeds are fed differently |
| `RlpxFrame.FrameIsAccepted` | p2p/rlpx.go:641-679 | a reader in the writer's state accepts the frame, gets the content and reaches the writer's next state |
| `RlpxFrame.FrameIsGenuine` | p2p/rlpx.go:641-675 | if the truncated hash tells the inputs concerned apart, a reader in the writer's state that accepts bytes with the frame's two tags in place has been given exactly the frame |
| `RlpxFrame.ReplayIsRefused` | p2p/rlpx.go:641-651 | under the same condition a reader that has gone on refuses an earlier frame |
| `RlpxFrame.GoesOn` | p2p/rlpx.go:608-639 | every frame feeds the hash with its whole length and moves on in the key stream by header and body |
| `RlpxFrame.FrameIsEncrypted` | p2p/rlpx.go:608-632 | header and body are one stretch of the key stream |
| `Rlpx.UpdateMac` | p2p/rlpx.go:712-720 | reseeds the running hash with the seed and returns its tag |
| `Rlpx.FrameRW.WriteMsg` | p2p/rlpx.go:588-639 | writes exactly one frame of code and payload, or refuses and changes nothing |
| `Rlpx.FrameRW.ReadMsg` | p2p/rlpx.go:641-708 | returns a message exactly if a frame is accepted and starts with a code; code and payload make up its content |
| `Rlpx.SizeInUint32` | p2p/rlpx.go:604 | the size the writer computes is the true one modulo 2^32 |
| `Rlpx.WriterTakes` | p2p/rlpx.go:603-607 | the writer takes exactly the messages of at most 24 bits and those whose true size is beyond 32 bits and small modulo 2^32 |
| `Rlpx.ComesBack` | p2p/rlpx.go:588-708 | a message that was taken comes back exactly if its true size is at most 24 bits |
| `Rlpx.WrappingMessage` | p2p/rlpx.go:603-607 | a message whose size wraps around to zero |
| `Rlpx.ContentIsUnique` | p2p/rlpx.go:680-686 | code and payload are determined by the content |
| `Rlpx.StepReceived` | p2p/rlpx.go:641-708 | with messages under way the reader gets the oldest and is one less behind |
| `Rlpx.MessageIsGenuine` | p2p/rlpx.go:641-686 | accepted input with a message's tags in place starts with its frame and has its content |
| `Rlpx.ReplayedMessage` | p2p/rlpx.go:641-651 | a reader that has received a message, and any more since, refuses its frame |
| `Rlpx.OneKeyStream` | p2p/rlpx.go:608-632 | all frames together use up one stretch of the key stream, so no part of it twice |
| `Rlpx.Connection.SendRight` | p2p/rlpx.go:588-639 | a message goes under way exactly if it fits |
| `Rlpx.Connection.ReceiveRight` | p2p/rlpx.go:641-708 | the oldest message under way arrives with the same code and payload |
| `Rlpx.Connection.Handle` | p2p/rlpx.go:588-708 | one send or receipt: what goes under way, and the one message that arrives if there is one |
| `Rlpx.EventStep` | p2p/rlpx.go:588-708 | what one more event adds to what has been sent and to what is under way |
| `Rlpx.Connection.Run` | p2p/rlpx.go:588-708 | any sends and receives both ways: each end receives what was sent, in order, one message per receipt as long as there are any; with nothing under way hash and cipher positions agree |
| `Protocols.SortCaps` | p2p/protocol.go:75-82 | the same capabilities by name and version |
| `Protocols.FindProtocol` | p2p/peer.go:320-321 | the first protocol of that name and version, none exactly if there is none |
| `Protocols.MatchProtocols` | p2p/peer.go:312-334 | exactly the shared names run, each in its highest shared version, laid out by name from code 16 |
| `Protocols.NoOverlap` | p2p/peer.go:312-334 | no code belongs to two protocols or to the base protocol as well |
| `Protocols.NoGap` | p2p/peer.go:312-334 | every code from 16 to the end of the layout belongs to one |
| `Protocols.PeersAgree` | p2p/peer.go:312-334 | peers that agree on lengths compute the same versions and offsets |
| `Protocols.GetProto` | p2p/peer.go:364-371 | the one owner of a code, none exactly outside the layout |
| `Protocols.Route` | p2p/peer.go:364-410 | hands a code to its owner, relative to the owner's offset |
| `Protocols.Deliver` | p2p/peer.go:312-410 | a code sent on a protocol arrives at the same protocol in the same, highest shared version as the same code; it is refused exactly if not below that protocol's length |

## Left out

- Locks, channels, timers, metrics, logging, LevelDB, networking, RPC, the CLI and key storage.
- EVM execution, the consensus engine and cryptography: what they guarantee enters as preconditions (numbers follow the parent's, hashes tell contents apart, no transaction twice on a chain) or as parameters.
- Reflection-driven RLP typing, nil pointers, big integers, booleans and the typed decoders: items are byte strings and lists.
- Preimages of the trie database, and `Dereference` of the zero hash; sizes are integers, not floats.
- RlpStream.Stream.WillRead: an input without a limit is not modelled.
- TrieIterator.NodeIterator.Next: all nodes resolve, so missing-node and seek errors do not occur; `Parent` and the union iterator are not modelled.
- TriePreorder.GetIsWalk: lookups are on loaded tries; resolving nodes and keeping them in the trie are not modelled.
- StateRetention.Retention.Run: that no garbage arises is promised for a full node and for blocks whose new nodes form one trie; on an archive a failed write may leave the new nodes in memory.
- RlpxFrame.FrameIsGenuine: that the truncated hash tells the inputs concerned apart is a condition; nothing is claimed about how hard it is to find inputs it confuses.
- TrieDifference.DifferenceOf: the count of scanned nodes is not modelled.
- Pool-wide bookkeeping: that the table of all transactions is pending plus queue is not claimed, and re-queueing of invalidated transactions, the queue limits, the journal and promotion are not modelled.
- TxPricedList.PricedList.RemoveTx: only the table and the heap; the account lists are not part of it. Exactness of the stale count is not claimed.
- TxPricedList.PricedList.MakeRoom: that a slot is free is promised only if no pooled transaction has two heap entries, because a transaction that was demoted or came back may have several.
- PendingLimit.Pool.Limit: the account lists are values (the list structure is `TxList`), so sharing between lists is not captured; totals are unbounded.
- HeaderChain.Chain.WriteHeader: the number cache and header versions are not modelled; `SetHead` is not a step of the runs.
- BlockChain.Chain.WriteBlockWithState: state, receipts, logs and events are not part of it (`StateRetention` has the state); entries are written in order, and a crash between them is not modelled. The older transaction format is not looked up.
- ChainIndexer.Indexer.OnNewHead: children are not called; they take the same notifications. `AddKnownSectionHead` is not a step, and canonicality of a section that is reorganised while it is processed is not claimed.
- ChainIndexer.Indexer.TakeAction: the counter's test and update are one action with the delete next to them, so torn counter updates of two overlapping calls are not modelled.
- SectionStore.OverlapGood: the overlap of one failed reset with one notification; several notifications during one reset are in `ChainIndexer.Indexer.Run`, which is sound for them but does not say that every action it stops at does harm.
- Rlpx.FrameRW.WriteMsg: compression is off and the connection takes all bytes.
- Protocols.MatchProtocols: offsets are unbounded; wrap-around of 64-bit sums is not modelled.
- The RLPx handshake, discovery, the downloader and the fetcher.

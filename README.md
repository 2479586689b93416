# Imhotep core, modelled in Dafny

Imhotep is a distributed engine for aggregate queries over sharded data. This project models four sequential pieces of it and proves their contracts.

- **The shard master's interval tree** (`Treap.dfy`, `IntervalTree.dfy`). It is a treap of intervals keyed by (start, end) in lexicographic order. Each node has a priority and caches the largest end in its subtree (`largestToTheRight`).
  - The nodes are the value type `Treap.Tree`. The recursive `addInterval` is `Treap.Insert`. It merges into an exactly matching node or attaches a leaf, and on the way back up it rotates a child whose priority is higher than its parent's and recomputes the cache.
  - The class `IntervalTree.IntervalTree` holds the root and the set of all values, and reassigns both on insertion.
  - The proved invariants are search order, heap order on priority and a correct cache. The overlap query is proved to return exactly the union of the value sets of the stored intervals that overlap the range.
- **The client's group-statistics stream reader** (`BigEndian.dfy`, `GroupStatsStream.dfy`). It is a forward-only iterator over `count` big-endian longs read from a socket, with a `close` that can drain the rest first.
  - The socket is the byte sequence the peer sends plus a read position.
  - `BigEndian` proves the readLong/writeLong round trip.
  - The reader class tracks the Java-int `index`, the nullable stream (as `open`) and, as a ghost, the values delivered so far.
- **The FTGS post-filter settings** (`FTGSModifiers.dfy`). This is a validated value object with its copy constructors, and the rule that picks the top-terms wrapper, the term-limited wrapper or no wrapper.
- **The server's shard map** (`ShardMap.dfy`). It is the table dataset -> shard id -> shard, with:
  - lookup and insertion, per-dataset counts and bulk reader lookup;
  - the version rule `track` uses to keep the newest copy of a shard;
  - reconciliation with the persisted shard store (`saveTo` and `prune`).
  
  The class `ShardMap.ShardMap` holds the table, and `ShardMap.ShardStore` the store's records.

`Wrappers.dfy` holds the `Option` and `Result` types. The source's null returns and thrown exceptions become these: `None`, or a `Failure` naming the error.

Calls the source makes into the environment become parameters:
- `Math.random()` becomes a caller-supplied integer priority;
- a failed shard load becomes a boolean;
- failed store puts and deletes become sets of keys whose operation throws an IOException;
- the socket's contents become the reader's input.

## Model

| member | source | states |
|---|---|---|
| Treap.Compare | imhotep-shardmaster/src/main/java/com/indeed/imhotep/shardmaster/utils/IntervalTree.java:37-41 | The sign of compareTo is negative exactly when the first interval is lexicographically smaller by (start, end), positive exactly when it is larger, and zero exactly when both key pairs are equal. |
| Treap.Max | imhotep-shardmaster/src/main/java/com/indeed/imhotep/shardmaster/utils/IntervalTree.java:91-93 | The two-argument max is at least each argument and is one of them. |
| Treap.Max3 | imhotep-shardmaster/src/main/java/com/indeed/imhotep/shardmaster/utils/IntervalTree.java:87-89 | The three-argument max is at least each argument and is one of them. |
| Treap.Recompute | imhotep-shardmaster/src/main/java/com/indeed/imhotep/shardmaster/utils/IntervalTree.java:177-187 | updateLargestToTheRight leaves the links and the interval alone. The new cached value is at least the node's end and each present child's cached value, and it equals one of them. |
| Treap.Contents | imhotep-shardmaster/src/main/java/com/indeed/imhotep/shardmaster/utils/IntervalTree.java:44-51 | The stored intervals, as a map from key pair to value set, have exactly the keys of the tree's nodes. |
| Treap.Leaf | imhotep-shardmaster/src/main/java/com/indeed/imhotep/shardmaster/utils/IntervalTree.java:123-126 | A new node for an interval has no children and a cache equal to its end. It is a valid one-node tree storing exactly that interval. |
| Treap.Overlaps | imhotep-shardmaster/src/main/java/com/indeed/imhotep/shardmaster/utils/IntervalTree.java:113-115 | shouldTakeThisInterval: start <= qe and end >= qs. This is the overlap test of the reference answer that Treap.QueryIsExact proves valuesInRange equal to. |
| Treap.ValuesInRange | imhotep-shardmaster/src/main/java/com/indeed/imhotep/shardmaster/utils/IntervalTree.java:95-111 | valuesInRange with both pruning branches and the per-node union. Its meaning, exactly the overlapping values, is stated by Treap.QueryIsExact. |
| Treap.CachedMaxIsLargestEnd | imhotep-shardmaster/src/main/java/com/indeed/imhotep/shardmaster/utils/IntervalTree.java:177-187 | Where every cache is correct, a node's largestToTheRight is the largest end stored in its subtree: no end exceeds it, and some end equals it. |
| Treap.QueryIsExact | imhotep-shardmaster/src/main/java/com/indeed/imhotep/shardmaster/utils/IntervalTree.java:95-115 | For a search-ordered tree with correct caches, valuesInRange returns exactly the union of the value sets of the stored intervals with start <= qe and end >= qs. Neither pruning shortcut loses a value. |
| Treap.QueryOnEmpty | imhotep-shardmaster/src/main/java/com/indeed/imhotep/shardmaster/utils/IntervalTree.java:78-80 | A query on an empty tree is empty, and so is the reference answer. |
| Treap.OverlappingOfUnion | imhotep-shardmaster/src/main/java/com/indeed/imhotep/shardmaster/utils/IntervalTree.java:105-110 | The reference answer over two disjoint groups of intervals is the union of their answers. This is the per-node union step of the query. |
| Treap.AddTo | imhotep-shardmaster/src/main/java/com/indeed/imhotep/shardmaster/utils/IntervalTree.java:171-172 | Adding values under a key merges them into that key's set if the key is present and creates it if not. Every other key keeps its set. |
| Treap.RotateRight | imhotep-shardmaster/src/main/java/com/indeed/imhotep/shardmaster/utils/IntervalTree.java:128-143 | The right rotation makes the left child the parent. No key pair is gained or lost, and the node count is unchanged. |
| Treap.RotateLeft | imhotep-shardmaster/src/main/java/com/indeed/imhotep/shardmaster/utils/IntervalTree.java:154-169 | The left rotation makes the right child the parent. No key pair is gained or lost, and the node count is unchanged. |
| Treap.RotateRightBst | imhotep-shardmaster/src/main/java/com/indeed/imhotep/shardmaster/utils/IntervalTree.java:128-143 | The right rotation keeps the lexicographic search order. |
| Treap.RotateLeftBst | imhotep-shardmaster/src/main/java/com/indeed/imhotep/shardmaster/utils/IntervalTree.java:154-169 | The left rotation keeps the lexicographic search order. |
| Treap.RotateRightContents | imhotep-shardmaster/src/main/java/com/indeed/imhotep/shardmaster/utils/IntervalTree.java:128-143 | The right rotation only relinks nodes: the stored intervals and their value sets are exactly the same. |
| Treap.RotateLeftContents | imhotep-shardmaster/src/main/java/com/indeed/imhotep/shardmaster/utils/IntervalTree.java:154-169 | The left rotation only relinks nodes: the stored intervals and their value sets are exactly the same. |
| Treap.Insert | imhotep-shardmaster/src/main/java/com/indeed/imhotep/shardmaster/utils/IntervalTree.java:118-175 | The recursive addInterval always returns a node, and its key pairs are the old ones plus the new interval's. |
| Treap.InsertBst | imhotep-shardmaster/src/main/java/com/indeed/imhotep/shardmaster/utils/IntervalTree.java:118-175 | Insertion, including every rotation on the way up, keeps the lexicographic search order. |
| Treap.InsertCachedMax | imhotep-shardmaster/src/main/java/com/indeed/imhotep/shardmaster/utils/IntervalTree.java:118-187 | After an insert, every node's cached largestToTheRight is again the max of its own end and its children's cached values. |
| Treap.InsertHeap | imhotep-shardmaster/src/main/java/com/indeed/imhotep/shardmaster/utils/IntervalTree.java:128-154 | A heap-ordered tree stays heap-ordered: no child has a higher priority than its parent. The new root's children have priority at most the old root's, and the new root's priority is the old root's or the new interval's. |
| Treap.InsertContentsLeft | imhotep-shardmaster/src/main/java/com/indeed/imhotep/shardmaster/utils/IntervalTree.java:119-144 | The step for a new interval smaller than the node: descending left, then rotating right or recomputing, adds the values under the new key and changes nothing else. |
| Treap.InsertContentsRight | imhotep-shardmaster/src/main/java/com/indeed/imhotep/shardmaster/utils/IntervalTree.java:145-170 | The step for a new interval larger than the node: descending right, then rotating left or recomputing, adds the values under the new key and changes nothing else. |
| Treap.InsertContents | imhotep-shardmaster/src/main/java/com/indeed/imhotep/shardmaster/utils/IntervalTree.java:118-175 | After an insert, the stored intervals are the old ones with the new interval's values merged into an equal key pair, or with the new interval added. |
| Treap.InsertSize | imhotep-shardmaster/src/main/java/com/indeed/imhotep/shardmaster/utils/IntervalTree.java:118-175 | An insert whose key pair is already present creates no node; any other insert creates exactly one. |
| Treap.InsertValid | imhotep-shardmaster/src/main/java/com/indeed/imhotep/shardmaster/utils/IntervalTree.java:118-187 | Search order, heap order and correct caches are all kept by one insert, and the insert's contents and size are as the two lemmas above state. |
| Treap.AllValuesAddTo | imhotep-shardmaster/src/main/java/com/indeed/imhotep/shardmaster/utils/IntervalTree.java:53-56 | The union of all value sets after adding values under a key is the old union plus those values. |
| Treap.AddToCommutes | imhotep-shardmaster/src/main/java/com/indeed/imhotep/shardmaster/utils/IntervalTree.java:53-73 | Two additions give the same stored intervals in either order, so the contents do not depend on the order of the calls. The tree's shape may still differ. |
| IntervalTree.IntervalTree.constructor | imhotep-shardmaster/src/main/java/com/indeed/imhotep/shardmaster/utils/IntervalTree.java:11-51 | A new tree stores nothing and has seen no value. |
| IntervalTree.IntervalTree.AddInterval | imhotep-shardmaster/src/main/java/com/indeed/imhotep/shardmaster/utils/IntervalTree.java:53-73 | addInterval keeps all three tree invariants. It merges the value under (start, end), adds the value to the set of all values, and creates a node only when that key pair is new. |
| IntervalTree.IntervalTree.GetValuesInRange | imhotep-shardmaster/src/main/java/com/indeed/imhotep/shardmaster/utils/IntervalTree.java:75-85 | getValuesInRange returns exactly the values of the stored intervals that overlap [start, end], and the empty set on an empty tree. |
| IntervalTree.IntervalTree.GetAllValues | imhotep-shardmaster/src/main/java/com/indeed/imhotep/shardmaster/utils/IntervalTree.java:13-22 | getAllValues is the union of every stored value set, which is every value ever passed to addInterval. |
| IntervalTree.Example | imhotep-shardmaster/src/main/java/com/indeed/imhotep/shardmaster/utils/IntervalTree.java:53-115 | Inserting (1,3,x), (5,8,y) and (10,12,z), with any priorities p1, p2 and p3 passed as parameters, and querying [4,6] gives exactly {y}. |
| IntervalTree.ExampleOverlap | imhotep-shardmaster/src/main/java/com/indeed/imhotep/shardmaster/utils/IntervalTree.java:113-115 | Of those three intervals, only (5,8) overlaps [4,6]. |
| BigEndian.Pow256Eight | imhotep-client/src/main/java/com/indeed/imhotep/GroupStatsStreamReader.java:64 | Eight bytes hold exactly 2^64 values. |
| BigEndian.Unsigned | imhotep-client/src/main/java/com/indeed/imhotep/GroupStatsStreamReader.java:64 | The value of n big-endian bytes is below 256^n. |
| BigEndian.ReadLong | imhotep-client/src/main/java/com/indeed/imhotep/GroupStatsStreamReader.java:64 | readLong: the eight bytes as an unsigned big-endian number, minus 2^64 when the top bit is set. BigEndian.ReadWriteLong and BigEndian.WriteReadLong prove it is the inverse of writeLong. |
| BigEndian.WriteLong | imhotep-client/src/main/java/com/indeed/imhotep/GroupStatsStreamReader.java:64 | writeLong: the eight-byte big-endian two's-complement form of a long. Its inverse is readLong, as the two round-trip lemmas prove. |
| BigEndian.UnsignedToBytes | imhotep-client/src/main/java/com/indeed/imhotep/GroupStatsStreamReader.java:64 | Encoding a number in big-endian bytes and decoding it gives the number back. |
| BigEndian.ToBytesUnsigned | imhotep-client/src/main/java/com/indeed/imhotep/GroupStatsStreamReader.java:64 | Decoding big-endian bytes and re-encoding them to the same length gives the bytes back. |
| BigEndian.ReadWriteLong | imhotep-client/src/main/java/com/indeed/imhotep/GroupStatsStreamReader.java:64 | readLong of the eight bytes writeLong sends for x is x, negative values included. |
| BigEndian.WriteReadLong | imhotep-client/src/main/java/com/indeed/imhotep/GroupStatsStreamReader.java:64 | Every eight bytes are what writeLong sends for the long that readLong decodes from them. |
| BigEndian.Longs | imhotep-client/src/main/java/com/indeed/imhotep/GroupStatsStreamReader.java:64 | A stream yields one long per complete group of eight bytes. |
| BigEndian.LongsAt | imhotep-client/src/main/java/com/indeed/imhotep/GroupStatsStreamReader.java:64 | The k-th long of a stream is decoded from bytes 8k to 8k+8. |
| BigEndian.LongsWriteLongs | imhotep-client/src/main/java/com/indeed/imhotep/GroupStatsStreamReader.java:64 | Decoding what the writer sent for a sequence of longs gives back the same longs, in order. |
| GroupStatsStream.Inc32 | imhotep-client/src/main/java/com/indeed/imhotep/GroupStatsStreamReader.java:63 | index++ on a Java int adds one and wraps from the largest int to the smallest. |
| GroupStatsStream.GroupStatsStreamReader.constructor | imhotep-client/src/main/java/com/indeed/imhotep/GroupStatsStreamReader.java:43-48 | A new reader is open at the start of the stream, with index 0 and the given count and exhaust flag. |
| GroupStatsStream.GroupStatsStreamReader.GetNumGroups | imhotep-client/src/main/java/com/indeed/imhotep/GroupStatsStreamReader.java:51-53 | getNumGroups is always the count given at construction. |
| GroupStatsStream.GroupStatsStreamReader.HasNext | imhotep-client/src/main/java/com/indeed/imhotep/GroupStatsStreamReader.java:56-58 | hasNext holds exactly when the reader is not closed and index < count. |
| GroupStatsStream.GroupStatsStreamReader.NextLong | imhotep-client/src/main/java/com/indeed/imhotep/GroupStatsStreamReader.java:61-68 | nextLong counts the call first, so index advances even when the read fails. When closed it fails with no read. Otherwise it returns the next 8-byte big-endian long and advances by eight bytes, or fails at end of stream. Successive successes return the stream's consecutive longs in order. |
| GroupStatsStream.GroupStatsStreamReader.Close | imhotep-client/src/main/java/com/indeed/imhotep/GroupStatsStreamReader.java:71-84 | close always ends closed, so hasNext is false from then on. Without exhaust, or when already closed, nothing is read. With exhaust, it reads min(count - index, available) values. If the stream runs out first, it stops at the failed read. |
| GroupStatsStream.ReadAll | imhotep-client/src/main/java/com/indeed/imhotep/GroupStatsStreamReader.java:43-68 | A reader over what the writer sent for a sequence of longs, with count equal to its length, returns exactly that sequence. |
| FTGSModifiers.New | imhotep-client/src/main/java/com/indeed/imhotep/api/FTGSModifiers.java:27-41 | The constructor fails exactly on a negative term limit. Otherwise it keeps all four arguments. |
| FTGSModifiers.IsTopTerms | imhotep-client/src/main/java/com/indeed/imhotep/api/FTGSModifiers.java:43-45 | isTopTerms: sortStat >= 0 and termLimit > 0. FTGSModifiers.WrapFollowsPredicates proves wrap picks top-terms exactly when it holds. |
| FTGSModifiers.IsTermLimit | imhotep-client/src/main/java/com/indeed/imhotep/api/FTGSModifiers.java:47-49 | isTermLimit: sortStat < 0 and termLimit > 0. FTGSModifiers.WrapFollowsPredicates proves wrap picks the term-limited wrapper exactly when it holds. |
| FTGSModifiers.FiltersExclusive | imhotep-client/src/main/java/com/indeed/imhotep/api/FTGSModifiers.java:43-49 | isTopTerms and isTermLimit never both hold. Both are false when termLimit is 0, and one of them holds when it is positive. |
| FTGSModifiers.NewOfFields | imhotep-client/src/main/java/com/indeed/imhotep/api/FTGSModifiers.java:27-41 | Every constructed object passes the constructor again with its own fields and comes out equal. |
| FTGSModifiers.Copy | imhotep-client/src/main/java/com/indeed/imhotep/api/FTGSModifiers.java:51-53 | copy goes through the constructor check with the same fields and passes it. |
| FTGSModifiers.SortedCopy | imhotep-client/src/main/java/com/indeed/imhotep/api/FTGSModifiers.java:55-57 | sortedCopy goes through the constructor with sorted set to true and passes it. |
| FTGSModifiers.UnsortedCopy | imhotep-client/src/main/java/com/indeed/imhotep/api/FTGSModifiers.java:59-61 | unsortedCopy goes through the constructor with sorted set to false and passes it. |
| FTGSModifiers.UnlimitedCopy | imhotep-client/src/main/java/com/indeed/imhotep/api/FTGSModifiers.java:63-65 | unlimitedCopy goes through the constructor with termLimit 0 and sortStat -1 and passes it. |
| FTGSModifiers.CopiesKeepFields | imhotep-client/src/main/java/com/indeed/imhotep/api/FTGSModifiers.java:51-61 | copy keeps all four fields. sortedCopy and unsortedCopy change only sorted, to true and false respectively. |
| FTGSModifiers.UnlimitedCopyDisablesFilters | imhotep-client/src/main/java/com/indeed/imhotep/api/FTGSModifiers.java:63-65 | After unlimitedCopy neither filter applies. sorted and statsSortOrder are kept. |
| FTGSModifiers.Wrap | imhotep-client/src/main/java/com/indeed/imhotep/api/FTGSModifiers.java:67-93 | Whichever wrapper wrap picks is over the given iterator. |
| FTGSModifiers.WrapFollowsPredicates | imhotep-client/src/main/java/com/indeed/imhotep/api/FTGSModifiers.java:67-93 | Both wrap overloads pick top-terms exactly when isTopTerms, with the term limit, sort stat and sort order. They pick the term-limited wrapper exactly when isTermLimit, with the term limit. Otherwise they return the iterator unchanged. |
| FTGSModifiers.SortingKeepsFilter | imhotep-client/src/main/java/com/indeed/imhotep/api/FTGSModifiers.java:67-93 | Re-sorting a request never changes what wrap does. |
| FTGSModifiers.UnlimitedCopyUnwrapped | imhotep-client/src/main/java/com/indeed/imhotep/api/FTGSModifiers.java:63-78 | wrap on an unlimited copy returns the iterator unchanged. |
| ShardMap.Lookup | imhotep-server/src/main/java/com/indeed/imhotep/service/ShardMap.java:232-235 | getShard finds nothing when the dataset is absent or has no shard with that id. Otherwise it returns the inner map's entry. |
| ShardMap.Put | imhotep-server/src/main/java/com/indeed/imhotep/service/ShardMap.java:239-246 | putShard adds the dataset to the keys, and an unseen dataset gets an inner map holding just the new shard. |
| ShardMap.LookupAfterPut | imhotep-server/src/main/java/com/indeed/imhotep/service/ShardMap.java:237-246 | After putShard(d, s), getShard(d, s.id) is s, replacing any previous shard with that id. Every other (dataset, id) lookup is unchanged. |
| ShardMap.PutWellKeyed | imhotep-server/src/main/java/com/indeed/imhotep/service/ShardMap.java:245 | putShard enters a shard under its own id, so every inner map stays keyed by shard id. |
| ShardMap.Elements | imhotep-server/src/main/java/com/indeed/imhotep/service/ShardMap.java:143-152 | map visits exactly the (dataset, shard id, shard) triples that getShard would find. |
| ShardMap.Saved | imhotep-server/src/main/java/com/indeed/imhotep/service/ShardMap.java:280-303 | After saveTo, no existing record is overwritten or lost. Records are added only for table entries whose put did not fail, and each holds that shard's version. Every table entry whose put did not fail is recorded. |
| ShardMap.Pruned | imhotep-server/src/main/java/com/indeed/imhotep/service/ShardMap.java:305-328 | After prune, a record remains exactly when its (dataset, shard id) has a shard in the map or its delete failed. Remaining records are unchanged. |
| ShardMap.SavedAt | imhotep-server/src/main/java/com/indeed/imhotep/service/ShardMap.java:280-303 | The same, one store key at a time. |
| ShardMap.SaveStep | imhotep-server/src/main/java/com/indeed/imhotep/service/ShardMap.java:285-296 | Handling one table entry during saveTo writes its record exactly when the store lacks the key and the put does not fail. |
| ShardMap.RemoveElement | imhotep-server/src/main/java/com/indeed/imhotep/service/ShardMap.java:143-152 | Entries of one table have distinct (dataset, id) keys. |
| ShardMap.SyncMirrorsTable | imhotep-server/src/main/java/com/indeed/imhotep/service/ShardMap.java:156-159 | With no failed store operation, saveTo then prune leaves the store holding exactly the table's keys. Records that were already present keep their old values. |
| ShardMap.ShardStore.constructor | imhotep-server/src/main/java/com/indeed/imhotep/service/ShardMap.java:305-308 | A store holds the records it is given; prune iterates over them. |
| ShardMap.ShardStore.ContainsKey | imhotep-server/src/main/java/com/indeed/imhotep/service/ShardMap.java:287 | containsKey holds exactly for recorded keys. |
| ShardMap.ShardStore.Put | imhotep-server/src/main/java/com/indeed/imhotep/service/ShardMap.java:295-300 | put records the value unless it fails, in which case the store is unchanged. |
| ShardMap.ShardStore.Delete | imhotep-server/src/main/java/com/indeed/imhotep/service/ShardMap.java:316-321 | delete removes the key unless it fails, in which case the store is unchanged. |
| ShardMap.Decide | imhotep-server/src/main/java/com/indeed/imhotep/service/ShardMap.java:248-278 | track loads exactly when the directory is newer than both the reference copy and the current copy and loading succeeds. The load fails exactly when it is newer but loading fails. Otherwise track keeps the current copy exactly when it exists and is newer than the reference copy (so a version tie keeps the reference copy), and else the reference copy. |
| ShardMap.TrackKeepsNewest | imhotep-server/src/main/java/com/indeed/imhotep/service/ShardMap.java:248-278 | Unless loading fails, the shard track keeps has a version at least the directory's, the reference copy's and the current copy's. |
| ShardMap.ShardMap.constructor | imhotep-server/src/main/java/com/indeed/imhotep/service/ShardMap.java:76-83 | The empty map: no dataset, and every inner map trivially keyed by shard id. |
| ShardMap.ShardMap.GetShard | imhotep-server/src/main/java/com/indeed/imhotep/service/ShardMap.java:232-235 | getShard on the map's own table is the lookup above. |
| ShardMap.ShardMap.PutShard | imhotep-server/src/main/java/com/indeed/imhotep/service/ShardMap.java:239-246 | putShard updates the table as Put states and keeps every inner map keyed by shard id. |
| ShardMap.ShardMap.GetShardCounts | imhotep-server/src/main/java/com/indeed/imhotep/service/ShardMap.java:178-185 | getShardCounts has exactly the table's datasets as keys, each mapped to the number of its shards. |
| ShardMap.ShardMap.GetFlamdexReaders | imhotep-server/src/main/java/com/indeed/imhotep/service/ShardMap.java:197-227 | It fails on a missing dataset, or on the first requested id the dataset lacks. It succeeds exactly when every requested id is present. Then the result has exactly the requested ids, each with its shard's reader, raw exactly for raw shards. allFlamdexReaders is false exactly when some requested shard is raw. |
| ShardMap.ShardMap.Track | imhotep-server/src/main/java/com/indeed/imhotep/service/ShardMap.java:248-278 | For maps whose inner maps are keyed by shard id, track puts the shard that the decision picks, or nothing when loading fails. Afterwards getShard(dataset, dir id) returns the picked shard. It returns true exactly when it loaded. |
| ShardMap.ShardMap.SaveTo | imhotep-server/src/main/java/com/indeed/imhotep/service/ShardMap.java:280-303 | saveTo leaves the store as Saved states, whatever order the entries are visited in. |
| ShardMap.ShardMap.Prune | imhotep-server/src/main/java/com/indeed/imhotep/service/ShardMap.java:305-323 | prune leaves the store as Pruned states, whatever order the keys are visited in. |
| ShardMap.ShardMap.Sync | imhotep-server/src/main/java/com/indeed/imhotep/service/ShardMap.java:156-159 | sync is saveTo followed by prune. |

## Left out

- Locking: the interval tree's read-write lock and the CPU-slot lock `wrap` takes around the top-terms iterator. Both are concurrency; every operation here is modelled as running alone.
- Treap.Insert: the source relinks node fields in place (`left`, `right`, the grandparent's link, `root`). The model rebuilds the path as values inside the class that reassigns `root`, so it does not capture node identity or aliasing.
- IntervalTree.IntervalTree.GetAllValues: returns the set's value. The source returns its live, uncopied set, which a caller could alias; that is an aliasing concern.
- Keys are mathematical integers. The source's tree is generic in any Comparable key; priorities are Java doubles in [0, 1) and here are integers.
- The random priority draw itself: any priority is allowed, so the treap's expected balance is not modelled. Only the order and heap invariants are.
- GroupStatsStream.GroupStatsStreamReader.NextLong: the transport is a fixed byte sequence. Transport errors other than running out of bytes are not modelled, and neither is `Closeables2.closeQuietly` beyond marking the reader closed. A nextLong on a closed reader, which throws a NullPointerException in the source, is the `StreamClosed` failure here.
- The top-terms and term-limited iterators are left out, apart from whether `wrap` wraps an iterator and with which parameters. `FTGSIteratorUtil` and the `TaskScheduler` are not part of this model. `StatsSortOrder` is carried as an opaque type parameter.
- The ShardMap constructors that read a shard store or scan the filesystem are left out, because they are I/O. So are `newLoader` and the reader, memory and cache resources, `OnlyDirs`, `getShardDump`, `store.sync()` and all logging. `Sync` models `sync` without the final `store.sync()`.
- ShardMap.ShardIsNewerThan and ShardMap.DirIsNewerThan: the source's `isNewerThan` is not part of this model. It is taken to mean "a strictly later version, and anything is newer than no shard". A shard is modelled as its id, version and whether its reader is raw; the reader reference, index directory, document count and field lists are left out.
- ShardMap.StoreValue: records only the shard's version. The source also stores the directory name, document count and field lists.
- ShardMap.ShardMap.GetFlamdexReaders: a reader reference is modelled by the shard it comes from plus whether it is raw. The shared-reference machinery is not modelled, and neither is the `IOException` that reading a shard's reader through `shard.getRef()` may throw (ShardMap.java lines 198 and 215).
- ShardMap.ShardMap.Prune: an IOException from the store's iterator is not modelled, because it aborts the rest of the prune in an order the source leaves unspecified. Individual delete failures are modelled.
- The contents of the interval tree do not depend on insertion order (`Treap.AddToCommutes`), but its shape does. No lemma is stated about shapes.
- RemoteImhotepMultiSession.java is not part of this model: it is fan-out over remote sessions through an executor, with protobuf request building. AbstractDisjointAggregateFTGSMerger.java and AggregateFTGSIterator.java (delegation and interface only) and TestGetDistinct.java (a cluster integration test) are not part of this model either.


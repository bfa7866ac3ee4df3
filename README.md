# terraingen-the-second: a verified model of the chunk pipeline core

This project models the core of *terraingen-the-second* in Dafny. That core is the C++ machinery that turns a level-of-detail quadtree into a cache of terrain chunks. It has five parts.

- **HashList.** An intrusive doubly linked list of keys with a hash index from key to node. The model keeps real heap nodes (`ListNodes.ListNode`) with `prev`/`next` links. Its ghost state is the key order `Keys`, the node sequence `Nodes` and the footprint `Repr`. The list also keeps the allocation counter `mem_watch`. `HashListIterators` walks the list in both directions.
- **LRUCache.** A key list in recency order plus a value map and an `int` capacity. Two things about it are modelled exactly as written:
  - eviction pops the least recent key but leaves that key's entry in the value map;
  - `Put` reports `REMOVE_LAST`, `OVERWRITE` or `SUCCESS` along with the value that was displaced.

  The cache is specified by pure functions over a `CacheState` value (`PutState`, `PutReport`, `FetchState`). `LruCacheIterators` models the bounded and unbounded iterators and `begin`, `begin_bounded` and `end`.
- **Identifiers and LOD trees.** This part covers three things:
  - `ChunkIdentifier` with its equality and its hash `((x << 24) | y) * size`, computed in 64-bit two's complement;
  - the `lod_node` quadtree and `GetChunkSize`;
  - `LodTreeGenerator`, which subdivides a node while the viewer is within the node's cascade threshold.
- **ChunkGenerator.** `UpdateChunks` reserves cache room for the node count plus one. It then walks the leaves in the order bottom-left, bottom-right, top-left, top-right. For each leaf it builds a chunk, `Put`s it under its identifier and advances the 32-bit index offset. The generator holds its cache by value, as the C++ member `chunk_data_` is. So the generator's cache is a `CacheState` value that `LruCaches.PutState` updates.
- **Chunk and VertexGenerator.** `chunk_create` fills a vertex grid and a six-indices-per-quad index buffer, in arrays. `CreateVertex` picks one of three paths:
  - the interior sample;
  - the edge interpolation between two coarser samples;
  - the corner blend weighted by the neighbouring step sizes.

  `GetStepSizeAtPoint` rescales a step by powers of two.

**Numbers and arithmetic.** `size_t` is the type `SizeT` (0 .. 2^64). Wrap-around is explicit: `Ints.ToSize` is reduction modulo 2^64, and `unsigned int` offsets are reduced modulo 2^32. `long` is `Long`. Floating point is modelled as `real`. The height map is a function parameter, and so are `glm::normalize` and `glm::cross`.

## Model

| member | source | states |
|---|---|---|
| Ints.ToSize | include/terrain/ChunkGenerator.hpp:50-56 | a `size_t` result is the integer when it fits and the integer plus 2^64 for small negatives |
| Ints.SizeAddMod | include/terrain/ChunkGenerator.hpp:78-83 | adding two wrapped `size_t` values wraps to the same value as the exact sum |
| Ints.WrapAddAssoc | include/terrain/ChunkGenerator.hpp:68 | accumulating the 32-bit `index_offset` modulo 2^32 step by step equals reducing the exact total once |
| KeyOrder.MoveToFrontFacts | include/util/HashList.hpp:106-134 | pushing a key to the front puts it first, keeps the keys distinct, adds it only when absent and changes nothing else in the order |
| KeyOrder.MoveToFrontOfFront | include/util/HashList.hpp:110-112 | pushing the key already at the front leaves the order unchanged |
| KeyOrder.MoveToBackFacts | include/util/HashList.hpp:137-164 | pushing a key to the back puts it last, keeps the keys distinct, adds it only when absent and changes nothing else in the order |
| KeyOrder.MoveToBackOfBack | include/util/HashList.hpp:141-143 | pushing the key already at the back leaves the order unchanged |
| KeyOrder.WithoutDistinct | include/util/HashList.hpp:218-242 | removing a key from a distinct order keeps it distinct; the length drops by one exactly when the key was present; an absent key changes nothing |
| KeyOrder.WithoutMembers | include/util/HashList.hpp:218-242 | after removal, the members are exactly the old members other than the removed key |
| KeyOrder.PrefixAfterMoveToFront | include/util/LRUCache.hpp:77-91 | a front push, followed by an eviction of the last key when the list is over capacity, keeps the earlier front keys right behind the pushed key |
| ListNodes.ListNode.constructor | include/util/impl/ListNode.hpp:9-13 | a new node holds its key and has no neighbours |
| HashListIterators.HashListIterator.constructor | include/util/impl/HashListIterator.hpp:22-24 | the iterator starts at the given node |
| HashListIterators.HashListIterator.Default | include/util/impl/HashListIterator.hpp:37 | the default iterator is the null (end) position |
| HashListIterators.HashListIterator.Increment | include/util/impl/HashListIterator.hpp:41-47 | `++` moves to the next node, and stays at end when already there |
| HashListIterators.HashListIterator.PostIncrement | include/util/impl/HashListIterator.hpp:50-57 | post-increment returns a copy at the old position and advances |
| HashListIterators.HashListIterator.Decrement | include/util/impl/HashListIterator.hpp:59-65 | `--` moves to the previous node, and stays at end when already there |
| HashListIterators.HashListIterator.PostDecrement | include/util/impl/HashListIterator.hpp:67-74 | post-decrement returns a copy at the old position and steps back |
| HashLists.IndexHas | include/util/HashList.hpp:245-247 | a key is in the node index exactly when it is in the list |
| HashLists.HashList.constructor | include/util/HashList.hpp:91 | a new list is empty and valid |
| HashLists.HashList.Size | include/util/HashList.hpp:94 | the index size is the number of keys in the list |
| HashLists.HashList.Contains | include/util/HashList.hpp:245-247 | true exactly when the key is in the list |
| HashLists.HashList.CreateListNode | include/util/HashList.hpp:97-103 | a fresh unlinked node holds the key; it is indexed only if the key was not already; the allocation counter goes up by one |
| HashLists.HashList.DeleteNode | include/util/HashList.hpp:250-253 | the allocation counter goes down by one |
| HashLists.HashList.PushFront | include/util/HashList.hpp:106-134 | the new order is the old one with the key moved, or added, to the front; the list stays valid |
| HashLists.HashList.PushBack | include/util/HashList.hpp:137-164 | the new order is the old one with the key moved, or added, to the back; the list stays valid |
| HashLists.HashList.AddFirst | include/util/HashList.hpp:122-127 | a key added to an empty list is its only key |
| HashLists.HashList.AddNewFront | include/util/HashList.hpp:122-133 | a new key is linked in ahead of all others |
| HashLists.HashList.AddNewBack | include/util/HashList.hpp:152-163 | a new key is linked in behind all others |
| HashLists.HashList.MoveToFrontAt | include/util/HashList.hpp:113-133 | an existing non-front node is unlinked and relinked first; the other keys keep their order |
| HashLists.HashList.MoveToBackAt | include/util/HashList.hpp:144-163 | an existing non-back node is unlinked and relinked last; the other keys keep their order |
| HashLists.HashList.PopFrontAsWritten | include/util/HashList.hpp:167-187 | returns the first key and drops it; with two or more keys the new front still points back at the deleted node |
| HashLists.HashList.PopFront | include/util/HashList.hpp:167-187 | returns and drops the first key, reports failure on an empty list, and leaves a valid list |
| HashLists.HashList.PopBack | include/util/HashList.hpp:190-215 | returns and drops the last key, reports failure on an empty list; with one key left, `back` becomes the front's `prev` |
| HashLists.HashList.RemoveKeyAsWritten | include/util/HashList.hpp:218-242 | on any linked list, including one left by the written `PopFront`: true exactly when the key was present and the order loses exactly that key; removing the front of two or more keys leaves the new front's `prev` on the deleted node, and removing the only key makes `back` the front's old `prev` |
| HashLists.HashList.RemoveKey | include/util/HashList.hpp:218-242 | the corrected removal: true exactly when the key was present, the order loses exactly that key, and the list stays valid |
| HashLists.HashList.RemoveAt | include/util/HashList.hpp:234-241 | an inner node is unlinked, the order loses exactly that position, and the front and its `prev` are untouched |
| HashLists.HashList.Destroy | include/util/HashList.hpp:256-264 | on any list whose index matches its keys, including the merely linked lists the written `PopFront` leaves, deleting every indexed node brings the allocation counter back to zero |
| HashLists.HashList.Begin | include/util/HashList.hpp:267-269 | `begin()` is positioned at the front node |
| HashLists.HashList.End | include/util/HashList.hpp:272-274 | `end()` is the null position |
| HashLists.CollectForward | include/util/HashList.hpp:267-274 | walking from `begin()` with `++` to `end()` visits exactly the keys in list order |
| HashLists.CollectBackward | include/util/impl/HashListIterator.hpp:59-65 | walking from the back with `--` visits exactly the keys in reverse order |
| HashLists.BackwardStepAfterPopFrontAsWritten | include/util/HashList.hpp:172-176 | on [1, 2], after the written `PopFront`, one step back from `begin()` does not reach `end()` |
| HashLists.BackwardStepAfterPopFront | include/util/HashList.hpp:172-176 | with the corrected `PopFront`, the same step reaches `end()` |
| HashLists.PopBackAfterPopFrontAsWritten | include/util/HashList.hpp:195-199 | on [1, 2], the written `PopFront` and then `PopBack` leave an empty list whose `back` is not null |
| HashLists.RemoveInPlaceAsWritten | include/util/HashList.hpp:218-233 | the `RemoveInPlace` test's last two removals, 127 then 255 from [127, 255], with the written `RemoveKey`, leave an empty list whose `back` is not null; the destructor at the end of the test still brings the allocation counter to zero |
| HashLists.RemoveInPlace | include/util/HashList.hpp:218-233 | the same removals with the corrected `RemoveKey` leave an empty list with a null `back`, and the destructor leaves no node allocated |
| LruCaches.ListedHasValue | include/util/LRUCache.hpp:87-90 | every listed key has a value, so the eviction's lookup of the last key succeeds |
| LruCaches.PutState | include/util/LRUCache.hpp:75-96 | `Put` keeps the capacity and leaves the key holding the new value |
| LruCaches.PutReport | include/util/LRUCache.hpp:76-95 | on a coherent cache, `Put` reports `Overwrite` exactly when the key already has a value, and then outputs that value; it outputs nothing exactly when it reports `Success` |
| LruCaches.FetchState | include/util/LRUCache.hpp:39-47 | `Fetch` changes neither the stored values nor the capacity |
| LruCaches.FetchReport | include/util/LRUCache.hpp:39-47 | on a coherent cache, `Fetch` outputs a value exactly when the key is listed, and that value is the one stored for the key |
| LruCaches.UnvaluedIsUnlisted | include/util/LRUCache.hpp:78-82 | a key with no value is not in the recency list |
| LruCaches.PutKeepsCoherent | include/util/LRUCache.hpp:75-96 | `Put` keeps the recency list distinct and every listed key valued |
| LruCaches.PutPromotes | include/util/LRUCache.hpp:77-94 | after `Put` the key is most recent and maps to the new value |
| LruCaches.PutOverwrites | include/util/LRUCache.hpp:78-81 | on a valued key, `Put` reports `OVERWRITE` with the old value, moves the key to the front and drops no key |
| LruCaches.PutEvictsLeastRecent | include/util/LRUCache.hpp:82-91 | a new key evicts exactly when the list is at capacity, and the evicted key is the least recent one, not the new key, and still valued |
| LruCaches.PutSucceeds | include/util/LRUCache.hpp:76-95 | a new key under capacity reports `SUCCESS` and is prepended |
| LruCaches.PutWithinCapacity | include/util/LRUCache.hpp:82-91 | `Put` of a key that is listed or has no stale value never leaves more listed keys than the capacity; a stale key can exceed it (see `StaleOverwrite`) |
| LruCaches.StaleOverwrite | include/util/LRUCache.hpp:82-94 | with capacity 1 and any two distinct keys, putting the first, then the second, then the first again reports `OVERWRITE` of the first key's stale value and leaves two keys listed |
| LruCaches.FetchTwice | include/util/LRUCache.hpp:39-47 | `Fetch` keeps the cache coherent; fetching the same key twice changes nothing more and returns the same answer |
| LruCaches.LruCache.constructor | include/util/LRUCache.hpp:38 | a new cache is empty with the given capacity |
| LruCaches.LruCache.Put | include/util/LRUCache.hpp:75-96 | the new state and the reported result and displaced value are those of `PutState`/`PutReport` |
| LruCaches.LruCache.PutDiscard | include/util/LRUCache.hpp:69-72 | the two-argument `Put` has the same effect and ignores the report |
| LruCaches.LruCache.Fetch | include/util/LRUCache.hpp:39-47 | a present key moves to the front and its value is returned; an absent key changes nothing and returns none |
| LruCaches.LruCache.Has | include/util/LRUCache.hpp:49-51 | true exactly when the key is listed |
| LruCaches.LruCache.Reserve | include/util/LRUCache.hpp:58-62 | the capacity becomes the larger of old and requested; nothing else changes |
| LruCaches.LruCache.Capacity | include/util/LRUCache.hpp:64-66 | returns the capacity, which is at least one |
| LruCaches.StaleOverwriteOnCache | include/util/LRUCache.hpp:82-94 | the stale-overwrite sequence run on the heap cache: `OVERWRITE` of 10, two keys listed, capacity 1 |
| LruCacheIterators.LruCacheIterator.constructor | include/util/impl/LRUCacheIterator.hpp:20 | the unbounded iterator has bound SIZE_MAX and count 0 |
| LruCacheIterators.LruCacheIterator.Bounded | include/util/impl/LRUCacheIterator.hpp:22 | the bounded iterator has the given bound and count 0 |
| LruCacheIterators.LruCacheIterator.Copy | include/util/impl/LRUCacheIterator.hpp:24 | a copy has the same position, cache, bound and count |
| LruCacheIterators.LruCacheIterator.Assign | include/util/impl/LRUCacheIterator.hpp:27-34 | assignment copies position, cache, bound and count |
| LruCacheIterators.LruCacheIterator.Default | include/util/impl/LRUCacheIterator.hpp:43 | the default iterator has no position, no cache, bound 0 and count SIZE_MAX, so it is exhausted |
| LruCacheIterators.LruCacheIterator.Increment | include/util/impl/LRUCacheIterator.hpp:45-49 | the key position advances and the count goes up modulo 2^64 |
| LruCacheIterators.LruCacheIterator.PostIncrement | include/util/impl/LRUCacheIterator.hpp:51-56 | returns a copy of the old iterator and advances |
| LruCacheIterators.LruCacheIterator.Decrement | include/util/impl/LRUCacheIterator.hpp:58-62 | the key position steps back and the count goes down, wrapping from 0 to SIZE_MAX |
| LruCacheIterators.LruCacheIterator.PostDecrement | include/util/impl/LRUCacheIterator.hpp:64-69 | returns a copy of the old iterator and steps back |
| LruCacheIterators.LruCacheIterator.Deref | include/util/impl/LRUCacheIterator.hpp:71-73 | dereferencing yields the value mapped to the current key |
| LruCacheIterators.LruCacheIterator.Equals | include/util/impl/LRUCacheIterator.hpp:79-85 | two iterators compare equal exactly when both are exhausted or both are at the same node |
| LruCacheIterators.Begin | test/LRUCacheTest.cpp:57 | `begin()` starts at the most recent key, unbounded, count 0 |
| LruCacheIterators.BeginBounded | test/LRUCacheTest.cpp:69 | `begin_bounded(n)` starts at the most recent key with bound n |
| LruCacheIterators.End | test/LRUCacheTest.cpp:59 | `end()` is an exhausted iterator |
| LruCacheIterators.CollectAll | test/LRUCacheTest.cpp:57-66 | iterating from `begin()` to `end()` yields the values of all listed keys, most recent first |
| LruCacheIterators.CollectRecent | test/LRUCacheTest.cpp:68-73 | iterating from `begin_bounded(n)` yields the values of the n most recent keys, or of all keys if fewer |
| LruCacheIterators.Walk | include/util/impl/LRUCacheIterator.hpp:45-85 | any iterator at the front with count 0 yields the values of the first min(bound, size) keys before comparing equal to `end()` |
| ChunkIdentifiers.Equals | include/terrain/ChunkIdentifier.hpp:13-15 | equality holds exactly when x, y and size all agree |
| ChunkIdentifiers.EqualsIsEquivalence | include/terrain/ChunkIdentifier.hpp:13-15 | equality is reflexive, symmetric and transitive |
| ChunkIdentifiers.HashRespectsEquals | include/terrain/ChunkIdentifier.hpp:23-26 | equal identifiers hash equally |
| ChunkIdentifiers.HashOfSizeZero | include/terrain/ChunkIdentifier.hpp:25 | every identifier of size 0 hashes to 0 |
| ChunkIdentifiers.HashIgnoresXOnRowMinusOne | include/terrain/ChunkIdentifier.hpp:25 | for y = -1 the `or` masks x entirely, so every x hashes alike |
| ChunkIdentifiers.HashOverlap | include/terrain/ChunkIdentifier.hpp:25 | (1, 0) and (0, 2^24) of equal size hash alike, because y is not shifted clear of x |
| ChunkIdentifiers.Hash | include/terrain/ChunkIdentifier.hpp:23-26 | no contract of its own: the combined offsets times the size, modulo 2^64; `HashRespectsEquals`, `HashOfSizeZero`, `HashIgnoresXOnRowMinusOne` and `HashOverlap` state its properties |
| LodNodes.GetChunkSize | src/lod/lod_node.cpp:18-37 | a null node answers twice the given resolution; below 2^63 the answer is at most twice the resolution |
| LodNodes.GetChunkSizeOfLeaf | src/lod/lod_node.cpp:21-36 | a leaf queried with an even resolution R answers R |
| LodNodes.GetChunkSizeMissesLeaf | src/lod/lod_node.cpp:26-34 | in a 128-wide tree with the bottom-right quadrant split, the written lookup answers 64 at (71.5, 63.5), where the only leaf has size 32 |
| LodNodes.ChunkSizeAt | src/lod/lod_node.cpp:18-37 | the midpoint lookup answers at most twice the side |
| LodNodes.ChunkSizeAtFindsLeaf | src/lod/lod_node.cpp:18-37 | in a well-formed tree, for any point inside the root there is a leaf that contains it and has the size the midpoint lookup answers |
| LodNodes.QuadrantLeaf | include/lod/lod_node.hpp:10-19 | every leaf of a quadrant is a leaf of its parent, at the quadrant's offset |
| LodNodes.LeavesWithinNodeCount | src/lod/lod_node.cpp:9-16 | a tree has no more leaves than nodes |
| LodNodes.NodeCount | include/terrain/ChunkGenerator.hpp:87-99 | `GetChunkCount_recurse` counts every node: a non-null tree counts at least its root |
| LodNodes.Leaves | include/terrain/ChunkGenerator.hpp:58-83 | no contract of its own: the squares of the nodes the chunk traversal treats as chunks, in its order; `LeafCountIsLeaves` and `LeavesWithinNodeCount` state how many there are |
| LodTreeGenerators.PowerOfTwoHalf | include/lod/LodTreeGenerator.hpp:29-112 | halving a power of two above another power of two gives a power of two that is still at least the other |
| LodTreeGenerators.Clamp | include/lod/LodTreeGenerator.hpp:95 | `glm::clamp` lands within its bounds and keeps a value already inside them |
| LodTreeGenerators.DistanceZeroIffOver | include/lod/LodTreeGenerator.hpp:94-100 | the viewer's squared distance is non-negative, and zero exactly when the viewer is over the node's square |
| LodTreeGenerators.DistanceSq | include/lod/LodTreeGenerator.hpp:94-100 | the squared distance from the viewer to a node's square is never negative |
| LodTreeGenerators.DistanceIgnoresHeight | include/lod/LodTreeGenerator.hpp:95-96 | the viewer's height does not change the distance |
| LodTreeGenerators.Threshold | include/lod/LodTreeGenerator.hpp:56-60 | the threshold for a node of twice the chunk resolution is the cascade factor itself |
| LodTreeGenerators.ThresholdQuarters | include/lod/LodTreeGenerator.hpp:56-111 | halving the node size divides its threshold by the cascade multiplier |
| LodTreeGenerators.LodTreeGenerator.constructor | include/lod/LodTreeGenerator.hpp:23-33 | size and chunk resolution are powers of two above one, as the constructor's asserts demand; the cascade factor is left for the caller to set |
| LodTreeGenerators.LodTreeGenerator.Build | include/lod/LodTreeGenerator.hpp:75-118 | every node has zero or four children; a node splits exactly when it is larger than a chunk and the viewer is within its threshold |
| LodTreeGenerators.LodTreeGenerator.BuildSplits | include/lod/LodTreeGenerator.hpp:106-117 | a split node's children are the four half-size quadrants, built with the threshold divided by the multiplier |
| LodTreeGenerators.LodTreeGenerator.ThresholdFor | include/lod/LodTreeGenerator.hpp:56-60 | the per-size threshold equals the cascade factor at twice the chunk resolution |
| LodTreeGenerators.LodTreeGenerator.SplitPassesOwnThreshold | include/lod/LodTreeGenerator.hpp:102-117 | each child is built with exactly the threshold its own size calls for |
| LodTreeGenerators.LodTreeGenerator.BuildHalvable | include/lod/LodTreeGenerator.hpp:106-117 | every split node has an even side, so quadrants tile their parent exactly |
| LodTreeGenerators.LodTreeGenerator.CreateLodTree | include/lod/LodTreeGenerator.hpp:53-72 | the tree is the build from the origin at full size with the threshold the loop computes; a size below the chunk resolution gives a single leaf |
| LodTreeGenerators.LodTreeGenerator.BuildUnderViewer | include/lod/LodTreeGenerator.hpp:75-118 | every node on the way down to the viewer's ground point is split until the chunk size, so the corrected lookup of that point answers the chunk size |
| LodTreeGenerators.LodTreeGenerator.ViewerChunkIsSmallest | test/LodTreeGeneratorTest.cpp:42-53 | with a non-negative cascade factor and the viewer over the terrain, the tree `CreateLodTree` builds has a chunk of the minimum size under the viewer |
| LodTreeGenerators.LodTreeGenerator.MinChunkSizeTree | test/LodTreeGeneratorTest.cpp:42-53 | for sizes 256 and 16, cascade factor 32 and viewer (40, 40, 2.5), the written `GetChunkSize` of (40, 40) on the built tree is 16 |
| LodTreeGenerators.VerifyMinChunkSizeAtLocalPoint | test/LodTreeGeneratorTest.cpp:42-53 | the test's generator, cascade factor and viewer give chunk size 16 at the queried point (40, 40) and under the viewer's own ground point |
| ChunkGenerators.ZeroOrFourWalkable | include/terrain/ChunkGenerator.hpp:71-73 | a tree whose every node has zero or four children, as the builder makes, passes the assertions that a node with a `tl` child has the other three, all the way down |
| ChunkGenerators.KeyOf | include/terrain/ChunkGenerator.hpp:59 | the identifier holds the offsets, read back as `size_t`, and the chunk size |
| ChunkGenerators.LeafCountIsLeaves | include/terrain/ChunkGenerator.hpp:58-83 | the number of chunks drawn is the number of leaf squares of the tree |
| ChunkGenerators.LeafCount | include/terrain/ChunkGenerator.hpp:58-83 | every node meets at least one chunk, so the traversal's count of a non-null tree is positive |
| ChunkGenerators.Cells | include/terrain/ChunkGenerator.hpp:58-83 | no contract of its own: the chunks in the order the traversal meets them; `CellsCount` and `CellsApart` state their number and their distinct squares |
| ChunkGenerators.Visit | include/terrain/ChunkGenerator.hpp:50-85 | no contract of its own: the traversal node by node with a generic chunk step; `VisitIsSteps` equates it with a pass over `Cells` |
| ChunkGenerators.Run | include/terrain/ChunkGenerator.hpp:58-69 | building and putting a sequence of chunks keeps the cache capacity; `RunAppend` and `RunPutsInFront` state the rest |
| ChunkGenerators.CellsCount | include/terrain/ChunkGenerator.hpp:58-83 | the traversal visits exactly one cell per leaf |
| ChunkGenerators.QuadrantsApart | include/terrain/ChunkGenerator.hpp:74-82 | the four quadrant traversals lie in disjoint quarters of the parent and together stay within it |
| ChunkGenerators.CellsApart | include/terrain/ChunkGenerator.hpp:58-83 | in a tree of even sides inside the terrain, every drawn cell lies in its node's square and no two cells share an origin |
| ChunkGenerators.ApartKeysDistinct | include/terrain/ChunkGenerator.hpp:59-63 | cells with distinct origins get distinct identifiers |
| ChunkGenerators.BuildAppend | include/terrain/ChunkGenerator.hpp:62-68 | building two runs of cells in turn equals building their concatenation |
| ChunkGenerators.BuildOffset | include/terrain/ChunkGenerator.hpp:68-111 | the index offset ends at the start plus the total vertex count, modulo 2^32 |
| ChunkGenerators.PutAllAppend | include/terrain/ChunkGenerator.hpp:63 | putting two runs of chunks in turn equals putting their concatenation |
| ChunkGenerators.AssignDistinct | include/util/LRUCache.hpp:94 | after assigning distinct keys each maps to its own chunk and every other key keeps its value |
| ChunkGenerators.PutAllValues | include/util/LRUCache.hpp:94 | the value map after a run of `Put`s is the old map with each key assigned in turn |
| ChunkGenerators.PutAllInFront | include/terrain/ChunkGenerator.hpp:63 | under capacity, a run of distinct `Put`s leaves those keys at the front, most recent first, ahead of the keys already known to be there |
| ChunkGenerators.PutAll | include/terrain/ChunkGenerator.hpp:63 | putting a sequence of chunks keeps the cache capacity |
| ChunkGenerators.RunAppend | include/terrain/ChunkGenerator.hpp:79-82 | processing two runs of cells in turn equals processing their concatenation |
| ChunkGenerators.StepsAppend | include/terrain/ChunkGenerator.hpp:79-82 | the generic traversal step composes over concatenation |
| ChunkGenerators.VisitIsSteps | include/terrain/ChunkGenerator.hpp:50-85 | the recursive traversal equals a left-to-right pass over the leaf cells |
| ChunkGenerators.StepsIsRun | include/terrain/ChunkGenerator.hpp:58-69 | with the chunk step, that pass is the run of build-put-advance over the cells |
| ChunkGenerators.CountNode | include/terrain/ChunkGenerator.hpp:78-83 | the four children's `size_t` counts add up, wrapping, to the node's leaf count |
| ChunkGenerators.Reserved | include/terrain/ChunkGenerator.hpp:46-99 | the reserved capacity is the old one or the node count plus one, whichever is larger |
| ChunkGenerators.RunPutsInFront | include/terrain/ChunkGenerator.hpp:58-69 | with distinct keys under capacity, every chunk ends up cached under its key, all keys sit at the front in reverse visiting order, and the offset is the vertex total modulo 2^32 |
| ChunkGenerators.TraversalKeepsChunksInFront | include/terrain/ChunkGenerator.hpp:44-48 | after `UpdateChunks` on a well-formed tree, one chunk per leaf is cached under distinct keys at the front of the cache, none evicted, and the offset is the vertex total modulo 2^32 |
| ChunkGenerators.ChunkGenerator.constructor | include/terrain/ChunkGenerator.hpp:30-42 | the cache starts empty with capacity 256; the chunk count and index offset are left uninitialised |
| ChunkGenerators.ChunkGenerator.UpdateChunks | include/terrain/ChunkGenerator.hpp:44-48 | the offset is reset and the cache reserved; the new state is the run over the tree's cells; the chunk count is the leaf count |
| ChunkGenerators.ChunkGenerator.PutChunk | include/terrain/ChunkGenerator.hpp:58-69 | one leaf builds its chunk, puts it under its identifier and advances the offset; the chunk count is untouched |
| ChunkGenerators.ChunkGenerator.UpdateRecurse | include/terrain/ChunkGenerator.hpp:50-85 | the recursion performs the traversal of its subtree and returns its leaf count as a `size_t`; the chunk count field is untouched |
| Chunks.VertexLoopOverrunsAsWritten | include/terrain/Chunk.hpp:33-37 | the vertex loop's last write lands past the `chunk_res * chunk_res` allocation |
| Chunks.VertexAllocAsWritten | include/terrain/Chunk.hpp:33 | no contract of its own: the `chunk_res * chunk_res` vertex slots allocated; `VertexLoopOverrunsAsWritten` states the loop writes past them |
| Chunks.VertexSlotAsWritten | include/terrain/Chunk.hpp:37 | no contract of its own: the written slot `x * chunk_res + y`; `VertexSlotsCollideAsWritten` states two grid points share one |
| Chunks.VertexSlotsCollideAsWritten | include/terrain/Chunk.hpp:37 | the slot `x * chunk_res + y` writes two grid points, (0, res) and (1, 0), to one slot |
| Chunks.IndexLoopOverrunsAsWritten | include/terrain/Chunk.hpp:34-51 | the index loop writes `6 * res * res` entries into an allocation of `6 * (res - 1)^2` |
| Chunks.IndexAllocAsWritten | include/terrain/Chunk.hpp:34 | no contract of its own: the `6 * (chunk_res - 1)^2` index slots allocated; `IndexLoopOverrunsAsWritten` states the loop writes past them |
| Chunks.QuadCornerAsWrittenBound | include/terrain/Chunk.hpp:44-50 | the indices as written are at most `res * res + res`, which the last quad's `i + res + 1` reaches |
| Chunks.QuadRowsShareIndexAsWritten | include/terrain/Chunk.hpp:44-47 | with row stride `chunk_res`, the last quad of a row and the first quad of the next share a vertex index |
| Chunks.QuadCornerAsWritten | include/terrain/Chunk.hpp:44-50 | no contract of its own: corner t of a quad with the written stride `chunk_res`; `QuadRowsShareIndexAsWritten` and `QuadCornerAsWrittenBound` state its faults |
| Chunks.SlotsDistinct | include/terrain/Chunk.hpp:35-37 | the row-major slot over a `(res + 1)`-wide grid is within the allocation, and different points get different slots |
| Chunks.Slot | include/terrain/Chunk.hpp:35-37 | no contract of its own: the row-major slot with rows of `chunk_res + 1`; `SlotsDistinct` states it is one-to-one and in bounds |
| Chunks.Grid | include/terrain/Chunk.hpp:35-37 | the corrected vertex buffer holds `(chunk_res + 1)^2` vertices; `GridAt` states which vertex each slot holds |
| Chunks.GridAt | include/terrain/Chunk.hpp:35-37 | each grid slot holds the vertex created at its offset point |
| Chunks.QuadCornersAreGridPoints | include/terrain/Chunk.hpp:44-50 | the six indices of a quad name its four corner vertices in the two-triangle order |
| Chunks.QuadCorner | include/terrain/Chunk.hpp:44-50 | no contract of its own: corner t of a quad with the grid's stride; `QuadCornersAreGridPoints` states which grid points those are |
| Chunks.QuadRowsApart | include/terrain/Chunk.hpp:44-47 | with the stride corrected, adjacent rows' quads no longer share that index |
| Chunks.IndicesAt | include/terrain/Chunk.hpp:42-51 | quad (x, y) owns entries 6(y·res + x) .. +6 of the index buffer |
| Chunks.IndicesNameVertices | include/terrain/Chunk.hpp:42-51 | every index names a vertex of the grid |
| Chunks.Indices | include/terrain/Chunk.hpp:41-52 | the corrected index buffer holds six indices per quad, `6 * chunk_res^2` in all |
| Chunks.ChunkCreate | include/terrain/Chunk.hpp:23-57 | fresh buffers: the vertex buffer is the grid, the index buffer is the quad list, and the index count is `6 * res * res` |
| Chunks.FillVertices | include/terrain/Chunk.hpp:35-39 | the nested vertex loops fill the buffer with the grid |
| Chunks.FillIndices | include/terrain/Chunk.hpp:41-52 | the nested index loops fill the buffer with the quad list and return the final offset |
| Chunks.WriteQuad | include/terrain/Chunk.hpp:45-50 | six consecutive entries receive the quad's corner indices, and nothing else changes |
| VertexGenerators.Blend | include/terrain/VertexGenerator.hpp:130-134 | mixing at 0 gives the floor vertex and at 1 the ceiling vertex |
| VertexGenerators.ToInt | include/terrain/VertexGenerator.hpp:118 | narrowing a `size_t` to `int`, as the edge path's `ivec2` and the height map's `Get` do, keeps the value modulo 2^32 in the signed 32-bit range and is exact below 2^31 |
| VertexGenerators.Max | include/terrain/VertexGenerator.hpp:66-154 | `std::max` is an upper bound that is one of its arguments |
| VertexGenerators.EdgeSampleAt | include/terrain/VertexGenerator.hpp:118-128 | the axis is the one the point is off the step's grid on and the mix always lies in [0, 1); while the coordinates plus a step fit in an `int`, the floor and ceiling are the multiples of the step just below and above the point and the mix is the remainder over the step |
| VertexGenerators.FloorTo | include/terrain/VertexGenerator.hpp:122 | the floor is a multiple of the step at most the coordinate and within one step of it, and equal to it exactly when the coordinate is aligned |
| VertexGenerators.EdgeMixBetween | include/terrain/VertexGenerator.hpp:68-121 | whenever the edge path is taken at coordinates an `int` holds, its mix lies strictly between 0 and 1 |
| VertexGenerators.EdgeSampleNarrows | include/terrain/VertexGenerator.hpp:118-128 | at x = 2^31 + 1 with step 2, the `ivec2` narrowing puts the floor point at 2^64 - 2^31 and the ceiling two further on, far from the point |
| VertexGenerators.BiasesOf | include/terrain/VertexGenerator.hpp:156-168 | left and right biases sum to one half, as do top and bottom; with positive area all four are non-negative |
| VertexGenerators.CornerAreaPositive | include/terrain/VertexGenerator.hpp:146-162 | if any of the four corner lookups is nonzero and every lookup is below 2^32, so that no `size_t` product wraps, the quad area is positive and the biases are defined |
| VertexGenerators.WeighUniform | include/terrain/VertexGenerator.hpp:182-192 | blending four equal normals with weights summing to one returns that normal |
| VertexGenerators.VertexGenerator.GetPosition | include/terrain/VertexGenerator.hpp:206-211 | with a nonzero scale, the position plus the terrain offset, divided by the scale, gives back the sample coordinates; its height plus the offset is the height-map sample at the 32-bit coordinates |
| VertexGenerators.VertexGenerator.Internal | include/terrain/VertexGenerator.hpp:89-107 | an interior vertex has the ground position and texture coordinate of its own sample point, and its position is `GetPosition` there |
| VertexGenerators.VertexGenerator.PositionIsLocal | include/terrain/VertexGenerator.hpp:206-211 | a position depends on the height map only at its own sample |
| VertexGenerators.VertexGenerator.InternalIsLocal | include/terrain/VertexGenerator.hpp:89-107 | an interior vertex depends on the height map only at its point and its four step neighbours |
| VertexGenerators.VertexGenerator.FlatAcross | include/terrain/VertexGenerator.hpp:95-100 | on flat terrain the left-to-right difference is `2 * step * scale` along x |
| VertexGenerators.VertexGenerator.FlatAlong | include/terrain/VertexGenerator.hpp:97-101 | on flat terrain the down-to-up difference is `2 * step * scale` along z |
| VertexGenerators.VertexGenerator.FlatInternal | include/terrain/VertexGenerator.hpp:89-107 | on flat terrain the tangent is the normalized x axis and the normal is the cross product of the z and x axes |
| VertexGenerators.VertexGenerator.LerpAcross | include/terrain/VertexGenerator.hpp:131 | interpolating positions across a row lands on the point's own x and z |
| VertexGenerators.VertexGenerator.TexAcross | include/terrain/VertexGenerator.hpp:133 | interpolating texture coordinates across a row gives the point's own coordinate |
| VertexGenerators.VertexGenerator.LerpAlong | include/terrain/VertexGenerator.hpp:131 | interpolating positions along a column lands on the point's own x and z |
| VertexGenerators.VertexGenerator.TexAlong | include/terrain/VertexGenerator.hpp:133 | interpolating texture coordinates along a column gives the point's own coordinate |
| VertexGenerators.VertexGenerator.EdgeAcross | include/terrain/VertexGenerator.hpp:125-134 | blending the two row samples places the vertex at the point |
| VertexGenerators.VertexGenerator.EdgeAlong | include/terrain/VertexGenerator.hpp:125-134 | blending the two column samples places the vertex at the point |
| VertexGenerators.VertexGenerator.EdgeExact | include/terrain/VertexGenerator.hpp:109-137 | while the coordinates plus the step stay below 2^31, the edge vertex sits at its own horizontal position and texture coordinate, like an interior one |
| VertexGenerators.VertexGenerator.Corner | include/terrain/VertexGenerator.hpp:139-196 | a corner vertex with nonzero area has the ground position and texture coordinate of its own sample point, and its position is `GetPosition` there, as for an interior vertex |
| VertexGenerators.VertexGenerator.Edge | include/terrain/VertexGenerator.hpp:109-137 | no contract of its own: the blend, at the edge sample's mix, of the interior vertices at its floor and ceiling; `EdgeExact` states where it lands |
| VertexGenerators.VertexGenerator.CreateVertex | include/terrain/VertexGenerator.hpp:47-78 | no contract of its own: the vertex of the path `Route` picks, and none where the path is infeasible or a corner has zero area; `CreateVertexPlacesAtCoordinates` states where it lands |
| VertexGenerators.VertexGenerator.EffectiveStep | include/terrain/VertexGenerator.hpp:56-66 | the effective step is the larger of the step sizes found half a unit below-left and above-right of the point |
| VertexGenerators.VertexGenerator.Route | include/terrain/VertexGenerator.hpp:53-77 | the interior path is taken exactly off the chunk grid lines; the edge path exactly on a line and off the effective-step grid; the corner path exactly on both; a zero divisor gives no vertex |
| VertexGenerators.VertexGenerator.CreateVertexPlacesAtCoordinates | include/terrain/VertexGenerator.hpp:47-78 | whichever path is taken, the vertex lies at the horizontal position and texture coordinate of its sample point, for coordinates that stay below 2^31 after adding twice the tree resolution |
| VertexGenerators.VertexGenerator.CornerRouteHasArea | include/terrain/VertexGenerator.hpp:139-168 | when the corner path is taken in a tree below 2^31, the area is positive and a vertex is produced |
| VertexGenerators.VertexGenerator.StepsBound | include/terrain/VertexGenerator.hpp:146-149 | a looked-up step is at most twice the tree resolution |
| VertexGenerators.StepUp | include/terrain/VertexGenerator.hpp:219-224 | the first loop stops with the chunk size at most the target, and stays positive when started positive |
| VertexGenerators.StepDown | include/terrain/VertexGenerator.hpp:226-231 | the second loop never increases the step |
| VertexGenerators.GetStepSizeAtPoint | include/terrain/VertexGenerator.hpp:216-234 | the two loops compute `StepSize` of the looked-up chunk size |
| VertexGenerators.StepUpScales | include/terrain/VertexGenerator.hpp:219-224 | a chunk 2^k times the target multiplies the step by 2^k, wrapping |
| VertexGenerators.StepDownScales | include/terrain/VertexGenerator.hpp:226-231 | a target 2^k times the chunk divides the step by 2^k |
| VertexGenerators.StepSizeRatio | include/terrain/VertexGenerator.hpp:216-234 | the returned step scales by the power-of-two ratio between the point's chunk size and the reference chunk size |
| VertexGenerators.StepDownStaysAtZero | include/terrain/VertexGenerator.hpp:226-231 | from a looked-up size of 0 and a positive reference size, the second loop's guard still holds after any number of iterations |
| VertexGenerators.UnitLeafNeverEnds | include/terrain/VertexGenerator.hpp:216-234 | a single-leaf tree looked up with resolution 1 gives size 0, so `GetStepSizeAtPoint` with a positive chunk size never leaves its second loop |
| VertexGenerators.GetStepSizeAtPointGuarded | include/terrain/VertexGenerator.hpp:216-234 | with the second loop also stopping at size 0, the method ends on every input: it returns the default step for size 0 and `StepSize` otherwise |
| VertexGenerators.FeasibilityRoutes | include/terrain/VertexGenerator.hpp:53-77 | for a four-leaf tree of 128 with chunks of 64, an inner point is interior and the chunk corners take the corner path |
| VertexGenerators.EdgeCaseRoutes | include/terrain/VertexGenerator.hpp:53-122 | next to a split quadrant, an aligned point takes the corner path and an odd point takes the edge path with step 2, halfway between its neighbours |

## Left out

- Height-map I/O, the `height_map` trait and `shared_ptr` ownership are left out. The height map is a function `(int, int) -> real`.
- Float and double rounding is left out. `float`, `double` and `glm` vectors are exact `real`s, so every equality about positions and texture coordinates holds in exact arithmetic only.
- `glm::normalize` and `glm::cross` are uninterpreted function parameters. `glm::length` and the square root are replaced by the squared distance, and the threshold test compares squares.
- VertexGenerators.VertexGenerator.Corner: a corner whose four steps are all zero divides zero by zero in the source and yields NaN. The model has no NaN, so `CreateVertex` returns no vertex there.
- VertexGenerators.GetStepSizeAtPoint: it requires a chunk size of at most 2^63, and a nonzero looked-up size whenever the chunk size is nonzero. Above 2^63 the doubling can wrap the counter to zero. The zero-size case is a finding below.
- VertexGenerators.VertexGenerator.CreateVertexPlacesAtCoordinates: it is stated for coordinates that stay below 2^31 after adding twice the tree resolution. From 2^31 on, the edge path's `ivec2` narrows the point and its floor and ceiling land elsewhere, as `VertexGenerators.EdgeSampleNarrows` shows.
- VertexGenerators.VertexGenerator.EdgeExact: it is stated for coordinates plus the step below 2^31, for the same reason.
- VertexGenerators.EdgeMixBetween: it is stated for coordinates below 2^31. Beyond that, the narrowed coordinate can be a multiple of a step that is not a power of two while the original is not, so the mix can be 0.
- VertexGenerators.CornerAreaPositive: it is stated for lookups below 2^32. With larger lookups the `size_t` products in `quad_area` can wrap to zero (four lookups of 2^32 give an area of 0), and the biases are then undefined.
- ChunkIdentifiers.Hash: `x << 24` on a negative `long`, or on one whose shifted bits overflow, is undefined behaviour before C++20. The model gives the shift the C++20 meaning: the two's-complement bits shifted left, with the high bits dropped.
- The vertex tangent is a 3-vector. Vertex.hpp's exact 44-byte layout and `static_assert` are not modelled.
- The `std::cout` output in `CreateVertex_corner` is not modelled.
- `lod_node_alloc` and `lod_node_free` are left out. Trees are immutable datatype values, so `lod_node_free` appears only as the node count.
- HashLists.HashList.PushFront and HashLists.HashList.PushBack require a valid list, one whose front has a null `prev`. Lists left by the written `PopFront` or `RemoveKey` are only linked, so pushes onto them are not covered.
- The node deletions in the `HashList` destructor are not modelled. Only the `mem_watch` counter and its final value are kept.
- LruCaches.LruCache.constructor: it requires a capacity of at least one, while `LRUCache(int capacity)` accepts 0 and lets `Reserve` raise it later. A cache of capacity 0 pops the key it has just pushed and fails the assert in `Put`, so the model's cache invariant needs a positive capacity from the start.
- ChunkGenerators.Reserved: `GetChunkCount_recurse` counts in `int`. The model counts in unbounded `nat`, so trees with more than 2^31 nodes are not modelled.
- The call to `Chunk::chunk_create` in `UpdateChunks_recurse` does not match that function's declaration, in its argument list or its return type. The generator therefore takes the chunk builder as a function from a chunk request to a chunk with a vertex count. `Chunks.ChunkCreate` models the builder's own loops separately.
- The chunk cache inside the generator is a `CacheState` value that is updated by `PutState`, not a heap `LruCache` object. That matches the C++ by-value member, but the class's pointer structure is not re-verified inside the generator.
- `Chunk`'s destructor, its move operations and its deleted copy operations are not modelled.
- `TerrainGenerator.hpp` and the GPU buffer writers are not part of this model.
- Chunks.ChunkCreate: `chunk_create` (include/terrain/Chunk.hpp:54-57) fills a local `Chunk` but has no `return` statement, so falling off the end of the function is undefined behaviour; the model returns the filled buffers, as the function evidently means to. Its vertex call at include/terrain/Chunk.hpp:37 does not match `VertexGenerator::CreateVertex(offset_x, offset_y, step, tree)`: it uses `->` on a reference, passes `chunk_res` as the step and the `size_t` step as the tree. The model therefore takes the vertex at a grid point as the `vertexAt` parameter rather than calling `CreateVertex`.
- `Chunks.ChunkCreate`: the source writes past both of its allocations, so the as-written loops are stated as lemmas on index arithmetic rather than run on arrays. The array model uses the corrected sizes, slot and stride.
- HashListIterators.HashListIterator.Equals and HashListIterators.HashListIterator.Deref are plain comparisons and field reads with no contract of their own. They are used by the collecting walks.

## Findings

| source | as written | input that shows it | evidently intended | confidence | as-written member | corrected member |
|---|---|---|---|---|---|---|
| include/util/HashList.hpp:172-176 | `PopFront` moves `front` to the next node but never clears that node's `prev`, which still points at the deleted node | the list [1, 2]: `PopFront`, then one `--` from `begin()` (or `PopBack`); the `RemoveInPlace` test reaches it through `RemoveKey(127)` and `RemoveKey(255)` on [127, 255] | the new front's `prev` becomes null | not executed | HashLists.HashList.PopFrontAsWritten, HashLists.HashList.RemoveKeyAsWritten, HashLists.BackwardStepAfterPopFrontAsWritten, HashLists.PopBackAfterPopFrontAsWritten, HashLists.RemoveInPlaceAsWritten | HashLists.HashList.PopFront, HashLists.HashList.RemoveKey, HashLists.BackwardStepAfterPopFront, HashLists.RemoveInPlace |
| src/lod/lod_node.cpp:26-34 | the quadrant test compares the point with `tree_res` (the full side of the node) rather than half of it | a 128-wide tree with the bottom-right quadrant split, point (71.5, 63.5) | descend into the quadrant that contains the point, comparing with half the side | not executed | LodNodes.GetChunkSize, LodNodes.GetChunkSizeMissesLeaf | LodNodes.ChunkSizeAt, LodNodes.ChunkSizeAtFindsLeaf |
| include/terrain/Chunk.hpp:33-37 | `(chunk_res + 1)^2` vertices are written into `chunk_res * chunk_res` slots at `x * chunk_res + y` | any `chunk_res >= 1`: point (res, res) is past the end, and (0, res) and (1, 0) share a slot | a `(res + 1)^2` buffer with the row-major slot `y * (res + 1) + x` | not executed | Chunks.VertexLoopOverrunsAsWritten, Chunks.VertexSlotsCollideAsWritten | Chunks.ChunkCreate, Chunks.SlotsDistinct, Chunks.GridAt |
| include/terrain/Chunk.hpp:34-51 | `6 * chunk_res^2` indices are written into `6 * (chunk_res - 1)^2` slots | any `chunk_res >= 1` | an index buffer of `6 * chunk_res^2` | not executed | Chunks.IndexLoopOverrunsAsWritten | Chunks.ChunkCreate, Chunks.FillIndices |
| include/terrain/Chunk.hpp:44-50 | the quad's base index uses row stride `chunk_res` over a grid that is `chunk_res + 1` wide | `chunk_res >= 1`: the last quad of row 0 and the first quad of row 1 | row stride `chunk_res + 1`, so each quad names its own corners | not executed | Chunks.QuadRowsShareIndexAsWritten, Chunks.QuadCornerAsWrittenBound | Chunks.QuadRowsApart, Chunks.QuadCornersAreGridPoints, Chunks.IndicesNameVertices |
| include/terrain/VertexGenerator.hpp:226-231 | the second loop doubles `point_chunk_size` until it reaches `chunk_size`, but a size of 0 stays 0, so the loop never ends | a tree that is a single leaf, looked up with `tree_res` 1 (`GetChunkSize` answers 0), and any positive `chunk_size` | the second loop also stops when the looked-up size is 0, leaving the default step | not executed | VertexGenerators.GetStepSizeAtPoint, VertexGenerators.StepDownStaysAtZero, VertexGenerators.UnitLeafNeverEnds | VertexGenerators.GetStepSizeAtPointGuarded |

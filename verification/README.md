# Verified core of a V web framework

This project models, in Dafny, the parts of the framework whose correctness is not visible from a
single function, and proves what they are for:

- **Red-black tree** (`RedBlackCells`, `RedBlackBalance`, `RedBlackTree`, `RedBlackView`): the pointer
  tree of the bundled libuv header. Nodes are objects with left, right, parent and colour fields. A
  ghost map records for each node its links, its stretch of the in-order walk and its black height, so
  that every invariant is local to a node. Each pointer method is proved equal to a pure function on
  that map, and the balance argument is made on the map.
- **LRU cache with time to live** (`LruSpec`, `LruCache`): the linked list with hash map refines a plain
  list, most recent first; the laws over whole runs are proved on the list.
- **Routers** (`RouteOrder`, `RouterSpec`, `HybridSpec`, `Routers`): both routers as cached resolvers over static tables and ordered
  patterns, with the regular-expression library as a parameter.
- **Multipart uploads** (`MultipartSpec`, `Multipart`): chunk manager, local storage and the two database
  tables as one state machine.
- **Rate limiter** (`RateLimit`): the fixed-window store and the bounds over whole traces.
- **Menu forest** (`MenuTree`): the recursion over a parent-id table that may contain cycles.
- **Query parsers** (`QueryString`): the two index-based parsers against the split-based meaning.
- **OpenAPI documents** (`OpenApiJson`, `OpenApiSchema`, `OpenApi`, `OpenApiValidate`): serialiser and
  deserialiser of all objects, and the two validators.

Where a property does not hold of the code, the project keeps the code, shows an input on which it
fails and proves when it holds: `LruSpec.PutOutgrows` and `LruSpec.EmptyKeyOutgrows` (capacity and the
empty key), `RouterSpec.LateRouteSeenIff`, `RouterSpec.ResortSeenIff` and `HybridSpec.LateHandlerSeenIff`
with `RouterSpec.LateRouteIsNotSeen`, `RouterSpec.ResortIsNotSeen`, `RouterSpec.TiesMayMove` and
`HybridSpec.LateHandlerIsNotSeen` (tables that change after serving), `RouterSpec.CachesAreInvisibleIff`
and `RouterSpec.KeyCollision` (colons in methods), `MultipartSpec.ObjectLength` and
`MultipartSpec.ShortObject` (length of the object), `MenuTree.Endless` and `MenuTree.DuplicateCycle`
(lists on which the recursion does not end), `QueryString.PathsAgree` and `QueryString.TwoMarksDisagree` (several `?`).
Where a name suggests more than the code does, the model follows the code: `clear_cache` of the fast
router empties only the LRU cache, and registering a route empties no cache.

Assumptions shared by several parts: clocks are parameters and never go back; the comparison of a tree
is a total preorder; upload ids are fresh; a rate-limit window lasts at least one millisecond.

Check everything with `dafny verify dfyconfig.toml`.

## Model

| member | source | states |
|---|---|---|
| `RedBlackTree.Tree.RotateLeft` | usockets/include/uv/tree.h:95-113 | the fields after a left rotation are those of the pure rotation of the recorded cells, the root included; links and in-order positions are kept |
| `RedBlackTree.Tree.RotateRight` | usockets/include/uv/tree.h:115-133 | the same for a right rotation |
| `RedBlackCells.RotateKeepsLinks` | usockets/include/uv/tree.h:95-133 | a rotation in either direction keeps every left, right and parent link and every interval of the in-order walk consistent |
| `RedBlackBalance.GrandparentExists` | usockets/include/uv/tree.h:160-202 | a red parent met by the insert loop is never the root: the grandparent the loop dereferences exists and is black |
| `RedBlackBalance.UncleStep` | usockets/include/uv/tree.h:168-174 | red uncle: recolouring re-establishes the loop state two levels up |
| `RedBlackBalance.InnerStep` | usockets/include/uv/tree.h:175-180 | inner grandchild: rotating the parent keeps the loop state and lines the two red nodes up |
| `RedBlackBalance.OuterStep` | usockets/include/uv/tree.h:181-182 | outer grandchild: recolouring and rotating the grandparent leaves a black parent, which ends the loop |
| `RedBlackTree.Tree.InsertColor` | usockets/include/uv/tree.h:160-202 | the insert fix-up loop terminates and ends in a red-black tree over the same nodes in the same places |
| `RedBlackTree.Tree.Insert` | usockets/include/uv/tree.h:350-379 | an equal node is returned and nothing changes, or the new node is added at its place in the order and the tree is valid again; it returns NULL exactly when no stored node is equal |
| `RedBlackBalance.SiblingExists` | usockets/include/uv/tree.h:204-281 | a node that is one black node short always has a sibling, so the remove loop never dereferences NULL |
| `RedBlackBalance.RedSiblingStep` | usockets/include/uv/tree.h:211-217 | red sibling: the rotation keeps the loop state and makes the sibling black |
| `RedBlackBalance.BlackSiblingStep` | usockets/include/uv/tree.h:218-224 | black sibling with black children: painting it red moves the shortage to the parent |
| `RedBlackBalance.NearStep` | usockets/include/uv/tree.h:226-235 | only the near nephew red: the rotation keeps the loop state and makes the far one red |
| `RedBlackBalance.FarStep` | usockets/include/uv/tree.h:236-242 | far nephew red: one rotation finishes a red-black tree |
| `RedBlackTree.Tree.RemoveColor` | usockets/include/uv/tree.h:204-281 | the remove fix-up loop terminates and ends in a red-black tree over the same nodes in the same places |
| `RedBlackBalance.DetachBlack` | usockets/include/uv/tree.h:332-343 | unlinking a black node with at most one child leaves exactly the state the remove loop starts from |
| `RedBlackTree.Tree.Successor` | usockets/include/uv/tree.h:294-297 | the descent from the right child finds the node next in order |
| `RedBlackBalance.SuccessorSwapped` | usockets/include/uv/tree.h:293-323 | unlinking the successor and putting it in the place of the removed node leaves a red-black tree or the start of the remove loop |
| `RedBlackTree.Tree.Remove` | usockets/include/uv/tree.h:283-348 | exactly the removed node leaves the order and the set of nodes; the tree is valid again |
| `RedBlackTree.Tree.Find` | usockets/include/uv/tree.h:381-397 | a node equal to the key, or NULL exactly when there is none |
| `RedBlackTree.Tree.NFind` | usockets/include/uv/tree.h:399-418 | the first node in order that is not below the key, or NULL when all are below |
| `RedBlackTree.Tree.Next` | usockets/include/uv/tree.h:420-440 | the node at the next place of the order, NULL after the last; with Prev this makes the two inverse |
| `RedBlackTree.Tree.Prev` | usockets/include/uv/tree.h:442-462 | the node at the previous place of the order, NULL before the first |
| `RedBlackTree.Tree.MinMax` | usockets/include/uv/tree.h:464-477 | the first or the last node of the order, NULL for the empty tree |
| `RedBlackTree.Tree.ForEach` | usockets/include/uv/tree.h:491-494 | the loop visits the sorted order from first to last, each node once, and stops |
| `RedBlackView.HeightBound` | usockets/include/uv/tree.h:37-48 | on a plain tree with equal black counts and no red pair, 2^height <= (n + 1)^2, that is, height <= 2 lg (n + 1) |
| `RedBlackView.ViewInorder` | usockets/include/uv/tree.h:37-48 | the plain tree read off the pointers walks each node's own stretch of the order |
| `RedBlackView.ViewColors` | usockets/include/uv/tree.h:37-48 | on the plain tree every path has the same number of black nodes and no red node has a red child |
| `RedBlackView.CellsAreRedBlackTree` | usockets/include/uv/tree.h:37-48 | the local invariant on the pointers implies all conditions of the header comment and the height bound on the plain tree |
| `RedBlackView.Run` | usockets/include/uv/tree.h:160-379 | every run of inserts and removes from the empty tree ends in a sorted red-black tree of bounded height over exactly the surviving nodes |
| `LruCache.Cache.AddToFront` | cache.v:133-147 | the node becomes the first of the chain; all links, head and tail agree with the new list |
| `LruCache.Cache.MoveToFront` | cache.v:107-130 | the node moves from its place to the front of the chain, the others keep their order |
| `LruCache.Cache.RemoveNode` | cache.v:161-195 | the node leaves chain, map and count; a node with the empty key stays, as the guard demands |
| `LruCache.Cache.RemoveTail` | cache.v:150-158 | removes the last node under the same guard; nothing on an empty list |
| `LruCache.Cache.CleanupExpiredEntries` | cache.v:289-309 | refines the removal of all expired named entries from the list |
| `LruCache.Cache.CleanupExpiredIfNeeded` | cache.v:280-287 | cleans up only when the interval has passed, and then notes the time |
| `LruCache.Cache.Get` | cache.v:55-72 | refines the lookup on the most-recent-first list, answer included; chain, map and size stay consistent |
| `LruCache.Cache.Put` | cache.v:75-104 | refines the insertion or update on the list, with eviction at the tail |
| `LruCache.Cache.Clear` | cache.v:317-338 | the loop over the chain ends with an empty, consistent cache |
| `LruCache.Cache.IsHealthy` | cache.v:240-268 | on any state whatever the integrity check accepts exactly when size, map, ends and the walked chain agree; so it accepts every consistent state |
| `LruCache.MapsToFind` | cache.v:55-195 | map and list of equal size hold the same nodes: every key of the map belongs to a listed node |
| `LruSpec.RunOrdered` | cache.v:55-104 | in every run under a clock that never goes back, access times never increase from head to tail |
| `LruSpec.ExpiredSuffix` | cache.v:271-309 | entries idle for longer than the time to live form a suffix of the list |
| `LruSpec.CleanedMembers` | cache.v:271-309 | a cleanup removes exactly the named entries idle for longer than the time to live; before a lookup or a put it takes place exactly when more than the interval has passed since the last one, and is noted |
| `LruSpec.HitStandsFirst` | cache.v:55-72 | a hit moves its entry to the front with the access time set to now, and the others keep their order |
| `LruSpec.MissDropsIdle` | cache.v:55-72 | a miss takes out the idle entry under its key, if any, and nothing else |
| `LruSpec.PutAgainStandsFirst` | cache.v:79-85 | a put of a stored key moves its entry to the front with the new value and access time, created when it was |
| `LruSpec.PutNewStandsFirst` | cache.v:87-104 | a new key comes to the front; the others stay as they are, but for the last one of a full cache |
| `LruSpec.RunUses` | cache.v:55-104 | over every run the access time of a stored entry is the time of the last put of its key or of the last get of it that was a hit |
| `LruSpec.EvictsLeastRecent` | cache.v:75-104 | over every run, a put that drops an entry which is not idle has a new key and met a full cache, and every entry that stays was used no earlier than the dropped one |
| `LruSpec.HitIsFresh` | cache.v:55-72 | a hit returns a value stored under that key whose entry has not been idle for longer than the time to live, unless nothing expires |
| `LruSpec.LiveIsHit` | cache.v:55-72 | conversely, an entry that has not been idle for longer than the time to live is hit |
| `LruSpec.RunWithinCapacity` | cache.v:75-104 | with a capacity of at least 1 and non-empty keys the size never exceeds the capacity in any run |
| `LruSpec.PutOutgrows` | cache.v:75-104 | a put makes the cache outgrow its capacity if and only if the key is new, the cache is full and it has no entry it can give up: the last one has the empty key, or the capacity is 0 |
| `LruSpec.EmptyKeyOutgrows` | cache.v:150-195 | a concrete run in which the empty key makes the cache exceed its capacity |
| `LruSpec.HitIsLastPut` | cache.v:55-104 | over every run a hit returns the value most recently put under that key since the last clear |
| `Routers.FastRouteCache.Put` | cache.v:379-388 | stores under the key and keeps the other entries, or none of them when the map was full; nothing while disabled |
| `RouteOrder.FirstIsLeast` | fast_router.v:96-105 | in an ordered table the first match has the least score of all matches |
| `RouteOrder.LeastCanBeFirst` | fast_router.v:96-105 | of several matches of least score a sort may put any one first |
| `RouteOrder.AlwaysYieldsIff` | fast_router.v:96-105 | the first match yields a given answer however the sort arranges ties, if and only if every match of least score yields it |
| `Routers.Sort` | fast_router.v:96-105 | the same entries in ascending order of score, with ties in any order |
| `Routers.FastRouter.AddRoute` | fast_router.v:65-93 | a path without colon and star is stored under its key with its handler, no parameters and its own path; a pattern that does not compile is refused and changes nothing; a dynamic route is added to the table, which stays sorted while sorting is on; caches are untouched |
| `Routers.FastRouter.SetSortEnabled` | fast_router.v:312-317 | switching sorting on leaves some sorted arrangement of the same routes, switching it off leaves the table; no cache changes |
| `Routers.FastRouter.MatchRoute` | fast_router.v:181-237 | refines the lookup on tables and caches: static table, then cache, then scan, then store |
| `Routers.FastRouter.Serve` | fast_router.v:181-237 | with true caches the answer is the static entry under the key, or the first route of the method whose pattern matches, with its handler, its pattern and what the pattern captures; none exactly when there is neither; caches stay true and tables unchanged |
| `Routers.FastRouter.ServeMany` | fast_router.v:181-237 | a sequence of lookups on the router object gets the answers of the uncached resolver throughout |
| `Routers.FastRouter.SetCacheEnabled` | fast_router.v:304-309 | switching off empties the LRU cache but not the fast cache; switching on changes no cache |
| `Routers.FastRouter.WarmupCache` | fast_router.v:335-343 | has the effect of looking up each path once, or none while caching is off |
| `RouterSpec.KeyInjective` | fast_router.v:183 | the cache key determines method and path for methods without a colon |
| `RouterSpec.KeySharedIff` | fast_router.v:183 | exactly which pairs of lookups share a key, whatever their methods |
| `RouterSpec.KeyCollision` | fast_router.v:181-237 | a run in which a lookup with a colon in its method is answered with the handler of another method's route, where the uncached resolver finds nothing |
| `RouterSpec.CachesAreInvisibleIff` | fast_router.v:181-343 | for any set of methods, all lookups of all runs are right if and only if lookups with these methods that share a key which is not static are answered alike by the table |
| `RouterSpec.MatchIsResolve` | fast_router.v:181-237 | a lookup through true caches answers the uncached scan and leaves true caches |
| `RouterSpec.CachesAreInvisible` | fast_router.v:181-343 | over every run of lookups, static registrations, clears, cleanups and cache switches, with methods free of colons, every lookup answers what the uncached resolver answers at that moment |
| `RouterSpec.ScanExactly` | fast_router.v:202-236 | the scan answers with the handler, pattern and captures of the first route of the method that matches, and with none exactly when no route does |
| `RouterSpec.LookupStores` | fast_router.v:181-237 | a dynamic answer is kept in the cache that is in use, at the front of the LRU cache; the other cache, or both when caching is off, stay as they were |
| `RouterSpec.FastPutExactly` | cache.v:379-388 | a put keeps the other entries unless the map is full, and then none of them |
| `RouterSpec.ComplexityAdds` | fast_router.v:108-127 | the score starts at 1, and every character adds its weight wherever it stands: 10 for a colon, 20 for a star, 1 for a slash, 5 for a special character, 0 otherwise |
| `RouterSpec.ScanIsLeast` | fast_router.v:96-127 | with sorted routes a dynamic answer comes from a matching route of least complexity, and there is none exactly when no route matches |
| `RouterSpec.LateRouteIsNotSeen` | fast_router.v:65-93 | of two patterns that match the same path, the simpler one registered after a lookup stays unseen by that lookup, in every order the sort may give |
| `RouterSpec.ResortIsNotSeen` | fast_router.v:312-317 | the same when sorting is switched on after a lookup |
| `RouterSpec.TiesMayMove` | fast_router.v:65-105 | even a late route that does not match can make a cached answer wrong, when the sort exchanges two matching routes of equal complexity |
| `RouterSpec.LateRouteSeenIff` | fast_router.v:65-105 | after a late registration with sorting on, a lookup is right in every sorted arrangement of the enlarged table if and only if its key is static, or the caches miss, or every matching route of least complexity yields the cached answer |
| `RouterSpec.ResortSeenIff` | fast_router.v:312-317 | the same for switching sorting on, with the same table |
| `RouterSpec.AppendKeepsSound` | fast_router.v:65-93 | with sorting off a late registration keeps all caches true |
| `Routers.HybridRouter.AddRoute` | router.v:153-178 | a static path is stored under its key, any other handler is added to the sorted list, which keeps no method |
| `Routers.HybridRouter.MatchPathWithRegex` | router.v:70-150 | follows the regex cache; and with a true cache the verdict is that of compiling afresh, and the cache stays true |
| `Routers.HybridRouter.MatchRoute` | router.v:218-265 | refines the lookup on tables and caches |
| `Routers.HybridRouter.Serve` | router.v:218-265 | with true caches the answer is the static handler with the requested path, or the first handler whose pattern matches, with what it captures, or no parameters for a pattern with a star; none exactly when there is neither |
| `HybridSpec.ScanThroughIsPlain` | router.v:237-265 | scanning through the regex cache finds what the scan without it finds |
| `HybridSpec.ResolveExactly` | router.v:218-265 | what the uncached resolver answers, said on the static table and the list of handlers alone |
| `HybridSpec.MatchIsResolve` | router.v:218-265 | a lookup through both caches answers the uncached resolver and leaves true caches |
| `HybridSpec.CachesAreInvisible` | router.v:218-265 | over every run with methods free of colons, every lookup answers what the uncached resolver answers at that moment |
| `HybridSpec.CachesAreInvisibleIff` | router.v:218-265 | for any set of methods, all lookups of all runs are right if and only if lookups that share a key which is not static are answered alike |
| `HybridSpec.LateHandlerSeenIff` | router.v:153-178 | after a late registration a lookup is right in every sorted arrangement of the list if and only if its key is static, or the cache misses, or every least match yields the cached answer |
| `HybridSpec.LateHandlerIsNotSeen` | router.v:153-178 | the simpler of two matching handlers, registered after a lookup, stays unseen by that lookup |
| `HybridSpec.MethodIsIgnored` | router.v:153-162 | a handler that is alone in matching a path answers lookups of that path with every method, whichever it was registered for, unless a static route does |
| `MultipartSpec.RangesTile` | chunk_manager.v:475-491 | the part ranges cover the file from byte 0 to the last without gap or overlap, and all but the last have the full chunk size |
| `MultipartSpec.ChunkCount` | chunk_manager.v:440-446 | the chunk count is at least 1 and is the least number of chunks that covers the file |
| `MultipartSpec.ChunkChosen` | chunk_manager.v:105-110 | a requested chunk size within the bounds is used as asked, a smaller or larger one gives the bound, none gives the default |
| `MultipartSpec.InitExactly` | chunk_manager.v:92-133 | an upload is accepted exactly when it names bucket and object, has bytes and fits into the allowed number of chunks; the new row holds the parameters, the chosen chunk size and the least sufficient number of chunks |
| `MultipartSpec.UploadExactly` | chunk_manager.v:137-187 | a part is accepted exactly while uploading and in range; it replaces what was recorded under its number and sets the modification time, and nothing else of the upload changes |
| `MultipartSpec.AbortExactly` | chunk_manager.v:256-272 | a known upload of any status can be aborted and leaves no row, parts, session or files; finished objects stay |
| `MultipartSpec.CleanupExactly` | chunk_manager.v:635-648 | an upload stays exactly when it is not in progress or was modified no longer ago than allowed; the answer is the number of uploads that left |
| `MultipartSpec.RunTouched` | chunk_manager.v:137-187 | over every run the modification time of an upload in progress is the time of its start or of the last part accepted for it |
| `MultipartSpec.CleanupSparesActive` | chunk_manager.v:635-648 | so a cleanup after any run spares an upload in progress if and only if it was touched recently enough |
| `Multipart.ChunkManager.InitMultipart` | chunk_manager.v:92-133 | refines the start of an upload; refused parameters change nothing |
| `Multipart.ChunkManager.UploadPart` | chunk_manager.v:137-187 | refines the upload of a part: status, range and session are checked, then file and row are replaced |
| `Multipart.ChunkManager.CompleteMultipart` | chunk_manager.v:202-252 | refines the completion: the recorded parts are joined in ascending order into the object |
| `Multipart.ChunkManager.AbortMultipart` | chunk_manager.v:256-272 | refines the abort, from any status |
| `Multipart.ChunkManager.GetUploadProgress` | chunk_manager.v:279-323 | pending parts are exactly the numbers not recorded, in ascending order; the bytes are the sum of the recorded sizes |
| `Multipart.ChunkManager.CanComplete` | chunk_manager.v:586-589 | answers whether nothing is pending while uploading |
| `Multipart.ChunkManager.CleanupStaleUploads` | chunk_manager.v:635-648 | removes exactly the uploads in progress whose last modification is longer ago than allowed, and returns how many left |
| `Multipart.LocalStorage.CompleteMultipart` | local_storage.v:450-498 | writes the concatenation of the listed parts and drops the session, or refuses when a part is missing and changes nothing |
| `Multipart.LocalStorage.UploadPart` | local_storage.v:422-447 | stores the bytes under the part number of a known session |
| `Multipart.LocalStorage.AbortMultipart` | local_storage.v:501-514 | drops files and session of a known id |
| `Multipart.Database.RecordUploadedPart` | database.v:486-505 | one row per part number, a second one replacing the first; the upload is touched |
| `Multipart.Database.DeleteMultipartUpload` | database.v:443-452 | removes the upload and its parts |
| `Multipart.Tally` | chunk_manager.v:279-323 | the progress loops return the sum of the recorded sizes and the missing numbers in ascending order |
| `MultipartSpec.RunCoherent` | chunk_manager.v:92-272 | in every reachable state part numbers are distinct and lie in 1..total, tables, sessions and files agree, and only initialised ids are known |
| `MultipartSpec.CountMeansAll` | chunk_manager.v:202-226 | the bare count check passes exactly when all part numbers are recorded, and exactly when nothing is pending |
| `MultipartSpec.CompleteIffCanComplete` | chunk_manager.v:586-589 | completion succeeds exactly when can_complete holds |
| `MultipartSpec.JoinedSlices` | local_storage.v:450-498 | joining slices in ascending order rebuilds the file, prefix by prefix |
| `MultipartSpec.Reassembles` | chunk_manager.v:137-252 | over every run with other uploads and repeated parts interleaved, a completion that succeeds writes exactly the file and reports its length; it succeeds exactly when can_complete holds |
| `MultipartSpec.UploadSucceeds` | chunk_manager.v:137-252 | an upload that nobody ends meanwhile succeeds once every part number has been sent, in any order |
| `MultipartSpec.ObjectLength` | chunk_manager.v:202-252 | a finished object is as long as the recorded parts together, so it has the declared length exactly when these add up to it |
| `MultipartSpec.ShortObject` | chunk_manager.v:202-252 | an upload of one declared byte that completes as an empty object, as no length is compared |
| `MultipartSpec.CompletesOnce` | chunk_manager.v:202-252 | one upload id writes its object at most once in a run |
| `MultipartSpec.Isolation` | chunk_manager.v:92-272 | an operation on one upload leaves the row, parts, session and files of every other one unchanged |
| `MultipartSpec.PartsChangeOnlyWhileUploading` | chunk_manager.v:137-187 | recorded parts change only by a part sent while uploading, or go with the whole upload |
| `MultipartSpec.ObjectsAreSafe` | local_storage.v:450-514 | only a completion changes finished objects, and only its own |
| `RateLimit.MemoryStore.Increment` | rate_limit.v:40-72 | within a running window the count grows by one and the reset time stays; otherwise a window with count one starts; other keys keep their entries |
| `RateLimit.MemoryStore.CleanupExpired` | rate_limit.v:91-107 | exactly the entries whose window has not ended remain |
| `RateLimit.MemoryStore.Admit` | rate_limit.v:133-177 | a request is admitted exactly when its count is within the limit; the remaining number and reset time are reported |
| `RateLimit.CleanupsAreInvisible` | rate_limit.v:91-107 | cleanups inserted anywhere in a trace change no answer of any request |
| `RateLimit.ResetStartsOver` | rate_limit.v:75-80 | the first request after a reset of its key counts one in a new window, whatever came before |
| `RateLimit.AdmissionBound` | rate_limit.v:40-177 | each counter window admits at most limit requests of a key, and any stretch of time of one window's length at most 2 * limit - 1, or limit if the window is a single millisecond |
| `RateLimit.PeakReached` | rate_limit.v:40-177 | for every window and every limit a trace of the kind the bound is proved for reaches it |
| `MenuTree.TrailLength` | auth.v:372-385 | chains from the top are never longer than the table, which is why the recursion terminates despite cycles |
| `MenuTree.TrailUnique` | auth.v:372-385 | there is only one chain from the top to an item |
| `MenuTree.Endless` | auth.v:372-385 | if any chain below an id is longer than the table, there are chains of every length: the recursion does not end |
| `MenuTree.GetChildren` | auth.v:372-385 | returns the forest below the given id, for every table in which the recursion ends |
| `MenuTree.BuildMenuTree` | auth.v:350-369 | returns the root items in order, each with the forest below it in the id map, for every list on which the recursion ends, duplicate ids included |
| `MenuTree.DuplicateCycle` | auth.v:350-385 | a list with a duplicate id on which the recursion does not end |
| `MenuTree.ForestIsExact` | auth.v:350-385 | with distinct ids other than 0 the recursion ends, each item whose parent chain reaches 0 occurs exactly once, no other item occurs, each hangs below its own parent, and siblings stand in the order of the list |
| `QueryString.ParsePairs` | picoev_server.v:386-441 | the index loop computes the split-based meaning of the text from the given position on |
| `QueryString.ParseQueryString` | app.v:635-672 | the same for the other parser, the empty query included |
| `QueryString.ParsePathAndQuery` | picoev_server.v:386-441 | cuts at the last '?' and reads what follows |
| `QueryString.ExtractPathOnly` | picoev_server.v:463-470 | cuts at the first '?' |
| `QueryString.ReadFromIsSplit` | picoev_server.v:386-441 | reading piece by piece equals splitting at '&' and adding the pieces in order |
| `QueryString.SplitExactly` | picoev_server.v:386-441 | the pieces contain no separator and give the text back when glued together with it |
| `QueryString.PairExactly` | app.v:635-672 | a piece is cut at its first '='; without one it is a key with an empty value |
| `QueryString.LastPieceWins` | app.v:635-672 | a non-empty key is present exactly when a piece names it, with the value of the last such piece; the empty key never is |
| `QueryString.RoundTrip` | app.v:635-672 | rendered pairs are read back, later ones replacing earlier ones |
| `QueryString.PathsAgree` | picoev_server.v:386-470 | the two cuts coincide exactly when '?' occurs at most once |
| `QueryString.TwoMarksDisagree` | picoev_server.v:386-470 | a path with two marks on which the two cuts differ |
| `QueryString.ServersAgree` | picoev_server.v:386-470 | with at most one '?' both servers see the same path and the same query |
| `OpenApiSchema.SchemaRoundTrip` | openapi.v:306-385 | (reader at lines 807-862) every schema, however deep, is read back exactly when no reference has siblings anywhere in it, and is always rewritten the same |
| `OpenApiSchema.SchemaBack` | openapi.v:306-385 | (reader at lines 807-862) one level: a schema comes back with its nested schemas read back, a reference comes back alone |
| `OpenApiSchema.ConditionsKept` | openapi.v:388-413 | the conditions under which other objects write a schema survive the round trip |
| `OpenApi.InfoBack` | openapi.v:247-267 | (reader at lines 761-771) info is read back exactly when a license without name is empty |
| `OpenApi.TagBack` | openapi.v:292-303 | (reader at lines 792-799) a tag is read back exactly when external documentation without address is empty |
| `OpenApi.HeaderBack` | openapi.v:388-401 | (reader at lines 866-873) a header is read back exactly when its schema is canonical, or empty where it is left out |
| `OpenApi.MediaTypeBack` | openapi.v:404-414 | (reader at lines 876-882) the same for media types, whose schema is also kept for its properties |
| `OpenApi.ResponseBack` | openapi.v:417-436 | (reader at lines 885-911) a response is read back exactly when all headers and contents are |
| `OpenApi.RequestBodyBack` | openapi.v:439-456 | (reader at lines 914-931) the same for request bodies; having content survives |
| `OpenApi.ParameterBack` | openapi.v:459-482 | (reader at lines 934-945) a parameter is read back exactly when its schema is canonical, or empty where it is left out |
| `OpenApi.SecurityBack` | openapi.v:525-539 | (reader at lines 976-991) security requirements always come back, empty ones included |
| `OpenApi.OperationBack` | openapi.v:485-541 | (reader at lines 948-1004) an operation is read back exactly when parameters, responses and body are, or the body is empty where it is left out |
| `OpenApi.PathItemBack` | openapi.v:549-587 | (reader at lines 1007-1030) the same for path items, where an operation without responses must be empty |
| `OpenApi.ComponentsBack` | openapi.v:616-668 | (reader at lines 1046-1111) components are read back exactly when all their members are; being empty survives |
| `OpenApi.DocumentRoundTrip` | openapi.v:671-724 | (reader at lines 1114-1169) for every document: reading back returns it if and only if it is canonical, and writing what was read back writes the same JSON again |
| `OpenApiSchema.SchemaLayout` | openapi.v:306-385 | without a reference every field that says something is written under its own name, and no other names occur |
| `OpenApiSchema.ReferenceLayout` | openapi.v:306-314 | a reference is written alone |
| `OpenApiSchema.SchemaReads` | openapi.v:807-862 | every field of a schema is read from its own name on any object; an absent one gives the default |
| `OpenApi.ContactLayout` | openapi.v:221-232 | each text that is not empty is written under its own name, and nothing else |
| `OpenApi.ContactReads` | openapi.v:742-749 | every field is read from its own name on any object, whatever else it holds; an absent one gives the default |
| `OpenApi.LicenseLayout` | openapi.v:236-244 | the name is always written, the address unless it is empty |
| `OpenApi.LicenseReads` | openapi.v:752-758 | every field is read from its own name on any object, whatever else it holds; an absent one gives the default |
| `OpenApi.InfoLayout` | openapi.v:247-267 | title and version are always written, the texts unless empty, the contact when it says something, the license when it has a name |
| `OpenApi.InfoReads` | openapi.v:761-771 | every field is read from its own name on any object, whatever else it holds; an absent one gives the default |
| `OpenApi.LinkLayout` | openapi.v:270-289 | the address is always written, the description unless it is empty |
| `OpenApi.LinkReads` | openapi.v:774-789 | every field is read from its own name on any object, whatever else it holds; an absent one gives the default |
| `OpenApi.TagLayout` | openapi.v:292-303 | the name is always written, external documentation when it has an address |
| `OpenApi.TagReads` | openapi.v:792-799 | every field is read from its own name on any object, whatever else it holds; an absent one gives the default |
| `OpenApi.HeaderLayout` | openapi.v:388-401 | the schema is written when it has a type or a reference |
| `OpenApi.HeaderReads` | openapi.v:866-873 | every field is read from its own name on any object, whatever else it holds; an absent one gives the default |
| `OpenApi.MediaTypeLayout` | openapi.v:404-414 | the schema is written when it has a type, a reference or properties |
| `OpenApi.MediaTypeReads` | openapi.v:876-882 | every field is read from its own name on any object, whatever else it holds; an absent one gives the default |
| `OpenApi.ResponseLayout` | openapi.v:417-436 | the description is always written, the maps unless they are empty, entry by entry |
| `OpenApi.ResponseReads` | openapi.v:885-911 | every field is read from its own name on any object, whatever else it holds; an absent one gives the default |
| `OpenApi.RequestBodyLayout` | openapi.v:439-456 | each field under its own name, the content unless it is empty |
| `OpenApi.RequestBodyReads` | openapi.v:914-931 | every field is read from its own name on any object, whatever else it holds; an absent one gives the default |
| `OpenApi.ParameterLayout` | openapi.v:459-482 | name and location are always written, the rest when it says something |
| `OpenApi.ParameterReads` | openapi.v:934-945 | every field is read from its own name on any object, whatever else it holds; an absent one gives the default |
| `OpenApi.OperationLayout` | openapi.v:485-541 | each field under its own name; the body when it has content |
| `OpenApi.OperationReads` | openapi.v:948-1004 | every field is read from its own name on any object, whatever else it holds; an absent one gives the default |
| `OpenApi.PathItemLayout` | openapi.v:549-587 | each operation is written under its own method exactly when it has responses |
| `OpenApi.PathItemReads` | openapi.v:1007-1030 | every field is read from its own name on any object, whatever else it holds; an absent one gives the default |
| `OpenApi.SecuritySchemeLayout` | openapi.v:590-613 | each text that is not empty is written under its own name |
| `OpenApi.SecuritySchemeReads` | openapi.v:1033-1043 | every field is read from its own name on any object, whatever else it holds; an absent one gives the default |
| `OpenApi.ComponentsLayout` | openapi.v:623-668 | each map is written under its own name unless it is empty, entry by entry |
| `OpenApi.ComponentsReads` | openapi.v:1046-1111 | every field is read from its own name on any object, whatever else it holds; an absent one gives the default |
| `OpenApi.DocumentLayout` | openapi.v:671-724 | version, info and paths are always written, the rest when it says something; components when any of their maps has an entry |
| `OpenApi.DocumentReads` | openapi.v:1114-1169 | every field is read from its own name on any object, whatever else it holds; an absent one gives the default |
| `OpenApi.RequirementLayout` | openapi.v:527-537 | a requirement is an object from scheme names to arrays of scopes |
| `OpenApi.DefaultsAreEmpty` | openapi.v:742-1169 | what stands for an absent object is what the empty object reads as |
| `OpenApiValidate.BracesBalanced` | openapi.v:1235-1256 | the brace loop accepts a path if and only if every prefix has at least as many '{' as '}' and the totals are equal |
| `OpenApiValidate.CheckBraces` | openapi.v:1235-1256 | the loop accepts exactly the balanced paths and otherwise reports the first closing brace too many, or the last opening one when braces stay open |
| `OpenApiValidate.BraceProblemsExactly` | openapi.v:1235-1256 | reported is the first closing brace too many, or, when braces stay open, the last opening one; nothing else |
| `OpenApiValidate.ProblemsWellFormed` | openapi.v:1214-1373 | no problem is listed exactly for well-formed documents, whatever order the paths come in |
| `OpenApiValidate.Validate` | openapi.v:1214-1273 | the fail-fast validator succeeds exactly when the document has no problem, and otherwise reports a problem of the document that precedes all others; problems are defined on document and paths alone |
| `OpenApiValidate.ProblemsExactly` | openapi.v:1276-1373 | the list holds exactly the problems of the document, each once: document problems first, then path by path, slash and braces before empty parameters before double slashes |
| `OpenApiValidate.ValidateWithDetails` | openapi.v:1276-1373 | the exhaustive validator returns exactly the problems of the document, in that order, and none exactly on well-formed documents |

## Left out

- Integer widths: counts, sizes and times are unbounded, so the 32-bit wrap of a rate-limit count and the cast of the chunk count to `int` before the limit check are not modelled.
- Clock readings: each cache, store and router operation reads its clock once; the source may read it again within one call.
- RB_AUGMENT: the hook is empty in the source and has no counterpart; the mirror-image halves of the two fix-up loops are one half with a side as parameter.
- RB_FOREACH_FROM, RB_FOREACH_SAFE and the reverse loops, and the splay trees of the same header: same traversals or other structures.
- Sorting: routes of equal complexity may come in any order after a sort, as the source does not promise a stable one.
- Regular expressions: compilation, matching and captures are an opaque pure function of pattern and path; the parameter names of a route are part of its captures.
- Router statistics, regex warm-up and performance reports: read-only summaries.
- Storage failures: input and output of the part files, hashes, entity tags and the metadata of finished files; two uploads to one object path share one object, but aliasing of different paths on disk is not modelled.
- Multipart: retry, resume information, status reports and the upload of pending parts by callback, which only combine the modelled operations; SQL is modelled by what the statements mean on the tables; sorting the already ascending part list again is the identity.
- Multipart.ChunkManager.InitMultipart: requires that no chunk size the configuration can lead to is zero or negative, because the source divides by it without a check.
- Menus: the map of `build_menu_tree` is a list of items with distinct ids in the order of their first appearance, as V maps keep insertion order; lists on which the recursion does not end are only shown not to end.
- Query parsers: bytes are characters, and no percent-decoding takes place, as in the source.
- JSON: field names are an enumeration, objects with free keys are a separate kind of value, and what the JSON library makes of a value of an unexpected kind is a default; numbers are reals, so NaN is outside the model; text form and pretty printing are library calls.
- OpenAPI: servers and external documentation share one record type because their code is the same; the document builder and the path conversion are not modelled; error texts are kept as a kind with its path and position; the order in which the path map is visited is a parameter.
- Rate limiter: headers, key generation, skipping and custom handlers of the middleware.
- Server callbacks, middleware chains, WebSocket, static files, authentication, sessions, logging and the cloud storage clients: input and output, or easier code that would only add easy members.

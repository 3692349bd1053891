# Aster in Dafny

A model, with proofs, of the parts of the Aster block-chain emulator whose correctness is hardest to see: the
Merkle Patricia trie with everything around it, the consistent-hash ring, CLPA partitioning, fork choice, and the
sharded ledger. `dafny verify dfyconfig.toml` checks all of it.

**The trie.** `Tree` is the abstract trie: what is left when cached hashes, dirty flags and the split into loaded and
hash-only subtrees are forgotten. `Nodes`, `Rlp`, `HexEncoding` and `TreeEncoding` are the node formats; RLP follows
Appendix B, the hex prefix Appendix C and the hash Appendix D of the Ethereum Yellow Paper. `Store` says when an
in-memory node stands for an abstract trie over a node store, and `AccessList` what has been loaded from there. `Trie`,
`Hasher`, `Tracer`, `Committer`, `Reload`, `Proof` and `Iterator` (with `Traversal` and `Paths`) prove each operation
of the Go code against that. `History`
draws the conclusions for whole runs. `StackTrie` is the streaming trie on values, `StackNodes` the same with its
nodes overwritten in place, and `StackTrieRuns` compares whole runs with the trie. Keccak is an arbitrary function
into 32-byte strings; a theorem that needs collision freedom says between which byte strings.

**The write cache and the download.** `FlushList` and `TrieCache` model the reference-counted cache of dirty nodes on
its doubly linked flush list. The methods of `TrieCache.Database` are proved equal to functions on a snapshot, and the
invariant is proved of those; `CacheUpdate` puts a committed node set into that cache. `SyncState` is the state
machine of a trie download, for any node encoding; `SyncProgress` says what a delivery achieves and why a download from
an honest source ends. `Sync` is the scheduler over the real encoding, and `Download` runs it to the end.

**The ring.** `HashRing` is the skip list, with its nodes as objects rewired in place. `Arcs`, `NodeNames` and
`Placement` are about scores, names and which node should hold which key, and `ConsistentHash` adds and removes nodes.
The hash and the random levels are arbitrary.

**Partitioning.** `ShardGraph` counts edges of a multigraph, at once and incrementally; `CLPA` is the algorithm, with
scores that are real numbers, infinite or undefined, where the source has floating-point ones.

**Fork choice.** `ForkChoice` is the light-weight node: blocks and signatures arrive in any order.

**The ledger.** `Ledger` is the proposer that splits a batch and the followers that execute the parts.

Several properties one would expect turn out to fail for some inputs. For each the model has the exact condition, in
terms that a caller could check:

- Fork choice: the chain is the greedy path from its first block after every message, but that block need not stay
  the start block. `ForkChoice.ReplacesExactly` says which messages replace it, and which make the node panic.
  `ForkChoice.SameHead`: nodes with the same messages agree exactly if their chains start at the same block; in
  `ForkChoice.HeadsDiffer` the order of the same messages makes the difference.
- CLPA: the incremental counts agree with a recount exactly when no moved vertex has a self-loop, and
  `CLPA.CLPAState.Partition` states by how much they are off otherwise. `ShardGraph.SelfLoopMiscounts` is an example;
  the caller's data filter keeps self-loops out.
- Ledger: the total balance is conserved in every order of a batch between followers exactly if every account can pay
  for all that it sends (`Ledger.ConservedInEveryOrder`), and in one order exactly if no transfer between different
  followers is refused (`Ledger.ConservedExactly`). `Ledger.OverdraftMints` is an example.
- Write cache: an insertion keeps the size account exactly if the stored 16-bit size is at most 65503
  (`TrieCache.InsertOk`, `TrieCache.SizeWrapsAbove`). Dereferencing undoes a reference to a cached node exactly if the
  node had a parent (`TrieCache.ReferenceUndone`).
- Download: a delivery keeps the invariant exactly if no missing child is requested at the path of the node itself
  (`SyncState.ProcessKeepsExactly`), and is accepted under the same condition
  (`SyncProgress.ProcessAcceptsExactly`). Only a node with an empty key asks for that (`SyncState.WellKeyedGoesDown`), and
  no node of a trie in minimal form is one (`Sync.TrieNodeWellKeyed`). `SyncState.EmptyKeyLosesChild` is an example.
- Ring: removing the last node succeeds exactly if no key is recorded under it; otherwise the ring is left with virtual
  nodes of an unknown node (`ConsistentHash.ConsistentHash.RemoveNode`).

## Model

| member | source | states |
|---|---|---|
| HexEncoding.CompactRoundTrip | trie/encoding.go:37-95 | compactToHex inverts hexToCompact on every nibble string, with or without terminator |
| HexEncoding.CompactImage | trie/encoding.go:37-95 | the other way round: hexToCompact gives back a byte string exactly when it is a well-formed hex prefix (non-empty, flag nibble below 4, no padding digit), so nothing else is lost |
| HexEncoding.KeybytesRoundTrip | trie/encoding.go:97-120 | hexToKeybytes inverts keybytesToHex on every key |
| HexEncoding.KeybytesInjective | trie/encoding.go:97-106 | different keys have different hex forms |
| HexEncoding.EncodeCompact | trie/encoding.go:37-52 | the loop of hexToCompact fills its fresh buffer with the hex-prefix form |
| HexEncoding.EncodeCompactInPlace | trie/encoding.go:56-81 | the aliasing in-place loop leaves, in the prefix it announces, the same bytes as hexToCompact, for every non-empty input |
| HexEncoding.DecodeCompact | trie/encoding.go:83-95 | computes the specified decoding, for every input including the empty one |
| HexEncoding.EncodeHex | trie/encoding.go:97-106 | the loop of keybytesToHex computes the specified nibble string |
| HexEncoding.DecodeNibblesInto | trie/encoding.go:122-126 | packs pairs of nibbles into the tail of the buffer and leaves the rest alone |
| HexEncoding.CommonPrefix | trie/encoding.go:129-140 | returns the length of the longest common prefix |
| Nodes.DecodeEncode | trie/node.go:126-219 | decodeNode of nodeToBytes is expandNode, on every collapsed node that the trie writes and with any bytes behind it |
| Nodes.DecodeEncodedRef | trie/node.go:196-219 | decodeRef splits off exactly one child reference: nothing, a hash, or an embedded node |
| TreeEncoding.CollapseStorable | trie/hasher.go:95-140 | every node of a minimal trie collapses to a form that the decoder accepts, embedded children included |
| TreeEncoding.DecodeEnc | trie/node.go:126-151 | loading the stored form of a trie node gives back its expansion |
| Tree.PutMinimal | trie/trie.go:297-374 | insert keeps the minimal form: no empty short key, no short node under a short node, at least two children per full node |
| Tree.LookupPut | trie/trie.go:297-374 | after an insert the new key reads as the new value and every other key as before |
| Tree.RemoveMinimal | trie/trie.go:402-531 | delete keeps the minimal form, merging short nodes and collapsing full nodes where it must |
| Tree.LookupRemove | trie/trie.go:402-531 | after a delete the key is absent and every other key reads as before |
| Tree.MinimalUnique | trie/trie.go:297-374 | two minimal tries with the same content are equal, node for node |
| Store.ExpandRepresents | trie/database.go:232-264 | the expansion of a stored node stands for the same subtree |
| Store.ResolveRepresents | trie/trie.go:551-558 | replacing a hash by what the node reader returns for it does not change what the trie stands for |
| Hasher.HashCorrect | trie/hasher.go:59-140 | hashing gives the reference of the subtree (its hash, or the node itself below 32 bytes, never so at the root), and the copy with cached hashes still stands for it, whatever was cached or unloaded before |
| Hasher.SealCorrect | trie/hasher.go:146-166 | the 32-byte rule and the cached hash for one collapsed node |
| Hasher.CollapseNodeCorrect | trie/hasher.go:197-209 | proofHash collapses a loaded node to the stored form of its subtree |
| Tracer.Tracer.OnRead | trie/tracer.go:58-60 | records the blob under its path and touches nothing else |
| Tracer.Tracer.OnInsert | trie/tracer.go:65-71 | an inserted path cancels an earlier delete, otherwise it is recorded |
| Tracer.Tracer.OnDelete | trie/tracer.go:76-82 | a deleted path cancels an earlier insert, otherwise it is recorded |
| Tracer.Tracer.Reset | trie/tracer.go:85-89 | forgets everything |
| Tracer.PutPathsExact | trie/trie.go:297-374 | the paths that an insert reports are exactly the node paths that it creates |
| Tracer.RemovePathsExact | trie/trie.go:402-531 | the paths that a delete reports are exactly the node paths that disappear |
| Tracer.PutKeepsExact | trie/tracer.go:65-71 | after an insert, inserts is still exactly the current minus the loaded node paths, and deletes the reverse difference |
| Tracer.RemoveKeepsExact | trie/tracer.go:76-82 | the same after a delete |
| Trie.Trie.constructor | trie/trie.go:76-94 | opening a trie at a root hash over any store that holds it |
| Trie.Trie.ResolveAndTrack | trie/trie.go:551-558 | loads and decodes the node behind a hash and records its blob |
| Trie.Trie.GetAt | trie/trie.go:131-165 | returns what the subtree holds, over any mix of loaded and hash-only nodes, and the reloaded node stands for the same subtree |
| Trie.Trie.Insert | trie/trie.go:297-374 | the returned node stands for the subtree with the value put in, dirty says whether anything changed, the tracer is told exactly the created paths, and every stored node of the trie as it was opened that is no longer a hash in memory is in the access list, under its own path and with its own encoding |
| Trie.Trie.InsertFork | trie/trie.go:316-337 | splitting a short node: the branch, the two ends and the paths reported |
| Trie.Trie.Delete | trie/trie.go:402-531 | the returned node stands for the subtree without the key, dirty says whether anything changed, the tracer is told exactly the removed paths, and the access list again holds every stored node that has been loaded |
| AccessList.ResolveTracks | trie/trie.go:551-558 | loading a hash node and recording the blob under its path keeps the access list complete and truthful |
| Trie.Trie.ReduceFull | trie/trie.go:458-506 | a full node left with one child becomes a short node, merged with a short child even if that has to be loaded first |
| Trie.Trie.LoneChild | trie/trie.go:468-478 | finds the only remaining child, or says that there are none or several |
| Trie.Trie.Get | trie/trie.go:123-129 | answers what the abstract trie holds and keeps content, root and tracer exactness |
| Trie.Trie.Update | trie/trie.go:278-295 | one update of the abstract trie; an empty value deletes |
| Trie.Trie.DeleteKey | trie/trie.go:388-397 | one deletion of the abstract trie |
| Trie.Trie.Hash | trie/trie.go:562-566 | returns the root hash of the abstract trie, whatever hashes were cached, and leaves the content alone |
| History.ApplyModels | trie/trie.go:278-295 | one update keeps the trie equal to the map, including which keys are absent |
| History.RunModels | trie/trie.go:278-374 | after every sequence of updates and deletes the trie holds exactly the map that the sequence builds |
| History.ModelsUnique | trie/trie.go:402-531 | a map determines the trie that holds it |
| History.HistoryIndependence | trie/trie.go:562-566 | two sequences that build the same map end with the same trie and the same root hash |
| StackTrie.HashValCorrect | trie/stacktrie.go:408-485 | hashing a stack trie, left subtrees already hashed away, leaves the reference of the trie that it stands for |
| StackTrie.RootOfCorrect | trie/stacktrie.go:488-504 | its root hash is that of the trie |
| StackTrie.InsertCorrect | trie/stacktrie.go:248-388 | inserting a key after all held ones does not panic and stands for the trie with the key put in |
| StackNodes.StackNode.GetDiffIndex | trie/stacktrie.go:237-244 | returns where the keys part; running out of the new key first is the panic |
| StackNodes.StackNode.Insert | trie/stacktrie.go:248-388 | overwriting the nodes in place has exactly the effect of the insertion on values, panics in the same cases, and only fresh nodes join |
| StackNodes.StackNode.CloseElderOf | trie/stacktrie.go:253-261 | hashes the nearest elder sibling, in place, and no other child |
| StackNodes.StackNode.InsertInChild | trie/stacktrie.go:263-268 | inserting below one child leaves its siblings and their nodes alone |
| StackNodes.StackNode.HashBelow | trie/stacktrie.go:285-303 | the rest of a split extension, as a new node or the child itself, hashed |
| StackNodes.StackNode.Fork | trie/stacktrie.go:304-328 | the node becomes the branch, or an extension to a new branch, with the old and the new side in their slots |
| StackNodes.StackNode.InsertInLeaf | trie/stacktrie.go:330-375 | splitting a leaf, with the panic on an existing key |
| StackNodes.StackNode.HashRec | trie/stacktrie.go:408-485 | turns the node into a hashed node with the value that hashing the stack trie has, and lets go of all children |
| StackNodes.StackNode.HashChildren | trie/stacktrie.go:422-439 | the references of the sixteen children, each hashed, released and emptied in turn |
| StackNodes.StackNode.Update | trie/stacktrie.go:206-213 | inserts the nibbles of the key; an empty value is the panic |
| StackNodes.StackNode.Hash | trie/stacktrie.go:488-504 | returns the root hash, hashing a short root by force |
| StackTrieRuns.NextKeyIsLater | trie/stacktrie.go:206-213 | in an increasing run every held key sorts before the next one, in hex form |
| StackTrieRuns.RunStandsFor | trie/stacktrie.go:248-388 | an increasing run never panics and always stands for the trie given the same updates |
| StackTrieRuns.StackTrieMatchesTrie | trie/stacktrie.go:488-504 | for every strictly increasing sequence of equal-length keys with non-empty values the stack trie runs through and its hash is the root hash of the trie given the same updates |
| StackTrieRuns.StackRoot | trie/stacktrie.go:206-213 | the same for the nodes overwritten in place: streaming the updates and hashing returns that root hash |
| StackTrieRuns.TrieRoot | trie/trie.go:278-295 | the root hash that the trie object itself returns after the same updates |
| Proof.GetChild | trie/proof.go:584-612 | follows embedded nodes down to the next reference, value or miss |
| Proof.VerifyProof | trie/proof.go:114-138 | on any store whose entries sit under their hashes (and without collisions on the path) the verifier returns what the trie holds, present or absent, exactly if all nodes of the path are there, and fails otherwise |
| Proof.PathNodes | trie/proof.go:36-76 | collects the nodes on the path of the key, loading hash nodes on the way |
| Proof.Prove | trie/proof.go:36-98 | adds exactly the nodes of the path that are referenced by hash, and the root, each under its hash, from the given level on |
| Proof.ProofVerifies | trie/proof.go:80-96 | what Prove adds is a complete proof |
| Proof.ProveAndVerify | trie/proof.go:114-138 | verifying what Prove made returns what the trie holds, for every key, present or absent |
| Committer.NodeSet.MarkUpdated | trie/nodeset.go:134-137 | sets the entry of one path |
| Committer.NodeSet.MarkDeleted | trie/nodeset.go:140-143 | marks one path deleted |
| Committer.MarkDeletions | trie/tracer.go:115-125 | marks exactly the deleted paths that had been read |
| Committer.StoreNode | trie/committer.go:125-167 | a node of at least 32 bytes, or the root, is recorded under its path; a shorter one stays embedded and deletes what was read there |
| Committer.Commit | trie/committer.go:53-94 | returns the reference of the subtree, after which every node below it is in the node set or was in the store |
| Committer.CommitChildren | trie/committer.go:97-121 | the references of all seventeen children, with everything below covered |
| Committer.CommittedDescribes | trie/committer.go:53-167 | the finished node set has one entry for each changed stored node, its own collapsed form, and deletions only where nothing is stored any more |
| Committer.DeletedExactly | trie/committer.go:125-167 | a path has a deletion in the finished node set exactly if the opened trie stored a node there and the new one stores none |
| Committer.CommitTrie | trie/trie.go:574-600 | returns the root hash with a node set that describes the trie on top of the store, or none if nothing has changed since the trie was opened; of the stored nodes of the opened trie, the node set deletes exactly those at whose path the new trie stores nothing, whether they were read or not; the trie becomes hash-only and the tracer empty |
| Reload.BottomUp | trie/nodeset.go:121-131 | the paths in reverse order, each once |
| Reload.Update | trie/database.go:773-816 | the result of inserting the live entries in reverse path order: nodes already cached stay, every live entry is cached, and nothing else |
| Reload.SmallGathersNothing | trie/database.go:188-202 | an embedded node refers to nothing by hash, so the children found by forGatherChildren are direct ones |
| Reload.ChildrenInsertedFirst | trie/nodeset.go:121-131 | when Update comes to a node, each child that it refers to by hash can be read already or has been inserted before it |
| Reload.CommitIsSaved | trie/database.go:155-172 | after the update the whole committed trie can be read |
| Reload.CommitAndReload | trie/database.go:382-418 | for every key, Get on the trie opened at the returned root, after Commit and Update, answers as before the commit |
| FlushList.LinkThreaded | trie/database.go:328-335 | appending a node keeps the doubly linked list: forward links right for all, back links for all but the head |
| FlushList.UnlinkThreaded | trie/database.go:519-530 | taking out any node, head, tail or middle, keeps it |
| FlushList.HeadThreaded | trie/database.go:602-611 | dropping the head without repairing the next back link keeps what the list needs |
| FlushList.SumWithout | trie/database.go:535-536 | the size of the list is the sum over its nodes |
| TrieCache.SizeWrapsAbove | trie/database.go:336 | for every size, the total grows by the size of the inserted node exactly when neither the stored 16-bit size nor the 16-bit addition wraps, that is for sizes up to 65503 |
| TrieCache.InsertOk | trie/database.go:310-337 | inserting a node whose children are cached or on disk keeps the invariant (list threaded, children before parents, counts and sizes exact, roots there, disk closed) exactly if the node is cached already or its size, cut to 16 bits, is at most 65503 |
| TrieCache.ReferenceOk | trie/database.go:448-466 | referencing a root keeps it |
| TrieCache.ReferenceUndone | trie/database.go:448-537 | a reference to a cached node adds one to its count at the meta root and to no other, and one dereference restores the whole cache exactly if the node had a parent before; otherwise the node is collected |
| TrieCache.DerefKeeps | trie/database.go:494-541 | the recursive release keeps it at every depth, with the references still to be released accounted for |
| TrieCache.DereferenceOk | trie/database.go:469-491 | dereferencing a root keeps it, and removes only nodes whose count fell to nothing |
| TrieCache.Available | trie/database.go:494-541 | every node reachable from a referenced root is cached or on disk, in every state that satisfies the invariant |
| TrieCache.CollectsExactly | trie/database.go:494-541 | of the nodes that are not also on disk, a dereference removes exactly those that become unreachable, whatever else is on disk |
| TrieCache.PrefixClosed | trie/database.go:569-597 | writing any prefix of the flush list leaves the disk child-closed |
| TrieCache.WriteOk | trie/database.go:576-597 | between a batch write and its replay the invariant holds, so nothing is missing there either |
| TrieCache.CleanOk | trie/database.go:733-765 | replaying one written node takes exactly that node out of the cache and keeps the invariant |
| TrieCache.CapSize | trie/database.go:556-592 | the size that Cap counts down is the size of what stays |
| TrieCache.Database.Insert | trie/database.go:310-337 | the code has exactly the specified effect for every size, and keeps the invariant under exactly that condition |
| TrieCache.Database.Reference | trie/database.go:440-466 | the same for referencing from the meta root, where the count of a cached node grows by one and no other changes |
| TrieCache.Database.Dereference | trie/database.go:469-541 | the same for dereferencing, recursion included; the meta root and roots that are not cached are the no-ops of the code |
| TrieCache.Database.Cap | trie/database.go:548-627 | writes and drops exactly the shortest prefix of the list that gets the cache within the limit, or all of it, and the invariant holds after every batch |
| TrieCache.Database.CommitNode | trie/database.go:690-720 | every node below is on disk or in the batch and out of the cache or in the batch, children first, with intermediate flushes that keep the invariant |
| TrieCache.Database.Commit | trie/database.go:635-687 | afterwards the root, and with it everything below, is on disk; the root has left the cache and every node that left took its cached children along; nothing available before is lost, and nothing written is still cached |
| CacheUpdate.ChildrenThere | trie/database.go:777-779 | when Update comes to an entry of a committed node set, each child that it refers to is in the cache or on disk |
| CacheUpdate.Update | trie/database.go:773-801 | inserting a committed node set bottom-up into the reference-counted cache keeps its invariant, loses nothing, and caches exactly what Reload.Update says |
| TrieCache.Database.Put | trie/database.go:733-765 | takes the written node off the list, at head, tail or middle |
| TrieCache.OnDisk | trie/database.go:690-720 | on a child-closed disk everything below a node on disk is on disk |
| Traversal.PreOrderSorted | trie/iterator.go:444-468 | the pre-order sequence of nodes is strictly increasing in path order, so no node is visited twice |
| Traversal.VisitsAre | trie/iterator.go:444-468 | the visits are exactly the parts of the trie, each at its path |
| Traversal.NodeVisits | trie/iterator.go:444-468 | a path is visited as a node exactly if it is one of the node paths that the tracer keeps account of |
| Traversal.LeafVisits | trie/iterator.go:444-468 | a leaf with a given key and value is visited exactly if the trie maps the key to the value |
| Traversal.LeavesFrom | trie/iterator.go:284-300 | from a start key on, the leaves are exactly the entries whose hex key is not before the nibbles of the start key |
| Traversal.PathsEndAtLeaves | trie/iterator.go:193-195 | exactly the paths of leaves end with the terminator |
| Traversal.PushRemaining | trie/iterator.go:516-522 | moving to a child takes the first of the remaining visits and leaves the rest |
| Traversal.SeekTurn | trie/iterator.go:472-514 | what nextChildAt passes over, with all subtrees, is before the sought key |
| Traversal.SeekPop | trie/iterator.go:352-355 | a node that is before the key and no prefix of it can be left with everything below |
| Iterator.FindChild | trie/iterator.go:419-442 | finds the first child from an index on |
| Iterator.NextChild | trie/iterator.go:444-468 | the next child of a loaded node, or the news that there is none |
| Iterator.NextChildAt | trie/iterator.go:472-514 | the next child, or a later one that is still before the key |
| Iterator.NodeIterator.Pop | trie/iterator.go:524-529 | back to the parent and its path |
| Iterator.NodeIterator.PushChild | trie/iterator.go:516-522 | resolves the child and moves there; the remaining visits lose their first |
| Iterator.NodeIterator.Advance | trie/iterator.go:324-341 | goes up to the next node with a child left without losing a visit |
| Iterator.NodeIterator.Next | trie/iterator.go:265-282 | moves to the first of the remaining visits, skipping the nodes below the current one unless told to descend, and ends exactly when none is left |
| Iterator.NodeIterator.AdvanceTo | trie/iterator.go:357-374 | during a seek, passes over nothing at or after the key |
| Iterator.NodeIterator.Seek | trie/iterator.go:284-300 | terminates with exactly the nodes at or after the key remaining |
| Iterator.NodeIterator.NextLeaf | trie/iterator.go:54-66 | returns the leaves one by one, each once |
| Iterator.NewNodeIterator | trie/iterator.go:163-173 | an iterator over the trie from the start key on, empty for the empty trie |
| SyncState.Filed | trie/sync.go:376-386 | filing one of the missing children keeps the invariant of a node under expansion |
| SyncState.BagStep | trie/sync.go:508-529 | storing a node without open dependencies keeps it, and hands it on to the parent |
| SyncState.SettleKeeps | trie/sync.go:508-529 | committing a request, and all ancestors that it completes, keeps the store child-closed and the counts exact |
| SyncState.ProcessKeeps | trie/sync.go:315-345 | so does every delivery whose missing children all lie below it, in whatever order they are found |
| SyncState.ProcessKeepsExactly | trie/sync.go:315-345 | and no other delivery: the invariant survives exactly if no missing child is requested at the path of the node itself |
| SyncState.WellKeyedGoesDown | trie/sync.go:410-439 | which no node without an empty key asks for |
| SyncState.CommitKeeps | trie/sync.go:349-361 | so does writing out the membatch, in any order |
| SyncState.AddKeeps | trie/sync.go:186-214 | so does registering a trie at a path where nothing is stored or requested |
| SyncState.Progress | trie/sync.go:315-345 | while anything is pending, some request waits for data |
| SyncState.Complete | trie/sync.go:369-371 | when nothing is pending the root is stored and no stored node misses a child |
| SyncState.EveryRun | trie/sync.go:169-181 | all of this in every state of every run of such deliveries from a child-closed database |
| SyncState.EmptyKeyLosesChild | trie/sync.go:508-529 | an extension with an empty key breaks it: its child is requested at its own path and overwritten, and the download ends without it |
| SyncProgress.ProcessAccepts | trie/sync.go:315-345 | a delivery is accepted: the blob is held by its request or stored under its path; each missing child has a live request at its path, with its hash and parent; every other live request stays; nothing else is requested, and what else is stored was complete |
| SyncProgress.ProcessAcceptsExactly | trie/sync.go:315-345 | and only then: exactly if no missing child is requested at the path of the node itself |
| SyncProgress.HonestStep | trie/sync.go:315-345 | each delivery from a source that serves the trie leaves one node of it fewer to deliver |
| SyncProgress.HonestProgress | trie/sync.go:315-345 | while anything is pending, some request can be answered from the source |
| SyncProgress.EveryHonestRun | trie/sync.go:315-371 | so in every run of such deliveries, in any order and with any commits in between, no more of them are possible than the source has nodes, one is possible until nothing is pending, and then the root is there |
| Sync.EmptyKeyDecodes | trie/node.go:153-173 | the decoder accepts such a node |
| Sync.TrieNodeWellKeyed | trie/trie.go:297-374 | no node of a trie in minimal form is one |
| Sync.MentionsAreLinks | trie/sync.go:410-439 | looking at direct children finds every hash in a decoded node, because embedded nodes are too small to hold one |
| Sync.SyncedTrie | trie/sync.go:369-371 | a finished download of honest data leaves the whole trie readable in the database |
| Sync.Scheduler.constructor | trie/sync.go:169-181 | starts with the root requested, unless it is empty or known |
| Sync.Scheduler.AddSubTrie | trie/sync.go:186-214 | files a request unless the trie is empty or known |
| Sync.Scheduler.Children | trie/sync.go:410-503 | returns the unknown hash children, each once, in any order |
| Sync.Scheduler.ProcessNode | trie/sync.go:315-345 | the three refusals leave everything unchanged; otherwise the delivery is accepted (the blob recorded, every missing child requested, everything else kept) and the invariant survives, each exactly if no missing child is requested at the path of the node itself |
| Sync.Scheduler.CommitNodeRequest | trie/sync.go:508-529 | the recursion over parents computes the specified state |
| Sync.Scheduler.Commit | trie/sync.go:349-361 | the database gains exactly the membatch, which is emptied, and stays child-closed |
| Download.TrieSource | trie/sync.go:315-345 | every trie in minimal form with nodes of less than 2^64 bytes has a source of its stored nodes |
| Download.SourceServes | trie/sync.go:315-345 | the stored nodes of a trie in minimal form are such a source |
| Download.Fetch | trie/sync.go:251-371 | requesting, answering in any order and committing from time to time ends, with nothing pending, the root in the database and the database child-closed, holding what it held and only nodes of the source besides |
| Download.FetchTrie | trie/sync.go:251-371 | from the stored nodes of a trie, it ends with the whole trie readable |
| HashRing.Locate | local/hash_ring.go:389-402 | the descent over the levels finds the node with the score, if it is there |
| HashRing.CeilingScan | local/hash_ring.go:322-339 | finds the first node at or after the score, around the end of the list |
| HashRing.FloorScan | local/hash_ring.go:349-370 | finds the last node at or before the score, around the start |
| HashRing.InsertNode | local/hash_ring.go:167-187 | for every random level, threading in a new node keeps every level a sorted sublist of the one below |
| HashRing.DeleteNode | local/hash_ring.go:237-255 | taking out a node keeps it, and no empty level stays |
| HashRing.SkiplistHashRing.Add | local/hash_ring.go:155-190 | adds the virtual node to its score, as in a sorted map |
| HashRing.SkiplistHashRing.Rem | local/hash_ring.go:212-258 | removes it, and the score with its last one; an unknown score or node is refused |
| HashRing.SkiplistHashRing.Ceiling | local/hash_ring.go:192-200 | returns what linear search with wrap-around returns, -1 on an empty ring |
| HashRing.SkiplistHashRing.Floor | local/hash_ring.go:202-210 | the same downwards |
| HashRing.SkiplistHashRing.Node | local/hash_ring.go:274-280 | the virtual nodes at a score, or an error |
| HashRing.SkiplistHashRing.AddNodeToDataKeys | local/hash_ring.go:286-296 | records keys under a node |
| HashRing.SkiplistHashRing.DeleteNodeToDataKeys | local/hash_ring.go:298-310 | removes keys from a node, and the entry with the last |
| NodeNames.NodeIDOfRawKey | local/consistent_hash.go:316-323 | getNodeID inverts getRawNodeKey |
| NodeNames.RawKeyInjective | local/consistent_hash.go:316-318 | different replicas have different names |
| Arcs.MigrateInTestIsArc | local/migration.go:54-103 | the case distinction of migrateIn selects exactly the arc between the new score and the one before it, wrap-around included |
| Arcs.MigrateOutTestIsArc | local/migration.go:181-200 | so does that of migrateOut |
| Arcs.ArcFallsTo | local/migration.go:165-170 | a key belongs to a score exactly if it lies in the arc from the score before |
| Placement.RecordedOnce | local/consistent_hash.go:261-302 | a key recorded under two nodes is recorded under one, the owner of its arc |
| Placement.NewScoreMoves | local/migration.go:12-115 | moving the selected keys to a node with a new score restores the placement, and keys move only to that node |
| Placement.HeadMoves | local/migration.go:117-219 | handing the selected keys to the heir keeps the placement of a leaving node, and only its keys move |
| Placement.WalkOn | local/migration.go:221-260 | each step of the search for an heir gets further round the ring, and coming back to the start means that no other node is left |
| ConsistentHash.ConsistentHash.constructor | local/consistent_hash.go:21-34 | an empty ring, with the default number of replicas |
| ConsistentHash.ConsistentHash.AddNode | local/consistent_hash.go:103-168 | refuses a known node; otherwise the virtual nodes put on the ring are exactly id_0 to id_(count-1), with the count the weight, but at least one and at most ten, times the replicas; every looked-up key is still recorded under exactly the node that GetNode would return, and keys have moved only to the new node |
| NodeNames.DecimalIs | local/consistent_hash.go:316-318 | the number in the name of a virtual node is written with its decimal digits, without leading zeros |
| ConsistentHash.ConsistentHash.RemoveNode | local/consistent_hash.go:172-239 | refuses an unknown node; removing any but the last keeps the placement and moves only the keys of the removed node; the last one goes exactly if no key is recorded under it, and otherwise its name goes while its virtual nodes stay |
| ConsistentHash.ConsistentHash.GetNode | local/consistent_hash.go:261-302 | returns the owner of the arc and records the key there, or fails on an empty ring |
| ConsistentHash.ConsistentHash.MigrateIn | local/migration.go:12-115 | after it the keys are placed again for the ring with the new score |
| ConsistentHash.ConsistentHash.MigrateOut | local/migration.go:117-219 | before a score is given up its keys are with the heir |
| ConsistentHash.ConsistentHash.GetValidNextNode | local/migration.go:221-260 | terminates and finds the heir if there is another node |
| ForkChoice.GreedyUnique | consensus_shard/light-weight/consensusNode.go2:223-339 | there is only one greedy path from a start block |
| ForkChoice.LightWeightNode.AddBlock | chain/blockchain_MemoryMPT.go:217-246 | accepts exactly a child of the current block |
| ForkChoice.LightWeightNode.JudgeFork | chain/blockchain_rollback.go:53-89 | when it rolls back, and to what |
| ForkChoice.LightWeightNode.SmallestChild | consensus_shard/light-weight/consensusNode.go2:276-307 | the search finds the smallest-hash sufficiently signed child of the current block, or that there is none |
| ForkChoice.LightWeightNode.Extend | consensus_shard/light-weight/consensusNode.go2:273-326 | terminates with the chain extended greedily to a block without such a child |
| ForkChoice.LightWeightNode.TryAdd | consensus_shard/light-weight/consensusNode.go2:223-339 | panics exactly if the block would replace the first block of the chain and its parent in the pool is at the wrong height; otherwise the chain is the greedy path again, from its first block or from the block that replaced it |
| ForkChoice.LightWeightNode.HandleBlock | consensus_shard/light-weight/lwNodeListen.go2:66-109 | so after every block message, for nodes whose first block has been replaced as well |
| ForkChoice.LightWeightNode.HandleSign | consensus_shard/light-weight/lwNodeListen.go2:111-141 | and after every signature message |
| ForkChoice.SameHead | consensus_shard/light-weight/consensusNode.go2:223-339 | two nodes that have heard the same blocks and signatures, in any orders, have the same head exactly if their chains start at the same block |
| ForkChoice.Convergence | consensus_shard/light-weight/consensusNode.go2:223-339 | and then the same chain |
| ForkChoice.OnStart | chain/blockchain_rollback.go:53-89 | no chain leads from the start block to the head exactly if the first block has been replaced |
| ForkChoice.ReplacesExactly | consensus_shard/light-weight/consensusNode.go2:223-339 | whether a block replaces the first one, or makes the node panic, can be read off the messages so far: a smaller sibling, enough signatures, its parent among the blocks |
| ForkChoice.ParentFirst | consensus_shard/light-weight/lwNodeListen.go2:66-141 | it happens: the parent, a smaller sibling of the start block and its two signatures, in this order |
| ForkChoice.ParentLast | consensus_shard/light-weight/lwNodeListen.go2:66-141 | the same messages with the parent last leave the chain on the start block |
| ForkChoice.HeadsDiffer | consensus_shard/light-weight/lwNodeListen.go2:66-141 | so two nodes that heard the same messages can have different heads |
| ForkChoice.ParentElsewhere | consensus_shard/light-weight/consensusNode.go2:267-270 | with the parent at another height the node panics |
| ShardGraph.Graph.AddEdge | partition/graph.go:31-45 | the lists are those of the edges added so far, each edge at both ends |
| ShardGraph.AllArrivals | partition/partition_CLPA.go:111-125 | counting list entries by shard counts an edge inside a shard twice and one that leaves it once |
| ShardGraph.LeavingTwice | partition/partition_CLPA.go:127-131 | an edge between shards leaves exactly two, so halving the sum is exact |
| ShardGraph.MoveDrifts | partition/partition_CLPA.go:145-167 | each incremental update makes the counts of the two shards too low by the self-loops of the moved vertex, the edges between shards by twice that, and nothing else |
| ShardGraph.DriftedExactly | partition/partition_CLPA.go:145-167 | so after any moves the counts agree with a recount exactly if no moved vertex has a self-loop |
| ShardGraph.MoveExact | partition/partition_CLPA.go:145-167 | one incremental update agrees with a full recount exactly when the moved vertex has no self-loop |
| ShardGraph.SelfLoopMiscounts | partition/partition_CLPA.go:145-167 | with one self-loop it gives minus one and minus two edges |
| CLPA.Recount | partition/partition_CLPA.go:101-142 | the recount, in any order of the lists, is the number of edges touching each shard and of edges between shards |
| CLPA.RatedExactly | partition/partition_CLPA.go:213-228 | the score, but for rounding, is the fraction that clearing denominators gives; while some shard has no edges, a penalty puts every shard with edges below the threshold |
| CLPA.LeadsMore | partition/partition_CLPA.go:243-252 | scanning one more neighbour keeps the first shard of maximal score |
| CLPA.CLPAState.GetShardScore | partition/partition_CLPA.go:213-228 | counts the entries to the shard and computes its score |
| CLPA.CLPAState.ChooseShard | partition/partition_CLPA.go:240-253 | the first shard of maximal score among those of the neighbours, if it is above -9999, and otherwise the own shard |
| CLPA.PicksOne | partition/partition_CLPA.go:240-253 | the scores leave no other choice |
| CLPA.CLPAState.AddVertex | partition/partition_CLPA.go:46-55 | the vertex keeps its earlier shard or gets the default one; the member counts stay exact exactly if it is new |
| CLPA.CLPAState.AddEdge | partition/partition_CLPA.go:58-69 | adds missing ends once, then the edge |
| CLPA.CLPAState.ComputeEdges2Shard | partition/partition_CLPA.go:101-142 | counts exact, and the smallest count |
| CLPA.CLPAState.ChangeShardRecompute | partition/partition_CLPA.go:145-167 | computes the specified shifts and the smallest count |
| CLPA.MoveKeeps | partition/partition_CLPA.go:254-263 | a move from a shard with another member keeps members, result map, non-emptiness and the account of the drift |
| CLPA.CLPAState.Visit | partition/partition_CLPA.go:236-264 | a vertex with fewer than fifty moves and another member in its shard ends in the shard of maximal score among those of its neighbours, recorded and counted so; any other visit changes nothing |
| CLPA.DrawnAway | partition/partition_CLPA.go:236-264 | so a vertex that may move, with all neighbours in other shards and a score above -9999 among them, moves to one of these and is in the result |
| CLPA.QuietVisits | partition/partition_CLPA.go:235-265 | visits that move nothing leave every visited vertex that may still move in a shard of maximal score |
| CLPA.PartitionKeeps | partition/partition_CLPA.go:230-266 | every run from exact counts keeps members, result map, non-emptiness and the account of the drift, whatever the order of the vertices |
| CLPA.CLPAState.Partition | partition/partition_CLPA.go:230-273 | for every graph: the final partition and the returned map are those of visiting each vertex once per iteration, in some order; the returned map holds exactly the vertices that moved; the incremental counts are those of the recount minus the drift of the moves, exact exactly if no moved vertex has a self-loop; member counts are exact, no shard has become empty, the moves and the returned map both lead from the starting partition to the final one |
| Ledger.AccountState.Deduct | core/account.go:30-36 | refuses an overdraft, otherwise deducts |
| Ledger.AccountState.Deposit | core/account.go:39-41 | adds to the balance |
| Ledger.HomeOfDigit | consensus_shard/subMPT/proposer.go:424-458 | an address that starts with the i-th hexadecimal digit, in either case, is at follower i modulo their number |
| Ledger.HomeExactly | consensus_shard/subMPT/proposer.go:424-458 | and it is nowhere exactly if its first character is none of these digits |
| Ledger.FollowerNode.ProcessTx | consensus_shard/subMPT/follower.go:187-253 | one transfer at one follower: carried out exactly if both addresses start with a digit and a sender held there can pay; then exactly the ends held there change, by the value, and a new account starts from the initial balance with the index of the transfer as nonce; otherwise nothing changes |
| Ledger.FollowerNode.ProcessTxs | consensus_shard/subMPT/follower.go:168-258 | the whole list, and the hashes of the transfers that were not skipped |
| Ledger.Proposer.SchedulingTxs | consensus_shard/subMPT/proposer.go:397-466 | takes a batch off the pool; follower f gets each transfer of it as often as it is in the batch if both addresses start with a hexadecimal digit and one of the two digits is f modulo the number of followers, and no other; all lists follow one order of the appends |
| Ledger.ExecuteBlock | consensus_shard/subMPT/proposer.go:397-466 | a batch is taken off the pool, and after all followers have executed their parts the states are those of the specification for some order of the batch; if every account can pay for all it sends, each account has, at the follower of its first digit, its old balance plus received minus sent |
| Ledger.ExecuteAllBalance | consensus_shard/subMPT/follower.go:187-253 | a follower whose accounts can pay for all they send ends with starting balance plus received minus sent, in every order |
| Ledger.ShardedEqualsSequential | consensus_shard/subMPT/proposer.go:414-466 | then the followers together end with the balances of one ledger executing the batch in any order |
| Ledger.TotalIsMinted | consensus_shard/subMPT/follower.go:187-253 | in every order, affordable or not, the total changes exactly by the refused transfers between followers |
| Ledger.ConservedExactly | consensus_shard/subMPT/follower.go:223-227 | the total is conserved exactly when no transfer of something between followers is refused |
| Ledger.AffordableConserves | consensus_shard/subMPT/follower.go:187-253 | so it is conserved if every account can pay for all it sends |
| Ledger.ConservedInEveryOrder | consensus_shard/subMPT/follower.go:187-253 | for a batch of transfers between followers: the total is conserved in every order exactly if every account that sends something can pay for all that it sends |
| Ledger.OverdraftMints | consensus_shard/subMPT/follower.go:223-251 | an overdraft to another follower leaves the sender as it was and pays the recipient |

## Left out

- Range proofs, that is VerifyRangeProof, proofToPath, unset, unsetInternal and hasRightElement.
- Missing nodes: every node that a trie refers to is assumed to be in its store, so the error returns of Get, Update, Prove and the iterator do not occur.
- The difference and union iterators, the Hash, Parent and NodeBlob of an iterator, and its optional resolver.
- Iterator.NodeIterator.NextLeaf: returns the hex path of a leaf, not the packed key.
- The storage of leaves during a commit, the counters of node sets and estimateSize.
- The clean cache, preimages, metrics, locks and batch sizes of the trie database; a flush may happen after any write.
- References from account tries to storage tries: only children inside a trie and references from the meta root are counted.
- The widths of the reference counters (uint32 and uint16) in the trie database: they do not wrap in the model.
- Reload.Update: models what is cached, not the size of the entries; sizes are in TrieCache and CacheUpdate.
- CacheUpdate.Update: for one node set, and for entries whose size, cut to 16 bits, is at most 65503; TrieCache.InsertOk says what happens otherwise.
- The write function, the pool and the serialisation of the stack trie: a node from the pool is a new node, and a returned one is emptied.
- StackNodes.StackNode.Insert: says nothing about the nodes after a panic.
- In the download: leaf callbacks and the sub-tries and code entries that they add, the queue with its priorities and the throttling in Missing, and the path-based database scheme. Requests are named by their order of creation where the source has pointers.
- Sync.SyncedTrie: assumes that what was delivered hashes to what was asked for, which ProcessNode does not check itself.
- Proof.VerifyProof: stated for the root hash of some trie, and for stores without collisions with the nodes on the path; for other root hashes there is no right answer to compare with.
- The migrator callback of the consistent hash, a missing migrator, locks and expiry; AddNode2, a copy of AddNode with logging.
- ConsistentHash.ConsistentHash.AddNode: node IDs are neither empty nor contain an underscore, since migrateOut uses the empty string for "none" and GetNode cuts at the first underscore.
- In fork choice: pruning of old blocks, proposing and signing, 64-bit overflow of block numbers, and logging. Hashes are numbers, compared as the byte strings are.
- ForkChoice.LightWeightNode.HandleBlock: a block hash of all 0xFF bytes is excluded, as the source uses it for "none", and two blocks with one hash are the same block.
- CLPA.CLPAState.GetShardScore: does not model the rounding of floating-point scores; infinities and NaN are modelled.
- In CLPA: Init_Partition and Stable_Init_Partition; Addr2Shard, of which only its range matters.
- Ledger.ConservedInEveryOrder: for batches in which transfers of something to another account go to another follower; Ledger.AffordableConserves is the half that holds for all batches.
- In the ledger: the state tries of the followers are maps, since a trie refines a map; times, messages and the verification of blocks are left out, and the set of followers is fixed. Values are not negative.
- Ledger.ShardedEqualsSequential: compares balances, not nonces; a new account gets the position in its follower's list as nonce.
- PBFT consensus, the transaction pool, block generation, networks, storage engines, supervisors, measurement and command line: they would add I/O or easy members.

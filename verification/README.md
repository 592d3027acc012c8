# Verified model of SiriDB's data structures, codecs and protocols

SiriDB is a time-series server written in C.  This project models its self-contained parts and
proves what they are for.

- **imap** (`Imap*.dfy`, `Vec.dfy`): the 32-way trie over 64-bit ids, its counters, its two node
  shapes, the vector cache, and the four set operations that adopt subtrees of their source.
- **ctree** (`Ctree*.dfy`): the path-compressed tree over strings, with splitting, merging, the
  sliding window of child blocks, both lookups, and the ordered walk with its growing buffer.
- **fifo** (`Fifo*.dfy`, `Ffile.dfy`): the replication queue on disk, over many files that are
  filled from the end towards the start.
- **lookup** (`Lookup.dfy`): the assignment of series to pools and its balance.
- **qpack** (`Qpack*.dfy`): the packer, the unpacker and the skipper.
- **aggregate** (`Aggregate.dfy`): the windows of group-by and the promise of limit.
- **cexpr** (`Cexpr*.dfy`): the builder and evaluator of where-clauses.
- **expr** (`Expr*.dfy`): the evaluator of integer expressions over a moving cursor, in int64.
- **HTTP bodies** (`Http*.dfy`): the body states of the parser and the API's body callback.
- **buffer** (`Buffer*.dfy`): the slots of the buffer file, their migration and their resizing.

Each part has a layer of values, on which the theorems are stated, and a layer of classes with the
fields of the source, whose methods change them in place and are proved against the first layer.
`Common.dfy`, `Words.dfy`, `Files.dfy` and `Arith.dfy` hold what several parts share.

Where the code and its intention differ, the code is modelled, and a theorem says exactly when the
intention is met:

- Intersection and difference of imaps give the right map always, but account for all references of
  the source exactly when it has nothing outside dest's range (`ImapRefs.ConservesIffCovers`).
- A where-clause is built right exactly when no nested group has an `or` behind its first
  connective; behind a later one conditions are lost (`CexprLost.BuiltRightIffFine`).
- An integer expression is evaluated right, with all numbers in it, exactly when a number's own plus
  sign stands only at the start of an expression or behind a plus; elsewhere the sign is taken for an
  addition (`ExprShape.ReadRightIffFine`, `ExprShape.PlusIsLost`).  The last 48 numbers of int64 are
  not read (`ExprShape.NumberReadIff`).
- qp_next and qp_skip_next work exactly when no length that they reach carries the cursor past the
  last address (`QpackWrap.CodeNextExact`, `QpackRun.SkipExact`).  That cannot happen in a complete
  value (`QpackTame.ReadIsTame`), nor with 64-bit lengths below 2^63 (`QpackTame.SmallIsTame`); a
  header with the length 2^64 - 9 in an open array is skipped for ever (`QpackTame.NeverEnds`).
- limit(n) keeps its promise for all data from a first time stamp on exactly when that is at least 1
  (`Aggregate.LimitTrusted`); from 0 on it gives at most one point more (`Aggregate.LimitKept`).
- A fifo package larger than a default file that arrives while the last file is fresh and not the
  first leaves an empty file inside the chain; exactly then (`Fifo.Fifo.Append`).  Once that file is
  the first one, the fifo is blind to what waits behind it (`Fifo.Fifo.Commit`, `Fifo.Fifo.HasData`,
  `Fifo.Blind`), and a package that comes later can be handed out first (`Fifo.OutOfOrder`).  Nothing
  is lost on disk: a restart finds every package in order (`Fifo.Restart`).

`dafny verify dfyconfig.toml` checks everything.

## Model

| member | source | states |
|---|---|---|
| ImapTrie.DomIsLookup | src/imap/imap.c:236-251 | An id is in the set of stored ids exactly when following its digits (id % 32, then id / 32 - 1) finds a value: the digit path is injective over all ids |
| ImapTrie.SizeIsCard | src/imap/imap.c:42-45 | In a well-formed trie the hand-kept counter of a node is the number of ids stored below it |
| ImapTrie.SameLookupSameEntries | src/imap/imap.c:236-251 | Two tries that find the same for every id stand for the same finite map |
| ImapTrie.GrownLookup | src/imap/imap.c:68-80 | Growing a node from a single keyed child to 32 slots changes no lookup |
| ImapTrie.EnsuredLookup | src/imap/imap.c:61-66 | Making room for a slot changes no lookup |
| ImapTrie.PutLookup | src/imap/imap.c:794-837 | After a set the id finds the new value and every other id finds what it did |
| ImapTrie.PutWF | src/imap/imap.c:794-837 | Set keeps the shape: every counter exact, no empty subtree kept |
| ImapTrie.DelLookup | src/imap/imap.c:895-933 | After a pop the id finds nothing and every other id finds what it did |
| ImapTrie.DelWF | src/imap/imap.c:895-933 | Pop keeps the shape: counters exact, `nodes` gone when the counter is 0 |
| ImapNode.Node.Grow | src/imap/imap.c:68-80 | The heap node turns its single child into one of 32, as the trie function says |
| ImapNode.Node.Set | src/imap/imap.c:794-837 | Recursive set in place: the node stands for the trie after the put; 1 is returned exactly for a new id |
| ImapNode.Node.Add | src/imap/imap.c:847-893 | Recursive add in place: -2 and the same trie when the id exists, otherwise the trie after the put |
| ImapNode.Node.Pop | src/imap/imap.c:895-933 | Recursive pop in place: returns what was stored, the node stands for the trie without it |
| Imap.Map.Get | src/imap/imap.c:236-251 | Get on the whole map, over all ids |
| Imap.Map.Set | src/imap/imap.c:153-186 | Set on the whole map with the cache: the model gets the binding, rc tells whether the id was new, `len` and the cache follow |
| Imap.Map.Add | src/imap/imap.c:196-231 | Add never overwrites: the model changes exactly when the id was absent |
| Imap.Map.Pop | src/imap/imap.c:256-283 | Pop removes exactly the id and returns its value |
| Imap.Map.ToVector | src/imap/imap.c:354-382 | The cache, when present, is returned as it is; otherwise it is built once with all stored objects and never grows beyond `len` |
| Imap.Map.ToVectorRef | src/imap/imap.c:425-463 | The vector holds exactly the stored objects and each gets one reference for each time it is listed |
| Imap.FlatIsObjs | src/imap/imap.c:972-989 | The walk that fills the vector lists every stored object as often as it is stored |
| Imap.FlatLength | src/imap/imap.c:972-989 | The walk lists as many objects as the counters say, so that the vector never overflows |
| Imap.Map.Combine | src/imap/imap.c:474-750 | The four set operations in the heap: dest stands for the set operation on the two maps, stays valid, and for union and symmetric difference the references before are those after plus the decrements |
| ImapOps.SetOperation | src/imap/imap.c:474-750 | Main theorem: each operation on two well-formed tries gives a well-formed trie for exactly the union, intersection, difference or symmetric difference, with an exact counter, for every mix of node shapes |
| ImapOps.NodeOpLookup | src/imap/imap.c:1011-1253 | The recursive helpers below one node find, for every id, what the set operation picks from both sides |
| ImapOps.NodeOpWF | src/imap/imap.c:1011-1253 | The recursive helpers keep counters and pruning exact in every node |
| ImapOps.WidenedLookup | src/imap/imap.c:1011-1063 | Growing dest to 32 slots before merging changes no lookup |
| ImapSetOps.UnionNode | src/imap/imap.c:1011-1063 | IMAP_union_ref in place, adopting subtrees of the source |
| ImapSetOps.IntersectionNode | src/imap/imap.c:1065-1120 | IMAP_intersection_ref in place |
| ImapSetOps.DifferenceNode | src/imap/imap.c:1122-1179 | IMAP_difference_ref in place |
| ImapSetOps.SymmetricDifferenceNode | src/imap/imap.c:1181-1253 | IMAP_symmetric_difference_ref in place, adopting subtrees of the source |
| ImapSetOps.Adopt | src/imap/imap.c:1011-1063 | A subtree that is adopted belongs to dest alone afterwards: no footprint overlaps |
| ImapSetOps.VisitSlots | src/imap/imap.c:1011-1253 | The loop over the slots of both nodes computes the merged row and its decrements, one slot at a time |
| ImapRefs.RootConserves | src/imap/imap.c:474-750 | For every operation: the references of both maps before are those of the result, plus the decrements, plus exactly the objects of the source that are forgotten |
| ImapRefs.GrowingConserves | src/imap/imap.c:474-534 | Union and symmetric difference forget nothing |
| ImapRefs.ConservesIffCovers | src/imap/imap.c:1065-1179 | Intersection and difference account for all references exactly when the source has no subtree outside the range of dest's nodes |
| ImapRefs.IntersectionForgets | src/imap/imap.c:1074-1120 | Two concrete maps whose intersection forgets references of the source |
| ImapRefs.PutObjs | src/imap/imap.c:794-837 | Storing a new id adds exactly one reference |
| Vec.Vector.Append | src/vec/vec.c:18-32 | vec_append with room: the contents get the item at the end |
| Vec.Vector.AppendSafe | src/vec/vec.c:66-94 | vec_append_safe: the contents get the item at the end, and a full vector grows by the rule of the source |
| Vec.Vector.Copy | src/vec/vec.c:50-61 | A copy has the same contents and its own memory |
| CtreeTrie.SplitLookup | src/ctree/ctree.c:486-515 | Cutting a node inside its key changes no lookup |
| CtreeTrie.ResizedChild | src/ctree/ctree.c:806-869 | Resizing the window of 32-slot blocks keeps every child at its byte and covers the new byte |
| CtreeTrie.ResizedTable | src/ctree/ctree.c:806-869 | Resizing keeps the table well formed: whole blocks, at most 256 bytes, the same number of children |
| CtreeOps.PutLookup | src/ctree/ctree.c:475-619 | After an add the key finds its old value, or the new one if it had none, and every other key finds what it did |
| CtreeOps.PutWF | src/ctree/ctree.c:475-619 | Adding keeps the canonical form: every node below the root has a value or two children, counters are exact |
| CtreeOps.MergeLookup | src/ctree/ctree.c:630-679 | Merging a node with its only child changes no lookup |
| CtreeOps.MergeWF | src/ctree/ctree.c:630-679 | Merging gives a node in canonical form |
| CtreeOps.DelLookup | src/ctree/ctree.c:711-766 | After a pop the key finds nothing and every other key finds what it did |
| CtreeOps.DelWF | src/ctree/ctree.c:684-766 | Popping, with the clean-up of the parent, keeps the canonical form |
| CtreeItems.LessMeans | src/ctree/ctree.c:353-403 | The order of the walk: the first difference decides, and a string comes before its continuations |
| CtreeItems.ItemsListEntries | src/ctree/ctree.c:353-403 | The items of a tree are the entries of the map it stands for, each exactly once, in strictly increasing unsigned byte order |
| CtreeItems.RootPut | src/ctree/ctree.c:91-131 | ct_add on the map: a key that exists keeps its value |
| CtreeItems.RootDelEntries | src/ctree/ctree.c:236-266 | ct_pop on the map: exactly the key goes, and the root stays well formed |
| CtreeItems.EntriesUpdate | src/ctree/ctree.c:136-177 | Trees that find the same but for one key stand for maps that differ there only |
| CtreeNode.CNode.Resize | src/ctree/ctree.c:806-869 | CT_node_resize in the heap, in all three directions |
| CtreeNode.CNode.SplitAt | src/ctree/ctree.c:486-515 | The heap node becomes the upper half and a new node takes over the rest, its children and its value |
| CtreeNode.CNode.Add | src/ctree/ctree.c:475-619 | CT_add in the heap: the loop over the node's key, the split, the descent; the node stands for the tree after the put and rc tells whether the key existed |
| CtreeNode.CNode.MergeNode | src/ctree/ctree.c:630-679 | CT_merge_node in the heap |
| CtreeNode.CNode.DecNode | src/ctree/ctree.c:684-706 | CT_dec_node: the table goes with its last child, a node with one child and no value is merged |
| CtreeNode.CNode.Pop | src/ctree/ctree.c:711-766 | CT_pop in the heap: returns the stored value; the node stands for the tree without the key, or is gone |
| CtreeNode.PutSplits | src/ctree/ctree.c:481-564 | An add that has to split gives the split node with the value or with a second child |
| Ctree.Ctree.Add | src/ctree/ctree.c:91-131 | ct_add refines a map from strings, `len` is exact, CT_EXISTS exactly for an empty or stored key |
| Ctree.Ctree.Get | src/ctree/ctree.c:136-177 | ct_get: the cursor loop finds exactly what the map holds |
| Ctree.Ctree.GetN | src/ctree/ctree.c:182-229 | ct_getn: the same for the first n bytes of any buffer, so both agree on every string |
| Ctree.Ctree.Pop | src/ctree/ctree.c:236-266 | ct_pop refines removal from the map and `len` is exact |
| Ctree.Ctree.Items | src/ctree/ctree.c:277-301 | ct_items: calls follow the sorted entries; without a stop every entry is visited once |
| CtreeWalk.WalkItems | src/ctree/ctree.c:353-403 | CT_items: the full key is rebuilt in the buffer, the caller's prefix survives reallocation by siblings, and every write is inside the buffer although its size is passed by value |
| CtreeWalk.WalkSeesEntries | src/ctree/ctree.c:345-403 | What a walk sees is sorted and consists of entries; it sees all of them unless the callback ended it |
| CtreeWalk.WalkPrefix | src/ctree/ctree.c:268-301 | The callback is called for a prefix of the items and not again after it has asked to stop |
| FifoBytes.ParseLayout | src/siri/db/ffile.c:82-142 | Reading a file from its end gives back exactly the packages written into it, oldest first |
| FifoBytes.AppendLayout | src/siri/db/ffile.c:151-180 | The two writes of an append below the lowest package give the layout with one package more, also in a new or drained file |
| FifoBytes.NewestAt | src/siri/db/ffile.c:151-180 | The newest package stands lowest in the file, and its size in four bytes behind it, the least one first |
| FifoBytes.PopLayout | src/siri/db/ffile.c:201-241 | The bytes before the last word of the file are the oldest package |
| FifoBytes.CommitLayout | src/siri/db/ffile.c:248-261 | Truncating by the oldest package leaves the layout of the others, and the word then found at the end is the next size or 0 |
| Ffile.File.Append | src/siri/db/ffile.c:151-180 | Stored exactly when package and terminator fit into the free space; other files untouched |
| Ffile.File.Pop | src/siri/db/ffile.c:201-241 | Returns the oldest package and changes nothing |
| Ffile.File.PopCommit | src/siri/db/ffile.c:248-261 | Removes exactly the oldest package |
| Ffile.File.Existing | src/siri/db/ffile.c:60-142 | The file object made for a file that exists: with the next size and the packages that its bytes hold, it is valid, not open, and nothing more is appended to it |
| Ffile.Reopen | src/siri/db/ffile.c:82-142 | The last word of an existing file is read as its next size: the file then holds the packages it held, and a drained one is removed |
| Fifo.Fifo.Append | src/siri/db/fifo.c:107-143 | Appends at the back of the queue that the files on disk spell, for packages of any size and for every state the fifo can get into; only an oversize package into a fresh empty last file leaves an empty file inside the chain, and exactly then; when the last file is full while the first is empty and others wait, the new file becomes both ends and the waiting files come off the chain, exactly then |
| Fifo.Fifo.Pop | src/siri/db/fifo.c:153-165 | Returns the front of the queue, which stays |
| Fifo.Fifo.Commit | src/siri/db/fifo.c:171-213 | Removes exactly the front; `out` moves on to the next file and drained files are unlinked; afterwards the fifo is blind (an empty first file with files behind it) exactly when the last package of `out` was committed, at least two files wait and the first of them is empty |
| Fifo.Fifo.HasData | include/siri/db/fifo.h:29 | The test for data is right for every live fifo; for a blind one it says no, and packages are waiting exactly when a file behind the first has some |
| Fifo.Fifo.QueueIsChain | src/siri/db/fifo.c:107-213 | The queue on disk is the packages of the chained files, file by file |
| Fifo.Blind | src/siri/db/fifo.c:107-213 | A run into the failing state: one package from an earlier run, an oversize package, one commit; the oversize package is waiting and the test for data says no |
| Fifo.OutOfOrder | src/siri/db/fifo.c:107-165 | What follows: the next package is handed out before the oversize one that is in front of it in the queue |
| Fifo.Fifo.Close | src/siri/db/fifo.c:230-248 | Closing keeps the queue |
| Fifo.Fifo.Open | src/siri/db/fifo.c:253-266 | Opening again restores a working fifo with the same queue |
| Fifo.QueueAppend | src/siri/db/fifo.c:107-143 | A package more in the last file is a package more at the back of the queue on disk |
| Fifo.QueueCommit | src/siri/db/fifo.c:171-213 | A package less at the head of the first file is the front of the queue gone |
| Fifo.QueueDrop | src/siri/db/fifo.c:171-213 | Removing a drained file does not change the queue |
| Fifo.QueueFirst | src/siri/db/fifo.c:153-165 | The front of the queue is the oldest package of the first file that has one |
| Fifo.Start | src/siri/db/fifo.c:27-101 | siridb_fifo_new over any directory of well-formed files gives a valid fifo with the queue the files spell |
| Fifo.Scan | src/siri/db/fifo.c:309-365 | FIFO_init takes exactly the files found, in increasing order of their ids, and drops drained ones |
| Fifo.Restart | src/siri/db/fifo.c:27-101 | Stopping and starting again keeps all uncommitted packages in order, and brings back those of a blind fifo or of files off the chain |
| Lookup.New | src/siri/db/lookup.c:43-73 | The nested loops build the table that the recursive definition describes |
| Lookup.Extend | src/siri/db/lookup.c:56-70 | One round of the loops: pool n takes every (n+1)-th slot of each pool, counted from the pool's own number |
| Lookup.SlotsLeft | src/siri/db/lookup.c:63-69 | How many slots a pool keeps after a round |
| Lookup.ExcessStep | src/siri/db/lookup.c:56-70 | Adding pool n changes p * slots - 8192 of pool j by ((c + j) mod (n + 1)) - j |
| Lookup.SlotsShareTable | src/siri/db/lookup.c:43-73 | The slot counts of all pools add up to the table |
| Lookup.NewExcess | src/siri/db/lookup.c:63-69 | The new pool's own excess, by conservation over all pools |
| Lookup.BuildBalanced | src/siri/db/lookup.c:43-73 | For every number of pools p each pool is within p(p-1)/2 of its share, scaled by p |
| Lookup.EveryPoolUsed | src/siri/db/lookup.c:43-73 | Up to 128 pools, every pool gets slots |
| Lookup.SeriesKeepPool | src/siri/db/lookup.c:12-73 | When a pool is added a series keeps its pool or moves to the new one |
| Lookup.FourPools | src/siri/db/lookup.c:43-73 | The table of four pools repeats the twelve slots 0, 1, 0, 2, 3, 1, 0, 3, 3, 2, 2, 1, as the tests of the program expect |
| Lookup.CharValue | src/siri/db/lookup.c:12-20 | A byte is worth the number from -128 to 127 that differs from it by a multiple of 256 |
| Lookup.PlainSlot | src/siri/db/lookup.c:12-36 | A name of bytes below 128 belongs to the slot of the plain sum of its bytes modulo 8192 |
| Lookup.Sn | src/siri/db/lookup.c:12-20 | The pool of the slot that the signed sum of the name's characters gives, kept in 32 bits; for bytes below 128 that is the plain sum modulo 8192 |
| Lookup.SnRaw | src/siri/db/lookup.c:25-36 | The same pool from a sum backwards over a raw name, so both functions agree on every string |
| QpackTokens.NextEnc | src/qpack/qpack.c:696-1041 | qp_next gives back every packed atom whatever follows it; -0.0 comes back as 0.0 |
| QpackTokens.NextInt | src/qpack/qpack.c:482-530 | Every integer is read back from its 1 to 9 bytes |
| QpackTokens.NextRaw | src/qpack/qpack.c:45-76 | All raw headers are read back with the raw string |
| QpackForms.IntShortest | src/qpack/qpack.c:482-530 | No bytes that read as an integer are fewer than those it is packed in |
| QpackForms.RawShortest | src/qpack/qpack.c:45-76 | No bytes that read as a string are fewer than those it is packed in |
| QpackForms.RealShortest | src/qpack/qpack.c:448-470 | No bytes that read as a double are fewer than those it is packed in |
| QpackForms.SmallInts | src/qpack/qpack.c:482-503 | The bytes 0 to 63 are these numbers, and 63 + k is -k for k up to 60, written and read |
| QpackForms.LargeInts | src/qpack/qpack.c:504-530 | All other integers are the type 232 to 235 and 1, 2, 4 or 8 bytes of two's complement, the least one first |
| QpackForms.Strings | src/qpack/qpack.c:45-76 | A string is the type 128 plus its length below 100 bytes, or 228 to 231 and its length in 1, 2, 4 or 8 bytes, then its bytes |
| QpackForms.Doubles | src/qpack/qpack.c:448-470 | -1.0, 0.0 and 1.0, given by their eight bytes, are the types 125, 126 and 127, written and read; all others are 236 and their bytes |
| QpackForms.CountedForm | src/qpack/qpack.c:535-556 | Arrays of up to five items are the types 237 to 242, maps of up to five pairs 243 to 248 |
| QpackForms.OpenForm | src/qpack/qpack.c:535-556 | Open arrays stand between 252 and 254, open maps between 253 and 255 |
| QpackForms.IntRead | src/qpack/qpack.c:696-1041 | Integers are read in any width, also where a shorter form would do |
| QpackForms.RawRead | src/qpack/qpack.c:78-89 | So are the lengths of strings |
| QpackForms.Types | include/qpack/qpack.h:20-66 | The type numbers that reading returns, and the marks, which are their own byte |
| QpackForms.CutOff | src/qpack/qpack.c:107-115 | Every atom that is cut off, at any place, is QP_ERR |
| QpackValues.ReadEncode | src/qpack/qpack.c:404-556 | Packing a nested value (counted or open arrays and maps) and reading it back with any suffix gives the value and its exact number of bytes |
| QpackSkip.SkipRead | src/qpack/qpack.c:298-350 | Wherever a complete value can be read, canonical or not, qp_skip_next moves exactly behind it |
| QpackSkip.SkipEncode | src/qpack/qpack.c:298-350 | Skipping a packed value consumes exactly its bytes |
| QpackSkip.ReadPrefix | src/qpack/qpack.c:696-1041 | What is read does not depend on the bytes behind it |
| QpackSkip.CopiedValue | src/qpack/qpack.c:263-279 | The bytes copied by qp_packer_extend_fu from a value are that value again |
| QpackWrap.CodeNextExact | src/qpack/qpack.c:78-115 | qp_next with its computed addresses does what it is meant to do if and only if the length of a string does not carry the cursor past the last address; when it does, QP_RAW comes back in place of QP_ERR and the cursor ends up before the end of the header |
| QpackRun.SkipExact | src/qpack/qpack.c:298-350 | qp_skip_next makes the calls that are meant, ends, and returns the specified type and cursor, if and only if no length that it reaches wraps |
| QpackTame.ReadIsTame | src/qpack/qpack.c:298-350 | No length wraps in a complete value, wherever it lies |
| QpackTame.SmallIsTame | src/qpack/qpack.c:78-115 | A guard for any bytes: in the lower half of the address space, with every 64-bit length below 2^63, none wraps |
| QpackTame.NextStays | src/qpack/qpack.c:78-89 | A raw header with the length 2^64 - 9 leaves the cursor on itself, where truncated input should be an error; so the size that qp_packer_extend_fu copies for it is 0 |
| QpackTame.NeverEnds | src/qpack/qpack.c:329-334 | Such a header behind an opening mark: after any number of calls qp_skip_next is at the same place |
| Qpack.Unpacker.Next | src/qpack/qpack.c:696-1041 | qp_next over any bytes at any address: the cursor moves by what was read and cut-off input gives QP_ERR exactly when no length wraps; otherwise the cursor moves back |
| Qpack.Unpacker.Current | src/qpack/qpack.c:1050-1200 | The type that qp_next would return, unless the object is cut off |
| Qpack.Unpacker.SkipNext | src/qpack/qpack.c:298-350 | When no length that it reaches wraps, the recursive skip ends, on any bytes, and computes the specified skip |
| Qpack.Packer.Resize | src/qpack/qpack.c:21-36 | Room is made and nothing packed is lost |
| Qpack.Packer.AddRaw | src/qpack/qpack.c:404-410 | The contents get the atom's encoding |
| Qpack.Packer.AddRawTerm | src/qpack/qpack.c:432-443 | The string is packed with a terminator that counts |
| Qpack.Packer.AddDouble | src/qpack/qpack.c:448-470 | The contents get the atom's encoding, with the short forms for -1.0, 0.0 and 1.0 |
| Qpack.Packer.AddInt64 | src/qpack/qpack.c:482-530 | The contents get the bytes of the integer, which are its shortest encoding (`QpackForms.IntShortest`) |
| Qpack.Packer.AddType | src/qpack/qpack.c:535-556 | The contents get the mark |
| Qpack.Packer.Extend | src/qpack/qpack.c:249-255 | The contents of the other packer are appended |
| Qpack.Packer.ExtendFu | src/qpack/qpack.c:263-279 | When no length that is skipped wraps, exactly the skipped bytes are appended and the cursor is behind them |
| Aggregate.GroupTsExact | src/siri/db/aggregate.c:41-43 | GROUP_TS ends at or behind its point exactly when it does not wrap in 64 bits |
| Aggregate.GroupByNoWrap | src/siri/db/aggregate.c:41-43 | Without an offset no window wraps, for any group and all valid time stamps |
| Aggregate.RunsAreWindows | src/siri/db/aggregate.c:1188-1220 | The runs are consecutive, non-empty and cover the source; each time stamp is the first one at or behind the first point that is a multiple of group_by, plus the offset; it lies at or behind all points of its run and before the next, and the next is at least group_by later |
| Aggregate.OneGrouping | src/siri/db/aggregate.c:1188-1220 | That leaves nothing open: two such lists of runs over the same points are equal |
| Aggregate.RunsFit | src/siri/db/aggregate.c:1140-1146 | There are never more runs than points allocated for them |
| Aggregate.LimitKept | src/siri/db/aggregate.c:677-694 | limit(n) never gives more than n points for a sorted source whose first time stamp is at least 1, and never more than n + 1 for one that starts at 0 |
| Aggregate.LimitFromZero | src/siri/db/aggregate.c:690-691 | With first time stamp 0 the offset wraps, and limit(1) of two points gives two |
| Aggregate.LimitTrusted | src/siri/db/aggregate.c:677-694 | The exact condition: limit keeps its promise for all data from a first time stamp on if and only if that is at least 1 |
| Aggregate.LimitNoWrap | src/siri/db/aggregate.c:687-693 | The window arithmetic of limit stays within 64 bits for all valid time stamps |
| Aggregate.FirstWindow | src/siri/db/aggregate.c:690-691 | The derived offset makes the first window exactly as long as the group |
| Aggregate.Aggr.GroupBy | src/siri/db/aggregate.c:1126-1247 | One point comes back for each window over the source, with the time of the window and the value of the points in it, inside the allocation; or nothing when one of these values fails |
| Aggregate.LimitChoice | src/siri/db/aggregate.c:687-691 | limit takes the shortest group of which `limit` are longer than the source, and an offset with which a window ends just before the first point |
| Aggregate.Aggr.Limit | src/siri/db/aggregate.c:677-694 | At most `limit` points, or one more when the first time stamp is 0; they are those of a group by with the derived group and offset, and a short source comes back as it is |
| CexprMeaning.RunRest | src/cexpr/cexpr.c:594-655 | The terms behind a connective build a tree with their meaning below the current node |
| CexprMeaning.RunNested | src/cexpr/cexpr.c:657-698 | A nested group whose only `or` is its first connective builds a tree with its meaning and restores the list |
| CexprReading.MeansRuns | src/cexpr/cexpr.c:228-255 | The standard reading in one sentence: a clause holds when all terms between two of its `or`s do |
| CexprClause.BuildMeans | src/cexpr/cexpr.c:50-102 | For every clause in the domain, within the depth limit, no assertion fails and the tree means the standard reading, `and` before `or` |
| CexprTree.BuildsTree | src/cexpr/cexpr.c:50-102 | Whatever the tokens are, what is returned is a tree: each token keeps all nodes but the current one complete, and no node can be reached from itself |
| CexprTree.OneTree | src/cexpr/cexpr.c:228-255 | The nodes represent no more than one tree |
| CexprClause.BuildTooDeep | src/cexpr/cexpr.c:657-663 | Every clause is refused exactly when more than five groups are nested in it, and built without a failing assertion otherwise |
| CexprClause.FineMeans | src/cexpr/cexpr.c:50-102 | The tree that is built for a clause in the domain means what the clause means |
| CexprEssential.Essential | src/cexpr/cexpr.c:228-255 | About the meaning alone: in a clause of different conditions each condition decides the outcome for some data, so a tree that lost one must answer wrongly |
| CexprLost.UnfineDiffers | src/cexpr/cexpr.c:615-640 | Every clause of different conditions with a later `or` in a nested group, within the depth limit, is built into a tree that answers wrongly for some data |
| CexprLost.OrIsLost | src/cexpr/cexpr.c:615-640 | `x and (a and b or c)` is built as `x and (a and b)`, and answers wrongly when x and c hold |
| CexprLost.BuiltRightIffFine | src/cexpr/cexpr.c:615-640 | The exact condition: a clause of different conditions within the depth limit is built right if and only if nested groups have no `or` behind their first connective |
| Cexpr.Builder.PushAnd | src/cexpr/cexpr.c:594-610 | CEXPR_push_and on the nodes in the heap |
| Cexpr.Builder.PushOr | src/cexpr/cexpr.c:615-640 | CEXPR_push_or on the nodes and the list |
| Cexpr.Builder.OpenCurly | src/cexpr/cexpr.c:657-691 | CEXPR_open_curly, with the depth limit and the assertion as outcomes |
| Cexpr.Builder.CloseCurly | src/cexpr/cexpr.c:693-698 | CEXPR_close_curly |
| Cexpr.Builder.Walk | src/cexpr/cexpr.c:332-551 | One leaf of the parse tree moves the builder as specified |
| Cexpr.FromTokens | src/cexpr/cexpr.c:50-102 | cexpr_from_node over the leaves of the parse tree |
| Cexpr.RunTree | src/cexpr/cexpr.c:228-255 | cexpr_run evaluates the tree that the nodes represent, and its assertions hold |
| Cexpr.Answer | src/cexpr/cexpr.c:50-255 | Building and running any clause: it is refused exactly when more than five groups are nested in it, the answer is the value of the tree that was built, and in the domain it is the clause's own meaning |
| HttpBody.IdentityBody | src/lib/http_parser.c:1873-1907 | With a content length the body is exactly the next so many bytes, and nothing behind them is taken |
| HttpBody.ChunkedBody | src/lib/http_parser.c:1925-2045 | A chunked message, whose sizes are spelled in hexadecimal digits of either case and may have parameters, gives the data of its chunks in order and ends behind its last chunk |
| HttpBody.TakenIsChunked | src/lib/http_parser.c:1925-2045 | Conversely, whatever the parser takes as a complete chunked body is the coding of some chunks, and the body is their data |
| HttpBody.UnhexMeans | src/lib/http_parser.c:224-233 | A byte counts for k exactly when it stands at place k of 0123456789abcdef or 0123456789ABCDEF |
| HttpBody.SizeRead | src/lib/http_parser.c:1925-2002 | The size line of every number up to 2^64 - 17, in either case, leads to a chunk with so many bytes, and of 0 to the end of the body |
| HttpBody.DigitRefused | src/lib/http_parser.c:1925-1976 | Every other byte is refused where a size starts, and ends a size |
| HttpBody.Refused | src/lib/http_parser.c:1925-2045 | What is refused around the data of chunks and as which error, with the numbers: 81920 bytes of size line, a size above 2^64 - 17, a missing line end |
| HttpBody.FeedConcat | src/lib/http_parser.c:707-2045 | Reading in two parts is reading at once |
| HttpBody.FeedDigits | src/lib/http_parser.c:1925-1976 | The size of a chunk is accumulated digit by digit without overflow; `HttpBody.SpellsHex` says which number that is |
| Http.Parser.ChunkByte | src/lib/http_parser.c:1925-2045 | The states around the data of a chunk, with their error conditions and the limit on header bytes |
| Http.Parser.TakeBody | src/lib/http_parser.c:1873-1907 | A run of body bytes is taken at once, the length follows, and a completed body is handed over |
| Http.Parser.Execute | src/lib/http_parser.c:707-2084 | One read: the slices handed over, joined, are the body in it; a failure hands over a prefix |
| Http.Request.HeadersComplete | src/siri/api.c:193-209 | The buffer has the content length, or there is none |
| Http.Request.Body | src/siri/api.c:422-435 | The slice is copied to its place, computed from what is still to come |
| Http.Receive | src/siri/api.c:151-191 | For any split into reads the request gets the body: the first so many bytes with a content length, which fill its buffer exactly, and the data of the chunks of a chunked message |
| BufferSlots.ReadSlot | src/siri/db/buffer.c:348-379 | A slot gives back its id and its points, up to the end mark |
| BufferSlots.SlotLayout | src/siri/db/buffer.c:133-179 | The bytes of a slot: four zeros, the id, each point with its time first, and 255 to the end; words have their least byte first |
| BufferSlots.SlotAppend | src/siri/db/buffer.c:157-179 | Writing a point behind the others takes the place of end marks and leaves one |
| BufferSlots.SlotShrink | src/siri/db/buffer.c:390-415 | The front of a slot is a slot of the smaller size when the points fit |
| BufferSlots.SlotGrow | src/siri/db/buffer.c:385-389 | The template behind a slot makes it a slot of the larger size |
| BufferMigrate.InitTemplate | src/siri/db/buffer.c:561-572 | The template is a zero word and end marks |
| BufferMigrate.Migrate | src/siri/db/buffer.c:539-559 | The overlapping move in place turns an old slot into a new one with the same id and points and at least one end mark |
| BufferFile.LaidApart | src/siri/db/buffer.c:465-537 | Slots in use are pairwise at least `size` apart and inside the file |
| BufferFile.Buffer.WriteEmpty | src/siri/db/buffer.c:133-149 | The slot of a series is written empty |
| BufferFile.Buffer.WritePoint | src/siri/db/buffer.c:157-179 | The point is added to the slot of the series and no other slot changes |
| BufferFile.Buffer.AddPoint | src/siri/db/series.c:131-178 | A point goes into the slot, or all points of a full series are handed over and the slot is emptied |
| BufferFile.Buffer.NewSeries | src/siri/db/buffer.c:184-200 | A new series gets an empty slot of its own, and the invariant over all slots holds |
| BufferFile.Buffer.UseEmpty | src/siri/db/buffer.c:465-478 | The last free slot is used |
| BufferFile.Buffer.CreateNew | src/siri/db/buffer.c:487-537 | The file grows by 64 slots, the first is used and the others become free |
| BufferFile.Buffer.Drop | src/siri/db/series.c:342-368 | A dropped series gives its slot back |
| BufferLoad.Load | src/siri/db/buffer.c:244-453 | Loading with any valid new size: a series that has no room in a smaller slot for its points and an end mark hands all of them over to the shards, every other one keeps all of them in its new slot, and the file is valid for the new size |
| BufferLoad.ReadAll | src/siri/db/buffer.c:375-379 | The loop over a slot reads its points |
| BufferLoad.OutSlot | src/siri/db/buffer.c:384-415 | What is written for a series: its slot, widened, cut, or an empty one |
| ExprRegroup.ReadsRegrouped | src/expr/expr.c:17-100 | For every expression of the grammar the evaluator reads all of the text, in the arithmetic of int64, as another expression with the same text: a number's plus sign that stands behind an operator or at the start of a term ends the term there, and starts a new one |
| ExprRegroup.ParseMeans | src/expr/expr.c:17-100 | An expression in which such plus signs stand only at the start of an expression or behind a plus gives its value, with the usual precedence and left association; it never succeeds behind a division by zero, and is undefined exactly when a result is no int64 |
| ExprLaws.RingLaws | src/expr/expr.c:17-100 | For any two numbers in the text, with or without a minus sign, `+`, `-` and `*` give sum, difference and product, or nothing defined beyond int64 |
| ExprLaws.DivisionLaws | src/expr/expr.c:69-78 | `/` and `%` give q and r with a = b * q + r, r smaller than b and with the sign of a |
| ExprLaws.PlainDivision | src/expr/expr.c:69-78 | Without signs they are the quotient and the remainder of natural numbers |
| ExprLaws.ZeroLaws | src/expr/expr.c:69-78 | A divisor of zero gives the error -1 for `/` and -2 for `%` |
| ExprLaws.ProductsFirst | src/expr/expr.c:56-100 | Products come before sums, on either side |
| ExprLaws.FromTheLeft | src/expr/expr.c:56-100 | Operators of the same rank work from the left |
| ExprLaws.BracketsFirst | src/expr/expr.c:41-47 | Brackets come before all |
| ExprPlain.ZeroDivisor | src/expr/expr.c:69-78 | The same errors for any term before a zero divisor, a bracket included |
| ExprText.ExpressionCauses | src/expr/expr.c:17-100 | For any text: the error -1 comes from a `/` in it, and -2 from a `%` |
| ExprShape.ReadRightIffFine | src/expr/expr.c:35-100 | The exact condition: an expression that fits the buffer is read right with all numbers in it if and only if its plus signs stand so |
| ExprShape.Misread | src/expr/expr.c:35-100 | For every other expression there are numbers with which all results are int64 and the outcome is wrong |
| ExprShape.NumberReadIff | src/expr/expr.c:24-33 | A number is read if and only if it is at most 2^63 - 1 - 48, because the code of the digit 0 is taken off last |
| ExprShape.PlusIsLost | src/expr/expr.c:35-54 | Behind `*` a number with a plus sign is read as 0 and added: 3*+5 gives 5 |
| ExprRegroup.RegroupSame | src/expr/expr.c:35-100 | The regrouped expression has the same text, no plus signs of numbers, and a missing factor only in front of a plus |
| ExprRegroup.FineSame | src/expr/expr.c:35-100 | Regrouping changes no value when the plus signs stand well |
| ExprCode.CodePlus | src/expr/expr.c:56-83 | At a misplaced plus sign the term so far is multiplied by 0, or divided by 0, and the number is all that is left of it |
| ExprCode.CodeAdd | src/expr/expr.c:85-100 | The sign in front of a term is lost when a plus sign breaks the term |
| ExprPlain.PlainRead | src/expr/expr.c:17-100 | Expressions without such plus signs are read as they are meant |
| ExprPlain.TermRead | src/expr/expr.c:56-83 | A term is read from the left up to what follows it |
| ExprPlain.FactorRead | src/expr/expr.c:35-54 | Numbers, brackets and minus signs |
| ExprPlain.NumberRead | src/expr/expr.c:24-33 | The digits of a number give the number in base ten, or overflow |
| ExprText.TruncatedDivision | src/expr/expr.c:69-78 | Division truncates towards zero and the remainder has the sign of the dividend, as in C |
| Expr.Parser.Number | src/expr/expr.c:24-33 | expr_number over the cursor |
| Expr.Parser.Factor | src/expr/expr.c:35-54 | expr_factor over the cursor |
| Expr.Parser.Term | src/expr/expr.c:56-83 | expr_term, with the error for a zero divisor |
| Expr.Parser.Expression | src/expr/expr.c:85-100 | expr_expression |
| Expr.Parse | src/expr/expr.c:17-22 | expr_parse on the text of any expression of the grammar; its errors are -1 and -2, for a `/` and a `%` in the text |

## Left out

- Allocation failure, signals, logging: every allocation succeeds, and reallocation keeps what fits.
- imap: `size` is unbounded here; the source counts in 32 bits per node and `len` in size_t, which matters only beyond 2^32 ids.
- imap: imap_walk, imap_walkn, imap_free and imap_vec_pop; they visit in the order that `Imap.Flat` gives.
- imap: the value -1 of failed allocations; `Imap.Map.Combine` asks that equal ids hold equal objects in both maps, as its callers do.
- ImapSetOps.DifferenceNode: the redundant second release of an emptied node table is one assignment here.
- ctree: CT_pop clears the slot of its parent itself; here it reports that it is gone, and the parent clears the slot and cleans up.
- ctree: the root's table is modelled as a node without key and value, as the cast in the source treats it; ct_values, ct_valuesn and ct_free are not modelled.
- Ctree.Ctree.Get: takes a string as its bytes without the terminator, which the cursor meets at the end.
- fifo: files are sequences of bytes with zero-filled gaps; stdio buffering, torn writes and fsync order are not modelled, nor are failing reads and writes.
- Fifo.Fifo.Append: asks for packages whose size fits in the 32-bit size word and for fewer than 10^9 files, the room in a nine-digit file name; the linked list of files is a sequence; what a fifo whose files came off the chain does next is modelled up to its next package and its restart.
- lookup: pool ids are returned modulo 2^16 as in the source; a char is taken to be signed.
- qpack: the bytes of an unpacker do not lie in the last eight bytes of the address space, and what is read through a cursor that has left them is not modelled; writing to files (qp_fadd_*), printing and format strings are not modelled.
- Qpack.Unpacker.SkipNext: asks that no length it reaches wraps, without which it need not end; `QpackRun.SkipExact` shows that the condition is exact.
- Qpack.Packer.ExtendFu: asks for the same, for the value that it skips.
- qpack: doubles are kept as their eight bytes, which is all that packing looks at.
- aggregate: the aggregation of one group is any function that may fail; the particular functions, filters and double-valued results are not modelled, nor is shrinking the allocation.
- Aggregate.RunsAreWindows: asks that the last window fits in 64 bits, which is always so without an offset (`Aggregate.GroupByNoWrap`) and for limit (`Aggregate.LimitNoWrap`); `Aggregate.GroupTsExact` shows that a window that does not fit ends before its point.
- Aggregate.LimitKept: asks for time stamps below 2^63, as the database keeps them; from 0 on the bound is one more, and `Aggregate.LimitFromZero` shows why.
- cexpr: the parse tree is given by its leaves; reading numbers, strings and keywords from them is not modelled, and neither are the comparison functions.
- HTTP: request line, headers, trailers, keep-alive, upgrade and bodies until end of file; the model starts when the headers are complete and stops where the body ends.
- HTTP: pausing and failing callbacks; those of the API return 0.
- buffer: slots are read one by one, where the source reads many at once; points in memory are kept in the order of arrival, where the source keeps them sorted by time; the save of the database file is not modelled.
- BufferLoad.Load: asks that the file consists of slots that this code or its older format has written, with one slot for each series.
- ExprRegroup.ReadsRegrouped: the expressions are those of the grammar, where a sign stands directly before the digits of a number; the text that the query puts together for time expressions is not modelled.
- expr: behind a division by zero the evaluator goes on with the code of the error, which may overflow, so that the outcome there is an error or undefined; it is never a success.
- base64, omap, llist, xstr, iso8601, optimize, and everything around sockets and threads: easy, bound to libraries, or plumbing.

# A verified model of mncommon's data structures and parsers

mncommon is a C library of in-memory data structures, parsers and codecs.  This project models its most intricate
parts in Dafny, in the imperative form of the source (classes over heap nodes, loops over buffers, in-place arrays),
and proves that each refines a one-line mathematical specification.

| module | source | specification |
|---|---|---|
| `Btrie` (words: `Bits`) | `src/btrie.c` | an ordered set of keys with predecessor and successor queries |
| `Rbt`, `RbtShape` | `src/rbt.c` | a strictly ordered search tree, kept in step with a doubly linked in-order thread |
| `Pbtrie`, `PbtrieShape`, `Masks` | `src/pbtrie.c` | an ordered set with a walk from leaf to leaf |
| `JsonMachine`, `Json`, `JsonNesting`, `JsonTree`, `JsonAccept` | `src/json.c` | a pushdown machine; well-nested events; the accepted texts are exactly the written documents, and the events are those of the document |
| `Jparse`, `JparseGrammar`, `JparseSkip`, `Bytes` | `src/jparse.c`, `src/bytes.c` | exactly which values are skipped and how far, those of RFC 7159 among them; the escapes of its section 7 and their inverse |
| `Hash`, `HashShape` | `src/hash.c` | a lookup finds the newest of the items with an equal key; a rehash makes it the oldest |
| `Heap` | `src/heap.c` | a multiset whose least element comes out first |
| `Pset` | `src/cm.c` | the greatest `thresh` items of a stream |
| `Lines` | `src/bytestream_aux.c`, `src/bytestream.c` | the lines of a text, whatever the chunking |
| `Mpool` | `src/mpool.c` | disjoint blocks that depend on the requests alone |
| `Base64` | `src/base64.c` | the encoding of section 4 of RFC 4648, digit by digit, and its inverse, in place as well |

How the pointer structures are specified: every class has a ghost map from its nodes (or node positions) to plain values,
its invariant says that the fields are those values, and the shape modules prove on the values what each relinking keeps.
The methods then do the source's assignments one by one.  Callbacks append to a record of calls and return 0, comparators
are total preorders, hash functions are arbitrary functions that respect the comparator, and a read delivers any
non-empty part of what is left.

Where the code does not do what its interface suggests, the model follows the code:

- `btrie_find_closest` (`src/btrie.c:534-552`, `src/btrie.c:607-619`) descends to the leaf of the very key it was asked
  for without looking at the value of that leaf.  If the leaf was added and never given a value, it is returned although
  its key is not stored.  `Btrie.Trie.FindClosest` proves that this is the only exception: the answer is the closest
  stored key if and only if the leaf is not such a leaf, and `Btrie.StaleExample` is a case.
- `pbtrie_find_exact` (`src/pbtrie.c:316-320`) returns a node for absent keys too, which the caller has to compare.
  `Pbtrie.Trie.FindExact` says which node that is.
- `jparse_expect_float` (`src/jparse.c:599-605`) reports success where no number begins.  This is how
  `jparse_expect_ignore` gets through an empty array, and also through anything else that no other alternative takes.
  `JparseSkip.LooseValue` says what the values are that it skips, and `Jparse.Parser.IgnoreValue` proves that it skips
  exactly those.
- `json_parse` (`src/json.c:960-1015`) skips everything before the first brace or bracket and after the value, and
  reports a top-level array to the item callback.  A trailing comma in an array is accepted.  A NUL inside a container
  ends that container without a stop event (`src/json.c:530-532`), and then the nesting of the events can break:
  `JsonNesting.NulBreaksNesting` is a case, and `JsonNesting.NestsExactly` says for every input when it happens.  The
  theorem about consistent contexts holds for all input.
- `hash_rehash` (`src/hash.c:31-79`) collects the items chain by chain and puts each in front of its new chain, so items
  with equal keys come out in the opposite order.  A lookup found the newest of them before and finds the oldest after:
  `Hash.Dict.GetRehashGet` proves that a rehash keeps what a lookup finds if and only if no two items match the key, and
  `Hash.Dict.SetTwiceThenRehash` is the failing case.

## Model

| member | source | states |
|---|---|---|
| `Bits.FlslUnique` | src/btrie.c:336-341 | the bit length of a key is the only shift that leaves exactly its leading one, so a key has one root |
| `Bits.ShrLess` | src/btrie.c:343-351 | keys whose prefixes differ are ordered as their prefixes, at any level |
| `Btrie.ChildrenOrdered` | src/btrie.c:344-351 | every key below child 0 of a node is less than every key below child 1 |
| `Btrie.PrefixOrder` | src/btrie.c:502-515 | a key outside a subtree is on the same side of all keys in it, which justifies each turn of the climb |
| `Btrie.Trie.constructor` | src/btrie.c:130-142 | an empty set, and exactly the 64 roots |
| `Btrie.Trie.AddNode` | src/btrie.c:331-373 | the nodes afterwards are the old ones and the path of the key, new nodes are fresh and empty, the key set is unchanged, volume stays the number of non-roots; null for key 0 |
| `Btrie.Trie.FindExact` | src/btrie.c:383-406 | returns the node at the leaf position of the key, null if there is none, so its value is non-null if and only if the key is stored |
| `Btrie.Trie.FindValueReverse` | src/btrie.c:413-444 | the greatest stored key below a node, null when there is none, orphans notwithstanding |
| `Btrie.Trie.FindValueTraverse` | src/btrie.c:447-478 | the least stored key below a node, null when there is none |
| `Btrie.Trie.LeanLeftClimb` | src/btrie.c:497-515 | when a subtree has no candidate, climbing from side 0 adds none and climbing from side 1 leaves only the sibling subtree |
| `Btrie.Trie.FindValueLeanLeft` | src/btrie.c:481-519 | from where the path of a key breaks off, the greatest stored key at most the key, or proof that none shares its root |
| `Btrie.Trie.LeanRightClimb` | src/btrie.c:571-589 | the mirror image of the climb to the left |
| `Btrie.Trie.FindValueLeanRight` | src/btrie.c:555-593 | from where the path of a key breaks off, the least stored key at least the key, or proof that none shares its root |
| `Btrie.Trie.FindClosestPartialBack` | src/btrie.c:522-552 | the predecessor among keys of the same bit length or below, except for a leaf left without a value |
| `Btrie.Trie.FindClosestPartialForw` | src/btrie.c:596-623 | the successor likewise |
| `Btrie.Trie.FindClosest` | src/btrie.c:626-672 | returns the greatest stored key at most (direction 0) or the least stored key at least (any other direction) the key, null if none, if and only if the leaf of the key was not left without a value; in a trie without such leaves always |
| `Btrie.StaleExample` | src/btrie.c:534-552 | a trie in which the query returns a node without a value: the exception is real |
| `Btrie.Trie.NodeFini` | src/btrie.c:144-166 | frees a whole subtree and takes its number of proper descendants from the volume |
| `Btrie.Trie.CleanupOrphans` | src/btrie.c:675-709 | frees exactly the ancestors that have nothing below them but the way from the start, and no stored key |
| `Btrie.Trie.RemoveNodeNoCleanup` | src/btrie.c:719-751 | the subtree of the node disappears and nothing else; the key set loses exactly the keys in it |
| `Btrie.Trie.RemoveNode` | src/btrie.c:719-767 | the subtree and the ancestors left childless disappear and nothing else; the key set loses exactly the keys in the subtree |
| `Btrie.Trie.NodeCleanup` | src/btrie.c:210-249 | below a node exactly the positions that lead to a stored key survive |
| `Btrie.Trie.Cleanup` | src/btrie.c:259-271 | no orphan is left anywhere, the key set is unchanged, surviving nodes are the same objects |
| `Btrie.ClosureRemove` | src/btrie.c:675-767 | eager removal takes the clean shape of a key set to the clean shape of the set without the key |
| `Btrie.Trie.SetValue` | src/btrie.c:365-373 | giving a leaf a value or taking it adds or removes just that key |
| `Btrie.Trie.Put` | src/btrie.c:331-373 | the key joins the set and its leaf carries the given value; every earlier node and every other value stays; a clean trie stays clean |
| `Btrie.Trie.Delete` | src/btrie.c:719-767 | find, clear and remove takes just that key out of any trie, other values stay; with eager cleanup a clean trie stays clean |
| `Btrie.Trie.DeleteLazily` | src/btrie.c:259-271 | removal without cleanup followed by one cleanup takes just that key out of any trie, keeps the other values and leaves a clean trie |
| `Btrie.ShapeDetermined` | src/btrie.c:259-271 | the nodes of a clean trie are exactly the roots and the paths of its keys, and volume counts its non-roots |
| `Btrie.SameShape` | src/btrie.c:675-767 | two clean tries with the same keys have the same shape and volume, whatever mixture of removals led to them |
| `Rbt.Tree.constructor` | src/rbt.c:26-35 | an empty tree that satisfies the whole invariant |
| `RbtShape.FindsAll` | src/rbt.c:121-139 | in any search tree the descent for the key of a node ends at that node |
| `RbtShape.UniqueKeys` | src/rbt.c:141-197 | no two nodes of a tree have the same key |
| `Rbt.Tree.FindKey` | src/rbt.c:121-139 | finds the node of the key if and only if the tree has one |
| `RbtShape.InsertOk` | src/rbt.c:160-193 | hanging a leaf at a free slot whose bounds admit it keeps the search tree |
| `RbtShape.ThreadBeforeOk` | src/rbt.c:163-170 | the four assignments on the low side put the node between its predecessor and its successor in the thread |
| `RbtShape.ThreadAfterOk` | src/rbt.c:184-191 | the same on the high side |
| `Rbt.Tree.InsertLeft` | src/rbt.c:153-173 | the node hangs on the left of its parent and is in tree and thread, which agree on their nodes |
| `Rbt.Tree.InsertRight` | src/rbt.c:174-194 | the node hangs on the right of its parent and is in tree and thread |
| `Rbt.Tree.InsertFirst` | src/rbt.c:145-151 | the first node is root, head and tail |
| `Rbt.Tree.InsertFrom` | src/rbt.c:141-197 | a taken key changes nothing and names the node that has it; otherwise the node joins tree, thread and count, and the result tells whether it became the root, a right child (exactly when the node of the next smaller key has room on its right) or a left child |
| `RbtShape.RotateLeftOk` | src/rbt.c:199-225 | a left rotation of a search tree is a search tree with the same nodes |
| `RbtShape.RotateRightOk` | src/rbt.c:227-253 | a right rotation of a search tree is a search tree with the same nodes |
| `Rbt.Tree.RotateLeft` | src/rbt.c:199-225 | the pointer assignments give exactly the links of the rotation: the inner child changes sides, the parent takes the risen node |
| `Rbt.Tree.RotateRight` | src/rbt.c:227-253 | the mirror image |
| `Rbt.Tree.AdjustOnInsert` | src/rbt.c:256-352 | terminates on any search tree, balanced or not, and leaves a search tree over the same nodes |
| `Rbt.Tree.AdjustThreaded` | src/rbt.c:256-352 | the fix-up changes neither the in-order walk nor the thread |
| `Rbt.Tree.InsertAdjust` | src/rbt.c:354-368 | insertion with its fix-up adds the node to tree, thread and count together, or changes nothing |
| `Rbt.Tree.Insert` | src/rbt.c:354-368 | returns 0 if and only if the key is taken, and then nothing has changed, -2 if and only if the tree was empty, and of the rest 1 if and only if the next smaller key was that of a node without right child; the whole invariant holds with the node added |
| `RbtShape.OneOpen` | src/rbt.c:153-194 | of the two in-order neighbours of a free key exactly one side is open: if the lower has no right child, the upper has a left one |
| `Rbt.Tree.RemoveCase2` | src/rbt.c:383-415 | either nothing was rotated or the parent is red afterwards, so Case 3 cannot follow a rotation |
| `Rbt.Tree.RemoveCase5` | src/rbt.c:454-496 | turning the inner red child outwards keeps the tree and leaves a sibling for Case 6 |
| `Rbt.Tree.RemoveCase6` | src/rbt.c:498-516 | the last rotation keeps the tree |
| `Rbt.Tree.AdjustOnRemove` | src/rbt.c:370-517 | terminates on any search tree, since only unrotated parents are passed on to, and leaves a search tree over the same nodes |
| `RbtShape.SpliceOk` | src/rbt.c:603-617 | putting the only child of a node in its place gives a search tree |
| `RbtShape.ReplaceOk` | src/rbt.c:645-669 | putting the in-order neighbour of a node in its place gives a search tree |
| `RbtShape.ThreadRemoveOk` | src/rbt.c:519-548 | taking a node out of the thread leaves every other node with its neighbours in key order |
| `Rbt.Tree.RemoveList` | src/rbt.c:519-548 | the doubled assignments take just that node out of the thread, head and tail included |
| `Rbt.Tree.RightmostOfLeft` | src/rbt.c:570-578 | the descent finds the in-order predecessor, which has no right child |
| `Rbt.Tree.LeftmostOfRight` | src/rbt.c:581-589 | the descent finds the in-order successor, which has no left child |
| `Rbt.Tree.Unhook` | src/rbt.c:603-617 | the replacement leaves the tree and nothing else does |
| `Rbt.Tree.Rebalance` | src/rbt.c:623-635 | the fix-up in the middle of a removal does not change the in-order walk |
| `Rbt.Tree.Replace` | src/rbt.c:645-669 | the replacement takes the place of the removed node in a search tree |
| `Rbt.Tree.DropLeaf` | src/rbt.c:645-654 | a leaf is cut off |
| `Rbt.Tree.Detach` | src/rbt.c:570-671 | a node with any number of children leaves both the tree and the thread |
| `Rbt.Tree.RemoveNode` | src/rbt.c:550-678 | the node leaves the structure with all its links reset, nothing else leaves, and the whole invariant holds |
| `Rbt.Tree.RemoveKey` | src/rbt.c:680-693 | returns 1 if no node has the key, and then no field has changed; otherwise removes the one that has it |
| `Rbt.Tree.Fini` | src/rbt.c:37-48 | removes every node |
| `RbtShape.InOrderAll` | src/rbt.c:121-139 | the in-order walk lists every node once, in strictly ascending order |
| `RbtShape.SameWalk` | src/rbt.c:199-253 | search trees over the same nodes have the same in-order walk, whatever their shapes |
| `Rbt.Tree.ThreadWalksTree` | src/rbt.c:141-197 | in every reachable state `next` from head is the in-order walk, `prev` its reverse, and `nelem` its length |
| `Masks.LevelShr` | src/pbtrie.c:188-200 | two words agree above the level of their exclusive or and nowhere below it |
| `Masks.XMask` | src/pbtrie.c:188-200 | the mask computed by shifting is the word with ones above that level, 64-bit overflow and the full-length case included |
| `Masks.ChildSelBit` | src/pbtrie.c:203-211 | the signed-shift comparison tells the first bit below the mask |
| `Masks.MaskOrder` | src/pbtrie.c:234-243 | comparing masks as words compares lengths of common prefixes |
| `Pbtrie.SideBits` | src/pbtrie.c:273-284 | the prefix of a split node is the common prefix, and `childsel` is the bit on which the two sides differ |
| `PbtrieShape.Node.constructor` | src/pbtrie.c:58-68 | a new node has a full mask, an empty prefix and no links |
| `PbtrieShape.FindsLeaf` | src/pbtrie.c:316-320 | the descent along the bits of the key of a leaf ends at that leaf |
| `PbtrieShape.UniqueLeaf` | src/pbtrie.c:290-313 | no two leaves have the same key |
| `PbtrieShape.SidesOrdered` | src/pbtrie.c:203-211 | keys under the first child are less than keys under the second |
| `PbtrieShape.TurnNext` | src/pbtrie.c:110-118 | where the climb turns into the other child, the least leaf there is the next one |
| `PbtrieShape.TurnPrev` | src/pbtrie.c:133-141 | the mirror image |
| `PbtrieShape.AddedKeys` | src/pbtrie.c:290-313 | splitting and adding a leaf adds just its key |
| `PbtrieShape.AddedOk` | src/pbtrie.c:253-313 | after splitting and adding, every interior node again has two children parting at the first bit below its prefix |
| `PbtrieShape.PartingIsNew` | src/pbtrie.c:261-262 | a key that leaves the trie above a node is in no leaf, so the assertion of the split holds |
| `Pbtrie.Toward` | src/pbtrie.c:227-239 | on the side of its bit the key shares a longer prefix than the node has, and is under the child or leaves the trie there |
| `Pbtrie.Trie.constructor` | src/pbtrie.c:347-362 | the least and the greatest word are stored as the two ends |
| `Pbtrie.Trie.SharedMask` | src/pbtrie.c:220-232 | the mask of what a child and the key share, within the child's own |
| `Pbtrie.Trie.Compare` | src/pbtrie.c:234-247 | one of the two masks is always the greater, and it tells the bit of the key: the assertion for equal masks cannot fail at an interior node |
| `Pbtrie.Trie.Descend` | src/pbtrie.c:217-248 | one turn goes strictly down to the child on the way of the key and stops just when the key leaves the trie above it |
| `Pbtrie.Trie.FindAt` | src/pbtrie.c:214-250 | ends at the leaf of the key or at the node above which the key leaves the trie |
| `Pbtrie.Trie.FindExact` | src/pbtrie.c:316-320 | the leaf of the key if and only if the key is stored; otherwise the node to be split for it |
| `Pbtrie.Trie.Split` | src/pbtrie.c:253-287 | a node with the common prefix comes in above the split one, which hangs on the side of its next bit |
| `Pbtrie.Trie.AddLeaf` | src/pbtrie.c:301-312 | the leaf goes to the free side |
| `Pbtrie.Trie.AddNode` | src/pbtrie.c:290-313 | for a key not yet stored no assertion fails, the key is stored with the returned leaf, every earlier node stays and stands for the same prefix, and the invariant of the trie holds |
| `Pbtrie.Trie.StillFound` | src/pbtrie.c:316-320 | a leaf handed out for a key is the one that a later lookup of the key finds, whatever was added in between |
| `Pbtrie.Trie.NodeMin` | src/pbtrie.c:82-89 | the leaf with the least key under a node |
| `Pbtrie.Trie.NodeMax` | src/pbtrie.c:92-99 | the leaf with the greatest key under a node |
| `Pbtrie.Trie.NodeNext` | src/pbtrie.c:102-122 | from a leaf the leaf with the next greater key, or the root from the last |
| `Pbtrie.Trie.NodePrev` | src/pbtrie.c:125-145 | from a leaf the leaf with the next smaller key, or the root from the first |
| `Pbtrie.Trie.Traverse` | src/pbtrie.c:148-165 | visits exactly the leaves, in strictly ascending order of their keys, after any insertions |
| `Pbtrie.Trie.Reverse` | src/pbtrie.c:168-185 | visits exactly the leaves, in strictly descending order |
| `Json.Context.constructor` | src/json.c:23-55 | a fresh context that has made no calls |
| `Json.Context.Reset` | src/json.c:57-70 | the context is fresh again |
| `JsonMachine.Classes` | src/json.c:20-22 | the characters that count as whitespace, digits, letters, and parts of numbers and bare tokens, listed |
| `Json.Context.ParseString` | src/json.c:375-420 | stops at the first quote that no backslash escapes, as the machine does, or asks for more |
| `Json.Context.ParseNumber` | src/json.c:423-475 | stops on the last character of the longest run of number characters; float if and only if one behind the first is not a digit |
| `Json.Context.ParseToken` | src/json.c:477-516 | stops on the last character of the longest run of token characters |
| `Json.Context.ObjectStep` | src/json.c:523-763 | one turn of the object loop is a stretch of the run of the machine, nested values included; what that machine accepts is in `JsonAccept.AcceptedExactly` |
| `Json.Context.ArrayStep` | src/json.c:773-947 | one turn of the array loop is a stretch of the run of the machine; what that machine accepts is in `JsonAccept.AcceptedExactly` |
| `Json.Context.ParseObject` | src/json.c:518-766 | the recursive parser and the machine with an explicit stack are in step, or both fail after the same calls |
| `Json.Context.ParseArray` | src/json.c:768-950 | the same for arrays |
| `Json.Context.Parse` | src/json.c:952-1016 | on every input the calls made are exactly the events of the machine, and 0 is returned if and only if it runs to the end outside of any token |
| `Json.Context.ParseChecked` | src/json.c:272-294 | a parse that returns 0 in a consistent context has made the calls of exactly one complete value; on NUL-free input the calls always nest; on which texts it does so is in `JsonAccept.ReadDocument` |
| `JsonNesting.RunBalanced` | src/json.c:518-1016 | every step of every run keeps `nest` at the number of starts without stop and the stack equal to them, unless a NUL dropped a container |
| `JsonNesting.EventsNest` | src/json.c:518-1016 | on any NUL-free input the events are a prefix of a well-nested sequence, every stop matching the last open start in kind and depth |
| `JsonNesting.NestsExactly` | src/json.c:518-1016 | on any input at all the events nest if and only if every closing bracket closes a container of the kind that was opened last and not yet closed |
| `JsonNesting.NulBreaksNesting` | src/json.c:530-532 | an object with a NUL inside an inner array: its stop event comes while the array is open, so the events do not nest |
| `JsonNesting.RunKeeps` | src/json.c:518-1016 | what every step of the parser keeps holds at the end of every run, failed ones included |
| `JsonNesting.ConsistentIsOneValue` | src/json.c:272-294 | on any input at all, 0 and a consistent context mean exactly one complete well-nested value |
| `JsonTree.StringRun` | src/json.c:375-420 | any text without a bare quote is scanned to its closing quote, escapes included |
| `JsonTree.ValueRun` | src/json.c:518-950 | a value of any depth, followed by a delimiter, is consumed exactly and reported as its events |
| `JsonTree.ObjectRun` | src/json.c:518-766 | an object with any layout is consumed exactly and reported in order |
| `JsonTree.ArrayRun` | src/json.c:768-950 | an array with any layout is consumed exactly and reported in order |
| `JsonTree.RoundTrip` | src/json.c:952-1016 | every object or array tree, written with any spaces, tabs and newlines between its tokens and with or without a comma behind the last item of an array, is parsed to exactly its events with `nest` equal to depth, ending consistent; `true` and `false` are reported as booleans, `null` and other words as null, numbers as integers when they have only digits behind the first character |
| `JsonTree.ParseDocument` | src/json.c:952-1016 | the same for the parser object itself |
| `JsonTree.RfcNumberScans` | src/json.c:423-475 | every number of section 6 of RFC 7159 without a plus sign is scanned as a number, as an integer if and only if it has neither fraction nor exponent |
| `JsonAccept.StringBack` | src/json.c:375-420 | what a run that closes everything has scanned as a string is the inside of a string token with its closing quote |
| `JsonAccept.OutBack` | src/json.c:708-728 | behind a value such a run finds only whitespace, a comma or the closing bracket of its own container |
| `JsonAccept.ValueBack` | src/json.c:518-950 | where such a run begins a value there stands the text of a well-formed tree with a delimiter behind it, and its events are what the run reports |
| `JsonAccept.ObjectBack` | src/json.c:518-766 | from an opening brace on such a run has read exactly the text of an object: keys, colons, values and commas in their places |
| `JsonAccept.ArrayBack` | src/json.c:768-950 | from an opening bracket on it has read exactly the text of an array, with at most one comma behind the last item |
| `JsonAccept.AcceptedIsWritten` | src/json.c:952-1016 | every accepted text without NUL is a lead without brackets, the text of a well-formed object or array, and a trail, and the events are those of that tree |
| `JsonAccept.AcceptedExactly` | src/json.c:952-1016 | the parser returns 0 in a consistent context on a NUL-free text if and only if the text is a document with such a lead and trail |
| `JsonAccept.ReadDocument` | src/json.c:952-1016 | the same for the parser object itself, with the calls it has made |
| `JparseGrammar.Classes` | src/jparse.c:15-17 | the characters that count as whitespace, digits and letters, listed |
| `Jparse.Parser.ConsumeData` | src/bytestream.c:211-235 | more data, however little, if and only if there is some |
| `Jparse.Parser.ReachNonblank` | src/jparse.c:27-49 | goes to the first character that is not whitespace, across any chunking |
| `Jparse.Parser.Reach` | src/jparse.c:99-133 | takes the delimiter behind whitespace, or restores the position when another character comes first |
| `Jparse.Parser.Probe` | src/jparse.c:136-166 | the same without taking the delimiter |
| `Jparse.Parser.ExpectTok` | src/jparse.c:430-469 | the longest run of letters behind whitespace, or failure at the end of the data |
| `Jparse.Parser.ExpectMaybeNull` | src/jparse.c:472-490 | succeeds if and only if that run is `null`, otherwise restores the position |
| `Jparse.Parser.ExpectBool` | src/jparse.c:758-786 | succeeds with the value if and only if that run is `true` or `false`, otherwise restores the position |
| `Jparse.Parser.ExpectFloat` | src/jparse.c:569-674 | stops exactly behind the longest text of a digit or sign with digits, a dot with digits and an exponent of digits and signs, and succeeds if and only if something follows that text |
| `JparseGrammar.LooseUnique` | src/jparse.c:599-650 | that text is determined by the input, so the contract fixes the position |
| `JparseGrammar.NumberIsLoose` | src/jparse.c:599-650 | for a number of section 6 of RFC 7159 in front of a delimiter it is exactly the number |
| `Jparse.Parser.ExpectStr` | src/jparse.c:677-755 | succeeds if and only if a quote opens and a quote without backslash follows; then the value is the unescaped text between them and the position is behind the second; without the first the position is restored |
| `Jparse.Parser.Alternatives` | src/jparse.c:326-360 | the alternative that the first character selects takes what is to be skipped, or fails |
| `Jparse.Parser.ExpectIgnore` | src/jparse.c:303-364 | succeeds just where a value ends in the sense of `JparseSkip.Skips`, with the position at that end; on failure the position is back where the value should have begun |
| `Jparse.Parser.IgnoreValue` | src/jparse.c:303-364 | on any input at all: success if and only if a loose value begins behind the whitespace, the position is then at the end of every such value, and every well-formed value of RFC 7159 with a delimiter behind it, at any depth and with any whitespace, is one |
| `JparseSkip.SkippedExactly` | src/jparse.c:303-364 | what is skipped from a position is exactly a loose value, and any two of those there end at the same place |
| `JparseSkip.LooseEnds` | src/jparse.c:303-364 | every loose value, marked out token by token, is skipped to its end |
| `JparseSkip.EndIsLoose` | src/jparse.c:303-364 | whatever is skipped can be marked out as a loose value |
| `JparseSkip.WellFormedIsLoose` | src/jparse.c:303-364 | every well-formed value with a delimiter behind it is a loose one |
| `JparseSkip.NumberEndIsLoose` | src/jparse.c:599-650 | where the scan of a number ends lies the end of the longest loose number |
| `Jparse.Parser.ExpectObjectIter` | src/jparse.c:1553-1592 | succeeds just when an opening brace, members and a closing brace follow, with the position behind it |
| `Jparse.Parser.EachMember` | src/jparse.c:1572-1575 | the callback is repeated to the last member: the object ends here if the callback has found the end, or has not moved at all, and the closing brace follows |
| `Jparse.Parser.ExpectKey` | src/jparse.c:843-860 | on any input at all succeeds if and only if the next characters that are not whitespace are a string token and a colon, with the position behind the colon; on failure the position tells how far it got |
| `Jparse.Parser.ExpectAnyKvpIgnore` | src/jparse.c:843-870 | takes one member with its comma, or the last one and reports the end, or fails, without moving just when no key begins |
| `Jparse.Parser.Finish` | src/jparse.c:1575-1591 | after the iteration the closing character is taken, or the position restored |
| `Jparse.Parser.ExpectArrayIter` | src/jparse.c:1634-1674 | succeeds just when an opening bracket, items and a closing bracket follow, the empty array and stray commas included, with the position behind it |
| `Jparse.Parser.EachItem` | src/jparse.c:1654-1657 | the callback is repeated to the last item: the array ends here if the closing bracket follows |
| `Jparse.Parser.ExpectItemIgnore` | src/jparse.c:1677-1702 | takes one item with its comma, or the last one and reports the end, or fails and does not move |
| `Jparse.Parser.ExpectEscaped` | src/jparse.c:677-755 | an escaped text between quotes reads back as the text, and the position is just behind the closing quote |
| `JparseGrammar.FirstChar` | src/jparse.c:326-354 | the first character of a well-formed value decides its kind |
| `Bytes.Bytes.JsonEscape` | src/bytes.c:114-155 | a fresh terminated byte string that holds the escaped text |
| `Bytes.Bytes.JsonUnescape` | src/bytes.c:158-195 | in place, with the write index never past the read index, the text becomes the unescaped one |
| `Bytes.EscapeTable` | src/bytes.c:122-151 | the escapes of section 7 of RFC 7159, written out: quote, backslash, solidus, backspace, form feed, newline, carriage return and tab become their two characters, any other character stays |
| `Bytes.UnescapeTable` | src/bytes.c:166-191 | the same table read the other way; any other character behind a backslash stands for itself, and a backslash at the end for nothing |
| `Bytes.EscapeConcat` | src/bytes.c:122-151 | a text is escaped piece by piece, so the table determines every escape |
| `Bytes.UnescapeConcat` | src/bytes.c:166-191 | a text is unescaped piece by piece wherever no escape is cut in two, so the table determines every unescape |
| `Bytes.UnescapeOne` | src/bytes.c:126-185 | what is written for one character, with or without a backslash, resolves to that character and is not cut off |
| `Bytes.UnescapeEscape` | src/bytes.c:114-195 | unescaping inverts escaping on every text |
| `Bytes.BodyToQuote` | src/jparse.c:699-743 | the inside of a string token ends at a position if and only if that is where the first quote without backslash stands |
| `Bytes.EscapeIsBody` | src/bytes.c:122-151 | an escaped text has no bare quote, so it is the inside of a string token |
| `Bytes.UnescapePlain` | src/jparse.c:750-752 | a text without backslash is its own unescape, so leaving the call out changes nothing |
| `Hash.Dict.constructor` | src/hash.c:458-478 | an empty hash with intact slots |
| `HashShape.LinkedOk` | src/hash.c:108-120 | putting an item in front of a chain keeps every chain intact |
| `HashShape.UnlinkedOk` | src/hash.c:294-306 | taking an item out of its chain keeps every chain intact, at the head and elsewhere |
| `HashShape.Reached` | src/hash.c:232-235 | every item is reached from the head of its slot |
| `HashShape.ChainItems` | src/hash.c:396-403 | a chain ends, holds items of its own slot only, and none twice |
| `Hash.Dict.SetItem` | src/hash.c:98-128 | the new item heads the chain of its slot with the old chain behind it, and the other chains stay; a lookup of an equal key finds it and every other lookup what it found before; all links, bucket pointers and the count are right |
| `Hash.Dict.GetItem` | src/hash.c:212-240 | the first item of the chain with an equal key, and one is found if and only if there is one anywhere |
| `Hash.Dict.SetThenGet` | src/hash.c:98-240 | a lookup right after setting a key returns the item that was set, however often the key was set before |
| `HashShape.FirstMatchIs` | src/hash.c:232-235 | before the item that is found stands none with an equal key |
| `HashShape.LinkedChains` | src/hash.c:108-120 | the chains after putting an item in front of one |
| `HashShape.UnlinkedChains` | src/hash.c:294-306 | the chains after taking an item out of one, the others in their order |
| `Hash.Dict.DeletePair` | src/hash.c:294-337 | just that item is gone from its chain, the others stay in their order, and every lookup that found another item still finds it |
| `Hash.Dict.TraverseItem` | src/hash.c:385-406 | meets every item exactly once, slot by slot in the order of the chains |
| `Hash.Dict.Rehash` | src/hash.c:31-79 | the same items under the new size, with every chain rebuilt, and every lookup now finds the oldest of the items that match |
| `Hash.Dict.LastInOrder` | src/hash.c:31-79 | the last match among all items in the order of the traversal is the last match of one chain |
| `HashShape.OnlyMatch` | src/hash.c:232-235 | the first match of a chain is its last if and only if no other item of it matches |
| `Hash.Dict.GetRehashGet` | src/hash.c:31-79 | the same lookup before and after a rehash finds the newest and the oldest match, which are the same item if and only if no two items match |
| `Hash.Dict.SetTwiceThenRehash` | src/hash.c:31-79 | a key set twice and looked up on both sides of a rehash: first the second value, then the first |
| `Heap.SwapDown` | src/heap.c:52-55 | swapping a node with its least child moves the only exception to the order down to that child |
| `Heap.LeastAbove` | src/heap.c:88-118 | in a heap every element below a node is at least as great, at any depth |
| `Heap.Heap.SiftDown` | src/heap.c:15-60 | repairs the order below a node and conserves the multiset |
| `Heap.Heap.Heapify` | src/heap.c:77-85 | makes a heap of any array and conserves the multiset |
| `Heap.Heap.GetAt` | src/heap.c:88-118 | what it skips cannot equal the probe: none found means no equal element anywhere below the node |
| `Heap.Heap.Get` | src/heap.c:121-148 | the pruned search succeeds if and only if some element compares equal to the probe |
| `Heap.Heap.Push` | src/heap.c:164-177 | a heap with one element more |
| `Heap.Heap.Pop` | src/heap.c:180-205 | takes out a minimum, leaves a heap of the rest, and fails if and only if empty |
| `Heap.Heap.PushPop` | src/heap.c:208-239 | takes out a minimum of the old contents and puts in the new element; on an empty heap a push |
| `Heap.Heap.Drain` | src/heap.c:180-205 | popping until empty gives a sorted permutation of the contents |
| `Pset.PrioritySet.constructor` | src/cm.c:165-177 | an empty set with its thresholds |
| `Pset.PrioritySet.Least` | src/cm.c:187-202 | the traversal finds a least item, and stopping at weight 1 does not change that |
| `Pset.PrioritySet.Pop` | src/cm.c:219-248 | gives up a least item; the fast threshold becomes its weight when the set is still full |
| `Pset.PrioritySet.Push` | src/cm.c:251-276 | an item at or below the fast threshold comes back at once and changes nothing, one already kept changes nothing, another joins if there is room, and otherwise a least of all comes back; what is kept and what is given up are what was kept and the new item, and the invariant about rejected items holds |
| `Pset.PrioritySet.KeepsGreatest` | src/cm.c:251-276 | after any pushes at most `thresh` items are kept, all above `minthresh`, no rejected one is above a kept one, and the set is full if anything above `minthresh` was rejected |
| `Pset.GreatestCount` | src/cm.c:251-276 | above every bound as many items are kept as were pushed, up to `thresh` |
| `Pset.SameWeights` | src/cm.c:187-202 | any two such selections from the same items have the same weights, so the shortcuts never change the outcome |
| `Lines.LinesAreTheText` | src/bytestream_aux.c:71-92 | the lines with their newlines and the unterminated rest are the text, byte for byte, and no line holds a newline |
| `Lines.LinesShift` | src/bytestream_aux.c:94-100 | dropping what comes before the current line does not change the lines |
| `Lines.Stream.constructor` | src/bytestream.c:32-52 | nothing read, the whole file ahead |
| `Lines.Stream.Grow` | src/bytestream.c:72-83 | a longer buffer with the same data |
| `Lines.Stream.ReadMore` | src/bytestream.c:102-122 | what is read moves from the file to the end of the data, and nothing is lost; 0 if and only if at the end |
| `Lines.Stream.ConsumeData` | src/bytestream.c:211-235 | always asks for at least one byte, so it fails if and only if at the end |
| `Lines.Stream.Recycle` | src/bytestream.c:340-362 | drops the whole pages before the given position if they are more than the given number of growth steps, else nothing, and position and data move together |
| `Lines.Stream.Scan` | src/bytestream_aux.c:71-92 | lines delivered and lines still to come stay the same in all |
| `Lines.Stream.RecycleLine` | src/bytestream_aux.c:94-100 | the current line survives the shift |
| `Lines.Stream.ConsumeLines` | src/bytestream_aux.c:48-106 | for any sizes of reads, growth step and page, the callback gets exactly the newline-terminated lines of the rest of the stream, in order |
| `Mpool.HandedApart` | src/mpool.c:56-106 | all blocks since a reset lie within their chunks and are pairwise disjoint, headers included |
| `Mpool.Apart` | src/mpool.c:56-106 | the next block is disjoint from every earlier one |
| `Mpool.Pool.constructor` | src/mpool.c:157-170 | one chunk and no blocks |
| `Mpool.Pool.Reset` | src/mpool.c:15-21 | no blocks, and every chunk kept at its place |
| `Mpool.Pool.NewChunk` | src/mpool.c:27-53 | the next chunk becomes current, allocated only if the arena has none there; the chunks before stay, and all are different |
| `Mpool.Pool.Malloc` | src/mpool.c:56-106 | the block is a function of the requests since the reset and stands right behind the last one if it fits there, else at the start of the next chunk; its header holds its size, and no byte outside of it changes, in particular none of another block |
| `Mpool.PlacePacks` | src/mpool.c:83-98 | after any requests, a request that fits behind the last block, exactly filling the chunk included, is placed right behind it |
| `Mpool.Pool.Realloc` | src/mpool.c:110-136 | a block that is too small moves to where the request would be placed and is recorded as such, any other stays; its data is the same as far as both go, and every other block and every chunk stays as it is |
| `Mpool.Pool.Replay` | src/mpool.c:15-106 | after any run of allocations and reallocations, a reset and the same requests give the same blocks in the same chunks |
| `Mpool.Pool.WriteHeader` | src/mpool.c:92-93 | the size word stands in the eight bytes before the data, and no other byte changes |
| `Mpool.WordReadsBack` | src/mpool.c:108-122 | a size written as bytes reads back, up to the capacity of a word |
| `Mpool.OthersStay` | src/mpool.c:96-130 | writing to the data of one block changes neither header nor data of any other |
| `Mpool.Pool.Fini` | src/mpool.c:227-246 | every chunk ever allocated is freed exactly once |
| `Base64.SymbolCode` | src/base64.c:9-54 | the code table inverts the alphabet, and no symbol is a padding or refused character |
| `Base64.SymbolInAlphabet` | src/base64.c:10-18 | a symbol is the character of the alphabet of RFC 4648, written out, at the index without its two upper bits |
| `Base64.NoCode` | src/base64.c:21-54 | the code of every character outside of the alphabet is 0 |
| `Base64.EncodedDigits` | src/base64.c:93-202 | the characters of every group, all in the alphabet, are the digits in base 64 of the number that the three bytes are in base 256; at the end the missing bytes count as zero and the missing digits are padding |
| `Base64.DecodedNumber` | src/base64.c:234-251 | the three bytes of any four characters are in base 256 the number that their codes are in base 64 |
| `Base64.RefusedMeaning` | src/base64.c:230-232 | a group is refused if and only if a byte of it is above 127 or all four are below 32 |
| `Base64.Encode3` | src/base64.c:93-132 | writes the four characters of three bytes behind what is written |
| `Base64.Encode2` | src/base64.c:135-153 | the group for two bytes |
| `Base64.Encode1` | src/base64.c:156-173 | the group for one byte |
| `Base64.EncodedLength` | src/base64.c:176-202 | the length of an encoding is four times the number of groups begun |
| `Base64.EncodeMime` | src/base64.c:176-212 | writes exactly the encoding, or refuses and writes nothing when the destination is too small |
| `Base64.DecodeGroup` | src/base64.c:225-252 | decodes one group, reading each character before it is overwritten when source and destination are one |
| `Base64.DecodeMime` | src/base64.c:256-272 | result and bytes are those of decoding the text as it was, whether the destination is another array or the source itself |
| `Base64.DecodeEncoded` | src/base64.c:93-272 | decoding inverts encoding on every byte string |
| `Base64.EncodeForDecode` | src/base64.c:205-212 | what the encoder writes decodes to its input |
| `Base64.RoundTripInPlace` | src/base64.c:294-300 | encoding and then decoding in place leaves the original bytes where their encoding was |

## Left out

- Red-black balance, colours and height bounds: the code does not maintain them (`src/rbt.c:316-333`,
  `src/rbt.c:623-635`).  Colours are kept as fields because the branches read them, but contracts do not speak of them.
- Rbt.Tree.AdjustOnInsert: does not state the colours afterwards, for the same reason.
- Rbt.Tree.AdjustOnRemove: does not state the colours afterwards, for the same reason.
- Btrie.Trie.FindClosest: says what happens for a leaf without a value rather than that there is none, because the code
  lets callers make one.
- Btrie.Trie.NodeFini: stands for `btrie_fini`, which calls it for each root and only discards the trie; that the memory
  of each descendant is released is not recorded, only their number.
- `nvals` of both tries, which is never updated, keys of 0 in `src/btrie.c`, traversal and dump functions.
- `pbtrie_remove_node`, `pbtrie_fini` and `volume`: removal drops a child without collapsing its parent.
- Json.Context.Parse: does not say which non-zero code is returned, and is about a fresh context, not about resuming one.
- Json.Context.ParseNumber: the scanned text and its type, not the value that `strtol` or `strtod` makes of it.
- JsonTree.RoundTrip: carriage returns as whitespace and plus signs in exponents are not accepted by `src/json.c`.
- JsonAccept.AcceptedExactly: for texts without NUL; with one, containers may be left out of the stack, and
  `JsonNesting.NestsExactly` says what is reported then.
- Callbacks that return non-zero, the stack of user data, the flag for strings that need unescaping.
- Jparse.Parser.ExpectFloat: the scanned text, not the value of `strtod`.
- The other `jparse_expect_` functions, `errorpos`, the values stored through `jparse_value_t`, memory from the pool.
- `hash_set_item_uniq` and `hash_remove_item`: they do not maintain the back-pointers that `Hash.Dict` proves.
- Set algebra on hashes, iterators, finalizers, cleanup.
- Hash.Dict.SetItem: the bucket pointer is modelled as the index of the slot it points at.
- Pset.PrioritySet.Pop: not modelled on an empty set, where the source returns its local dummy item.
- Pset.PrioritySet.Push: for weights below `CMMAX` and one weight for each item.  At `CMMAX` the traversal of `pset_pop`
  prefers its dummy item, and an item pushed again with another weight is not looked at again.  Items are values told
  apart by what they are about, and the hash is a sequence in arbitrary order.
- The count-min sketch of `src/cm.c`, `heap_sort` and `heap_traverse`.
- Heap.Heap.Push: the growable array of `src/array.c` is a sequence.
- The writing side of `src/bytestream.c`, readers other than `read`, read errors.
- Lines.Stream.ConsumeLines: for callbacks that return 0.
- Mpool.Pool.Malloc: only requests that fit a chunk; sizes of larger chunks are not recorded by the source, so that a
  replay after a reset may find a chunk that is too small.
- `mpool_free`, which does nothing, and the dump and size functions.
- The URL alphabet of `src/base64.c`, whose code table does not match its alphabet, and URL coding in `src/bytes.c`.
- Bytes.Bytes.JsonEscape: bytes are modelled as characters.
- Failure of `malloc` and overflow of counters.

# rust-string-tree, modelled in Dafny

This project models the core of `rust-string-tree`. That crate is a byte-level trie (prefix tree) from string keys to values. It is stored as a flat arena of nodes addressed by integer index:

- Node 0 is the root. A child pointer of 0 also means "no child".
- Each node has a row of 256 child pointers, one per byte value.
- Each node has a fill count, a parent link `(parent index, edge byte)` and an optional value.

The model covers four parts:

- **The arena and key descent** (`TrieArena`, `arena.dfy`).
  - The tables are the pure value `Arena<T>`, with its invariant `Valid`:
    - the four tables are parallel;
    - every pointer is in range;
    - child pointers and parent links agree in both directions;
    - every fill count equals the number of occupied slots;
    - every parent has a smaller index than its child. Allocation only appends, so this holds.
  - `Descend` is `get_index_of_key` as a fold over the key. `Path` is `path()`.
  - Lemmas connect the two: a node's path descends to it, and a descent ends at the start's path followed by the key.
- **Insertion** (`Insertion`, `insertion.dfy`).
  - `InsertAt` is the insertion algorithm of `lib.rs`, generalised to start at any node, on the `string_tree.rs` layout. Each allocation also pushes a parent entry and bumps the branch node's fill count.
  - New nodes are chained one below the other, as the comment at `lib.rs:63` intends.
  - The loop as written is modelled too, as `InsertAsWritten`. See "Findings".
- **Removal** (`Removal`, `removal.dfy`). Only the value contract from the doc comment of `remove`.
- **UTF-8-aware child enumeration** (`Utf8Children`, `children.dfy`).
  - `Children` is the four nested loop groups of `children()`, with the lead ranges exactly as written.
  - It is proved equal to the nodes reached by every whole character, under the code's ranges, in enumeration order.

Three imperative layers sit on top of this and are proved against the pure functions:

- `StringTrees.StringTree` is a class whose four table fields its methods update in place. `InsertAt` holds the outer loop of `lib.rs:53-85`, and `AllocateChain` holds the inner loop.
- `Nodes.NodeRef` is the read cursor, a value. It has the `get_index_of_key` loop and the `path()` loop.
- `NodesMut.NodeMut` is the write cursor, a class that holds a `StringTree`.

Keys and paths are byte sequences, meaning the UTF-8 bytes of the Rust `&str`. A `String` error value is modelled as the byte sequence it holds.

Where the crate's comments and its code disagree, the model follows the code:

- Node reclamation is mentioned only in the comment on `node_fill_counts` (`string_tree.rs:10`) and by the unused `open_nodes` field (`string_tree.rs:13`). No code compacts the tables, and the `remove` body (`string_tree_node_mut.rs:97-108`) does not compile. Only the doc-comment contract of `remove` is modelled.
- The doc comments of both cursors' `try_get` (`string_tree_node.rs:20-21`, `string_tree_node_mut.rs:46-47`) say the error value is the path of the current node. The read cursor's code returns `path() ++ key` both on a miss and on an empty node (`string_tree_node.rs:24-25`). The write cursor's code returns `path() ++ key` on a miss and `path()` alone on an empty node (`string_tree_node_mut.rs:50, 59`). Both are modelled as the code is written.

## Model

| member | source | states |
|---|---|---|
| TrieArena.Descend | src/string_tree_node.rs:49-57 | A successful descent ends at an in-range node, and at a non-root node when the key is non-empty. Its relation to `path()` is in `DescendPath`, `PathDescend` and `DescendRootIff`. |
| TrieArena.GetAt | src/string_tree_node.rs:14-18 | `get` is absent when the key's node is missing, and is the value slot of the node the key descends to otherwise; `get("")` is this node's own slot. |
| TrieArena.Path | src/string_tree_node.rs:81-94 | The path of node `n` has at most `n` bytes (parents precede children), is empty at the root, and ends in the edge byte of `n`'s parent link. |
| TrieArena.NewArena | src/string_tree.rs:18-26 | The new tree is a valid arena of exactly one node: the root, with all 256 pointers 0, no value, fill count 0 and parent (0, 0). |
| TrieArena.FillCountBound | src/string_tree.rs:10 | In a valid arena a fill count never exceeds 256. |
| TrieArena.DescendSamePointers | src/string_tree_node.rs:49-57 | Descent reads only the pointer table: arenas with equal pointer tables descend alike. |
| TrieArena.DescendAppend | src/string_tree_node.rs:49-57 | Descending `k1 ++ k2` is descending `k1`, then `k2` from where it ended; a miss on `k1` is a miss. |
| TrieArena.DescendSnoc | src/string_tree_node.rs:51-54 | One more key byte is one more pointer hop, and a 0 pointer is a miss. |
| TrieArena.DescendPath | src/string_tree_node.rs:81-94 | A successful descent from `s` by `key` ends at a node whose path is `path(s) ++ key`. |
| TrieArena.PathDescend | src/string_tree_node.rs:81-94 | Descending a node's own path from the root reaches that node. |
| TrieArena.PathInjective | src/string_tree_node.rs:81-94 | Distinct nodes have distinct paths. |
| TrieArena.DescendRootIff | src/string_tree_node.rs:49-57 | From the root, `key` reaches node `n` if and only if `path(n) == key`. |
| TrieArena.DescendFromPath | src/string_tree_node.rs:49-57 | Descent below node `s` equals descent from the root along `path(s) ++ key`. |
| TrieArena.DescendInjective | src/string_tree_node.rs:49-57 | Two keys that descend from one node to the same node are equal: distinct keys reach distinct nodes. |
| TrieArena.PathExtend | src/lib.rs:67-71 | Appending entries to the parent table leaves every old node's path unchanged. |
| Insertion.Store | src/lib.rs:84 | Writing a value into a slot keeps the arena valid and changes only that node's value slot. |
| Insertion.Attach | src/lib.rs:67-71 | One allocation pushes one entry onto every table in lock-step. The new index is the old table length, and it goes into slot `pointers[at][b]`. The new row is empty, `at`'s fill count rises by one, and the new node's parent entry is `(at, b)`. |
| Insertion.AttachValid | src/lib.rs:67-71 | Allocating below an empty slot keeps the arena invariant. |
| Insertion.AttachExtends | src/lib.rs:67-71 | Allocation extends the arena. The new node's path is `path(at) ++ [b]`. |
| Insertion.Grow | src/lib.rs:66-79 | The inner loop keeps the arena valid and adds exactly one node per remaining byte. |
| Insertion.InsertAt | src/lib.rs:53-85 | Insertion keeps the arena valid and never removes nodes. |
| Insertion.MatchedIsLongestPrefix | src/lib.rs:58-62 | The outer loop's stopping point is the longest prefix of the key whose pointers exist. Descent of one more byte misses, and the whole key matches exactly when its descent succeeds. |
| Insertion.GrowReaches | src/lib.rs:66-79 | After allocating a suffix below `at`, descending the suffix from `at` succeeds and the arena is an extension of the old one. |
| Insertion.GrowStores | src/lib.rs:75-78 | After allocation, the value sits only on the node whose path is `path(at) ++ suffix`. Old nodes keep their values and other new nodes hold none. |
| Insertion.GrowFrame | src/lib.rs:66-74 | Among the old nodes, allocation changes only the first slot below `at`, which now points to the first new node, and `at`'s fill count, which rises by one. |
| Insertion.InsertReaches | src/lib.rs:53-85 | Insertion extends the arena and stores the value only at `path(start) ++ key`. Descending the key from `start` then succeeds. |
| Insertion.InsertFrame | src/lib.rs:58-73 | The node count grows by exactly `len(key) - Matched`. Among the old nodes, only the branch node changes: one slot now points to the first new node, and its fill count rises by one. |
| Insertion.InsertKeepsEdges | src/lib.rs:58-62 | Insertion never redirects an existing non-zero child pointer. |
| Insertion.InsertSemantics | src/lib.rs:53-85 | After insertion, root lookup of `path(start) ++ key` gives the new value. Root lookup of every other key gives what it gave before. |
| Insertion.InsertThenGet | src/lib.rs:53-85 | Last write wins: the inserted key now holds the inserted value. |
| Insertion.InsertKeepsOthers | src/lib.rs:53-85 | Inserting one key leaves the value of every other key below `start` unchanged. |
| Insertion.InsertExisting | src/string_tree_node_mut.rs:85-88 | When the key's node already exists, insertion is exactly a write of that node's value slot and allocates nothing. |
| Insertion.GrowAsWritten | src/lib.rs:66-74 | The inner loop as written adds one node per remaining byte, each with an empty row and a parent link to the branch node `at`. Every suffix byte's slot of `at` points to a new node; no other old row and no other slot of `at` changes, and old parent links stay. |
| Insertion.AsWrittenMissesSuffix | src/lib.rs:66-74 | For every arena and every suffix of two or more bytes, descending the suffix from the branch node after the as-written allocation finds nothing. |
| Insertion.InsertAsWritten | src/lib.rs:53-85 | Insertion as written keeps the tables shaped. |
| Insertion.AsWrittenLosesSuffix | src/lib.rs:66-74 | Inserting "ab" into an empty tree as written sets `pointers[0]['a'] = 1` and `pointers[0]['b'] = 2`, and lookup of "ab" then finds nothing. The chained insertion finds the value. |
| Removal.ClearAt | src/string_tree_node_mut.rs:96-97 | Removal keeps the arena valid and changes no pointer, fill count or parent link. |
| Removal.RemoveThenGet | src/string_tree_node_mut.rs:96-97 | After removal the key holds no value. |
| Removal.RemoveKeepsOthers | src/string_tree_node_mut.rs:96-97 | Removal leaves the value of every other key unchanged. |
| Removal.RemoveSemantics | src/string_tree_node_mut.rs:96-97 | After removal through a cursor at `start`, root lookup of `path(start) ++ key` finds nothing, and root lookup of every other key gives what it gave before. |
| Removal.RemoveTwice | src/string_tree_node_mut.rs:96-97 | A second removal of the same key changes nothing and finds nothing. |
| Removal.InsertThenRemove | src/string_tree_node_mut.rs:96-97 | Inserting a key and then removing it leaves the key empty and every other lookup as before the insertion. |
| Utf8Children.Row | src/string_tree_node.rs:103-111 | One loop over a byte range yields only non-zero, in-range child indices. |
| Utf8Children.Edges | src/string_tree_node.rs:116-124 | One nesting level yields only non-zero, in-range child indices. |
| Utf8Children.Children | src/string_tree_node.rs:99-167 | The enumeration yields only in-range node indices. |
| Utf8Children.Expand | src/string_tree_node.rs:113-165 | The nested loops of one character class yield in-range node indices, the start node itself for zero levels and only non-root nodes otherwise. Their exact output is `ExpandReached`. |
| Utf8Children.RowReached | src/string_tree_node.rs:103-111 | One loop over `lo..hi` below the node reached by `w` yields, in order, the nodes reached by `w ++ [b]` for each `b` in the range. It yields nothing when `w` misses. |
| Utf8Children.EdgesReached | src/string_tree_node.rs:113-125 | Running one more nesting level over the nodes reached by a list of byte sequences gives the nodes reached by those sequences, each extended by every byte of the range in order. |
| Utf8Children.ExpandReached | src/string_tree_node.rs:113-143 | The nested loops of one character class reach exactly the class's byte sequences, in lexicographic order. |
| Utf8Children.SequencesMember | src/string_tree_node.rs:145-155 | The enumerated sequences of a class are exactly the byte sequences whose every byte lies in its position's range. |
| Utf8Children.CodeCharsMember | src/string_tree_node.rs:103-165 | A byte sequence is enumerated if and only if it is a whole character under the code's ranges. |
| Utf8Children.ChildrenAreReachedChars | src/string_tree_node.rs:103-165 | The children are, in order: single bytes 0x00-0x7F, then C0-DF with one continuation byte, then E0-EF with two, then F0-F7 with three. Each class is in ascending byte order, and only sequences whose every hop is non-zero are yielded. |
| Utf8Children.ChildrenMember | src/string_tree_node.rs:99-167 | A node is yielded if and only if some whole character descends from this node to it. |
| Utf8Children.ChildrenSkipPartialChars | src/string_tree_node.rs:96-98 | In a valid arena, a node reached by anything but one whole character is never yielded. This covers a continuation node part-way through a character and a child along a stray byte 0x80-0xBF or 0xF8-0xFF. |
| Utf8Children.CodeCharsDistinct | src/string_tree_node.rs:103-165 | No byte sequence is enumerated twice. |
| Utf8Children.ReachedDistinct | src/string_tree_node.rs:106 | In a valid arena, distinct byte sequences from one node reach distinct nodes. |
| Utf8Children.ChildrenDistinct | src/string_tree_node.rs:103-165 | The yielded children are pairwise distinct nodes. |
| Utf8Children.CodeCharsPrefixFree | src/string_tree_node.rs:103-165 | No whole character under the code's ranges is a prefix of another: two distinct ones differ whatever bytes follow them. |
| Utf8Children.ChildrenDisjoint | src/string_tree_node.rs:106 | Each yield is a different section of the tree: no node descends from two different yielded children. |
| Nodes.NodeRef.IndexOfKey | src/string_tree_node.rs:49-57 | The loop returns the descent of the key: one pointer hop per byte, absent at the first 0 pointer, and this node itself on the empty key. A found node's path is this node's path followed by the key. |
| Nodes.NodeRef.TryGet | src/string_tree_node.rs:22-26 | Gives `Ok(v)` exactly when `get` gives `Some(v)`. Otherwise gives `Err(path() ++ key)`, whether the node is missing or empty. |
| Nodes.NodeRef.Step | src/string_tree_node.rs:29-36 | Succeeds exactly when descent succeeds. The result is a valid cursor on the same tree, its path is `path() ++ key`, and `step("")` is the cursor itself. |
| Nodes.NodeRef.TryStep | src/string_tree_node.rs:40-47 | Gives `Ok` with the `step` cursor when `step` succeeds, else `Err(path() ++ key)`. |
| Nodes.NodeRef.Value | src/string_tree_node.rs:60-62 | The node's value is `get("")`. |
| Nodes.NodeRef.ValueResult | src/string_tree_node.rs:66-78 | Gives `Ok(v)` exactly when `value()` is `Some(v)`, else `Err(path())`. |
| Nodes.NodeRef.Path | src/string_tree_node.rs:81-94 | The path descends from the root to this node, and no other node has the same path. |
| Nodes.NodeRef.PathBytes | src/string_tree_node.rs:81-94 | Climbing the parent links and reversing the collected bytes yields the node's path, and that path descends from the root to the node. |
| Nodes.NodeRef.Children | src/string_tree_node.rs:99-167 | Yields one valid cursor on the same tree per enumerated child index, in enumeration order. |
| Nodes.Root | src/string_tree.rs:91-96 | The root cursor is valid and its path is empty. |
| Nodes.StepCompose | src/string_tree_node.rs:29-36 | `step(k1)` followed by `step(k2)` is `step(k1 ++ k2)`. |
| Nodes.GetFromRoot | src/string_tree_node.rs:14-18 | `get(key)` below a node is the root's `get(path() ++ key)`. |
| Nodes.StepToPath | src/string_tree_node.rs:81-94 | Stepping from the root along a node's path gives that node's cursor. |
| StringTrees.FromPairs | src/string_tree.rs:28-34 | Inserting the pairs in order from the empty tree gives a valid arena. |
| StringTrees.FromPairsGet | src/lib.rs:40-51 | In a tree built by `from`, each key holds the value of its last occurrence among the pairs, so later duplicates win. Keys that never occur hold nothing. |
| StringTrees.CatCarCard | src/string_tree.rs:28-50 | After building from ("cat",1), ("car",2), ("card",3): cat=1, car=2, card=3, and "ca" is absent. After removing "car": car is absent, and cat=1 and card=3 remain. |
| StringTrees.From | src/string_tree.rs:28-34 | `from` is a fresh valid tree whose tables are the left fold of insertion over the pairs, starting from `new()`. |
| StringTrees.StringTree.constructor | src/string_tree.rs:18-26 | `new` sets the four tables to the one-root arena. |
| StringTrees.StringTree.RootNode | src/string_tree.rs:91-96 | The root cursor reads the tree's own tables, is valid, and has the empty path. |
| StringTrees.StringTree.Swap | src/string_tree_node_mut.rs:85-88 | Swaps `Some(value)` into one value slot and returns the old contents. Nothing else changes. |
| StringTrees.StringTree.Take | src/string_tree_node_mut.rs:96-97 | Takes one value slot's contents out and returns them. Nothing else changes. |
| StringTrees.StringTree.InsertAt | src/lib.rs:53-85 | The in-place loops leave exactly the tables of the pure insertion, and return the value the key held before. |
| StringTrees.StringTree.AllocateChain | src/lib.rs:66-79 | The in-place inner loop leaves exactly the tables of the pure chain allocation. |
| StringTrees.StringTree.Insert | src/string_tree.rs:35-38 | `insert` is insertion from the root and returns the previous value at the key, or `None`. |
| StringTrees.StringTree.RemoveAt | src/string_tree_node_mut.rs:96-97 | Removal below a node leaves the tables of the pure removal and returns the previous value. |
| StringTrees.StringTree.Remove | src/string_tree.rs:47-50 | `remove` is removal from the root and returns the previous value. |
| NodesMut.NodeMut.AsRef | src/string_tree_node_mut.rs:294-300 | The read cursor is on the same tables at the same index, and is valid. |
| NodesMut.NodeMut.TryGet | src/string_tree_node_mut.rs:48-62 | Gives `Ok(v)` exactly when `get` finds `v`. Otherwise gives `Err(path() ++ key)` when the node is missing, but `Err(path())` when the node exists without a value. |
| NodesMut.NodeMut.ValueNonMut | src/string_tree_node_mut.rs:158-170 | The node's value is `get("")`. |
| NodesMut.NodeMut.ValueResultNonMut | src/string_tree_node_mut.rs:190-202 | Gives `Ok(v)` exactly when the value is `Some(v)`, else `Err(path())`. |
| NodesMut.NodeMut.Path | src/string_tree_node_mut.rs:205-218 | The path descends from the root back to this node. |
| NodesMut.NodeMut.Children | src/string_tree_node_mut.rs:223-291 | Yields the same index sequence, in the same order, as the read cursor's `children()`. |
| NodesMut.NodeMut.Step | src/string_tree_node_mut.rs:111-119 | Succeeds exactly when the read cursor's `step` does. The result is on the same tree at the same index. |
| NodesMut.NodeMut.TryStep | src/string_tree_node_mut.rs:123-131 | Like `step`, and gives `Err(path() ++ key)` on a miss. |
| NodesMut.NodeMut.Set | src/string_tree_node_mut.rs:83-94 | Leaves exactly the tables of insertion below this node and returns the previous value. On an existing key that is a swap of one value slot (see `Insertion.InsertExisting`). |
| NodesMut.NodeMut.Remove | src/string_tree_node_mut.rs:96-97 | Leaves exactly the tables of the pure removal below this node and returns the previous value. |
| NodesMut.RootNodeMut | src/string_tree.rs:85-90 | The root write cursor is at index 0 of the given tree and is valid. |
| NodesMut.ToMut | src/string_tree_node.rs:170-175 | The write cursor is on the given tree at the read cursor's index. When that tree holds the read cursor's tables, the write cursor is valid and `as_ref` gives back the read cursor. |

## Left out

- The `IterableCoroutine` wrapper and the `#[coroutine]` generators (lib.rs:102-117) are coroutine plumbing. `children()` is modelled as the eagerly built sequence it yields.
- Raw-pointer and lifetime casts and `unwrap_unchecked` concern Rust's borrow checking, not behaviour. A cursor is a tree and an index.
- `String::from_utf8_unchecked` in `path()`: paths are byte sequences. UTF-8 validity of a path is not established by the code.
- The bounds-check panic in the `value*`/`get*` accessors (string_tree_node_mut.rs:20, 148) becomes the precondition `Valid()`. The arena invariant implies it.
- Swap-remove compaction, the `open_nodes` free list and reclaiming a node when its fill count drops to 0 (string_tree.rs:10, 13): no shown code implements them. No node is ever removed in the model.
- The `all_paths`/`node_paths` bookkeeping of the older layout (lib.rs:25-26, 64, 71, 75) was superseded by `node_parents`, which the model keeps instead.
- The commented-out `insert` in string_tree.rs:51-84 is a dead copy of lib.rs:53-85 with the same loop.
- src/tests.rs is a randomized harness that asserts nothing. The `test` in lib.rs:121-126 is covered by `Nodes.NodeRef.Step` on the empty key.
- The `u8` fill count and `u32` index widths are not modelled: counts and indices are unbounded naturals. A fill count is proved to stay at most 256.
- Key conversion (`to_string`, `as_ref::<str>`): a key is given directly as its UTF-8 bytes, and any byte sequence is accepted.
- The `&mut` variants `get_mut` (string_tree.rs:44-46, string_tree_node_mut.rs:30-44), `try_get_mut` (66-80), `value` (144-156) and `value_result` (174-186) return the same value as their shared counterparts. Writing through the returned reference is not modelled.
- `get_index_of_key` of the write cursor (string_tree_node_mut.rs:133-141) is the same loop as the read cursor's. The write cursor uses `Nodes.NodeRef.IndexOfKey` through `as_ref`.
- `get` on the tree and on the cursors (`StringTrees.StringTree.Get`, `Nodes.NodeRef.Get`, `NodesMut.NodeMut.Get`) delegates to `TrieArena.GetAt` and is stated through its contract and through `Nodes.GetFromRoot`, `Insertion.InsertSemantics` and `Removal.RemoveSemantics`, not by contracts of its own.
- NodesMut.NodeMut.Set: on a key whose node is missing, the source stops at `todo!()` (string_tree_node_mut.rs:89-93). The model performs the insertion of lib.rs:53-85 from this cursor's node instead.
- NodesMut.NodeMut.Remove: the source body does not compile (string_tree_node_mut.rs:100 names an undefined `value`). The model implements the doc comment: clear the slot and return the old value, with a missing key changing nothing.

## Findings

| source | as written | input that shows it | evidently intended | confidence | as-written member | corrected member |
|---|---|---|---|---|---|---|
| src/lib.rs:66-74 | The inner allocation loop writes every new node into `node_pointers[index]` without ever advancing `index`, so all new nodes hang off the branch node. The value goes on the node pushed last. | Inserting "ab" into an empty tree sets `pointers[0]['a'] = 1` and `pointers[0]['b'] = 2`. A lookup of "ab" then finds nothing. | Chain each new node below the one just made, as the comment at lib.rs:63 says, so the key's path ends at the valued node. | high; proved on the model, not executed | Insertion.AsWrittenLosesSuffix | Insertion.InsertThenGet |

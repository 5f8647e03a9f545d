# Skip list cursor and destruction walk

The skip list keeps key/value nodes behind a head sentinel, chained through
each node's direct-neighbour link (level 0) in key order. The list carries a
cursor: `bookmark`, the node the walk stands on, and `bookmarkPrev`, the node
just before it. The repository implements this cursor:

- resetting it before the first element;
- advancing it one node at a time, with null as an absorbing end state;
- projecting the node it yields to a key/value pair;
- list destruction, which walks the chain with the cursor and hands each node
  to the node destructor.

The multi-level search, insertion and deletion are not implemented in the
repository, so this project does not model them.

The model is functional:

- `Layout` holds the data model. The level-0 chain is a `seq<Node<K, V>>`.
  A node pointer is a `Pos`: `Head`, `At(i)` for the i-th chain node, or
  `Null`. `Rank` places pointers in chain order: the head first, then the
  nodes, then null.
- `Cursor` holds the transitions as pure functions on the list value, and
  lemmas about runs of advances.
- `Destroy` holds the destruction walk as a method written like the list
  code's loop. The method returns the trace of calls it makes: advances,
  node-destructor calls and the final release of the list.

## Model

| member | source | states |
|---|---|---|
| Layout.Succ | skiplist.c:34-45 | A non-null node's level-0 successor is never the head sentinel, and it stands exactly one place further in chain order. Past the last node it is null. |
| Cursor.ResetBookmark | skiplist.c:75-77 | Reset puts the bookmark before the first element. It leaves the chain, `bookmarkPrev` and the size unchanged. The next advance then yields the first chain node, or null for an empty chain. |
| Cursor.GetNext | skiplist.c:79-84 | A null bookmark returns null and changes no state. Otherwise `bookmarkPrev` becomes the old bookmark, and the bookmark moves exactly one place along the chain. The advance returns the new bookmark, never the head. The chain is never modified. After a non-null advance, `bookmarkPrev`'s successor is the bookmark, and every advance keeps this adjacency invariant. |
| Cursor.GetNextKeyValue | skiplist.c:86-91 | Advances like GetNext. Once the chain is exhausted it reports no key and no value. Otherwise it reports the key and the value of exactly the node it now stands on. |
| Cursor.Run | skiplist.c:79-84 | Any number of successive advances leaves the chain and the size untouched, and returns one pointer per advance. |
| Cursor.RunFromPosition | skiplist.c:79-84 | From any valid position, the j-th advance returns the pointer j+1 places further in chain order, clamped at null. After k advances the bookmark has moved k places, clamped at null. After k ≥ 1 advances from a non-null bookmark, or from any state that keeps the adjacency invariant, `bookmarkPrev` trails the bookmark by one place, clamped at the last node (the head when the chain is empty). |
| Cursor.RunNullIsAbsorbing | skiplist.c:80 | Once the bookmark is null, every later advance returns null and the whole list state stays as it was. |
| Cursor.RunFromReset | skiplist.c:75-84 | From a reset on a chain of n nodes, advances 1..n return nodes 1..n in chain order, and advance n+1 and every later one return null. After k advances, `bookmarkPrev` is the node k-1 places after the head, clamped at the last node, or at the head when the chain is empty. |
| Cursor.TraverseYieldsRest | skiplist.c:86-91 | Draining the cursor yields exactly the entries after the bookmark, in chain order. A null bookmark yields nothing. |
| Cursor.FullTraversal | skiplist.c:75-91 | A full traversal from a reset yields every chain entry, in chain order. |
| Cursor.TraversalAscending | skiplist.c:7 | A full traversal yields strictly ascending keys under a comparator exactly when the chain holds its keys in that order, as the list is documented to. |
| Destroy.DestroyPrefixDestroysInOrder | skiplist.c:102-107 | After k iterations, the walk has destroyed exactly the first k chain nodes, each once, in chain order. |
| Destroy.DestroyPrefixReadsAhead | skiplist.c:103-107 | Each destroyed node is a chain node whose successor was read by the call just before its destruction. |
| Destroy.DestroyDrivesCursor | skiplist.c:101-107 | The destruction walk advances the cursor exactly as n+1 advances from a reset do: it yields every chain node in order, then stops at the first null. |
| Destroy.DestroyTraceProperties | skiplist.c:98-109 | A null list makes no call. Otherwise every chain node goes to the node destructor exactly once, in chain order, never the head and never null. Each node's successor is read before the node is destroyed, and the list is freed last. |
| Destroy.DestroyList | skiplist.c:98-109 | The loop written as in the list code makes exactly the calls of the reference trace. So it destroys every chain node once, in order, and reads ahead before each destruction. A null list makes no call. |

## Left out

- `SkipListCreate` (skiplist.c:70-73) only allocates and leaves every field uninitialised. The model starts from any list value. The only requirement is that the bookmark is a pointer the cursor may follow (`Valid`). `bookmarkPrev` is never read by any operation, so it may be anything.
- `SkipListNodeCreate`, `SkipListNodeDestroy` and `SkipListFind` (skiplist.c:59-65, 94-96) have empty bodies. Node destruction appears only as a `NodeDestroy` event in the trace. Find is not modelled.
- Insertion, deletion, duplicate-key policy, level assignment and key/value retain/release callbacks do not exist in the source, so they are not modelled.
- The `numSkips`/`skips` multi-level links (skiplist.c:36-37) are declared but never read or written, so the chain is the level-0 links only.
- The comparator typedefs and the `functions` field (skiplist.c:18-22) are never used. A comparator appears only as a parameter of the ordering lemma.
- The `size` counter is never read or written by implemented code. The model carries it only to show that the cursor leaves it unchanged.
- Memory: `malloc`, `free` and pointer identity are not modelled. A pointer is its place in the chain, and freeing the list is the final `FreeList` event.
- The `assert` in `SkipListGetNextKeyValue` requires non-null list, key and value pointers. The model meets this by construction: it takes the list as a value and returns the key and value.
- Cursor.GetNextKeyValue: stored keys and values have type `K` and `V` and are never null. So the model cannot express the C-level ambiguity between a node that stores a null key and the end of the sequence.
- `bookmarkPrev` is documented as the node just prior to the bookmark (skiplist.c:51). After a reset there is no such node, and `SkipListResetBookmark` (skiplist.c:75-77) leaves the field as it was. The model does the same, so the adjacency invariant exempts a freshly reset cursor.
- `SkipListNodeDestroy` (skiplist.c:63-65) is empty, so destruction releases no key or value. Its call is only an event in the trace.
- Key order is documented (skiplist.c:7), but no code enforces it. The ordering lemma therefore states ascending output in terms of the chain the cursor is given.

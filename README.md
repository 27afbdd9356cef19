# Raycaster core data structures in Dafny

This project models the three in-memory data structures at the core of the
Raycaster game engine and proves what their operations do:

- **The hash table** of `src/hashmap.c`. It has a fixed number of buckets, each
  a list of `{key, value}` records. A key lives in bucket `hashFunc(key) % size`.
  Keys are compared with the optional `compFunc`, and by pointer identity when
  none is given. `Put` overwrites the value of the first matching record when the
  key is reported present, and otherwise prepends a new record. `Get`, `Contains`,
  `Remove` and `Pop` walk the key's bucket from the front.
- **The singly linked list** of `src/linkedlist.c`. It has a head pointer
  `firstNode`, a cursor `currentNode` and a `size` counter. Items are inserted
  at the front (`ListAppendFirst`), at the back (`ListAppendLast`) or at a
  position (`ListPut`).
- **The tile grid** of `src/map.c`. It is `numRows` rows of `numCols` tiles,
  zero-filled (all `GROUND`) on creation, with in-place set and get of a cell.

All three are written in the C code as state changed in place, so the model uses
classes:

- `HashMaps.HashMap` keeps its buckets in an `array`. Each bucket is the
  sequence of its records, front first.
- `LinkedList.List` is a chain of heap-allocated `Node` objects. The ghost
  sequences `Nodes` and `Contents` list the nodes in chain order and the items
  they hold.
- `TileMap.Map` is an array of row arrays.

Each state-changing method is proved against a specification:

- The hash table's methods are stated through the bucket functions of module
  `Buckets` (`FirstMatch`, `Lookup`, `PutBucket`, `RemoveBucket`). Lemmas beside
  those functions state what they mean: get-after-put, put leaves other keys
  alone, remove undoes put, and keys stay unique.
- The list's methods are stated as sequence insertions (`Inserted`) on
  `Contents`. Its invariant is that the nodes form one null-terminated chain of
  distinct nodes (`Chain`).

Function pointers supplied by callers (`hashFunc`, `compFunc`) are parameters of
the model and are taken to be pure. Where a property needs `compFunc` to behave
like an equality, the lemma states that as its precondition (`Equivalence`,
`Reflexive`).

The map-file parser (`src/mapparser.c`) is not modelled. Its parse, destroy and
free functions are `TODO` stubs, and `MapParserParse` returns NULL, so there is
no code to model. The headers also disagree with the code in places:
`include/hashmap.h` declares `HashMapCreate(compareFunc)`, and `include/list.h`
declares `ListCreate(printFunc)`. The model follows the `.c` files.

## Model

| member | source | states |
|---|---|---|
| Buckets.FirstMatch | src/hashmap.c:124-142 | The bucket walk stops at the first record whose key matches (by `compFunc` when given, else by identity). No earlier record matches, and the result is the bucket length when none does. |
| Buckets.RemoveAt | include/list.h:47 | Popping index `i` removes exactly that record. Earlier records keep their places, later ones move up by one, and the length drops by one. |
| Buckets.LookupAfterPut | src/hashmap.c:79-109 | Get right after Put of the same key yields the value put, on both paths (overwrite and prepend), when `compFunc` is reflexive. |
| Buckets.PutOverwritesInPlace | src/hashmap.c:79-100 | Put of a key reported present adds no record. The first matching record gets the new value and keeps its key, and every other record is unchanged. |
| Buckets.LookupAfterPutOther | src/hashmap.c:71-110 | Put of one key leaves what Get yields for every non-matching key unchanged, when `compFunc` is an equivalence. |
| Buckets.RemoveUndoesPut | src/hashmap.c:153-182 | After Put of an absent key, the new record is the first match. Removing it restores the old bucket exactly, and Pop would return that record. |
| Buckets.PutAfterNullValueDuplicates | src/hashmap.c:148-150 | A key stored with a NULL value counts as absent, so a second Put prepends a second matching record instead of overwriting. |
| Buckets.PutKeepsKeysUnique | src/hashmap.c:71-110 | While no NULL value is stored, Put keeps a bucket free of duplicate keys and of NULL values. |
| Buckets.RemoveLeavesKeyAbsent | src/hashmap.c:153-182 | In a bucket without duplicate keys, after Remove no record matches the key and Get yields NULL. |
| HashMaps.BucketIndex | src/hashmap.c:76 | The unsigned remainder `hashFunc(key) % size` always lies in `[0, size)`. |
| HashMaps.OwnBucketSuffices | src/hashmap.c:118-120 | If every record sits in its key's bucket and `compFunc` agrees with the hash, any matching record anywhere is in the searched bucket, at or after the first match. Searching one bucket misses nothing. |
| HashMaps.IdentityIsConsistent | src/hashmap.c:133-137 | Pointer-identity comparison, used when no `compFunc` is given, always agrees with the hash. |
| HashMaps.HashMap.constructor | src/hashmap.c:22-40 | Requires `size > 0`. Produces exactly `size` empty buckets, keeps the given functions, and establishes the placement invariant. |
| HashMaps.HashMap.Get | src/hashmap.c:113-145 | Returns the value of the first matching record in the key's bucket, or NULL, and changes nothing. |
| HashMaps.HashMap.Contains | src/hashmap.c:148-150 | Holds exactly when Get would return a non-NULL value. |
| HashMaps.HashMap.Put | src/hashmap.c:71-110 | Always returns true. Only the key's bucket changes, and it becomes `PutBucket` of the old one (overwrite-or-prepend). Placement is preserved. |
| HashMaps.HashMap.Remove | src/hashmap.c:153-182 | Returns true exactly when a record matches. The first matching record is removed from the key's bucket and nothing else changes. On false the table is unchanged. |
| HashMaps.HashMap.Pop | src/hashmap.c:185-214 | Returns the removed record itself (what `ListPop` yields), or NULL when nothing matches. The bucket loses that record and nothing else changes. |
| LinkedList.Node.constructor | src/linkedlist.c:55-61 | A new node holds the given item and successor. |
| LinkedList.ChainAt | src/linkedlist.c:80-82 | In a chain, the node at position `i` holds the `i`-th item and links to the node at `i + 1`, or to the end after the last node. |
| LinkedList.ChainDistinct | src/linkedlist.c:7-10 | No node occurs twice in a chain. |
| LinkedList.ChainSplit | src/linkedlist.c:117-124 | A chain cut at `k` is a chain ending at its `k`-th node, followed by the rest as a chain. |
| LinkedList.ChainCut | src/linkedlist.c:136-140 | Around the node at `k - 1`, the nodes before and after it form chains, and no node is shared among the three parts. |
| LinkedList.ChainSplice | src/linkedlist.c:139-140 | Linking a new node after `x` and on to `x`'s old successor joins the parts into a single chain. |
| LinkedList.Inserted | src/linkedlist.c:99-144 | Inserting at `index` puts the item at `index`. Items before keep their positions, items after move up by one, and the length grows by one. |
| LinkedList.SplicedIsInserted | src/linkedlist.c:139-140 | Splicing after the node at `k - 1` is insertion at `k`, and at the end it is appending. |
| LinkedList.LinkAfter | src/linkedlist.c:131-141 | A fresh node holding the item is linked in after the node at `k - 1`. The chain's nodes and items become the old ones with the new node and item inserted at `k`. |
| LinkedList.List.constructor | src/linkedlist.c:20-25 | The new list is empty: `size` is 0 and both pointers are null. |
| LinkedList.List.AppendFirst | src/linkedlist.c:50-71 | Returns true. The new node becomes the head, followed by the old nodes, and `size` grows by one. The cursor moves to the new head only if it was on the old head; a cursor past the end stays past the end. |
| LinkedList.List.AppendLast | src/linkedlist.c:74-96 | Returns true. The cursor walks to the last node and a new node holding the item is linked after it, so the items become the old ones plus the item. `size` grows by one and the cursor stays on the former last node. |
| LinkedList.List.Put | src/linkedlist.c:99-144 | Succeeds exactly when `index <= size`, and then inserts the item at `index` and grows `size` by one. On failure nothing changes. The cursor ends as AppendFirst leaves it for index 0, on the former last node for `index == size`, and at `index + 1` in between. |
| LinkedList.List.WalkTo | src/linkedlist.c:117-129 | The walk from the head stops with the cursor at `index` and the previous node in hand. Running off the end cannot happen for `index < size`. |
| TileMap.Enumerator | include/map.h:4-7 | GROUND is the enumerator 0 and the only tile with that value. |
| TileMap.Map.constructor | src/map.c:13-32 | Requires positive dimensions. Every cell is GROUND (value 0, as `calloc` leaves it), the sizes are the arguments, and `gridSize` is 30. |
| TileMap.Map.GetTile | src/map.c:59-63 | Reads the tile at `grid[row][col]` and changes nothing. |
| TileMap.Map.SetTile | src/map.c:51-57 | After the write, the cell read back is the tile written. Every other cell and every size are unchanged. |

## Left out

- The map-file parser (`src/mapparser.c`, `include/mapparser.h`): parse, destroy and free are stubs, so there is nothing to model.
- `src/mapray.c`: the ray cast is floating point throughout. It also calls `MapGetTileSize`, which `src/map.c` does not define.
- Drawing, input and printing (`MapDraw2D`, `HashMapPrint`, `src/main.c`, `PlayerInput`, `PlayerDraw2D`): I/O only.
- `src/player.c`, `src/billboard.c` and `src/tile.c`: field holders and a stub that does not compile; nothing to prove.
- The `*Destroy` functions and memory: `malloc`/`calloc` are taken to succeed, so the allocation-failure paths and their `assert`s are not modelled. Freeing is not modelled either, including the record `HashMapRemove` leaks.
- The NULL-receiver guards (`list == NULL`, `map == NULL`, `key == NULL`): a Dafny receiver is never null, so those early returns and `assert`s cannot arise.
- Undefined behaviour in the list is given its evident intent rather than modelled. `ListCreate` has no `return` and leaves `firstNode`/`currentNode` unset, so the model starts with both null. `ListAppendLast` leaves the new node's `nextNode` unset, so the model takes it as null.
- LinkedList.List.AppendLast: requires a non-null cursor, because on an empty list, or with the cursor past the last node, the C code dereferences a NULL `currentNode`.
- LinkedList.List.Put: requires `index >= 0`, because a negative index makes the C code dereference a NULL `lastNode`.
- LinkedList.List.Put: requires a non-null cursor when `index == size > 0`, because that case is `ListAppendLast`, which dereferences a NULL `currentNode`.
- LinkedList.List.WalkTo: the "didn't reach the desired index" early return of `ListPut` is proved unreachable rather than modelled as a branch.
- TileMap.Map.SetTile: requires `row < numRows` and `col < numCols` besides the checked `row >= 0` and `col >= 0`. A write outside the grid is undefined in C.
- TileMap.Map.GetTile: requires `0 <= row < numRows` and `0 <= col < numCols`, which the C code checks neither of, because a read outside the grid is undefined in C.
- HashMaps.HashMap.Put: the C `int` width of `size` and indices is not modelled; integers are unbounded apart from the unsigned hash.
- The hash table's bucket lists are sequences of records, not cursor-carrying list objects. The list library's `ListMoveToStart`, `ListMoveToNext`, `ListGetCurrent`, `ListCanOperate` and `ListPop` are not defined in `src/linkedlist.c`, so they are modelled by what `include/list.h` documents: walk from the front, and pop index `i` returning the record. `ListCanOperate` is not declared anywhere.
- `hashFunc` and `compFunc` are pure functions given as parameters. That `compFunc` is an equivalence agreeing with the hash is assumed only in the lemmas that need it.
- `Remove` and `Pop` with a NULL key are not modelled, because keys are values of a type without NULL.

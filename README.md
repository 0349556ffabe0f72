# Hash tables with tree buckets, and a singly linked list

This project models three small Python data structures and proves what they
promise.

- **Hashtable.py**: a 127-slot hash table whose buckets are "self-balancing"
  binary trees. A bucket keeps its nodes in a list sorted by key. After every
  insert it rebuilds the tree over that list by midpoint bisection.
- **HashTable.py**: the same table, but with a plain unbalanced binary search
  tree in each bucket. An insert walks down from the root and hangs the new
  node as a leaf.
- **LinkedList.py**: a singly linked list with `start` and `end` pointers and
  a counter. It supports append, first-match search and first-match remove.

Both tables hash a key with `calcKey`. It is Horner's rule with base 31,
reduced modulo 127 after every character, where `ord(c)` is the code point
`c as int`. Python's `<` on strings is lexicographic by code point. It is
modelled as `LexOrder.Less`, with its order laws proved.

## Modules

- `Wrappers`: the `Option` type.
- `LexOrder`: string order and its laws.
- `Hashing`:
  - the constants `SmallPrime = 31` and `AsciiLength = 127`;
  - the fold `Hash`, its polynomial closed form, and the loop `CalcKey`.
  - Both table files hash the same way, so this is modelled once.
- `BalancedTree`: the bucket of Hashtable.py.
  - The list is a `seq<Entry<V>>`.
  - Node objects are shared between the list and the tree, so a tree is a
    datatype of *positions* in the list.
  - `build` is the function `Build(lo, hi)`.
  - `sorted` is a stable insertion sort, `SortByKey`.
  - Class `BinaryTree` holds `root` and `nodes` and updates them in place.
- `BalancedTable`: class `Hashtable`, an `array` of 127 nullable buckets.
  - On a hit, `insert` overwrites `info` in place.
  - On a miss, it delegates to the bucket, creating the bucket first if the
    slot is empty.
- `SimpleTree`: the bucket of HashTable.py.
  - Nodes live in an arena, `nodes`, and the `left`/`right` links are arena
    positions.
  - Ghost state records each node's parent and the open interval of keys its
    place in the tree admits.
  - Class `BinaryTree` has the `while True` insert walk as a loop.
- `SimpleTable`: class `HashTable` over those buckets. On a hit, `insert`
  calls `setValue`.
- `LinkedList`: classes `Node` and `LinkedList` on the heap.
  - The ghost `spine` is the chain of nodes reachable from `start`.
  - A node unlinked by `remove` stays allocated, keeps its `next`, and may
    still be `end`.

Two behaviours of Hashtable.py are easy to misread. The model follows the
code in both:

- Hashtable.py:102 tests `node in self.nodes` on a freshly made node. That
  test is an identity test, so it never succeeds, and the bucket's `insert`
  always appends and re-sorts. Keys stay unique only because the table
  searches first.
- On a hit, `Hashtable.insert` (Hashtable.py:196-201) writes `node.info` and
  does not rebuild the tree. `BalancedTable.Hashtable.Insert` states that the
  root and the list length are unchanged.

## Model

| member | source | states |
|---|---|---|
| Hashing.HashFrom | Hashtable.py:179-182 | folding `h := (31*h + ord(c)) % 127` from any start in [0,127) stays in [0,127); folding the empty string leaves the start unchanged |
| Hashing.Hash | Hashtable.py:179-182 | the hash of every string lies in [0,127), so every table index is in bounds; the hash of "" is 0 |
| Hashing.CalcKey | Hashtable.py:168-182 | the accumulator loop returns a key in [0,127) equal to the left fold `Hash(s)` |
| Hashing.HashFromAppend | Hashtable.py:180-181 | one more character is one more Horner step |
| Hashing.HashAppend | HashTable.py:117-121 | the hash of `s + [c]` is `(31 * Hash(s) + ord(c)) % 127` (the same loop in HashTable.py) |
| Hashing.HashIsPolynomial | Hashtable.py:179-182 | reducing after every step gives the same result as reducing once: `Hash(s)` equals the polynomial sum of `ord(s[i]) * 31^(n-1-i)`, taken modulo 127 |
| LexOrder.LessIrreflexive | Hashtable.py:126-131 | no key is below itself, so equality and the two strict branches of `search` are exclusive |
| LexOrder.LessAsymmetric | HashTable.py:96-100 | `a < b` excludes `b < a` |
| LexOrder.LessTransitive | Hashtable.py:104 | string order is transitive, which sorting by key and the BST order rely on |
| LexOrder.LessTrichotomy | HashTable.py:75-86 | any two keys are equal or one is below the other, so the walk's `<`/`>` branches cover every key but an equal one |
| LexOrder.LessEqTransitive | Hashtable.py:104 | the non-strict order that a stable sort produces is transitive |
| BalancedTree.Mid | Hashtable.py:84 | `mid = start + (end-start)/2` lies in `start..end` and splits the range into halves whose sizes differ by at most one |
| BalancedTree.Build | Hashtable.py:72-90 | `build(start, end)` by midpoint bisection: the tree is empty exactly when `start > end`; its in-order, order and height are stated by the `Build*` lemmas below |
| BalancedTree.BuildInOrder | Hashtable.py:81-90 | the in-order traversal of `build(start, end)` is exactly the positions `start..end` in increasing order, and it is empty when `start > end` |
| BalancedTree.BuildOrdered | Hashtable.py:72-90 | over a list sorted with unique keys, the built tree is a binary search tree: left keys are below the node's key and right keys above |
| BalancedTree.BuildHeightBound | Hashtable.py:84-88 | a range of fewer than 2^k positions builds a tree of height at most k |
| BalancedTree.MinimalHeight | Hashtable.py:7 | no binary tree over n nodes is lower than ⌈log2(n+1)⌉ |
| BalancedTree.BuildBalanced | Hashtable.py:105-107 | the rebuilt tree over n nodes has height exactly ⌈log2(n+1)⌉, the least possible, as "self-balancing" claims |
| BalancedTree.Search | Hashtable.py:122-131 | a found position is in the searched tree and its node's key is the searched key |
| BalancedTree.SearchComplete | Hashtable.py:109-131 | on a binary search tree, `search` finds a node if and only if some node of the tree has the key |
| BalancedTree.SearchBuilt | Hashtable.py:109-131 | on the tree rebuilt over a uniquely keyed sorted list, `search` returns `None` exactly when the list has no such key, and otherwise the entry that `Find` names |
| BalancedTree.InsertByKey | Hashtable.py:103-104 | inserting an entry into the list yields the old entries plus the new one (same multiset) |
| BalancedTree.SortByKey | Hashtable.py:104 | `sorted(..., key=...)` returns a permutation of its input that is sorted by key |
| BalancedTree.Find | Hashtable.py:206-220 | the value a list holds for a key: `None` exactly when no entry has the key, otherwise the value of an entry with that key |
| BalancedTree.InsertSorted | Hashtable.py:103-104 | inserting into a sorted list keeps it sorted |
| BalancedTree.InsertStrictlySorted | Hashtable.py:196-199 | inserting a key the list lacks keeps the keys unique and increasing |
| BalancedTree.InsertAtEnd | Hashtable.py:103-104 | an entry no smaller than every entry goes last, as appending and a stable sort leave it |
| BalancedTree.SortSorted | Hashtable.py:104 | a stable sort leaves an already sorted list unchanged |
| BalancedTree.SortAfterAppend | Hashtable.py:103-104 | appending and re-sorting a sorted list is inserting the entry at its place |
| BalancedTree.FindAfterInsert | Hashtable.py:196-199 | after a new key is inserted, the list finds that key's value, and every other key's value is as before |
| BalancedTree.FindAfterUpdate | Hashtable.py:200-201 | overwriting the info of the first entry with a key changes that key's value only |
| BalancedTree.BinaryTree.constructor | Hashtable.py:61-69 | a new bucket has no root and an empty list |
| BalancedTree.BinaryTree.Insert | Hashtable.py:92-107 | the list becomes the sorted old list with the new entry, one longer, and the root becomes the tree built over all of it |
| BalancedTable.Hashtable.constructor | Hashtable.py:158-166 | 127 slots, all empty; every lookup misses |
| BalancedTable.Hashtable.Insert | Hashtable.py:184-204 | afterwards the key maps to the new info and every other key to its old value. Only slot `calcKey(key)` changes, and it is populated. No populated slot becomes empty. A hit keeps the bucket's root and size; a miss grows the bucket by one |
| BalancedTable.Hashtable.InsertIntoBucket | Hashtable.py:196-201 | on a populated slot: the key maps to the new info and every other key keeps its value. Other slots are untouched. A hit keeps the bucket's root and size; a miss grows it by one |
| BalancedTable.Hashtable.AddBucket | Hashtable.py:202-203 | an empty slot gets a fresh empty bucket; no lookup changes |
| BalancedTable.Hashtable.AddNode | Hashtable.py:198-199 | the bucket's insert of an absent key maps that key to the info, leaves every other key alone and grows the bucket by one |
| BalancedTable.Hashtable.UpdateNode | Hashtable.py:200-201 | `node.info = kwargs` changes the found key's value only, with root and size unchanged |
| BalancedTable.Hashtable.SetInfo | Hashtable.py:201 | the write through the tree is seen in the list at the node's position; order and root are kept |
| BalancedTable.Hashtable.InsertNew | Hashtable.py:199 | the bucket stays sorted with unique keys, each of its entries is old or the new one, and it finds the new key |
| BalancedTable.Hashtable.Search | Hashtable.py:206-220 | `None` exactly when the table holds no value for the key (empty slot or key absent), otherwise the node with that key and its current info |
| SimpleTree.Search | HashTable.py:88-100 | a found node's key is the searched key |
| SimpleTree.GetTree | HashTable.py:63-67 | `None` for an empty subtree, otherwise a triple whose label is the node's key and value |
| SimpleTree.SearchPassesThrough | HashTable.py:88-100 | searching for a key that fits a node's bounds, from any ancestor of that node, passes through the node |
| SimpleTree.SearchFinds | HashTable.py:88-100 | on a valid tree, `search(root, key)` returns the node holding the key |
| SimpleTree.SearchAbsent | HashTable.py:88-100 | on a valid tree, `search` returns `None` if and only if no node holds the key |
| SimpleTree.ShapeWithinBounds | HashTable.py:63-67 | every key in the dump of a subtree lies within the subtree root's bounds, and the dump's in-order keys strictly increase |
| SimpleTree.GetTreeSorted | HashTable.py:63-67 | read in order, the keys of `getTree(root)` strictly increase |
| SimpleTree.ShapeEntries | HashTable.py:63-67 | the key and value labels of a dump in order, aligned one for one with its keys |
| SimpleTree.SubtreeInDump | HashTable.py:63-67 | every key and value label in the dump of a node's subtree is in the dump of any of its ancestors |
| SimpleTree.DumpHasNodeEntries | HashTable.py:63-67 | every label in the dump of a subtree is the key and value of some node |
| SimpleTree.GetTreeComplete | HashTable.py:63-67 | `getTree(root)` labels every node with its key and value and has no other label; with `GetTreeSorted`, each node appears exactly once |
| SimpleTree.AttachValid | HashTable.py:72-86 | hanging a new leaf on a free side, on the correct side of the node's key and within its bounds, keeps the tree a valid search tree |
| SimpleTree.AttachSearch | HashTable.py:72-86 | after a new leaf is attached, `search` finds the new key at the new node and every other key where it found it before |
| SimpleTree.SearchIgnoresValues | HashTable.py:33-34 | overwriting a node's value changes no search path |
| SimpleTree.ArenaIgnoresValues | HashTable.py:33-34 | overwriting a node's value keeps the tree valid |
| SimpleTree.BinaryTree.constructor | HashTable.py:57-58 | a new tree has no root and every lookup misses |
| SimpleTree.BinaryTree.Insert | HashTable.py:69-86 | on an empty tree the node becomes the root. Otherwise exactly one new leaf is linked on a free side of an existing node, and the tree stays a valid search tree. Lookups find the new key's value and every other key's old value; existing keys and values are unchanged |
| SimpleTree.BinaryTree.AttachLeaf | HashTable.py:76-86 | `current.left = Node(...)` or `current.right = Node(...)` links the new leaf there, keeps validity, and adds exactly the new key |
| SimpleTree.BinaryTree.SetValue | HashTable.py:33-34 | `setValue` changes the value of the node's key only and leaves the root and the shape alone |
| SimpleTable.HashTable.constructor | HashTable.py:111-112 | 127 slots, all empty; every lookup misses |
| SimpleTable.HashTable.Insert | HashTable.py:123-134 | afterwards the key maps to the new value and every other key to its old value. Only slot `calcKey(key)` changes, and it is populated. No populated slot becomes empty. A hit keeps the tree's root and changes only the found node's value, so keys and links stay the same. A miss on an empty tree makes the node the only one; otherwise it links exactly one new leaf on a free side of an existing node |
| SimpleTable.HashTable.AddBucket | HashTable.py:132-134 | an empty slot gets a fresh empty tree; no lookup changes |
| SimpleTable.HashTable.AddNode | HashTable.py:128-129 | the tree's insert of an absent key maps it to the value, keeps every other key, and keeps all keys hashing to the slot. The tree grows by exactly one leaf linked on a free side, or becomes that one node if it was empty |
| SimpleTable.HashTable.UpdateNode | HashTable.py:130-131 | `node.setValue(value)` changes the found key's value only. The tree's root is kept, and its nodes are the old nodes with only that node's value replaced, so keys and links stay the same |
| SimpleTable.HashTable.Search | HashTable.py:136-140 | `None` exactly when the table holds no value for the key, otherwise the node with that key and its current value |
| LinkedList.FirstIndex | LinkedList.py:94-100 | the position of the first occurrence of a key; `None` if and only if the key does not occur |
| LinkedList.Node.constructor | LinkedList.py:28-31 | a node carries its key and data, with no `next` |
| LinkedList.LinkedList.constructor | LinkedList.py:69-72 | `start = end = None` and `count = 0` |
| LinkedList.LinkedList.Insert | LinkedList.py:81-90 | the new node becomes `end`, and `count` grows by one. The old `end`, if any, now links to the new node, even when `remove` has unlinked it. On an empty chain the new node becomes `start`. If the old `end` is the chain's last node, the chain is extended by the new node. If the old `end` was unlinked and the chain is not empty, the chain is unchanged. On a tidy list the chain always grows by exactly the new node |
| LinkedList.LinkedList.Search | LinkedList.py:94-100 | returns the first node on the chain with the key, or `None` if none has it |
| LinkedList.LinkedList.Remove | LinkedList.py:104-117 | unlinks and returns the first node with the key; the chain becomes the old chain without that node, order kept. With no such node it returns `None` and changes nothing. `end` and `count` never change |
| LinkedList.LinkedList.Unlink | LinkedList.py:110-113 | relinking past the node at a position removes exactly that node from the chain |
| LinkedList.LinkedList.RemoveTidy | LinkedList.py:104-117 | corrected `remove`: it removes exactly as `remove` does, and it keeps `end` on the last node and `count` equal to the chain's length |
| LinkedList.InsertAfterTailRemoval | LinkedList.py:86-90 | after `insert(1)`, `insert(2)`, `remove(2)`, `insert(3)`, `search(3)` finds nothing |
| LinkedList.InsertAfterOnlyRemoval | LinkedList.py:83-90 | after `insert(1)`, `remove(1)`, `insert(2)`, the emptied chain restarts at the new node and `search(2)` finds it, though `end` still named the removed node |
| LinkedList.InsertAfterTailRemovalTidy | LinkedList.py:86-90 | with the corrected remove, the same calls find key 3 |

## Findings

| source | as written | input that shows it | evidently intended | confidence | as-written member | corrected member |
|---|---|---|---|---|---|---|
| LinkedList.py:104-117 | `remove` never moves `end` and never decrements `count`. After the last node of a chain of two or more is removed, `end` still names it, and the next `insert` links the new node after that detached node, where no walk from `start` reaches it | `insert(1, d)`, `insert(2, d)`, `remove(2)`, `insert(3, d)`, then `search(3)` returns `None` | removing the last node moves `end` back to the node before it (and `count` drops by one), so that `insert` always appends to the chain | high; not executed | LinkedList.InsertAfterTailRemoval | LinkedList.LinkedList.RemoveTidy |

## Left out

- Printing and string formatting are not modelled, because they are console output only:
  - `Node.__str__` in all three files;
  - `connectingNodes`;
  - `BinaryTree.show`, `Hashtable.show` and `LinkedList.show`.
- The demo code at the end of each file is left out: it is a fixed sequence of calls and prints.
- Trivial getters are inlined: `getKey`, `getValue`, `getNode`, `getRoot`, `getTable`.
- Values (`kwargs`, `data`, the `int` value) are a type parameter. Dict contents and the aliasing of a shared `kwargs` dict are not modelled.
- The float division in `int(start + (end - start) / 2)` is modelled as floor division on integers. The two agree for `0 <= start <= end`; float rounding on huge indices is not modelled.
- Python's `sorted` is modelled by a stable insertion sort. Only its result matters: a sorted permutation, equal to placing the new entry after its equals.
- BalancedTree.Build: `build` links the shared node objects through `left`/`right`. The model builds a tree of list positions instead, so the links are not separate mutable state. The only in-place write to a node after a build, `node.info = ...`, is modelled on the shared list.
- BalancedTree.BinaryTree.Insert: the identity test `node in self.nodes` is modelled as always false, which is what it evaluates to on a fresh node.
- SimpleTree.BinaryTree.Insert: it requires the key to be absent. With an equal key, neither `<` nor `>` holds, and the source's `while True` loop never ends. The table calls it only after a failed search.
- SimpleTree.GetTree: a node's label is its key and value, not the text `str(node)` = key + ": " + value.
- `calcKey` of HashTable.py is the same code as that of Hashtable.py and is modelled once, by `Hashing.CalcKey`.
- SimpleTable.HashTable.Search returns the found arena node by value, not by reference. Node identity is not observable in the model.
- BalancedTable.Hashtable.Search returns the found node by value, not by reference. Node identity is not observable in the model.
- Python strings are modelled as `seq<char>`, and a Dafny `char` is a Unicode scalar value. A Python string holding a lone surrogate code point (U+D800 to U+DFFF) therefore has no counterpart, for `ord` in `calcKey` or for `<`.
- LinkedList keys are a type with equality. Python's `==` between keys of different types (int against str) is not modelled.
- Python integers are unbounded, as Dafny's are, so no overflow is modelled.

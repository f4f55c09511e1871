# Prefix tree (trie) mapping non-empty strings to values

This project models `trie.py`, a prefix tree from strings to arbitrary values, and
proves its operations correct against an abstract map.

The tree is built from nodes. Each node has a map from one character to a child node
and an optional value. A key is stored when the node reached by following its characters
holds a value. The `Trie` owns a root node, which never holds a value, and a count
`size` of stored keys. The operations are:

- insert (`t[k] = v`), which creates missing nodes along the key and overwrites any old value;
- strict lookup (`t[k]`) and defaulting lookup (`t.get(k, d)`);
- delete (`del t[k]`), which prunes nodes that no longer lead to a value;
- `len(t)`;
- `keys()`, `keys_with_prefix(p)` and the depth-first collector behind them;
- `longest_prefix_of(s)`.

Insert, lookup and delete reject the empty key. Delete of an absent key does nothing.

Files:

- `wrappers.dfy`: the general `Option`, `Result` and `Outcome` datatypes. `None` marks "no key ends here".
- `nodes.dfy` (module `TrieNodes`) holds the `Node` datatype and its meaning:
  - `Find` walks one path;
  - `KeysOf` collects the stored paths;
  - `Entries` is the map a node stands for.

  It also holds the pure step functions of insert and delete, and the lemmas about them.
- `trie.dfy` (module `Tries`) holds the `Trie` class with fields `root` and `size`:
  - `Valid()` states that the root holds no value, that every node below the root holds a
    value or has an edge, and that `size == |Contents()|`;
  - `Contents()` is the abstract map;
  - the methods are the operations above, written as loops and recursion in the same shape
    as the source.

The source signals an empty key with `TypeError` and a missing key with `KeyError`. Here
these are the error values `InvalidKey` and `KeyNotFound`.

`get` catches only `KeyError` (trie.py:66-70), so `get("")` raises `TypeError` just as
lookup does, and `Get` returns `InvalidKey` for the empty key.

## Model

| member | source | states |
|---|---|---|
| `TrieNodes.IsDead` | trie.py:59-61 | a node with no edge and no value, the test `_delete` makes before its parent drops the edge, is exactly the empty node that insert creates at trie.py:24 |
| `TrieNodes.DeadFindsNothing` | trie.py:59-61 | nothing is found through a dead node, so dropping the edge to it loses no key |
| `TrieNodes.FindStep` | trie.py:35-43 | lookup step by step: the empty path finds the node's own value; otherwise a missing first edge finds nothing, and an existing one continues the lookup below it |
| `TrieNodes.KeysOf` | trie.py:105-111 | the collected paths hold the empty path exactly when the node itself holds a value, and every other collected path leaves the node along an existing edge |
| `TrieNodes.InsertAt` | trie.py:21-29 | the tree after storing `v` under `k`, on which the walk along `k` finds `v` |
| `TrieNodes.EmptyStoresNothing` | trie.py:13-15 | the root a new trie starts with stores no key |
| `TrieNodes.Entries` | trie.py:6-9 | the map a node stands for: a string is a key exactly when following it ends at a node with a value, and the map gives that value |
| `TrieNodes.KeysOfFind` | trie.py:105-111 | the paths collected by the depth-first walk are exactly the paths on which lookup succeeds |
| `TrieNodes.SubtrieAppend` | trie.py:80-85 | following a prefix and then the rest is following the whole string; a missing edge stays missing |
| `TrieNodes.SubtrieSnoc` | trie.py:35-39 | one step of a descending walk: the next node is the child along the next character, or none when the edge is missing |
| `TrieNodes.SubtrieMissingPrefix` | trie.py:36-38 | once an edge on the path is missing, the key is not found |
| `TrieNodes.FindBelow` | trie.py:80-88 | what is stored under `p + q` is what is stored under `q` below the node at `p` |
| `TrieNodes.StoredPrefixesEndBefore` | trie.py:95-102 | when the walk along `s` stops at a missing edge after `i` characters, no stored prefix of `s` is longer than `i` |
| `TrieNodes.FindInsertAt` | trie.py:17-29 | after storing `v` under `k`, `k` finds `v` and every other string finds what it found before |
| `TrieNodes.EntriesInsertAt` | trie.py:27-29 | insertion updates the denoted map at `k`; the number of keys grows by one exactly when `k` was not stored |
| `TrieNodes.InsertAtPaths` | trie.py:21-25 | after insertion a path exists exactly when it existed before or is a prefix of the key: new nodes appear only along the key |
| `TrieNodes.InsertAtKeepsLive` | trie.py:21-29 | insertion keeps every non-root node holding a value or an edge, and the node it returns is not dead |
| `TrieNodes.ClearValueFinds` | trie.py:50-53 | clearing the value at the end of the key removes exactly that key |
| `TrieNodes.ReplaceChildFinds` | trie.py:57-58 | a child from which `k` was removed, kept under edge `c`, removes exactly `[c] + k` from its parent |
| `TrieNodes.PruneChildFinds` | trie.py:59-61 | dropping the edge to a child that became dead removes exactly `[c] + k`, and that child had stored `k` and nothing else |
| `TrieNodes.EntriesRemove` | trie.py:49-64 | a tree that finds all that another finds except `k` stands for that tree's map without `k`, with one key fewer when `k` was stored |
| `TrieNodes.LiveStoresSomething` | trie.py:59-61 | a node that is not dead, with only live nodes below it, stores at least one key |
| `TrieNodes.NothingStoredMeansNoEdges` | trie.py:64 | with only live nodes below the root, a root that stores no key has no edges: deleting every key leaves a bare root |
| `Tries.Trie.Valid` | trie.py:12-15 | the class invariant: the root holds no value, every node below it holds a value or an edge, and `size` counts the stored keys; so `size` is 0 exactly when the root is bare, with no edge and no value |
| `Tries.Trie.Contents` | trie.py:12-15 | the abstract map of a trie; a valid trie never stores the empty key |
| `Tries.Trie.constructor` | trie.py:13-15 | a new trie is valid and empty: a root with no edges and no value, and `size` 0 |
| `Tries.Trie.Insert` | trie.py:17-29 | empty key: `InvalidKey` and nothing changes; otherwise the map is updated at the key, `size` grows by one exactly when the key was new, and the invariant holds |
| `Tries.Trie.Store` | trie.py:21-29 | the walk of insert yields the tree with the value stored under the key, and reports whether the key was absent before |
| `Tries.Trie.Lookup` | trie.py:31-43 | empty key: `InvalidKey`; a stored key: its value; any other key: `KeyNotFound` |
| `Tries.Trie.Get` | trie.py:66-70 | empty key: `InvalidKey`; otherwise the stored value, or `default` exactly where lookup reports `KeyNotFound` |
| `Tries.Trie.Delete` | trie.py:45-64 | empty key: `InvalidKey`; otherwise the key is removed from the map and `size` drops by one exactly when it was stored; an absent key changes nothing; the invariant holds, so an empty trie is a bare root |
| `Tries.Trie.DeleteFrom` | trie.py:49-62 | removes exactly the key's suffix below the node; decrements `size` exactly when a value is cleared; reports "dead" exactly when a value was cleared and the node ends with no value and no edge; drops only the key's own edge, and only when the child held that key alone; keeps nodes below live |
| `Tries.Trie.Len` | trie.py:72-73 | the count equals the number of stored keys |
| `Tries.Trie.Collect` | trie.py:105-111 | appends, without repetition, exactly the strings `path + k` for the keys `k` stored below the node, and keeps what was collected before |
| `Tries.CollectStep` | trie.py:108-111 | the keys collected from one more child are new and extend the collection to cover that child |
| `Tries.Trie.Keys` | trie.py:75-78 | every stored key exactly once, and as many keys as `size` |
| `Tries.DistinctCount` | trie.py:75-78 | a list without repetitions has as many elements as the set it enumerates |
| `Tries.Trie.KeysWithPrefix` | trie.py:80-89 | exactly the stored keys that start with the prefix, each once; none when the prefix's path is missing; all keys for the empty prefix |
| `Tries.Trie.LongestPrefixOf` | trie.py:91-103 | a prefix of `s` that is empty or stored, and no stored prefix of `s` is longer; so it is `s` when `s` is stored and empty when nothing is |

## Left out

- Python's `None` as the "no value" marker (trie.py:9, 27, 41, 51, 99, 106): the model uses `Option` and insert takes a real value. In the source, storing `None` hides the key from lookup and enumeration. Over a new key, or over a key already holding `None`, it also increments `size`; over a stored key it leaves `size` unchanged. Either way `size` then counts a key that cannot be found, and repeated stores of `None` under one key count it again each time. The model does not reproduce this: it keeps whether a value is present separate from the value itself.
- Iteration order of `keys()` and `keys_with_prefix` (trie.py:108 follows dict insertion order): `Collect` visits children in an unspecified order, so its result is specified as a repetition-free list with the right elements.
- Exception classes and messages: `TypeError` and `KeyError` become the error values `InvalidKey` and `KeyNotFound`.
- Nodes are values, not shared objects. Insert writes the walked path back from the deepest node up. Delete returns each node as it is afterwards. Python nodes are never shared between parents, so no aliasing is lost; only the update in place is replaced by rebuilding the path.
- The shared `path` buffer of `_collect` (trie.py:105-111) is passed by value; each call sees the same path the source's push and pop would give it.
- Keys that are not strings, and `get`'s default of a type other than the value type: Python accepts any object; the model types both.
- The unused imports (`deque`, `Hashable`; trie.py:1, 3) and the `@dataclass` plumbing.

/**
 * The vertices of the prefix tree and their meaning.
 *
 * A node is a value here: its outgoing edges are a map from one character to
 * the child node, and `value` is `Some` exactly when a stored key ends at the
 * node. Every node denotes a finite map from strings (paths below it) to
 * values; `Find` walks one path, `KeysOf` collects every path that ends in a
 * value, and `Entries` is the denoted map.
 */
module TrieNodes {
  import opened Wrappers

  /** A vertex: edges labelled by one character each, and an optional payload. */
  datatype Node<V> = Node(children: map<char, Node<V>>, value: Option<V>)

  /** The node that insert creates for an edge that is missing. */
  function Empty<V>(): Node<V>
  {
    Node(map[], None)
  }

  /** A node with no edges and no value: exactly the empty node that insert creates. */
  predicate IsDead<V>(n: Node<V>): (b: bool)
    ensures b <==> n == Empty()
  {
    |n.children| == 0 && n.value.None?
  }

  /** Every node strictly below `n` holds a value or has an edge. */
  ghost predicate AllLive<V>(n: Node<V>)
  {
    forall c :: c in n.children ==> !IsDead(n.children[c]) && AllLive(n.children[c])
  }

  /** The child along `c`, or a fresh empty node when the edge is missing. */
  function Child<V>(n: Node<V>, c: char): Node<V>
  {
    if c in n.children then n.children[c] else Empty()
  }

  function OrEmpty<V>(o: Option<Node<V>>): Node<V>
  {
    if o.Some? then o.value else Empty()
  }

  /** The node reached from `n` by following the characters of `p`, if every edge exists. */
  function Subtrie<V>(n: Node<V>, p: string): Option<Node<V>>
  {
    if p == [] then Some(n)
    else if p[0] in n.children then Subtrie(n.children[p[0]], p[1..])
    else None
  }

  /** The value stored under path `k` below `n`. */
  function Find<V>(n: Node<V>, k: string): Option<V>
  {
    var s := Subtrie(n, k);
    if s.Some? then s.value.value else None
  }

  /** The paths below `n` that end in a node holding a value. */
  ghost function KeysOf<V>(n: Node<V>): (ks: set<string>)
    ensures [] in ks <==> n.value.Some?
    ensures forall k :: k in ks && k != [] ==> k[0] in n.children
  {
    (if n.value.Some? then {[]} else {}) +
    (set c, k | c in n.children && k in KeysOf(n.children[c]) :: [c] + k)
  }

  /** `m` is the map from strings to values that `n` stands for. */
  ghost predicate Denotes<V>(n: Node<V>, m: map<string, V>)
  {
    && (forall k :: k in m <==> Find(n, k).Some?)
    && (forall k :: k in m ==> Find(n, k) == Some(m[k]))
  }

  /** The map from strings to values that `n` stands for: the keys are `KeysOf(n)`. */
  ghost function Entries<V>(n: Node<V>): (m: map<string, V>)
    ensures forall k :: k in m <==> Find(n, k).Some?
    ensures forall k :: k in m ==> Find(n, k) == Some(m[k])
  {
    EntriesExist(n);
    var m :| Denotes(n, m); m
  }

  /** `n` with `v` stored under `k`, creating the missing nodes along the path. */
  function InsertAt<V>(n: Node<V>, k: string, v: V): (r: Node<V>)
    ensures Find(r, k) == Some(v)
    decreases k
  {
    if k == [] then n.(value := Some(v))
    else n.(children := n.children[k[0] := InsertAt(Child(n, k[0]), k[1..], v)])
  }

  // ---------------------------------------------------------------------------
  // Walking paths

  /** Lookup, one step at a time: the empty path finds the node's own value; otherwise the
      first character picks the edge, a missing edge finds nothing, and the rest is looked up below. */
  lemma FindStep<V>(n: Node<V>, k: string)
    ensures Find(n, k) == if k == [] then n.value
                          else if k[0] in n.children then Find(n.children[k[0]], k[1..]) else None
  {
  }

  /** Following `p` and then `q` is following `p + q`. */
  lemma {:induction false} SubtrieAppend<V>(n: Node<V>, p: string, q: string)
    ensures Subtrie(n, p + q) == if Subtrie(n, p).Some? then Subtrie(Subtrie(n, p).value, q) else None
    decreases p
  {
    if p == [] {
      assert p + q == q;
    } else {
      assert (p + q)[0] == p[0] && (p + q)[1..] == p[1..] + q;
      if p[0] in n.children {
        SubtrieAppend(n.children[p[0]], p[1..], q);
      }
    }
  }

  /** One more step of a walk: the shape of every loop that descends the tree. */
  lemma SubtrieSnoc<V>(n: Node<V>, p: string, c: char)
    ensures Subtrie(n, p + [c]) ==
      if Subtrie(n, p).Some? && c in Subtrie(n, p).value.children
      then Some(Subtrie(n, p).value.children[c]) else None
    ensures OrEmpty(Subtrie(n, p + [c])) == Child(OrEmpty(Subtrie(n, p)), c)
  {
    SubtrieAppend(n, p, [c]);
  }

  /** A walk that has fallen off the tree stays off it. */
  lemma SubtrieMissingPrefix<V>(n: Node<V>, k: string, i: nat)
    requires i <= |k| && Subtrie(n, k[..i]).None?
    ensures Subtrie(n, k).None? && Find(n, k).None?
  {
    SubtrieAppend(n, k[..i], k[i..]);
    assert k[..i] + k[i..] == k;
  }

  /** When the walk along `s` falls off after `i` characters, no longer prefix of `s` is stored. */
  lemma StoredPrefixesEndBefore<V>(n: Node<V>, s: string, i: nat)
    requires i < |s| && Subtrie(n, s[..i + 1]).None?
    ensures forall k :: k <= s && Find(n, k).Some? ==> |k| <= i
  {
    forall k | k <= s && |k| > i ensures Find(n, k).None? {
      assert k[..i + 1] == s[..i + 1];
      SubtrieMissingPrefix(n, k, i + 1);
    }
  }

  /** What is stored below `p` is what is found from the node at `p`. */
  lemma FindBelow<V>(n: Node<V>, p: string, x: string)
    requires p <= x
    ensures Find(n, x) == if Subtrie(n, p).Some? then Find(Subtrie(n, p).value, x[|p|..]) else None
  {
    SubtrieAppend(n, p, x[|p|..]);
    assert p + x[|p|..] == x;
  }

  // ---------------------------------------------------------------------------
  // The abstraction

  /** The collected keys are exactly the paths on which `Find` succeeds. */
  lemma {:induction false} KeysOfFind<V>(n: Node<V>, k: string)
    ensures k in KeysOf(n) <==> Find(n, k).Some?
    decreases k
  {
    if k != [] {
      var c, rest := k[0], k[1..];
      assert k == [c] + rest;
      if c in n.children {
        KeysOfFind(n.children[c], rest);
        if rest in KeysOf(n.children[c]) {
          assert [c] + rest in KeysOf(n);
        }
      }
    }
  }

  /** Nothing can be found through a dead node. */
  lemma DeadFindsNothing<V>(n: Node<V>, k: string)
    requires IsDead(n)
    ensures Find(n, k).None?
  {
  }

  /** The empty node stands for the empty map. */
  lemma EmptyStoresNothing<V>()
    ensures Entries(Empty<V>()) == map[]
  {
    forall k ensures k !in Entries(Empty<V>()) {
      DeadFindsNothing(Empty<V>(), k);
    }
  }

  /** Some finite map collects everything stored below `n`. */
  lemma EntriesExist<V>(n: Node<V>)
    ensures exists m :: Denotes(n, m)
  {
    forall k ensures k in KeysOf(n) <==> Find(n, k).Some? {
      KeysOfFind(n, k);
    }
    var m := map k | k in KeysOf(n) :: Find(n, k).value;
    assert Denotes(n, m);
  }

  /** A node that is not dead and has only live nodes below it stores some key. */
  lemma {:induction false} LiveStoresSomething<V>(n: Node<V>) returns (k: string)
    requires AllLive(n) && !IsDead(n)
    ensures Find(n, k).Some?
    decreases n
  {
    if n.value.Some? {
      k := [];
    } else {
      var c :| c in n.children;
      var rest := LiveStoresSomething(n.children[c]);
      k := [c] + rest;
      FindStep(n, k);
      assert k[0] == c && k[1..] == rest;
    }
  }

  /** Once every key is gone, pruning has left no edge below a live-only node. */
  lemma NothingStoredMeansNoEdges<V>(n: Node<V>)
    requires AllLive(n)
    ensures Entries(n) == map[] ==> n.children == map[]
  {
    if c :| c in n.children {
      var rest := LiveStoresSomething(n.children[c]);
      assert ([c] + rest)[0] == c && ([c] + rest)[1..] == rest;
      FindStep(n, [c] + rest);
      assert [c] + rest in Entries(n);
    }
  }

  // ---------------------------------------------------------------------------
  // The steps of delete

  /** Clearing the value at `n` removes the empty path and nothing else. */
  lemma ClearValueFinds<V>(n: Node<V>)
    ensures forall j :: Find(n.(value := None), j) == if j == [] then None else Find(n, j)
  {
  }

  /** Writing back a child from which `k` was removed removes `[c] + k` and nothing else. */
  lemma ReplaceChildFinds<V>(n: Node<V>, c: char, child': Node<V>, k: string)
    requires c in n.children
    requires forall j :: Find(child', j) == if j == k then None else Find(n.children[c], j)
    ensures forall j ::
              Find(n.(children := n.children[c := child']), j) == if j == [c] + k then None else Find(n, j)
  {
    var n' := n.(children := n.children[c := child']);
    forall j ensures Find(n', j) == if j == [c] + k then None else Find(n, j) {
      if j != [] {
        FindStep(n', j);
        FindStep(n, j);
        assert j == [c] + k <==> j[0] == c && j[1..] == k;
      }
    }
  }

  /** Dropping the edge to a child that became dead after removing `k` removes `[c] + k` and
      nothing else, and that child had stored `k` alone. */
  lemma PruneChildFinds<V>(n: Node<V>, c: char, child': Node<V>, k: string)
    requires c in n.children && IsDead(child')
    requires forall j :: Find(child', j) == if j == k then None else Find(n.children[c], j)
    ensures forall j ::
              Find(n.(children := n.children - {c}), j) == if j == [c] + k then None else Find(n, j)
    ensures forall j :: Find(n.children[c], j).Some? ==> j == k
  {
    var n' := n.(children := n.children - {c});
    forall j ensures Find(n', j) == if j == [c] + k then None else Find(n, j) {
      if j != [] {
        FindStep(n', j);
        FindStep(n, j);
        assert j == [c] + k <==> j[0] == c && j[1..] == k;
        if j[0] == c {
          DeadFindsNothing(child', j[1..]);
        }
      }
    }
    forall j ensures Find(n.children[c], j).Some? ==> j == k {
      DeadFindsNothing(child', j);
    }
  }

  /** A tree that finds everything `n` finds except `k` stands for `n`'s map without `k`. */
  lemma EntriesRemove<V>(n: Node<V>, n': Node<V>, k: string)
    requires forall j :: Find(n', j) == if j == k then None else Find(n, j)
    ensures Entries(n') == Entries(n) - {k}
    ensures |Entries(n')| == |Entries(n)| - if k in Entries(n) then 1 else 0
  {
    var m, m' := Entries(n), Entries(n');
    forall j ensures j in m' <==> j in m && j != k {
      assert Find(n', j) == if j == k then None else Find(n, j);
    }
    forall j | j in m' ensures m'[j] == m[j] {
      assert Find(n', j) == Find(n, j);
    }
    MapWithout(m, m', k);
  }

  lemma MapWithout<K, W>(m: map<K, W>, m': map<K, W>, k: K)
    requires forall j :: j in m' <==> j in m && j != k
    requires forall j :: j in m' ==> m'[j] == m[j]
    ensures m' == m - {k}
    ensures |m'| == |m| - if k in m then 1 else 0
  {
  }

  lemma MapWith<K, W>(m: map<K, W>, m': map<K, W>, k: K, v: W)
    requires forall j :: j in m' <==> j in m || j == k
    requires forall j :: j in m' ==> m'[j] == if j == k then v else m[j]
    ensures m' == m[k := v]
    ensures |m'| == |m| + if k in m then 0 else 1
  {
  }

  // ---------------------------------------------------------------------------
  // Insertion

  /** After storing `v` under `k`, `k` finds `v` and every other path finds what it found before. */
  lemma {:induction false} FindInsertAt<V>(n: Node<V>, k: string, v: V, j: string)
    ensures Find(InsertAt(n, k, v), j) == if j == k then Some(v) else Find(n, j)
    decreases k
  {
    var n' := InsertAt(n, k, v);
    if k == [] {
      if j != [] {
        FindStep(n', j);
        FindStep(n, j);
      }
    } else if j != [] {
      FindStep(n', j);
      FindStep(n, j);
      if j[0] == k[0] {
        FindInsertAt(Child(n, k[0]), k[1..], v, j[1..]);
        assert j == k <==> j[1..] == k[1..];
        if k[0] !in n.children {
          DeadFindsNothing(Empty<V>(), j[1..]);
        }
      }
    }
  }

  /** Insertion is an update of the denoted map. */
  lemma EntriesInsertAt<V>(n: Node<V>, k: string, v: V)
    ensures Entries(InsertAt(n, k, v)) == Entries(n)[k := v]
    ensures |Entries(InsertAt(n, k, v))| == |Entries(n)| + if k in Entries(n) then 0 else 1
  {
    var m, m' := Entries(n), Entries(InsertAt(n, k, v));
    forall j ensures j in m' <==> j in m || j == k {
      FindInsertAt(n, k, v, j);
    }
    forall j | j in m' ensures m'[j] == if j == k then v else m[j] {
      FindInsertAt(n, k, v, j);
    }
    MapWith(m, m', k, v);
  }

  /** Insertion adds nodes only along the key's own path: `p` leads somewhere afterwards
      exactly when it did before or `p` is a prefix of `k`. */
  lemma {:induction false} InsertAtPaths<V>(n: Node<V>, k: string, v: V, p: string)
    ensures Subtrie(InsertAt(n, k, v), p).Some? <==> Subtrie(n, p).Some? || p <= k
    decreases k
  {
    if p != [] && k != [] && p[0] == k[0] {
      InsertAtPaths(Child(n, k[0]), k[1..], v, p[1..]);
      assert p <= k <==> p[1..] <= k[1..];
      if k[0] !in n.children && Subtrie(Empty<V>(), p[1..]).Some? {
        assert p[1..] == [];
      }
    }
  }

  /** Insertion keeps every node below the root live, and the node it returns is not dead. */
  lemma {:induction false} InsertAtKeepsLive<V>(n: Node<V>, k: string, v: V)
    requires AllLive(n)
    ensures AllLive(InsertAt(n, k, v)) && !IsDead(InsertAt(n, k, v))
    decreases k
  {
    if k != [] {
      InsertAtKeepsLive(Child(n, k[0]), k[1..], v);
    }
  }
}

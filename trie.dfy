/**
 * The prefix tree: a root node that is never a key of its own, and a count of
 * the stored keys. Every operation walks the node tree along a key; the
 * abstract value of a trie is `Contents()`, the map from each stored
 * (non-empty) key to its value.
 */
module Tries {
  import opened Wrappers
  import opened TrieNodes

  /** The two ways an operation can fail: an empty key, or a key that is not stored. */
  datatype Error = InvalidKey | KeyNotFound

  /** No string occurs twice. */
  predicate Distinct(s: seq<string>)
  {
    forall i, j :: 0 <= i < j < |s| ==> s[i] != s[j]
  }

  class Trie<V> {
    var root: Node<V>
    var size: nat

    /** The root holds no value, every other node leads to a value, and `size` counts the keys. */
    ghost predicate Valid(): (b: bool)
      reads this
      ensures b ==> (size == 0 <==> root == Empty())
    {
      EmptyStoresNothing<V>();
      && root.value.None?
      && AllLive(root)
      && (NothingStoredMeansNoEdges(root); size == |Entries(root)|)
    }

    /** The stored keys and their values. */
    ghost function Contents(): (m: map<string, V>)
      reads this
      ensures Valid() ==> [] !in m
    {
      Entries(root)
    }

    constructor ()
      ensures Valid() && Contents() == map[] && root.children == map[]
    {
      root := Empty();
      size := 0;
    }

    /** `t[key] = value`: store `value` under `key`, overwriting any value stored there. */
    method Insert(key: string, value: V) returns (r: Outcome<Error>)
      requires Valid()
      modifies this
      ensures Valid()
      ensures key == [] ==> r == Fail(InvalidKey) && root == old(root) && size == old(size)
      ensures key != [] ==> r == Pass && Contents() == old(Contents())[key := value]
      ensures key != [] ==> size == old(size) + if key in old(Contents()) then 0 else 1
      ensures key != [] ==> root == InsertAt(old(root), key, value)
    {
      if key == [] {
        return Fail(InvalidKey);
      }
      var tree, wasAbsent := Store(root, key, value);
      EntriesInsertAt(root, key, value);
      InsertAtKeepsLive(root, key, value);
      root := tree;
      if wasAbsent {
        size := size + 1;
      }
      r := Pass;
    }

    /**
     * The walk of insert: descend along `key`, standing on an empty node
     * wherever an edge is missing, store `value` at the end, and write the
     * path back deepest node first. Reports whether the key was new.
     */
    static method Store(tree: Node<V>, key: string, value: V) returns (tree': Node<V>, wasAbsent: bool)
      ensures tree' == InsertAt(tree, key, value)
      ensures wasAbsent <==> Find(tree, key).None?
    {
      var spine: seq<Node<V>> := [];
      var current := tree;
      var i := 0;
      while i < |key|
        invariant 0 <= i <= |key| && |spine| == i
        invariant forall j :: 0 <= j < i ==> spine[j] == OrEmpty(Subtrie(tree, key[..j]))
        invariant current == OrEmpty(Subtrie(tree, key[..i]))
      {
        SubtrieSnoc(tree, key[..i], key[i]);
        assert key[..i + 1] == key[..i] + [key[i]];
        spine := spine + [current];
        current := Child(current, key[i]);
        i := i + 1;
      }
      assert key[..i] == key;
      wasAbsent := current.value.None?;
      current := current.(value := Some(value));
      while i > 0
        invariant 0 <= i <= |key| && |spine| == |key|
        invariant forall j :: 0 <= j < |key| ==> spine[j] == OrEmpty(Subtrie(tree, key[..j]))
        invariant current == InsertAt(OrEmpty(Subtrie(tree, key[..i])), key[i..], value)
      {
        i := i - 1;
        SubtrieSnoc(tree, key[..i], key[i]);
        assert key[..i + 1] == key[..i] + [key[i]];
        assert key[i..][0] == key[i] && key[i..][1..] == key[i + 1..];
        current := spine[i].(children := spine[i].children[key[i] := current]);
      }
      assert key[..0] == [] && key[0..] == key;
      tree' := current;
    }

    /** `t[key]`: the value stored under `key`. */
    method Lookup(key: string) returns (r: Result<V, Error>)
      ensures key == [] ==> r == Failure(InvalidKey)
      ensures key != [] && key in Contents() ==> r == Success(Contents()[key])
      ensures key != [] && key !in Contents() ==> r == Failure(KeyNotFound)
    {
      if key == [] {
        return Failure(InvalidKey);
      }
      var current := root;
      var i := 0;
      while i < |key|
        invariant 0 <= i <= |key|
        invariant Subtrie(root, key[..i]) == Some(current)
      {
        SubtrieSnoc(root, key[..i], key[i]);
        assert key[..i + 1] == key[..i] + [key[i]];
        if key[i] !in current.children {
          SubtrieMissingPrefix(root, key, i + 1);
          return Failure(KeyNotFound);
        }
        current := current.children[key[i]];
        i := i + 1;
      }
      assert key[..i] == key;
      if current.value.None? {
        return Failure(KeyNotFound);
      }
      return Success(current.value.value);
    }

    /** `t.get(key, default)`: like `Lookup`, but a missing key yields `default`. */
    method Get(key: string, default: V) returns (r: Result<V, Error>)
      ensures key == [] ==> r == Failure(InvalidKey)
      ensures key != [] ==> r == Success(if key in Contents() then Contents()[key] else default)
    {
      r := Lookup(key);
      if r.Failure? && r.error == KeyNotFound {
        r := Success(default);
      }
    }

    /** `del t[key]`: remove `key` if it is stored, pruning the nodes that no longer lead to a value. */
    method Delete(key: string) returns (r: Outcome<Error>)
      requires Valid()
      modifies this
      ensures Valid()
      ensures key == [] ==> r == Fail(InvalidKey) && root == old(root) && size == old(size)
      ensures key != [] ==> r == Pass && Contents() == old(Contents()) - {key}
      ensures key != [] ==> size == old(size) - if key in old(Contents()) then 1 else 0
      ensures key !in old(Contents()) ==> root == old(root) && size == old(size)
      ensures Contents() == map[] ==> root.children == map[]
    {
      if key == [] {
        NothingStoredMeansNoEdges(root);
        return Fail(InvalidKey);
      }
      assert key[0..] == key;
      if key in Entries(root) {
        assert |Entries(root).Keys| > 0;
      }
      var root', _ := DeleteFrom(root, key, 0);
      EntriesRemove(root, root', key);
      root := root';
      NothingStoredMeansNoEdges(root);
      r := Pass;
    }

    /**
     * The recursive step of delete at `node`, which sits at depth `depth` of
     * `key`: returns the node as it is afterwards and whether its parent must
     * drop the edge to it. Decrements `size` when it clears a value; as
     * `size` is a natural number, a stored key below `node` must be counted,
     * which `Delete` knows from `Valid()`.
     */
    method DeleteFrom(node: Node<V>, key: string, depth: nat) returns (node': Node<V>, dead: bool)
      requires depth <= |key|
      requires Find(node, key[depth..]).Some? ==> size > 0
      modifies this`size
      decreases |key| - depth
      ensures size == old(size) - if Find(node, key[depth..]).Some? then 1 else 0
      ensures forall j :: Find(node', j) == if j == key[depth..] then None else Find(node, j)
      ensures dead <==> Find(node, key[depth..]).Some? && IsDead(node')
      ensures Find(node, key[depth..]).None? ==> node' == node
      ensures depth < |key| ==> node'.value == node.value
      ensures AllLive(node) ==> AllLive(node')
      ensures forall c :: c in node'.children ==> c in node.children
      ensures forall c :: c in node.children && c !in node'.children ==>
        depth < |key| && c == key[depth] &&
        forall j :: Find(node.children[c], j).Some? <==> j == key[depth + 1..]
    {
      if depth == |key| {
        if node.value.Some? {
          node' := node.(value := None);
          size := size - 1;
          ClearValueFinds(node);
          return node', |node.children| == 0;
        }
        return node, false;
      }
      var c := key[depth];
      assert key[depth..][0] == c && key[depth..][1..] == key[depth + 1..];
      FindStep(node, key[depth..]);
      if c in node.children {
        var child', shouldDelete := DeleteFrom(node.children[c], key, depth + 1);
        if shouldDelete {
          node' := node.(children := node.children - {c});
          PruneChildFinds(node, c, child', key[depth + 1..]);
          return node', |node'.children| == 0 && node'.value.None?;
        }
        node' := node.(children := node.children[c := child']);
        ReplaceChildFinds(node, c, child', key[depth + 1..]);
        return node', false;
      }
      return node, false;
    }

    /** `len(t)`: the number of stored keys. */
    function Len(): (n: nat)
      reads this
      requires Valid()
      ensures n == |Contents()|
    {
      size
    }

    /**
     * Depth-first collection below `node`, reached by `path`: appends to
     * `result` every stored key below `node`, each prefixed by `path`.
     */
    static method Collect(node: Node<V>, path: string, result: seq<string>) returns (result': seq<string>)
      decreases node
      ensures |result| <= |result'| && result'[..|result|] == result
      ensures Distinct(result'[|result|..])
      ensures forall x :: x in result'[|result|..] <==> path <= x && Find(node, x[|path|..]).Some?
    {
      result' := result;
      if node.value.Some? {
        result' := result' + [path];
      }
      assert result'[|result|..] == if node.value.Some? then [path] else [];
      forall x | path <= x && |x| == |path| ensures x == path && x[|path|..] == [] {
      }
      var todo := node.children.Keys;
      ghost var done: set<char> := {};
      while todo != {}
        invariant todo + done == node.children.Keys && todo !! done
        invariant |result| <= |result'| && result'[..|result|] == result
        invariant Distinct(result'[|result|..])
        invariant forall x :: x in result'[|result|..] <==>
          path <= x && Find(node, x[|path|..]).Some? && (|x| == |path| || x[|path|] in done)
        decreases todo
      {
        var c :| c in todo;
        var before := result';
        result' := Collect(node.children[c], path + [c], result');
        CollectStep(node, path, c, done, result, before, result');
        todo := todo - {c};
        done := done + {c};
      }
    }

    /** `t.keys()`: every stored key, each once. */
    method Keys() returns (ks: seq<string>)
      requires Valid()
      ensures Distinct(ks)
      ensures forall k :: k in ks <==> k in Contents()
      ensures |ks| == size
    {
      ks := Collect(root, [], []);
      forall k ensures k in ks <==> k in Contents() {
        assert k[0..] == k;
      }
      DistinctCount(ks, Contents().Keys);
    }

    /** `t.keys_with_prefix(prefix)`: every stored key that starts with `prefix`, each once. */
    method KeysWithPrefix(prefix: string) returns (ks: seq<string>)
      ensures Distinct(ks)
      ensures forall k :: k in ks <==> k in Contents() && prefix <= k
    {
      var current := root;
      var i := 0;
      while i < |prefix|
        invariant 0 <= i <= |prefix|
        invariant Subtrie(root, prefix[..i]) == Some(current)
      {
        SubtrieSnoc(root, prefix[..i], prefix[i]);
        assert prefix[..i + 1] == prefix[..i] + [prefix[i]];
        if prefix[i] !in current.children {
          forall k | prefix <= k ensures k !in Contents() {
            SubtrieAppend(root, prefix[..i + 1], k[i + 1..]);
            assert prefix[..i + 1] + k[i + 1..] == k;
          }
          return [];
        }
        current := current.children[prefix[i]];
        i := i + 1;
      }
      assert prefix[..i] == prefix;
      ks := Collect(current, prefix, []);
      forall k ensures k in ks <==> k in Contents() && prefix <= k {
        if prefix <= k {
          FindBelow(root, prefix, k);
        }
      }
    }

    /** `t.longest_prefix_of(s)`: the longest stored key that `s` starts with, or "" if none. */
    method LongestPrefixOf(s: string) returns (r: string)
      ensures r <= s
      ensures r == [] || r in Contents()
      ensures forall k :: k in Contents() && k <= s ==> |k| <= |r|
      ensures s in Contents() ==> r == s
    {
      var tree := root;
      var current := tree;
      var longest: string := [];
      var prefix: string := [];
      var i := 0;
      while i < |s|
        invariant 0 <= i <= |s| && prefix == s[..i]
        invariant Subtrie(tree, prefix) == Some(current)
        invariant longest <= prefix
        invariant longest == [] || Find(tree, longest).Some?
        invariant forall k :: k <= prefix && Find(tree, k).Some? ==> |k| <= |longest|
      {
        SubtrieSnoc(tree, prefix, s[i]);
        if s[i] !in current.children {
          assert s[..i + 1] == prefix + [s[i]];
          StoredPrefixesEndBefore(tree, s, i);
          return longest;
        }
        ghost var was := prefix;
        current := current.children[s[i]];
        prefix := prefix + [s[i]];
        i := i + 1;
        assert prefix == s[..i];
        if current.value.Some? {
          longest := prefix;
        }
        forall k | k <= prefix && Find(tree, k).Some? ensures |k| <= |longest| {
          if |k| == |prefix| {
            assert k == prefix;
          } else {
            assert k <= was;
          }
        }
      }
      assert prefix == s;
      r := longest;
    }
  }

  /** One child's keys join the collection: they are new, and the collection now covers that child. */
  lemma CollectStep<V>(node: Node<V>, path: string, c: char, done: set<char>,
                       result: seq<string>, before: seq<string>, after: seq<string>)
    requires c in node.children && c !in done
    requires |result| <= |before| && before[..|result|] == result
    requires Distinct(before[|result|..])
    requires forall x :: x in before[|result|..] <==>
      path <= x && Find(node, x[|path|..]).Some? && (|x| == |path| || x[|path|] in done)
    requires |before| <= |after| && after[..|before|] == before
    requires Distinct(after[|before|..])
    requires forall x :: x in after[|before|..] <==>
      path + [c] <= x && Find(node.children[c], x[|path + [c]|..]).Some?
    ensures |result| <= |after| && after[..|result|] == result
    ensures Distinct(after[|result|..])
    ensures forall x :: x in after[|result|..] <==>
      path <= x && Find(node, x[|path|..]).Some? && (|x| == |path| || x[|path|] in done + {c})
  {
    var old', new' := before[|result|..], after[|before|..];
    assert after[|result|..] == old' + new';
    forall x | x in new' ensures x !in old' {
      assert |x| > |path| && x[|path|] == c;
    }
    DistinctConcat(old', new');
    forall x ensures x in after[|result|..] <==>
      path <= x && Find(node, x[|path|..]).Some? && (|x| == |path| || x[|path|] in done + {c})
    {
      if path <= x && |x| > |path| {
        assert x[|path|..][1..] == x[|path| + 1..];
        FindStep(node, x[|path|..]);
        assert path + [c] <= x <==> x[|path|] == c;
      }
    }
  }

  lemma DistinctConcat(a: seq<string>, b: seq<string>)
    requires Distinct(a) && Distinct(b)
    requires forall x :: x in b ==> x !in a
    ensures Distinct(a + b)
  {
    forall i, j | 0 <= i < j < |a + b| ensures (a + b)[i] != (a + b)[j] {
      if i < |a| && j >= |a| {
        assert (a + b)[j] in b;
      }
    }
  }

  /** A sequence without repetitions has as many elements as the set it enumerates. */
  lemma {:induction false} DistinctCount(s: seq<string>, keys: set<string>)
    requires Distinct(s)
    requires forall k :: k in s <==> k in keys
    ensures |s| == |keys|
    decreases |s|
  {
    if s != [] {
      var rest := s[1..];
      assert forall k :: k in rest <==> k in keys - {s[0]};
      DistinctCount(rest, keys - {s[0]});
    }
  }
}

/**
 * Trie.kt: a map from non-empty strings to values, stored one character per
 * node. The nodes live in the arena `nodes` (the root at index 0); the ghost
 * map `index` names the live nodes by their paths, and Contents() is the map
 * the trie stands for.
 */
module Tries {
  import opened Options
  import opened TrieNodes
  import opened TrieIndex
  import opened TriePut
  import opened TrieRemove
  import opened TrieGather

  class Trie<T> {
    var nodes: seq<Node<T>>
    ghost var index: map<seq<char>, nat>

    ghost predicate Valid()
      reads this
    {
      TrieInv(nodes, index)
    }

    /** The stored keys with their values. */
    ghost function Contents(): map<seq<char>, T>
      reads this
    {
      TrieIndex.Contents(nodes, index)
    }

    /** A new trie holds a fresh root and no key. */
    constructor ()
      ensures Valid() && Contents() == map[]
      ensures nodes == [Node([], None, 0, [], None)]
    {
      nodes := [Node([], None, 0, [], None)];
      index := map[[] := 0];
      new;
      FreshTrie(nodes);
    }

    /** Forgets every key: the trie gets a fresh root. */
    method Clear()
      modifies this
      ensures Valid() && Contents() == map[]
      ensures nodes == [Node([], None, 0, [], None)]
    {
      nodes := [Node([], None, 0, [], None)];
      index := map[[] := 0];
      FreshTrie(nodes);
    }

    /**
     * The length of the longest stored key; -1 on a trie that never held a
     * key and 0 on one whose keys have all been removed.
     */
    function Depth(): (d: int)
      reads this
      requires Valid()
      ensures Contents() != map[] ==> forall k :: k in Contents() ==> |k| <= d
      ensures Contents() != map[] ==> exists k :: k in Contents() && |k| == d
      ensures Contents() == map[] ==> d == -1 || d == 0
    {
      EmptyIffNoRootChildren(nodes, index);
      if nodes[0].next != [] then
        Height(nodes, index, []);
        nodes[0].size - 1
      else
        nodes[0].size - 1
    }

    /** No key is stored. */
    function IsEmpty(): (e: bool)
      reads this
      requires Valid()
      ensures e <==> Contents() == map[]
    {
      EmptyIffNoRootChildren(nodes, index);
      nodes[0].next == []
    }

    /**
     * Stores `value` under `key` and answers the value it replaces; an empty
     * key is refused.
     */
    method Put(key: seq<char>, value: T) returns (r: Result<Option<T>, string>)
      modifies this
      requires Valid()
      ensures Valid()
      ensures key == [] ==> && r == Failure("Cannot add an empty string") && Contents() == old(Contents())
                            && nodes == old(nodes) && index == old(index)
      ensures key != [] ==> && r == Success(if key in old(Contents()) then Some(old(Contents())[key]) else None)
                            && Contents() == old(Contents())[key := value]
    {
      if key == [] {
        return Failure("Cannot add an empty string");
      }
      var arena, paths, lastNode, nextNodeWithMaxDepth, previousValue, q := PutWalk(key, value);
      nodes, index := arena, paths;
      UpdateSizes(lastNode, nextNodeWithMaxDepth, q);
      return Success(previousValue);
    }

    /**
     * The loop of put: walks `key` from the root, adding the nodes that are
     * missing and storing `value` at the last one, on a copy of the arena.
     */
    method PutWalk(key: seq<char>, value: T)
      returns (arena: seq<Node<T>>, ghost paths: map<seq<char>, nat>, lastNode: Option<nat>,
               nextNodeWithMaxDepth: Option<nat>, previousValue: Option<T>, ghost q: seq<char>)
      requires Valid() && key != []
      ensures SizesPending(arena, paths, lastNode, nextNodeWithMaxDepth, q)
      ensures TrieIndex.Contents(arena, paths) == Contents()[key := value]
      ensures previousValue == if key in Contents() then Some(Contents()[key]) else None
    {
      var current: nat := 0;
      previousValue := None;
      lastNode := None;
      nextNodeWithMaxDepth := None;
      arena := nodes;
      paths := index;
      ghost var created := false;
      ghost var c0 := Contents();
      PutStart(arena, paths, key, value);
      for i := 0 to |key|
        invariant PutInv(arena, paths, key, value, c0, i, created, current, previousValue, lastNode, nextNodeWithMaxDepth)
      {
        var reachedEndOfInput := i == |key| - 1;
        var currentCharacter := [key[i]];
        ChildOf(arena, paths, key[..i], key[i]);
        var nextMatchingNode := GetNextNode(arena, arena[current], currentCharacter);
        if nextMatchingNode.None? {
          var valueToInsert := if reachedEndOfInput then Some(value) else None;
          var nextNode := Node(currentCharacter, valueToInsert, |key| - i - 1, [], Some(current));
          PutStepNew(arena, paths, key, value, c0, i, created, current, previousValue, lastNode, nextNodeWithMaxDepth);
          paths := paths[key[..i + 1] := |arena|];
          arena := AddNextNode(arena, current, nextNode);
          current := |arena| - 1;
          created := true;
        } else if reachedEndOfInput {
          PutStepSet(arena, paths, key, value, c0, i, created, current, previousValue, lastNode, nextNodeWithMaxDepth);
          var x := nextMatchingNode.value;
          previousValue := arena[x].value;
          arena := arena[x := arena[x].(value := Some(value))];
        } else {
          PutStepDescend(arena, paths, key, value, c0, i, created, current, previousValue, lastNode, nextNodeWithMaxDepth);
          current := nextMatchingNode.value;
        }
        if reachedEndOfInput {
          lastNode := Some(current);
          nextNodeWithMaxDepth := MaxBySize(arena, arena[current].next);
        }
      }
      q := PutFinish(arena, paths, key, value, c0, created, current, previousValue, lastNode, nextNodeWithMaxDepth);
    }

    /**
     * Recomputes the cached sizes on the way from `current` up to the root,
     * `next` being the child of `current` the walk came from. Every size off
     * that path is already right; afterwards every size is.
     */
    method UpdateSizes(current: Option<nat>, next: Option<nat>, ghost q: seq<char>)
      modifies this
      requires SizesPending(nodes, index, current, next, q)
      ensures Valid()
      ensures index == old(index)
      ensures TrieIndex.Contents(nodes, index) == TrieIndex.Contents(old(nodes), index)
      ensures SameButSizes(old(nodes), nodes)
      decreases if current.Some? then |q| + 1 else 0
    {
      if current.Some? {
        var n := current.value;
        SizesPendingBounds(nodes, index, current, next, q);
        var newSize := NewSize(nodes, n, next);
        var previous := nodes[n].previous;
        ghost var before := nodes;
        nodes := nodes[n := nodes[n].(size := newSize)];
        SizesPendingStep(before, index, current, next, q);
        UpdateSizes(previous, current, Parent(q));
        SameButSizesStep(before, nodes, n, newSize);
      }
    }

    /**
     * The node of `key` reached from the root one character at a time, or
     * None when the path breaks off.
     */
    method PrefixMatchUpTo(key: seq<char>) returns (r: Option<nat>)
      requires Valid()
      ensures r == if key in index then Some(index[key]) else None
      ensures r.Some? ==> r.value < |nodes|
    {
      var current: nat := 0;
      assert key[..0] == [];
      for i := 0 to |key|
        invariant key[..i] in index && current == index[key[..i]]
      {
        ChildOf(nodes, index, key[..i], key[i]);
        var nextSubstring := GetNextNode(nodes, nodes[current], [key[i]]);
        if nextSubstring.None? {
          TrailMissing(nodes, index, key, i);
          return None;
        }
        Snoc(key, i);
        current := nextSubstring.value;
      }
      assert key[..|key|] == key;
      return Some(current);
    }

    /** The value stored under `key`, if any. */
    method GetExactly(key: seq<char>) returns (r: Option<T>)
      requires Valid()
      ensures r == if key in Contents() then Some(Contents()[key]) else None
    {
      var n := PrefixMatchUpTo(key);
      if n.None? {
        return None;
      }
      return nodes[n.value].value;
    }

    /** Whether `key` is stored. */
    method ContainsExactly(key: seq<char>) returns (b: bool)
      requires Valid()
      ensures b <==> key in Contents()
    {
      var r := GetExactly(key);
      return r.Some?;
    }

    /** Every stored key that starts with `prefix`, with its value. */
    method MatchByPrefix(prefix: seq<char>) returns (r: map<seq<char>, T>)
      requires Valid()
      ensures r == StartingWith(Contents(), prefix)
    {
      var n := PrefixMatchUpTo(prefix);
      if n.None? {
        NoKeysBelowMissing(nodes, index, prefix);
        return map[];
      }
      r := GatherAll(n.value, prefix);
    }

    /**
     * Breadth-first from the node `start` at path `startSequence`: every
     * stored key below it, with its value.
     */
    method GatherAll(start: nat, startSequence: seq<char>) returns (results: map<seq<char>, T>)
      requires Valid() && startSequence in index && index[startSequence] == start
      ensures results == StartingWith(Contents(), startSequence)
    {
      results := map[];
      var queue := [(start, startSequence)];
      GatherStart(nodes, index, startSequence);
      while queue != []
        invariant GatherInv(nodes, index, startSequence, queue, results)
        decreases Below(index, queue)
      {
        ghost var before := queue;
        ghost var found := results;
        var current := queue[0];
        queue := queue[1..];
        var node := nodes[current.0];
        var sequence := current.1;
        if Completes(node) {
          results := results[sequence := node.value.value];
        }
        ghost var rest := queue;
        ChildrenInArena(nodes, current.0);
        for i := 0 to |node.next|
          invariant Enqueued(nodes, queue, rest, node.next, sequence, i)
        {
          var next := node.next[i];
          EnqueueStep(nodes, queue, rest, node.next, sequence, i);
          queue := queue + [(next, sequence + nodes[next].text)];
        }
        GatherStep(nodes, index, startSequence, before, queue, found, results);
      }
      GatherDone(nodes, index, startSequence, results);
    }

    /**
     * Whether node `n` still serves keys other than the one being removed:
     * it is the root, it completes a key or it has several children. A live
     * node that does not is a non-root inner node that stores no key and has
     * exactly one child.
     */
    function IsUsedForOtherStrings(n: nat): (b: bool)
      reads this
      requires Valid() && n < |nodes|
      ensures !b ==> n != 0 && !Completes(nodes[n])
      ensures !b ==> forall p :: p in index && index[p] == n ==> p != [] && p !in Contents() && |nodes[n].next| == 1
    {
      n == 0 || Completes(nodes[n]) || |nodes[n].next| > 1
    }

    /**
     * The walk of remove: the nodes of `key[..0]`, ..., `key`, or None when
     * the path breaks off.
     */
    method Trail(key: seq<char>) returns (r: Option<seq<nat>>)
      requires Valid()
      ensures r.None? <==> key !in index
      ensures r.Some? ==> |r.value| == |key| + 1 && Stacked(index, key, r.value)
      ensures r.Some? ==> key in index && r.value[|key|] == index[key]
    {
      var deque := [0];
      var current: nat := 0;
      TrailStart(nodes, index, key);
      for i := 0 to |key|
        invariant Stacked(index, key, deque) && |deque| == i + 1
        invariant key[..i] in index && current == index[key[..i]]
      {
        ChildOf(nodes, index, key[..i], key[i]);
        var nextMatchingNode := GetNextNode(nodes, nodes[current], [key[i]]);
        if nextMatchingNode.None? {
          TrailMissing(nodes, index, key, i);
          return None;
        }
        TrailStep(index, key, i, deque);
        current := nextMatchingNode.value;
        deque := deque + [current];
      }
      TrailEnd(index, key, deque);
      return Some(deque);
    }

    /**
     * The look-back of remove: pops `deque`, the nodes of `key[..0]`, ...,
     * `key[..|key| - 1]`, until a node used for other strings turns up, and
     * answers it with the length `j` of its path.
     */
    method LookBack(key: seq<char>, deque: seq<nat>) returns (j: nat, nodeFromWhichToUnlink: nat)
      requires Valid() && key in index && key != []
      requires Stacked(index, key, deque) && |deque| == |key|
      ensures UnlinkPoint(nodes, index, key, j, nodeFromWhichToUnlink)
    {
      j := |key| - 1;
      UnwindStart(nodes, index, key, deque);
      nodeFromWhichToUnlink := deque[|deque| - 1];
      var stack := deque[..|deque| - 1];
      while !IsUsedForOtherStrings(nodeFromWhichToUnlink)
        invariant Unwinding(nodes, index, key, j, nodeFromWhichToUnlink, stack)
        decreases j
      {
        UnwindStep(nodes, index, key, j, nodeFromWhichToUnlink, stack);
        j := j - 1;
        nodeFromWhichToUnlink := stack[|stack| - 1];
        stack := stack[..|stack| - 1];
      }
    }

    /**
     * The pruning of remove once the key's node is known to complete: the
     * child on `key` below the node LookBack finds is unlinked, and with it
     * every stored key that extends `key`.
     */
    method Unwind(key: seq<char>, deque: seq<nat>)
      modifies this
      requires Valid() && key in index && key != [] && Completes(nodes[index[key]])
      requires Stacked(index, key, deque) && |deque| == |key|
      ensures Valid()
      ensures Contents() == WithoutExtensions(old(Contents()), key)
    {
      var j, nodeFromWhichToUnlink := LookBack(key, deque);
      UnwindFinish(nodes, index, key, j, nodeFromWhichToUnlink);
      UnlinkIsRemoveNextNode(nodes, nodeFromWhichToUnlink, key[j]);
      nodes := nodes[nodeFromWhichToUnlink := RemoveNextNode(nodes, nodes[nodeFromWhichToUnlink], [key[j]])];
      index := Prune(index, key[..j] + [key[j]]);
      UpdateSizes(Some(nodeFromWhichToUnlink), MaxBySize(nodes, nodes[nodeFromWhichToUnlink].next), key[..j]);
    }

    /**
     * Trie.remove as written: when `key` is stored, it answers its value and
     * unlinks the key's branch, which also drops every stored key that
     * extends `key`; otherwise it answers None and changes nothing.
     */
    method RemoveAsWritten(key: seq<char>) returns (r: Option<T>)
      modifies this
      requires Valid()
      ensures Valid()
      ensures r == if key in old(Contents()) then Some(old(Contents())[key]) else None
      ensures key in old(Contents()) ==> Contents() == WithoutExtensions(old(Contents()), key)
      ensures key !in old(Contents()) ==> nodes == old(nodes) && index == old(index)
    {
      ContentsAt(nodes, index, key);
      var trail := Trail(key);
      if trail.None? {
        return None;
      }
      var deque := trail.value;
      var last := deque[|deque| - 1];
      deque := deque[..|deque| - 1];
      if Completes(nodes[last]) {
        r := nodes[last].value;
        assert key != [];
        Unwind(key, deque);
        return r;
      }
      return None;
    }

    /** Forgets the key of node `last`, which keeps its children. */
    method ClearValue(key: seq<char>, last: nat)
      modifies this
      requires Valid() && key in index && key != [] && last == index[key] && nodes[last].next != []
      ensures Valid()
      ensures Contents() == old(Contents()) - {key}
    {
      ghost var oldNodes := nodes;
      nodes := nodes[last := nodes[last].(value := None)];
      ClearValueInv(oldNodes, index, key, last);
    }

    /**
     * Trie.remove with the pruning confined to the key itself: when `key` is
     * stored it answers its value and forgets exactly that key (a node that
     * still has children only loses its value); otherwise it answers None
     * and changes nothing.
     */
    method Remove(key: seq<char>) returns (r: Option<T>)
      modifies this
      requires Valid()
      ensures Valid()
      ensures r == if key in old(Contents()) then Some(old(Contents())[key]) else None
      ensures key in old(Contents()) ==> Contents() == old(Contents()) - {key}
      ensures key !in old(Contents()) ==> nodes == old(nodes) && index == old(index)
    {
      ContentsAt(nodes, index, key);
      var trail := Trail(key);
      if trail.None? {
        return None;
      }
      var deque := trail.value;
      var last := deque[|deque| - 1];
      deque := deque[..|deque| - 1];
      if Completes(nodes[last]) {
        r := nodes[last].value;
        assert last == index[key];
        assert key != [];
        if nodes[last].next != [] {
          ClearValue(key, last);
        } else {
          LeafKeys(nodes, index, key);
          Unwind(key, deque);
        }
        return r;
      }
      return None;
    }
  }

  /** A trie holding "a" and "ab". */
  method TwoKeys() returns (t: Trie<int>)
    ensures fresh(t) && t.Valid() && t.Contents() == map["a" := 1, "ab" := 2]
  {
    t := new Trie<int>();
    var _ := t.Put("a", 1);
    var _ := t.Put("ab", 2);
  }

  /** Removing "a" from a trie that holds "a" and "ab" as Trie.kt does loses "ab" as well. */
  method RemoveAsWrittenExample() returns (left: map<seq<char>, int>)
    ensures left == map[]
  {
    var t := TwoKeys();
    var _ := t.RemoveAsWritten("a");
    left := t.MatchByPrefix("");
    ExampleLeft();
  }

  /** The corrected remove of "a" from a trie that holds "a" and "ab" keeps "ab". */
  method RemoveExample() returns (left: map<seq<char>, int>)
    ensures left == map["ab" := 2]
  {
    var t := TwoKeys();
    var _ := t.Remove("a");
    left := t.MatchByPrefix("");
    ExampleLeft();
  }

  /** What is left of {"a": 1, "ab": 2} after dropping "a" with its extensions, or "a" alone. */
  lemma ExampleLeft()
    ensures StartingWith(WithoutExtensions(map["a" := 1, "ab" := 2], "a"), []) == map[]
    ensures StartingWith(map["a" := 1, "ab" := 2] - {"a"}, []) == map["ab" := 2]
  {
    assert "a" <= "ab";
    assert WithoutExtensions(map["a" := 1, "ab" := 2], "a").Keys == {};
    assert (map["a" := 1, "ab" := 2] - {"a"}).Keys == {"ab"};
  }
}

/**
 * The loop of Trie.put as a sequence of arena states. PutInv is what holds
 * after the first `i` characters of `key` have been walked: while nothing
 * has been created the trie is whole and `current` is the node at
 * `key[..i]`; once a node has been created every later character creates
 * one too, and only the chain of the new path waits for updateSizes.
 */
module TriePut {
  import opened Options
  import opened TrieNodes
  import opened TrieIndex

  ghost predicate PutInv<T>(nodes: seq<Node<T>>, index: map<seq<char>, nat>, key: seq<char>, value: T,
                            c0: map<seq<char>, T>, i: nat, created: bool, current: nat,
                            previousValue: Option<T>, lastNode: Option<nat>, nextMax: Option<nat>)
  {
    && 0 < |key| && i <= |key|
    && PutArena(nodes, index, key, i, created)
    && if i < |key| then PutWalking(nodes, index, key, c0, i, created, current, previousValue)
       else PutDone(nodes, index, key, value, c0, created, previousValue, lastNode, nextMax)
  }

  /** The arena keeps its shape; only the chain of the new path, if any, waits for its sizes. */
  ghost predicate PutArena<T>(nodes: seq<Node<T>>, index: map<seq<char>, nat>, key: seq<char>, i: nat, created: bool)
  {
    && i <= |key|
    && Shape(nodes, index) && nodes[0].value == None
    && SizedExcept(nodes, index, if created then Some(key[..i]) else None)
  }

  /** Part way: `current` is the node at the walked prefix and nothing is stored yet. */
  ghost predicate PutWalking<T>(nodes: seq<Node<T>>, index: map<seq<char>, nat>, key: seq<char>,
                                c0: map<seq<char>, T>, i: nat, created: bool, current: nat, previousValue: Option<T>)
  {
    && i <= |key|
    && key[..i] in index && current == index[key[..i]] && current < |nodes|
    && LeavesCompleteExcept(nodes, index, if created then key[..i] else [])
    && (created ==> nodes[current].next == [])
    && Contents(nodes, index) == c0 && previousValue == None
  }

  /** Done: the key is stored and updateSizes is to start from `lastNode` coming from `nextMax`. */
  ghost predicate PutDone<T>(nodes: seq<Node<T>>, index: map<seq<char>, nat>, key: seq<char>, value: T,
                             c0: map<seq<char>, T>, created: bool,
                             previousValue: Option<T>, lastNode: Option<nat>, nextMax: Option<nat>)
  {
    && key != []
    && LeavesCompleteExcept(nodes, index, [])
    && Contents(nodes, index) == c0[key := value]
    && previousValue == (if key in c0 then Some(c0[key]) else None)
    && lastNode.Some? && lastNode.value < |nodes|
    && if created then
         key in index && lastNode.value == index[key] && nextMax == None
       else
         && Parent(key) in index && lastNode.value == index[Parent(key)]
         && InArena(nodes, nodes[lastNode.value].next)
         && nextMax == MaxBySize(nodes, nodes[lastNode.value].next)
  }

  /** Walking one more character of `key` extends the walked prefix by it. */
  lemma Snoc(key: seq<char>, i: nat)
    requires i < |key|
    ensures key[..i] + [key[i]] == key[..i + 1]
    ensures i == |key| - 1 ==> key[..i + 1] == key && Parent(key) == key[..i]
  {
  }

  /** Before the first character: the trie is whole and `current` is the root. */
  lemma PutStart<T>(nodes: seq<Node<T>>, index: map<seq<char>, nat>, key: seq<char>, value: T)
    requires TrieInv(nodes, index) && key != []
    ensures PutInv(nodes, index, key, value, Contents(nodes, index), 0, false, 0, None, None, None)
  {
    assert key[..0] == [];
  }

  /** No child labelled `key[i]`: a new node is linked under `current`. */
  lemma PutStepNew<T>(nodes: seq<Node<T>>, index: map<seq<char>, nat>, key: seq<char>, value: T,
                      c0: map<seq<char>, T>, i: nat, created: bool, current: nat,
                      previousValue: Option<T>, lastNode: Option<nat>, nextMax: Option<nat>)
    requires PutInv(nodes, index, key, value, c0, i, created, current, previousValue, lastNode, nextMax)
    requires i < |key| && key[..i] + [key[i]] !in index
    ensures var node := Node([key[i]], if i == |key| - 1 then Some(value) else None, |key| - i - 1, [], Some(current));
            var nodes' := AddNextNode(nodes, current, node);
            var index' := index[key[..i + 1] := |nodes|];
            PutInv(nodes', index', key, value, c0, i + 1, true, |nodes|, previousValue,
                   if i == |key| - 1 then Some(|nodes|) else lastNode,
                   if i == |key| - 1 then MaxBySize(nodes', nodes'[|nodes|].next) else nextMax)
  {
    var node := Node([key[i]], if i == |key| - 1 then Some(value) else None, |key| - i - 1, [], Some(current));
    var nodes' := AddNextNode(nodes, current, node);
    Snoc(key, i);
    var index' := index[key[..i + 1] := |nodes|];
    AddChildInv(nodes, index, key[..i], key[i], node);
    if i == |key| - 1 {
      assert key !in index;
      assert key !in c0;
      assert LeavesCompleteExcept(nodes', index', []) by {
        assert nodes'[index'[key]] == node;
      }
    }
  }

  /** The last character already has a node: it takes the new value. */
  lemma PutStepSet<T>(nodes: seq<Node<T>>, index: map<seq<char>, nat>, key: seq<char>, value: T,
                      c0: map<seq<char>, T>, i: nat, created: bool, current: nat,
                      previousValue: Option<T>, lastNode: Option<nat>, nextMax: Option<nat>)
    requires PutInv(nodes, index, key, value, c0, i, created, current, previousValue, lastNode, nextMax)
    requires i == |key| - 1 && key[..i] + [key[i]] in index
    ensures index[key[..i] + [key[i]]] < |nodes| && current < |nodes|
    ensures var x := index[key[..i] + [key[i]]];
            var nodes' := nodes[x := nodes[x].(value := Some(value))];
            && InArena(nodes', nodes'[current].next)
            && PutInv(nodes', index, key, value, c0, i + 1, created, current, nodes[x].value,
                      Some(current), MaxBySize(nodes', nodes'[current].next))
  {
    Snoc(key, i);
    ParentOf(nodes, index, key);
    var x := index[key];
    var nodes' := nodes[x := nodes[x].(value := Some(value))];
    assert !created;
    SetValueInv(nodes, index, key, value);
    ChildrenInArena(nodes', current);
  }

  /** An inner character already has a node: the walk moves on to it. */
  lemma PutStepDescend<T>(nodes: seq<Node<T>>, index: map<seq<char>, nat>, key: seq<char>, value: T,
                          c0: map<seq<char>, T>, i: nat, created: bool, current: nat,
                          previousValue: Option<T>, lastNode: Option<nat>, nextMax: Option<nat>)
    requires PutInv(nodes, index, key, value, c0, i, created, current, previousValue, lastNode, nextMax)
    requires i < |key| - 1 && key[..i] + [key[i]] in index
    ensures PutInv(nodes, index, key, value, c0, i + 1, created, index[key[..i] + [key[i]]],
                   previousValue, lastNode, nextMax)
  {
    Snoc(key, i);
    ParentOf(nodes, index, key[..i + 1]);
    assert Parent(key[..i + 1]) == key[..i];
    assert !created;
  }

  /** After the loop: the chain that updateSizes walks starts at the last node. */
  lemma PutFinish<T>(nodes: seq<Node<T>>, index: map<seq<char>, nat>, key: seq<char>, value: T,
                     c0: map<seq<char>, T>, created: bool, current: nat,
                     previousValue: Option<T>, lastNode: Option<nat>, nextMax: Option<nat>)
      returns (q: seq<char>)
    requires PutInv(nodes, index, key, value, c0, |key|, created, current, previousValue, lastNode, nextMax)
    ensures lastNode.Some? && q in index && index[q] == lastNode.value
    ensures SizedExcept(nodes, index, Some(q))
    ensures nextMax.Some? ==> nextMax.value in nodes[lastNode.value].next
  {
    if created {
      q := key;
      SizedWholeKey(nodes, index, key);
    } else {
      q := Parent(key);
      SizedWeaken(nodes, index, q);
    }
  }

  lemma SizedWholeKey<T>(nodes: seq<Node<T>>, index: map<seq<char>, nat>, key: seq<char>)
    requires SizedExcept(nodes, index, Some(key[..|key|]))
    ensures SizedExcept(nodes, index, Some(key))
  {
    assert key[..|key|] == key;
  }

  lemma SizedWeaken<T>(nodes: seq<Node<T>>, index: map<seq<char>, nat>, q: seq<char>)
    requires SizedExcept(nodes, index, None)
    ensures SizedExcept(nodes, index, Some(q))
  {
  }
}

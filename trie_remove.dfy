/**
 * The two loops of Trie.remove. The first walks `key` and stacks the node of
 * every prefix; the second pops that stack until it reaches a node that is
 * used for other strings, and the child on `key` below that node is then
 * unlinked.
 */
module TrieRemove {
  import opened Options
  import opened TrieNodes
  import opened TrieIndex

  /** `deque[m]` is the node of `key[..m]`, for every position of the stack. */
  ghost predicate Stacked(index: map<seq<char>, nat>, key: seq<char>, deque: seq<nat>)
  {
    && |deque| <= |key| + 1
    && forall m :: 0 <= m < |deque| ==> key[..m] in index && deque[m] == index[key[..m]]
  }

  /** The walk starts with the root alone on the stack. */
  lemma TrailStart<T>(nodes: seq<Node<T>>, index: map<seq<char>, nat>, key: seq<char>)
    requires Shape(nodes, index)
    ensures Stacked(index, key, [0]) && key[..0] in index && index[key[..0]] == 0
  {
    assert key[..0] == [];
  }

  /** Finding the child labelled `key[i]` pushes the node of `key[..i + 1]`. */
  lemma TrailStep(index: map<seq<char>, nat>, key: seq<char>, i: nat, deque: seq<nat>)
    requires Stacked(index, key, deque) && |deque| == i + 1 && i < |key|
    requires key[..i] + [key[i]] in index
    ensures key[..i + 1] == key[..i] + [key[i]]
    ensures Stacked(index, key, deque + [index[key[..i] + [key[i]]]])
  {
    assert key[..i + 1] == key[..i] + [key[i]];
  }

  /** A missing child on the way means the key has no node. */
  lemma TrailMissing<T>(nodes: seq<Node<T>>, index: map<seq<char>, nat>, key: seq<char>, i: nat)
    requires Shape(nodes, index) && i < |key| && key[..i] + [key[i]] !in index
    ensures key !in index
  {
    assert key[..i + 1] == key[..i] + [key[i]];
  }

  /** With every character walked, the top of the stack is the node of `key`. */
  lemma TrailEnd(index: map<seq<char>, nat>, key: seq<char>, deque: seq<nat>)
    requires Stacked(index, key, deque) && |deque| == |key| + 1
    ensures key in index && deque[|key|] == index[key]
  {
    assert key[..|key|] == key;
  }

  /**
   * The pop loop of remove: `from`, the node of `key[..j]`, was popped last,
   * `deque` still holds the nodes of the shorter prefixes, and no node
   * strictly between `key[..j]` and `key` is used for other strings.
   */
  ghost predicate Unwinding<T>(nodes: seq<Node<T>>, index: map<seq<char>, nat>, key: seq<char>,
                               j: nat, from: nat, deque: seq<nat>)
  {
    && Shape(nodes, index) && key in index && j < |key|
    && Stacked(index, key, deque) && |deque| == j
    && key[..j] in index && from == index[key[..j]] && from < |nodes|
    && Unused(nodes, index, key, j)
  }

  /**
   * Where the pop loop stops: `from`, the node of `key[..j]`, is used for
   * other strings and no node strictly between it and `key` is.
   */
  ghost predicate UnlinkPoint<T>(nodes: seq<Node<T>>, index: map<seq<char>, nat>, key: seq<char>, j: nat, from: nat)
  {
    && Shape(nodes, index) && key in index && j < |key|
    && key[..j] in index && from == index[key[..j]] && from < |nodes|
    && Unused(nodes, index, key, j)
    && (from == 0 || Completes(nodes[from]) || |nodes[from].next| > 1)
  }

  /** The first pop: the parent of the key's node. */
  lemma UnwindStart<T>(nodes: seq<Node<T>>, index: map<seq<char>, nat>, key: seq<char>, deque: seq<nat>)
    requires Shape(nodes, index) && key in index && key != []
    requires Stacked(index, key, deque) && |deque| == |key|
    ensures Unwinding(nodes, index, key, |key| - 1, deque[|key| - 1], deque[..|key| - 1])
  {
  }

  /** A node that is not used for other strings is not the root, so there is a node above it to pop. */
  lemma UnwindStep<T>(nodes: seq<Node<T>>, index: map<seq<char>, nat>, key: seq<char>,
                      j: nat, from: nat, deque: seq<nat>)
    requires Unwinding(nodes, index, key, j, from, deque)
    requires !(from == 0 || Completes(nodes[from]) || |nodes[from].next| > 1)
    ensures 0 < j && 0 < |deque|
    ensures Unwinding(nodes, index, key, j - 1, deque[|deque| - 1], deque[..|deque| - 1])
  {
    assert key[..j] != [];
  }

  /**
   * After the pop loop: unlinking the child on `key` below the used node
   * `from` drops exactly the stored keys that extend `key`, and leaves the
   * arena as updateSizes expects it, starting at `from`.
   */
  lemma UnwindFinish<T>(nodes: seq<Node<T>>, index: map<seq<char>, nat>, key: seq<char>, j: nat, from: nat)
    requires TrieInv(nodes, index) && UnlinkPoint(nodes, index, key, j, from)
    ensures from < |nodes| && InArena(nodes, nodes[from].next)
    ensures var nodes' := Unlink(nodes, from, key[j]);
            var index' := Prune(index, key[..j] + [key[j]]);
            && from < |nodes'| && InArena(nodes', nodes'[from].next)
            && SizesPending(nodes', index', Some(from), MaxBySize(nodes', nodes'[from].next), key[..j])
            && Contents(nodes', index') == WithoutExtensions(Contents(nodes, index), key)
  {
    UnwindPending(nodes, index, key[..j], key[j]);
    UnwindContents(nodes, index, key, j);
  }

  /** Unlinking below a used node leaves updateSizes to start at that node. */
  lemma UnwindPending<T>(nodes: seq<Node<T>>, index: map<seq<char>, nat>, q: seq<char>, c: char)
    requires TrieInv(nodes, index) && q in index
    requires q == [] || Completes(nodes[index[q]]) || |nodes[index[q]].next| > 1
    ensures InArena(nodes, nodes[index[q]].next)
    ensures var nodes' := Unlink(nodes, index[q], c);
            var index' := Prune(index, q + [c]);
            && index[q] < |nodes'| && InArena(nodes', nodes'[index[q]].next)
            && SizesPending(nodes', index', Some(index[q]), MaxBySize(nodes', nodes'[index[q]].next), q)
  {
    UnlinkInv(nodes, index, q, c);
    UnlinkUsedLeaves(nodes, index, q, c);
    ChildrenInArena(Unlink(nodes, index[q], c), index[q]);
  }

  /** Unlinking `key[j]` below `key[..j]` drops the stored keys that extend `key`. */
  lemma UnwindContents<T>(nodes: seq<Node<T>>, index: map<seq<char>, nat>, key: seq<char>, j: nat)
    requires Shape(nodes, index) && key in index && j < |key| && Unused(nodes, index, key, j)
    ensures key[..j] in index && InArena(nodes, nodes[index[key[..j]]].next)
    ensures Contents(Unlink(nodes, index[key[..j]], key[j]), Prune(index, key[..j] + [key[j]]))
            == WithoutExtensions(Contents(nodes, index), key)
  {
    assert key[..j + 1] == key[..j] + [key[j]];
    ChildrenInArena(nodes, index[key[..j]]);
    UnlinkContents(nodes, index, key[..j], key[j]);
    PrunedKeys(nodes, index, key, j);
  }

  /** The node unlinked from stays a leaf only if it is the root or completes. */
  lemma UnlinkUsedLeaves<T>(nodes: seq<Node<T>>, index: map<seq<char>, nat>, q: seq<char>, c: char)
    requires Shape(nodes, index) && q in index
    requires q == [] || Completes(nodes[index[q]]) || |nodes[index[q]].next| > 1
    requires InArena(nodes, nodes[index[q]].next)
    requires LeavesCompleteExcept(Unlink(nodes, index[q], c), Prune(index, q + [c]), q)
    ensures LeavesCompleteExcept(Unlink(nodes, index[q], c), Prune(index, q + [c]), [])
  {
    if |nodes[index[q]].next| > 1 {
      UnlinkKeepsSibling(nodes, nodes[index[q]].next, c);
    }
  }

  /** Below a chain of unused nodes, extending `key[..j + 1]` is the same as extending `key`. */
  lemma PrunedKeys<T>(nodes: seq<Node<T>>, index: map<seq<char>, nat>, key: seq<char>, j: nat)
    requires Shape(nodes, index) && key in index && j < |key| && Unused(nodes, index, key, j)
    ensures WithoutExtensions(Contents(nodes, index), key[..j + 1])
            == WithoutExtensions(Contents(nodes, index), key)
  {
    forall k | k in Contents(nodes, index) ensures key[..j + 1] <= k <==> key <= k {
      if key[..j + 1] <= k {
        PrunedKey(nodes, index, key, j, j + 1, k);
      }
    }
  }

  /** Below a leaf the only stored key that extends `key` is `key`. */
  lemma LeafKeys<T>(nodes: seq<Node<T>>, index: map<seq<char>, nat>, key: seq<char>)
    requires Shape(nodes, index) && key in index && nodes[index[key]].next == []
    ensures WithoutExtensions(Contents(nodes, index), key)
            == Contents(nodes, index) - {key}
  {
    forall k | k in Contents(nodes, index) && key <= k ensures k == key {
      LeafNoExtension(nodes, index, key, k);
    }
  }
}

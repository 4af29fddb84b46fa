/**
 * The abstraction of a Trie arena. A ghost map `index` sends every key path
 * that reaches a live node (one still linked below the root) to that node's
 * index; the stored keys are the paths whose node completes. The predicates
 * here are the invariants Trie.kt keeps, and the lemmas show that the
 * arena updates made by put and remove keep them.
 */
module TrieIndex {
  import opened Options
  import opened TrieNodes

  /** Every path of `index` names a node of the arena. */
  ghost predicate InBounds<T>(nodes: seq<Node<T>>, index: map<seq<char>, nat>)
  {
    forall k :: k in index ==> index[k] < |nodes|
  }

  /** Every path of `index` names a node whose path from the root is that path. */
  ghost predicate PathsOk<T>(nodes: seq<Node<T>>, index: map<seq<char>, nat>)
  {
    && InBounds(nodes, index)
    && forall k :: k in index ==> PathTo(nodes, index[k]) == k
  }

  /** Every prefix of a path of `index` is a path of `index`. */
  ghost predicate PrefixClosed(index: map<seq<char>, nat>)
  {
    forall k, m :: k in index && 0 <= m <= |k| ==> k[..m] in index
  }

  /** Every child of a live node is live, under the parent's path extended by the child's text. */
  ghost predicate ChildrenLive<T>(nodes: seq<Node<T>>, index: map<seq<char>, nat>)
  {
    forall k, i :: k in index && index[k] < |nodes| && 0 <= i < |nodes[index[k]].next| ==>
      var x := nodes[index[k]].next[i];
      x < |nodes| && k + nodes[x].text in index && index[k + nodes[x].text] == x
  }

  /** Every live node but the root is among the children of the node of its parent path. */
  ghost predicate ParentsLink<T>(nodes: seq<Node<T>>, index: map<seq<char>, nat>)
  {
    forall k {:trigger Parent(k)} :: k in index && k != [] && Parent(k) in index && index[Parent(k)] < |nodes| ==>
      index[k] in nodes[index[Parent(k)]].next
  }

  /** A path without its last character. */
  function Parent(k: seq<char>): (p: seq<char>)
    ensures k != [] ==> |p| == |k| - 1 && p + [k[|k| - 1]] == k
  {
    if k == [] then [] else k[..|k| - 1]
  }

  /**
   * `index` describes the live part of the arena: it holds the root under the
   * empty path, every node it names has that path, it is closed under
   * prefixes, and the children of live nodes are exactly the live nodes one
   * character further down.
   */
  ghost predicate Shape<T>(nodes: seq<Node<T>>, index: map<seq<char>, nat>)
  {
    && WellFormed(nodes)
    && [] in index && index[[]] == 0
    && PathsOk(nodes, index)
    && PrefixClosed(index)
    && ChildrenLive(nodes, index)
    && ParentsLink(nodes, index)
  }

  /** The stored keys with their values. */
  ghost function Contents<T>(nodes: seq<Node<T>>, index: map<seq<char>, nat>): map<seq<char>, T>
  {
    map k | k in index && index[k] < |nodes| && nodes[index[k]].value.Some? :: nodes[index[k]].value.value
  }

  /** The entries of `c` whose key does not start with `p`. */
  ghost function WithoutExtensions<T>(c: map<seq<char>, T>, p: seq<char>): (r: map<seq<char>, T>)
    ensures forall k :: k in r <==> k in c && !(p <= k)
    ensures forall k :: k in r ==> r[k] == c[k]
  {
    map k | k in c && !(p <= k) :: c[k]
  }

  /** The entries of `c` whose key starts with `p`. */
  ghost function StartingWith<T>(c: map<seq<char>, T>, p: seq<char>): (r: map<seq<char>, T>)
    ensures forall k :: k in r <==> k in c && p <= k
    ensures forall k :: k in r ==> r[k] == c[k]
  {
    map k | k in c && p <= k :: c[k]
  }

  /** The cached size of node `n` is one more than the largest size of its children. */
  ghost predicate SizeOk<T>(nodes: seq<Node<T>>, n: nat)
  {
    n < |nodes| && InArena(nodes, nodes[n].next) && nodes[n].size == 1 + MaxSize(nodes, nodes[n].next)
  }

  /** The root as `clear` creates it: no children and size 0. */
  ghost predicate FreshRoot<T>(nodes: seq<Node<T>>)
  {
    |nodes| > 0 && nodes[0].next == [] && nodes[0].size == 0
  }

  /**
   * Every live node off the chain of prefixes of `chain` has a correct size
   * (the root may instead still be fresh).
   */
  ghost predicate SizedExcept<T>(nodes: seq<Node<T>>, index: map<seq<char>, nat>, chain: Option<seq<char>>)
  {
    forall k :: k in index && !(chain.Some? && k <= chain.value) ==>
      SizeOk(nodes, index[k]) || (k == [] && FreshRoot(nodes))
  }

  /** Every live leaf but the root and the node at `except` completes a key. */
  ghost predicate LeavesCompleteExcept<T>(nodes: seq<Node<T>>, index: map<seq<char>, nat>, except: seq<char>)
  {
    forall k :: k in index && index[k] < |nodes| && k != [] && k != except && nodes[index[k]].next == [] ==>
      Completes(nodes[index[k]])
  }

  /** The invariant of a Trie between operations. */
  ghost predicate TrieInv<T>(nodes: seq<Node<T>>, index: map<seq<char>, nat>)
  {
    && Shape(nodes, index)
    && nodes[0].value == None
    && SizedExcept(nodes, index, None)
    && LeavesCompleteExcept(nodes, index, [])
  }

  /** The paths of `index` that do not extend `p`: what is left after unlinking the node at `p`. */
  ghost function Prune(index: map<seq<char>, nat>, p: seq<char>): (r: map<seq<char>, nat>)
    ensures forall k :: k in r <==> k in index && !(p <= k)
  {
    map k | k in index && !(p <= k) :: index[k]
  }

  /** The arena `clear` makes: a fresh root alone, holding no key. */
  lemma FreshTrie<T>(nodes: seq<Node<T>>)
    requires nodes == [Node([], None, 0, [], None)]
    ensures TrieInv(nodes, map[[] := 0]) && Contents(nodes, map[[] := 0]) == map[]
  {
    assert WellFormed(nodes);
    assert PathsOk(nodes, map[[] := 0]);
    assert PrefixClosed(map[[] := 0]);
    assert ChildrenLive(nodes, map[[] := 0]);
    assert ParentsLink(nodes, map[[] := 0]);
  }

  // ---------------------------------------------------------------------------
  // Facts that follow from Shape

  lemma IndexInjective<T>(nodes: seq<Node<T>>, index: map<seq<char>, nat>, k1: seq<char>, k2: seq<char>)
    requires Shape(nodes, index) && k1 in index && k2 in index && index[k1] == index[k2]
    ensures k1 == k2
  {
  }

  /** The parent of a live non-root node is the node of the path one shorter. */
  lemma ParentOf<T>(nodes: seq<Node<T>>, index: map<seq<char>, nat>, k: seq<char>)
    requires Shape(nodes, index) && k in index && k != []
    ensures k[..|k| - 1] in index
    ensures index[k] in nodes[index[k[..|k| - 1]]].next
    ensures nodes[index[k]].previous == Some(index[k[..|k| - 1]])
    ensures nodes[index[k]].text == [k[|k| - 1]]
  {
    var p := Parent(k);
    assert p in index;
    var x := index[k];
    assert x in nodes[index[p]].next;
    assert PathTo(nodes, x) == PathTo(nodes, index[p]) + nodes[x].text;
  }

  /** Every child of a live node is live, under its parent's path extended by its text. */
  lemma ChildIsLive<T>(nodes: seq<Node<T>>, index: map<seq<char>, nat>, k: seq<char>, i: nat)
    requires Shape(nodes, index) && k in index && i < |nodes[index[k]].next|
    ensures var x := nodes[index[k]].next[i];
            |nodes[x].text| == 1 && k + nodes[x].text in index && index[k + nodes[x].text] == x
  {
    var x := nodes[index[k]].next[i];
    assert index[k] < x;
  }

  /** GetNextNode on a live node finds exactly the live path one character further. */
  lemma ChildOf<T>(nodes: seq<Node<T>>, index: map<seq<char>, nat>, k: seq<char>, c: char)
    requires Shape(nodes, index) && k in index
    ensures InArena(nodes, nodes[index[k]].next)
    ensures GetNextNode(nodes, nodes[index[k]], [c]) == if k + [c] in index then Some(index[k + [c]]) else None
  {
    var n := index[k];
    var kids := nodes[n].next;
    ChildrenInArena(nodes, n);
    var f := GetNextNode(nodes, nodes[n], [c]);
    if k + [c] in index {
      ParentOf(nodes, index, k + [c]);
      assert (k + [c])[..|k|] == k;
      var x := index[k + [c]];
      var i :| 0 <= i < |kids| && kids[i] == x;
      var j :| 0 <= j < |kids| && kids[j] == f.value;
      SameLabelSameChild(nodes, kids, i, j);
    }
  }

  /** Only texts, parents and children matter to the shape. */
  lemma ShapeFrame<T>(nodes: seq<Node<T>>, nodes': seq<Node<T>>, index: map<seq<char>, nat>)
    requires Shape(nodes, index) && |nodes'| == |nodes|
    requires forall m :: 0 <= m < |nodes| ==>
      nodes'[m].text == nodes[m].text && nodes'[m].previous == nodes[m].previous && nodes'[m].next == nodes[m].next
    ensures Shape(nodes', index)
  {
    assert WellFormed(nodes') by {
      forall m | 0 <= m < |nodes'| ensures DistinctLabels(nodes', nodes'[m].next) {
        assert DistinctLabels(nodes, nodes[m].next);
      }
    }
    forall k' | k' in index ensures PathTo(nodes', index[k']) == k' {
      PathToFrame(nodes, nodes', index[k']);
    }
  }

  /** Only values and children matter to the stored keys and to which leaves complete. */
  lemma ValueFrame<T>(nodes: seq<Node<T>>, nodes': seq<Node<T>>, index: map<seq<char>, nat>, except: seq<char>)
    requires InBounds(nodes, index) && |nodes'| == |nodes|
    requires forall m :: 0 <= m < |nodes| ==> nodes'[m].value == nodes[m].value && nodes'[m].next == nodes[m].next
    ensures InBounds(nodes', index)
    ensures Contents(nodes', index) == Contents(nodes, index)
    ensures LeavesCompleteExcept(nodes', index, except) == LeavesCompleteExcept(nodes, index, except)
  {
  }

  // ---------------------------------------------------------------------------
  // put: a new leaf under a live node

  /** The facts every put lemma starts from: a fresh leaf labelled `c` under the live node at `k`. */
  ghost predicate NewLeaf<T>(nodes: seq<Node<T>>, index: map<seq<char>, nat>, k: seq<char>, c: char, node: Node<T>)
  {
    && Shape(nodes, index) && k in index && k + [c] !in index
    && node.text == [c] && node.next == [] && node.previous == Some(index[k])
  }

  lemma AddChildWellFormed<T>(nodes: seq<Node<T>>, index: map<seq<char>, nat>, k: seq<char>, c: char, node: Node<T>)
    requires NewLeaf(nodes, index, k, c, node)
    ensures WellFormed(AddNextNode(nodes, index[k], node))
    ensures PathsOk(AddNextNode(nodes, index[k], node), index[k + [c] := |nodes|])
  {
    var n := index[k];
    var nodes' := AddNextNode(nodes, n, node);
    var index' := index[k + [c] := |nodes|];
    ChildOf(nodes, index, k, c);
    AddNextNodeWellFormed(nodes, n, node);
    forall k' | k' in index' ensures PathTo(nodes', index'[k']) == k' {
      if k' == k + [c] {
        PathToFrame(nodes, nodes', n);
        assert PathTo(nodes', |nodes|) == PathTo(nodes', n) + [c];
      } else {
        PathToFrame(nodes, nodes', index[k']);
      }
    }
  }

  lemma AddChildLinks<T>(nodes: seq<Node<T>>, index: map<seq<char>, nat>, k: seq<char>, c: char, node: Node<T>)
    requires NewLeaf(nodes, index, k, c, node)
    requires WellFormed(AddNextNode(nodes, index[k], node))
    ensures InBounds(AddNextNode(nodes, index[k], node), index[k + [c] := |nodes|])
    ensures PrefixClosed(index[k + [c] := |nodes|])
    ensures ChildrenLive(AddNextNode(nodes, index[k], node), index[k + [c] := |nodes|])
    ensures ParentsLink(AddNextNode(nodes, index[k], node), index[k + [c] := |nodes|])
  {
    AddChildParents(nodes, index, k, c, node);
    var n := index[k];
    var nodes' := AddNextNode(nodes, n, node);
    var index' := index[k + [c] := |nodes|];
    forall k', m | k' in index' && 0 <= m <= |k'| ensures k'[..m] in index' {
      if k' == k + [c] {
        if m <= |k| {
          assert k'[..m] == k[..m];
        } else {
          assert k'[..m] == k';
        }
      }
    }
    forall k', i | k' in index' && 0 <= i < |nodes'[index'[k']].next|
      ensures var x := nodes'[index'[k']].next[i];
              k' + nodes'[x].text in index' && index'[k' + nodes'[x].text] == x
    {
      var x := nodes'[index'[k']].next[i];
      if k' != k + [c] {
        var m := index[k'];
        if m == n && i == |nodes[n].next| {
          IndexInjective(nodes, index, k', k);
        } else {
          assert x == nodes[m].next[i];
          assert k' + nodes[x].text != k + [c];
        }
      }
    }
  }

  lemma AddChildParents<T>(nodes: seq<Node<T>>, index: map<seq<char>, nat>, k: seq<char>, c: char, node: Node<T>)
    requires NewLeaf(nodes, index, k, c, node)
    ensures ParentsLink(AddNextNode(nodes, index[k], node), index[k + [c] := |nodes|])
  {
    var n := index[k];
    var nodes' := AddNextNode(nodes, n, node);
    var index' := index[k + [c] := |nodes|];
    forall k' {:trigger Parent(k')} | k' in index' && k' != [] && Parent(k') in index' && index'[Parent(k')] < |nodes'|
      ensures index'[k'] in nodes'[index'[Parent(k')]].next
    {
      if k' == k + [c] {
        assert Parent(k') == k;
        assert nodes'[n].next[|nodes[n].next|] == |nodes|;
      } else {
        var p := Parent(k');
        assert k'[..|p|] == p;
        assert p in index;
        assert p != k + [c];
        assert index[k'] in nodes[index[p]].next;
      }
    }
  }

  lemma AddChildShape<T>(nodes: seq<Node<T>>, index: map<seq<char>, nat>, k: seq<char>, c: char, node: Node<T>)
    requires NewLeaf(nodes, index, k, c, node)
    ensures Shape(AddNextNode(nodes, index[k], node), index[k + [c] := |nodes|])
  {
    AddChildWellFormed(nodes, index, k, c, node);
    AddChildLinks(nodes, index, k, c, node);
  }

  /** Contents after a new path to a node whose value is the one it will keep. */
  lemma ContentsAdd<T>(nodes: seq<Node<T>>, nodes': seq<Node<T>>, index: map<seq<char>, nat>, p: seq<char>, x: nat)
    requires InBounds(nodes, index) && p !in index && |nodes| <= |nodes'| && x < |nodes'|
    requires forall m :: 0 <= m < |nodes| ==> nodes'[m].value == nodes[m].value
    ensures InBounds(nodes', index[p := x])
    ensures Contents(nodes', index[p := x])
            == if nodes'[x].value.Some? then Contents(nodes, index)[p := nodes'[x].value.value] else Contents(nodes, index)
  {
  }

  lemma AddChildSized<T>(nodes: seq<Node<T>>, index: map<seq<char>, nat>, k: seq<char>, c: char, node: Node<T>)
    requires NewLeaf(nodes, index, k, c, node)
    requires SizedExcept(nodes, index, Some(k))
    ensures Shape(AddNextNode(nodes, index[k], node), index[k + [c] := |nodes|])
    ensures SizedExcept(AddNextNode(nodes, index[k], node), index[k + [c] := |nodes|], Some(k + [c]))
  {
    var n := index[k];
    var nodes' := AddNextNode(nodes, n, node);
    var index' := index[k + [c] := |nodes|];
    AddChildShape(nodes, index, k, c, node);
    forall k' | k' in index' && !(k' <= k + [c])
      ensures SizeOk(nodes', index'[k'])
    {
      var m := index[k'];
      assert k' != k;
      assert m != n;
      ChildrenInArena(nodes, m);
      assert forall x :: 0 <= x < |nodes| ==> nodes'[x].size == nodes[x].size;
      MaxSizeFrame(nodes, nodes', nodes[m].next);
    }
  }

  lemma AddChildLeaves<T>(nodes: seq<Node<T>>, index: map<seq<char>, nat>, k: seq<char>, c: char, node: Node<T>)
    requires NewLeaf(nodes, index, k, c, node)
    requires LeavesCompleteExcept(nodes, index, k)
    ensures InBounds(AddNextNode(nodes, index[k], node), index[k + [c] := |nodes|])
    ensures LeavesCompleteExcept(AddNextNode(nodes, index[k], node), index[k + [c] := |nodes|], k + [c])
  {
    var n := index[k];
    var nodes' := AddNextNode(nodes, n, node);
    var index' := index[k + [c] := |nodes|];
    forall k' | k' in index' && k' != [] && k' != k + [c] && nodes'[index'[k']].next == []
      ensures Completes(nodes'[index'[k']])
    {
      assert k' != k;
      assert index[k'] != n;
    }
  }

  /** A new leaf adds its key when it carries a value, keeps every size off its path and completes every other leaf. */
  lemma AddChildInv<T>(nodes: seq<Node<T>>, index: map<seq<char>, nat>, k: seq<char>, c: char, node: Node<T>)
    requires NewLeaf(nodes, index, k, c, node)
    requires SizedExcept(nodes, index, Some(k)) && LeavesCompleteExcept(nodes, index, k)
    ensures var nodes' := AddNextNode(nodes, index[k], node);
            var index' := index[k + [c] := |nodes|];
            && Shape(nodes', index')
            && Contents(nodes', index') == (if node.value.Some? then Contents(nodes, index)[k + [c] := node.value.value]
                                            else Contents(nodes, index))
            && SizedExcept(nodes', index', Some(k + [c]))
            && LeavesCompleteExcept(nodes', index', k + [c])
            && nodes'[0].value == nodes[0].value
  {
    ContentsAdd(nodes, AddNextNode(nodes, index[k], node), index, k + [c], |nodes|);
    AddChildSized(nodes, index, k, c, node);
    AddChildLeaves(nodes, index, k, c, node);
  }

  // ---------------------------------------------------------------------------
  // put on an existing path: a new value

  /** A new value at a live path: the key is stored with it and nothing else changes. */
  lemma SetValueInv<T>(nodes: seq<Node<T>>, index: map<seq<char>, nat>, k: seq<char>, v: T)
    requires TrieInv(nodes, index) && k in index && k != []
    ensures TrieInv(nodes[index[k] := nodes[index[k]].(value := Some(v))], index)
    ensures Contents(nodes[index[k] := nodes[index[k]].(value := Some(v))], index) == Contents(nodes, index)[k := v]
  {
    assert index[k] != 0;
    ValueShape(nodes, index, index[k], Some(v));
    ValueSized(nodes, index, index[k], Some(v));
    SetValueLeaves(nodes, index, k, v);
    SetValueContents(nodes, index, k, v);
  }

  /** Only texts, parents and children matter to the shape. */
  lemma ValueShape<T>(nodes: seq<Node<T>>, index: map<seq<char>, nat>, n: nat, v: Option<T>)
    requires Shape(nodes, index) && n < |nodes|
    ensures Shape(nodes[n := nodes[n].(value := v)], index)
  {
    ShapeFrame(nodes, nodes[n := nodes[n].(value := v)], index);
  }

  /** Values do not matter to sizes. */
  lemma ValueSized<T>(nodes: seq<Node<T>>, index: map<seq<char>, nat>, n: nat, v: Option<T>)
    requires WellFormed(nodes) && InBounds(nodes, index) && n < |nodes| && SizedExcept(nodes, index, None)
    ensures SizedExcept(nodes[n := nodes[n].(value := v)], index, None)
  {
    forall k' | k' in index
      ensures SizeOk(nodes[n := nodes[n].(value := v)], index[k']) || (k' == [] && FreshRoot(nodes[n := nodes[n].(value := v)]))
    {
      ChildrenInArena(nodes, index[k']);
      SizeOkFrame(nodes, nodes[n := nodes[n].(value := v)], index[k']);
    }
  }

  lemma SetValueLeaves<T>(nodes: seq<Node<T>>, index: map<seq<char>, nat>, k: seq<char>, v: T)
    requires InBounds(nodes, index) && k in index && LeavesCompleteExcept(nodes, index, [])
    ensures LeavesCompleteExcept(nodes[index[k] := nodes[index[k]].(value := Some(v))], index, [])
  {
  }

  lemma SetValueContents<T>(nodes: seq<Node<T>>, index: map<seq<char>, nat>, k: seq<char>, v: T)
    requires InBounds(nodes, index) && k in index
    requires forall k' :: k' in index && index[k'] == index[k] ==> k' == k
    ensures Contents(nodes[index[k] := nodes[index[k]].(value := Some(v))], index) == Contents(nodes, index)[k := v]
  {
  }

  // ---------------------------------------------------------------------------
  // updateSizes

  /**
   * The size Trie.updateSizes gives node `n` when `next` is one of its
   * children or None: one more than the largest size of its children.
   */
  function NewSize<T>(nodes: seq<Node<T>>, n: nat, next: Option<nat>): (r: nat)
    requires n < |nodes| && InArena(nodes, nodes[n].next)
    requires next.Some? ==> next.value in nodes[n].next
    ensures r == 1 + MaxSize(nodes, nodes[n].next)
  {
    var kids := nodes[n].next;
    var newSize := (if next.Some? then nodes[next.value].size else 0) + 1;
    MaxWithout(nodes, kids, next);
    if kids != [] then
      var others := 1 + (if next.Some? then MaxSize(nodes, Without(kids, next.value)) else MaxSize(nodes, kids));
      if newSize >= others then newSize else others
    else
      newSize
  }

  /** A prefix of `q` other than `q` itself is a prefix of `q` without its last character. */
  lemma ProperPrefix(k: seq<char>, q: seq<char>)
    requires k <= q && k != q
    ensures q != [] && k <= q[..|q| - 1]
  {
  }

  /** Only the node itself and its children's sizes matter to SizeOk. */
  lemma SizeOkFrame<T>(nodes: seq<Node<T>>, nodes': seq<Node<T>>, m: nat)
    requires m < |nodes| == |nodes'| && InArena(nodes, nodes[m].next)
    requires nodes'[m].next == nodes[m].next && nodes'[m].size == nodes[m].size
    requires forall i :: 0 <= i < |nodes[m].next| ==> nodes'[nodes[m].next[i]].size == nodes[nodes[m].next[i]].size
    ensures SizeOk(nodes', m) == SizeOk(nodes, m)
  {
    MaxSizeFrame(nodes, nodes', nodes[m].next);
  }

  lemma SetSizeSelf<T>(nodes: seq<Node<T>>, index: map<seq<char>, nat>, q: seq<char>, sz: nat)
    requires Shape(nodes, index) && q in index
    requires InArena(nodes, nodes[index[q]].next) && sz == 1 + MaxSize(nodes, nodes[index[q]].next)
    ensures SizeOk(nodes[index[q] := nodes[index[q]].(size := sz)], index[q])
  {
    var n := index[q];
    var nodes' := nodes[n := nodes[n].(size := sz)];
    assert forall i :: 0 <= i < |nodes[n].next| ==> nodes[n].next[i] != n;
    MaxSizeFrame(nodes, nodes', nodes[n].next);
  }

  lemma SetSizeOther<T>(nodes: seq<Node<T>>, index: map<seq<char>, nat>, q: seq<char>, sz: nat, k': seq<char>)
    requires Shape(nodes, index) && q in index && k' in index
    requires !(k' <= q)
    ensures SizeOk(nodes[index[q] := nodes[index[q]].(size := sz)], index[k']) == SizeOk(nodes, index[k'])
  {
    var n := index[q];
    var m := index[k'];
    ChildrenInArena(nodes, m);
    var nodes' := nodes[n := nodes[n].(size := sz)];
    assert m != n;
    assert n !in nodes[m].next by {
      if q != [] {
        ParentOf(nodes, index, q);
        var p := q[..|q| - 1];
        assert PathTo(nodes, index[p]) == p;
        assert k' != p;
        assert m != index[p];
        assert nodes[n].previous != Some(m);
      } else {
        assert n == 0;
      }
    }
    SizeOkFrame(nodes, nodes', m);
  }

  /**
   * One step of updateSizes: once every node off the path `q` has its size,
   * giving the node at `q` its size leaves only the path to its parent.
   */
  lemma SetSizeStep<T>(nodes: seq<Node<T>>, index: map<seq<char>, nat>, q: seq<char>, sz: nat, except: seq<char>)
    requires Shape(nodes, index) && q in index
    requires SizedExcept(nodes, index, Some(q)) && LeavesCompleteExcept(nodes, index, except)
    requires InArena(nodes, nodes[index[q]].next) && sz == 1 + MaxSize(nodes, nodes[index[q]].next)
    ensures Shape(nodes[index[q] := nodes[index[q]].(size := sz)], index)
    ensures Contents(nodes[index[q] := nodes[index[q]].(size := sz)], index) == Contents(nodes, index)
    ensures SizedExcept(nodes[index[q] := nodes[index[q]].(size := sz)], index, if q == [] then None else Some(q[..|q| - 1]))
    ensures LeavesCompleteExcept(nodes[index[q] := nodes[index[q]].(size := sz)], index, except)
  {
    SetSizeKeeps(nodes, index, index[q], sz, except);
    SetSizeSelf(nodes, index, q, sz);
    SetSizeRest(nodes, index, q, sz);
  }

  /** A new size changes neither the shape, nor the stored keys, nor which leaves complete. */
  lemma SetSizeKeeps<T>(nodes: seq<Node<T>>, index: map<seq<char>, nat>, n: nat, sz: nat, except: seq<char>)
    requires Shape(nodes, index) && n < |nodes|
    ensures Shape(nodes[n := nodes[n].(size := sz)], index)
    ensures Contents(nodes[n := nodes[n].(size := sz)], index) == Contents(nodes, index)
    ensures LeavesCompleteExcept(nodes[n := nodes[n].(size := sz)], index, except)
            == LeavesCompleteExcept(nodes, index, except)
  {
    ShapeFrame(nodes, nodes[n := nodes[n].(size := sz)], index);
    ValueFrame(nodes, nodes[n := nodes[n].(size := sz)], index, except);
  }

  lemma SetSizeRest<T>(nodes: seq<Node<T>>, index: map<seq<char>, nat>, q: seq<char>, sz: nat)
    requires Shape(nodes, index) && q in index && SizedExcept(nodes, index, Some(q))
    requires SizeOk(nodes[index[q] := nodes[index[q]].(size := sz)], index[q])
    ensures SizedExcept(nodes[index[q] := nodes[index[q]].(size := sz)], index, if q == [] then None else Some(q[..|q| - 1]))
  {
    forall k' | k' in index && !(q != [] && k' <= q[..|q| - 1])
      ensures SizeOk(nodes[index[q] := nodes[index[q]].(size := sz)], index[k'])
              || (k' == [] && FreshRoot(nodes[index[q] := nodes[index[q]].(size := sz)]))
    {
      if k' != q {
        if k' <= q {
          ProperPrefix(k', q);
        }
        SetSizeOther(nodes, index, q, sz, k');
      }
    }
  }

  /**
   * What updateSizes expects when called on `current` coming from its child
   * `next`: the node at path `q` is `current`, and every size off the chain
   * of prefixes of `q` is right; with no `current` left, every size is right.
   */
  ghost predicate SizesPending<T>(nodes: seq<Node<T>>, index: map<seq<char>, nat>, current: Option<nat>, next: Option<nat>, q: seq<char>)
  {
    && Shape(nodes, index) && nodes[0].value == None && LeavesCompleteExcept(nodes, index, [])
    && PendingChain(nodes, index, current, next, q)
  }

  ghost predicate PendingChain<T>(nodes: seq<Node<T>>, index: map<seq<char>, nat>, current: Option<nat>, next: Option<nat>, q: seq<char>)
  {
    if current.Some? then
      && q in index && index[q] == current.value && current.value < |nodes|
      && SizedExcept(nodes, index, Some(q))
      && (next.Some? ==> next.value in nodes[current.value].next)
    else
      SizedExcept(nodes, index, None)
  }

  /** One call of updateSizes: the node at `q` gets its size and the walk moves on to the parent. */
  lemma SizesPendingBounds<T>(nodes: seq<Node<T>>, index: map<seq<char>, nat>, current: Option<nat>, next: Option<nat>, q: seq<char>)
    requires SizesPending(nodes, index, current, next, q) && current.Some?
    ensures current.value < |nodes| && InArena(nodes, nodes[current.value].next)
    ensures next.Some? ==> next.value in nodes[current.value].next
  {
    SizesPendingStep(nodes, index, current, next, q);
  }

  lemma SizesPendingStep<T>(nodes: seq<Node<T>>, index: map<seq<char>, nat>, current: Option<nat>, next: Option<nat>, q: seq<char>)
    requires SizesPending(nodes, index, current, next, q) && current.Some?
    ensures current.value < |nodes| && InArena(nodes, nodes[current.value].next)
    ensures next.Some? ==> next.value in nodes[current.value].next
    ensures var n := current.value;
            var nodes' := nodes[n := nodes[n].(size := NewSize(nodes, n, next))];
            && SizesPending(nodes', index, nodes[n].previous, current, Parent(q))
            && Contents(nodes', index) == Contents(nodes, index)
  {
    var n := current.value;
    ChildrenInArena(nodes, n);
    SetSizeStep(nodes, index, q, NewSize(nodes, n, next), []);
    if q != [] {
      ParentOf(nodes, index, q);
    }
  }

  // ---------------------------------------------------------------------------
  // remove: unlinking a child, clearing a value

  /** The arena after `node.next.removeIf { it.string == c }` on node `u`. */
  function Unlink<T>(nodes: seq<Node<T>>, u: nat, c: char): (r: seq<Node<T>>)
    requires u < |nodes| && InArena(nodes, nodes[u].next)
    ensures |r| == |nodes| && r[u] == nodes[u].(next := WithoutLabel(nodes, nodes[u].next, [c]))
    ensures forall m :: 0 <= m < |nodes| && m != u ==> r[m] == nodes[m]
  {
    Relinked(nodes, u, WithoutLabel(nodes, nodes[u].next, [c]))
  }

  /** Unlink is what removeNextNode does to the node it is called on. */
  lemma UnlinkIsRemoveNextNode<T>(nodes: seq<Node<T>>, u: nat, c: char)
    requires u < |nodes| && InArena(nodes, nodes[u].next)
    ensures nodes[u := RemoveNextNode(nodes, nodes[u], [c])] == Unlink(nodes, u, c)
  {
    assert Unlink(nodes, u, c)[u] == RemoveNextNode(nodes, nodes[u], [c]);
  }

  lemma UnlinkWellFormed<T>(nodes: seq<Node<T>>, index: map<seq<char>, nat>, q: seq<char>, c: char)
    requires Shape(nodes, index) && q in index
    ensures InArena(nodes, nodes[index[q]].next)
    ensures WellFormed(Unlink(nodes, index[q], c))
    ensures PathsOk(Unlink(nodes, index[q], c), Prune(index, q + [c]))
  {
    var u := index[q];
    WithoutLabelWellFormed(nodes, u, [c]);
    var nodes' := Unlink(nodes, u, c);
    forall k | k in Prune(index, q + [c]) ensures PathTo(nodes', index[k]) == k {
      PathToFrame(nodes, nodes', index[k]);
    }
  }

  lemma UnlinkChildrenLive<T>(nodes: seq<Node<T>>, index: map<seq<char>, nat>, q: seq<char>, c: char, k': seq<char>, i: nat)
    requires Shape(nodes, index) && q in index
    requires InArena(nodes, nodes[index[q]].next)
    requires k' in Prune(index, q + [c]) && i < |Unlink(nodes, index[q], c)[index[k']].next|
    ensures var nodes' := Unlink(nodes, index[q], c);
            var index' := Prune(index, q + [c]);
            var x := nodes'[index'[k']].next[i];
            x < |nodes'| && k' + nodes'[x].text in index' && index'[k' + nodes'[x].text] == x
  {
    var u := index[q];
    var nodes' := Unlink(nodes, u, c);
    var m := index[k'];
    var x := nodes'[m].next[i];
    assert x in nodes[m].next;
    var i0 :| 0 <= i0 < |nodes[m].next| && nodes[m].next[i0] == x;
    ChildIsLive(nodes, index, k', i0);
    if m == u {
      IndexInjective(nodes, index, k', q);
      assert nodes[x].text != [c];
    } else {
      assert k' != q;
    }
    assert (q + [c])[..|q|] == q;
    assert !(q + [c] <= k' + nodes[x].text);
  }

  lemma UnlinkParentsLink<T>(nodes: seq<Node<T>>, index: map<seq<char>, nat>, q: seq<char>, c: char, k': seq<char>)
    requires Shape(nodes, index) && q in index
    requires InArena(nodes, nodes[index[q]].next)
    requires k' in Prune(index, q + [c]) && k' != [] && Parent(k') in Prune(index, q + [c])
    ensures index[k'] in Unlink(nodes, index[q], c)[index[Parent(k')]].next
  {
    var u := index[q];
    var p := Parent(k');
    var x := index[k'];
    ParentOf(nodes, index, k');
    assert x in nodes[index[p]].next;
    if p == q {
      assert k' != q + [c];
      assert nodes[x].text != [c];
    } else {
      assert index[p] != u;
    }
  }

  lemma UnlinkLinks<T>(nodes: seq<Node<T>>, index: map<seq<char>, nat>, q: seq<char>, c: char)
    requires Shape(nodes, index) && q in index
    ensures InArena(nodes, nodes[index[q]].next)
    ensures PrefixClosed(Prune(index, q + [c]))
    ensures ChildrenLive(Unlink(nodes, index[q], c), Prune(index, q + [c]))
    ensures ParentsLink(Unlink(nodes, index[q], c), Prune(index, q + [c]))
  {
    var u := index[q];
    ChildrenInArena(nodes, u);
    var nodes' := Unlink(nodes, u, c);
    var index' := Prune(index, q + [c]);
    forall k, m | k in index' && 0 <= m <= |k| ensures k[..m] in index' {
      assert k[..m] <= k;
    }
    forall k', i | k' in index' && index'[k'] < |nodes'| && 0 <= i < |nodes'[index'[k']].next|
      ensures var x := nodes'[index'[k']].next[i];
              x < |nodes'| && k' + nodes'[x].text in index' && index'[k' + nodes'[x].text] == x
    {
      UnlinkChildrenLive(nodes, index, q, c, k', i);
    }
    forall k' {:trigger Parent(k')} | k' in index' && k' != [] && Parent(k') in index' && index'[Parent(k')] < |nodes'|
      ensures index'[k'] in nodes'[index'[Parent(k')]].next
    {
      UnlinkParentsLink(nodes, index, q, c, k');
    }
  }

  lemma UnlinkShape<T>(nodes: seq<Node<T>>, index: map<seq<char>, nat>, q: seq<char>, c: char)
    requires Shape(nodes, index) && q in index
    ensures InArena(nodes, nodes[index[q]].next)
    ensures Shape(Unlink(nodes, index[q], c), Prune(index, q + [c]))
  {
    UnlinkWellFormed(nodes, index, q, c);
    UnlinkLinks(nodes, index, q, c);
  }

  lemma UnlinkContents<T>(nodes: seq<Node<T>>, index: map<seq<char>, nat>, q: seq<char>, c: char)
    requires InBounds(nodes, index) && q in index
    requires InArena(nodes, nodes[index[q]].next)
    ensures Contents(Unlink(nodes, index[q], c), Prune(index, q + [c]))
            == WithoutExtensions(Contents(nodes, index), q + [c])
  {
    var nodes' := Unlink(nodes, index[q], c);
    assert forall m :: 0 <= m < |nodes| ==> nodes'[m].value == nodes[m].value;
  }

  lemma UnlinkSized<T>(nodes: seq<Node<T>>, index: map<seq<char>, nat>, q: seq<char>, c: char)
    requires Shape(nodes, index) && q in index && SizedExcept(nodes, index, None)
    requires InArena(nodes, nodes[index[q]].next)
    ensures SizedExcept(Unlink(nodes, index[q], c), Prune(index, q + [c]), Some(q))
  {
    var u := index[q];
    var nodes' := Unlink(nodes, u, c);
    var index' := Prune(index, q + [c]);
    assert forall m :: 0 <= m < |nodes| ==> nodes'[m].size == nodes[m].size;
    forall k' | k' in index' && !(k' <= q)
      ensures SizeOk(nodes', index'[k'])
    {
      var m := index[k'];
      assert m != u;
      ChildrenInArena(nodes, m);
      SizeOkFrame(nodes, nodes', m);
    }
  }

  lemma UnlinkLeaves<T>(nodes: seq<Node<T>>, index: map<seq<char>, nat>, q: seq<char>, c: char)
    requires Shape(nodes, index) && q in index && LeavesCompleteExcept(nodes, index, [])
    requires InArena(nodes, nodes[index[q]].next)
    ensures LeavesCompleteExcept(Unlink(nodes, index[q], c), Prune(index, q + [c]), q)
  {
    var u := index[q];
    var nodes' := Unlink(nodes, u, c);
    var index' := Prune(index, q + [c]);
    forall k' | k' in index' && index'[k'] < |nodes'| && k' != [] && k' != q && nodes'[index'[k']].next == []
      ensures Completes(nodes'[index'[k']])
    {
      assert index[k'] != u;
    }
  }

  /**
   * Unlinking the child labelled `c` from the live node at `q` drops every
   * key that extends `q + [c]`; every size off the path `q` stays right and
   * every other leaf still completes.
   */
  lemma UnlinkInv<T>(nodes: seq<Node<T>>, index: map<seq<char>, nat>, q: seq<char>, c: char)
    requires TrieInv(nodes, index) && q in index
    ensures InArena(nodes, nodes[index[q]].next)
    ensures var nodes' := Unlink(nodes, index[q], c);
            var index' := Prune(index, q + [c]);
            && Shape(nodes', index')
            && nodes'[0].value == None
            && Contents(nodes', index') == WithoutExtensions(Contents(nodes, index), q + [c])
            && SizedExcept(nodes', index', Some(q))
            && LeavesCompleteExcept(nodes', index', q)
  {
    UnlinkShape(nodes, index, q, c);
    UnlinkContents(nodes, index, q, c);
    UnlinkSized(nodes, index, q, c);
    UnlinkLeaves(nodes, index, q, c);
  }

  /** A node that is used for other strings keeps a child after one label is unlinked from it. */
  lemma UnlinkKeepsSibling<T>(nodes: seq<Node<T>>, kids: seq<nat>, c: char)
    requires DistinctLabels(nodes, kids) && |kids| > 1
    ensures WithoutLabel(nodes, kids, [c]) != []
  {
    var r := WithoutLabel(nodes, kids, [c]);
    if nodes[kids[0]].text != [c] {
      assert kids[0] in r;
    } else {
      assert nodes[kids[1]].text != [c];
      assert kids[1] in r;
    }
  }

  /** Below a node with at most one child, two live paths one character further agree. */
  lemma SingleChild<T>(nodes: seq<Node<T>>, index: map<seq<char>, nat>, p: seq<char>, a: char, b: char)
    requires Shape(nodes, index) && p in index && |nodes[index[p]].next| <= 1
    requires p + [a] in index && p + [b] in index
    ensures a == b
  {
    var u := index[p];
    ParentOf(nodes, index, p + [a]);
    ParentOf(nodes, index, p + [b]);
    assert (p + [a])[..|p|] == p && (p + [b])[..|p|] == p;
    assert nodes[u].next[0] == index[p + [a]] == index[p + [b]];
  }

  /** No node strictly between `key[..j]` and `key` completes a key or has more than one child. */
  ghost predicate Unused<T>(nodes: seq<Node<T>>, index: map<seq<char>, nat>, key: seq<char>, j: nat)
  {
    forall i :: j < i < |key| ==>
      && key[..i] in index && index[key[..i]] < |nodes|
      && !Completes(nodes[index[key[..i]]]) && |nodes[index[key[..i]]].next| <= 1
  }

  /**
   * When every node strictly between `key[..j]` and `key` neither completes
   * nor branches, a stored key that extends `key[..m]` (for `m > j`) extends `key`.
   */
  lemma {:induction false} PrunedKey<T>(nodes: seq<Node<T>>, index: map<seq<char>, nat>, key: seq<char>, j: nat, m: nat, k: seq<char>)
    requires Shape(nodes, index) && key in index && j < m <= |key|
    requires Unused(nodes, index, key, j)
    requires k in Contents(nodes, index) && key[..m] <= k
    ensures key <= k
    decreases |key| - m
  {
    if m < |key| {
      assert key[..m] in index && k != key[..m];
      NextOnKey(nodes, index, key, m, k);
      PrunedKey(nodes, index, key, j, m + 1, k);
    }
  }

  /** Below a live node on `key` with at most one child, a longer live path goes on along `key`. */
  lemma NextOnKey<T>(nodes: seq<Node<T>>, index: map<seq<char>, nat>, key: seq<char>, m: nat, k: seq<char>)
    requires Shape(nodes, index) && key in index && m < |key|
    requires |nodes[index[key[..m]]].next| <= 1
    requires k in index && key[..m] <= k && k != key[..m]
    ensures key[..m + 1] <= k
  {
    PrefixStep(key, m, k);
    SingleChild(nodes, index, key[..m], k[m], key[m]);
  }

  /** A path that properly extends `key[..m]` goes on with one more character. */
  lemma PrefixStep(key: seq<char>, m: nat, k: seq<char>)
    requires m < |key| && key[..m] <= k && k != key[..m]
    ensures m < |k| && k[..m + 1] == key[..m] + [k[m]] && k[..m + 1] <= k
    ensures key[..m + 1] == key[..m] + [key[m]]
  {
    assert k[..m] == key[..m];
  }

  /** A live path is stored exactly when its node completes, and then with that node's value. */
  lemma ContentsAt<T>(nodes: seq<Node<T>>, index: map<seq<char>, nat>, key: seq<char>)
    requires InBounds(nodes, index)
    ensures key !in index ==> key !in Contents(nodes, index)
    ensures key in index ==> (key in Contents(nodes, index) <==> Completes(nodes[index[key]]))
    ensures key in Contents(nodes, index) ==> Some(Contents(nodes, index)[key]) == nodes[index[key]].value
  {
  }

  /** A live leaf has no live path below it. */
  lemma LeafNoExtension<T>(nodes: seq<Node<T>>, index: map<seq<char>, nat>, p: seq<char>, k: seq<char>)
    requires Shape(nodes, index) && p in index && nodes[index[p]].next == []
    requires k in index && p <= k
    ensures k == p
  {
    if |k| > |p| {
      var ch := k[..|p| + 1];
      assert ch in index && Parent(ch) == p;
      ParentOf(nodes, index, ch);
      assert false;
    }
  }

  /** Clearing the value of a live node that still has children forgets exactly its key. */
  lemma ClearValueInv<T>(nodes: seq<Node<T>>, index: map<seq<char>, nat>, k: seq<char>, n: nat)
    requires TrieInv(nodes, index) && k in index && k != [] && n == index[k] && nodes[n].next != []
    ensures n < |nodes|
    ensures TrieInv(nodes[n := nodes[n].(value := None)], index)
    ensures Contents(nodes[n := nodes[n].(value := None)], index) == Contents(nodes, index) - {k}
  {
    assert index[k] != 0;
    ValueShape(nodes, index, index[k], None);
    ValueSized(nodes, index, index[k], None);
    ClearValueContents(nodes, index, k);
  }

  lemma ClearValueContents<T>(nodes: seq<Node<T>>, index: map<seq<char>, nat>, k: seq<char>)
    requires InBounds(nodes, index) && k in index && LeavesCompleteExcept(nodes, index, [])
    requires nodes[index[k]].next != []
    requires forall k' :: k' in index && index[k'] == index[k] ==> k' == k
    ensures LeavesCompleteExcept(nodes[index[k] := nodes[index[k]].(value := None)], index, [])
    ensures Contents(nodes[index[k] := nodes[index[k]].(value := None)], index)
            == Contents(nodes, index) - {k}
  {
  }

  /** The child of a live node at `c` is further along the arena and no larger than the largest child. */
  lemma ChildSize<T>(nodes: seq<Node<T>>, index: map<seq<char>, nat>, c: seq<char>)
    requires Shape(nodes, index) && c in index && c != []
    ensures Parent(c) in index && InArena(nodes, nodes[index[Parent(c)]].next)
    ensures index[Parent(c)] < index[c]
    ensures nodes[index[c]].size <= MaxSize(nodes, nodes[index[Parent(c)]].next)
  {
    ParentOf(nodes, index, c);
    var n := index[Parent(c)];
    ChildrenInArena(nodes, n);
    var j :| 0 <= j < |nodes[n].next| && nodes[n].next[j] == index[c];
  }

  /** No live path below a sized node is longer than the node's size allows. */
  lemma {:induction false} HeightAbove<T>(nodes: seq<Node<T>>, index: map<seq<char>, nat>, p: seq<char>, k: seq<char>)
    requires Shape(nodes, index) && SizedExcept(nodes, index, None)
    requires p in index && SizeOk(nodes, index[p]) && k in index && p <= k
    ensures |k| + 1 <= |p| + nodes[index[p]].size
    decreases |nodes| - index[p]
  {
    if k != p {
      var c := ChildTowards(nodes, index, p, k);
      HeightAbove(nodes, index, c, k);
    }
  }

  /** The live child of `p` on the way down to `k`. */
  lemma ChildTowards<T>(nodes: seq<Node<T>>, index: map<seq<char>, nat>, p: seq<char>, k: seq<char>) returns (c: seq<char>)
    requires Shape(nodes, index) && SizedExcept(nodes, index, None)
    requires p in index && SizeOk(nodes, index[p]) && k in index && p <= k && p != k
    ensures c in index && c <= k && |c| == |p| + 1 && SizeOk(nodes, index[c])
    ensures index[p] < index[c] < |nodes| && nodes[index[c]].size < nodes[index[p]].size
  {
    c := k[..|p| + 1];
    assert c in index && Parent(c) == p;
    ChildSize(nodes, index, c);
  }

  /** Some stored key below a live sized node is exactly as long as the node's size says. */
  lemma {:induction false} HeightReached<T>(nodes: seq<Node<T>>, index: map<seq<char>, nat>, p: seq<char>)
      returns (k: seq<char>)
    requires Shape(nodes, index) && SizedExcept(nodes, index, None) && LeavesCompleteExcept(nodes, index, [])
    requires p in index && SizeOk(nodes, index[p]) && (p != [] || nodes[0].next != [])
    ensures k in index && Completes(nodes[index[k]]) && p <= k && |k| + 1 == |p| + nodes[index[p]].size
    decreases |nodes| - index[p]
  {
    if nodes[index[p]].next == [] {
      k := p;
    } else {
      var ch := TallestChild(nodes, index, p);
      k := HeightReached(nodes, index, ch);
    }
  }

  /** A child of a live node whose size is the largest among its siblings. */
  lemma TallestChild<T>(nodes: seq<Node<T>>, index: map<seq<char>, nat>, p: seq<char>) returns (ch: seq<char>)
    requires Shape(nodes, index) && SizedExcept(nodes, index, None)
    requires p in index && SizeOk(nodes, index[p]) && nodes[index[p]].next != []
    ensures ch in index && p <= ch && |ch| == |p| + 1 && ch != []
    ensures index[p] < index[ch] < |nodes| && SizeOk(nodes, index[ch])
    ensures nodes[index[ch]].size + 1 == nodes[index[p]].size
  {
    var kids := nodes[index[p]].next;
    var i :| 0 <= i < |kids| && nodes[kids[i]].size == MaxSize(nodes, kids);
    ChildIsLive(nodes, index, p, i);
    ch := p + nodes[kids[i]].text;
  }

  /**
   * The cached size of a live node is the length, below it, of its longest
   * stored extension, plus one: no stored key below the node is longer and
   * one is exactly that long.
   */
  lemma Height<T>(nodes: seq<Node<T>>, index: map<seq<char>, nat>, p: seq<char>)
    requires TrieInv(nodes, index) && p in index && (p != [] || nodes[0].next != [])
    ensures forall k :: k in Contents(nodes, index) && p <= k ==> |k| + 1 <= |p| + nodes[index[p]].size
    ensures exists k :: k in Contents(nodes, index) && p <= k && |k| + 1 == |p| + nodes[index[p]].size
  {
    assert SizeOk(nodes, index[p]);
    forall k | k in Contents(nodes, index) && p <= k ensures |k| + 1 <= |p| + nodes[index[p]].size {
      HeightAbove(nodes, index, p, k);
    }
    var k := HeightReached(nodes, index, p);
    assert k in Contents(nodes, index);
  }

  /** The root has no child exactly when no key is stored. */
  lemma EmptyIffNoRootChildren<T>(nodes: seq<Node<T>>, index: map<seq<char>, nat>)
    requires TrieInv(nodes, index)
    ensures nodes[0].next == [] <==> Contents(nodes, index) == map[]
  {
    if nodes[0].next != [] {
      Height(nodes, index, []);
    } else {
      forall k | k in index ensures k == [] {
        LeafNoExtension(nodes, index, [], k);
      }
      assert Contents(nodes, index) == map[];
    }
  }
}

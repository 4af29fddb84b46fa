/**
 * The trie vertex of TrieNode.kt. Nodes live in an arena `seq<Node<T>>` and
 * are addressed by their index there: `next` holds the children's indices in
 * insertion order (the source's child set is a LinkedHashSet) and `previous`
 * the parent's index. The root is the node at index 0.
 */
module TrieNodes {
  import opened Options

  /**
   * `text` is the source's `string` (one character, empty only for the root);
   * `size` is the cached height that TrieNode.kt calls `depth` and Trie.kt `size`.
   */
  datatype Node<T> = Node(
    text: seq<char>,
    value: Option<T>,
    size: nat,
    next: seq<nat>,
    previous: Option<nat>)

  /** A node completes a stored key exactly when it carries a value. */
  predicate Completes<T>(node: Node<T>)
  {
    node.value.Some?
  }

  /** Every index of `ids` names a node of the arena. */
  predicate InArena<T>(nodes: seq<Node<T>>, ids: seq<nat>)
  {
    forall i :: 0 <= i < |ids| ==> ids[i] < |nodes|
  }

  /** No two of `kids` carry the same text. */
  predicate DistinctLabels<T>(nodes: seq<Node<T>>, kids: seq<nat>)
  {
    && InArena(nodes, kids)
    && forall i, j :: 0 <= i < j < |kids| ==> nodes[kids[i]].text != nodes[kids[j]].text
  }

  /**
   * The shape every arena keeps: the root sits at index 0 with an empty text
   * and no parent, every other node has a one-character text and a parent
   * with a smaller index, every child has a larger index than its parent and
   * points back to it, and the children of a node have distinct labels.
   */
  ghost predicate WellFormed<T>(nodes: seq<Node<T>>)
  {
    && |nodes| > 0
    && nodes[0].text == [] && nodes[0].previous == None
    && (forall n {:trigger nodes[n].text} :: 0 < n < |nodes| ==> |nodes[n].text| == 1)
    && (forall n {:trigger nodes[n].previous} :: 0 < n < |nodes| ==>
          nodes[n].previous.Some? && nodes[n].previous.value < n)
    && (forall n, i :: 0 <= n < |nodes| && 0 <= i < |nodes[n].next| ==>
          n < nodes[n].next[i] < |nodes| && nodes[nodes[n].next[i]].previous == Some(n))
    && (forall n {:trigger nodes[n].next} :: 0 <= n < |nodes| ==> DistinctLabels(nodes, nodes[n].next))
  }

  /** Distinct labels: two children with the same text are the same child. */
  lemma SameLabelSameChild<T>(nodes: seq<Node<T>>, kids: seq<nat>, i: nat, j: nat)
    requires DistinctLabels(nodes, kids) && i < |kids| && j < |kids|
    requires nodes[kids[i]].text == nodes[kids[j]].text
    ensures i == j
  {
  }

  lemma ChildrenInArena<T>(nodes: seq<Node<T>>, n: nat)
    requires WellFormed(nodes) && n < |nodes|
    ensures InArena(nodes, nodes[n].next)
  {
  }

  /** The first of `kids` labelled `s`, as Kotlin's `firstOrNull { it.string == s }`. */
  function FirstWithLabel<T>(nodes: seq<Node<T>>, kids: seq<nat>, s: seq<char>): (r: Option<nat>)
    requires InArena(nodes, kids)
    ensures r.Some? ==> r.value in kids && nodes[r.value].text == s
    ensures r.None? <==> forall i :: 0 <= i < |kids| ==> nodes[kids[i]].text != s
    ensures r.Some? ==> exists i :: 0 <= i < |kids| && kids[i] == r.value &&
                          forall j :: 0 <= j < i ==> nodes[kids[j]].text != s
  {
    if kids == [] then None
    else if nodes[kids[0]].text == s then
      assert kids[0] == kids[0];
      Some(kids[0])
    else
      var r := FirstWithLabel(nodes, kids[1..], s);
      if r.Some? then
        var i :| 0 <= i < |kids[1..]| && kids[1..][i] == r.value &&
                 forall j :: 0 <= j < i ==> nodes[kids[1..][j]].text != s;
        assert kids[i + 1] == r.value;
        assert forall j :: 0 <= j < i + 1 ==> nodes[kids[j]].text != s by {
          forall j | 0 <= j < i + 1 ensures nodes[kids[j]].text != s {
            if j > 0 { assert kids[j] == kids[1..][j - 1]; }
          }
        }
        r
      else
        assert forall i :: 0 <= i < |kids| ==> nodes[kids[i]].text != s by {
          forall i | 0 <= i < |kids| ensures nodes[kids[i]].text != s {
            if i > 0 { assert kids[i] == kids[1..][i - 1]; }
          }
        }
        r
  }

  /**
   * TrieNode.getNextNode: the child of `node` labelled `s`, or None when no
   * child carries that text.
   */
  function GetNextNode<T>(nodes: seq<Node<T>>, node: Node<T>, s: seq<char>): (r: Option<nat>)
    requires InArena(nodes, node.next)
    ensures r.Some? ==> r.value in node.next && nodes[r.value].text == s
    ensures r.None? <==> forall i :: 0 <= i < |node.next| ==> nodes[node.next[i]].text != s
  {
    FirstWithLabel(nodes, node.next, s)
  }

  /** The children of `kids` not labelled `s`, in their order (Kotlin's `removeIf`). */
  function WithoutLabel<T>(nodes: seq<Node<T>>, kids: seq<nat>, s: seq<char>): (r: seq<nat>)
    requires InArena(nodes, kids)
    ensures InArena(nodes, r)
    ensures forall i :: 0 <= i < |r| ==> r[i] in kids && nodes[r[i]].text != s
    ensures forall i :: 0 <= i < |kids| && nodes[kids[i]].text != s ==> kids[i] in r
  {
    if kids == [] then []
    else
      var rest := WithoutLabel(nodes, kids[1..], s);
      assert forall i :: 1 <= i < |kids| ==> kids[i] == kids[1..][i - 1];
      if nodes[kids[0]].text == s then rest else [kids[0]] + rest
  }

  /** Removing a label no child carries changes nothing. */
  lemma {:induction false} WithoutAbsentLabel<T>(nodes: seq<Node<T>>, kids: seq<nat>, s: seq<char>)
    requires InArena(nodes, kids)
    requires forall i :: 0 <= i < |kids| ==> nodes[kids[i]].text != s
    ensures WithoutLabel(nodes, kids, s) == kids
  {
    if kids != [] {
      assert forall i :: 0 <= i < |kids[1..]| ==> kids[1..][i] == kids[i + 1];
      WithoutAbsentLabel(nodes, kids[1..], s);
      assert [kids[0]] + kids[1..] == kids;
    }
  }

  /** Removing children keeps the remaining labels distinct. */
  lemma {:induction false} WithoutLabelDistinct<T>(nodes: seq<Node<T>>, kids: seq<nat>, s: seq<char>)
    requires DistinctLabels(nodes, kids)
    ensures DistinctLabels(nodes, WithoutLabel(nodes, kids, s))
  {
    if kids != [] {
      DistinctTail(nodes, kids);
      WithoutLabelDistinct(nodes, kids[1..], s);
      if nodes[kids[0]].text != s {
        DistinctCons(nodes, kids, WithoutLabel(nodes, kids[1..], s));
      }
    }
  }

  lemma DistinctTail<T>(nodes: seq<Node<T>>, kids: seq<nat>)
    requires DistinctLabels(nodes, kids) && kids != []
    ensures DistinctLabels(nodes, kids[1..])
    ensures forall i :: 0 <= i < |kids[1..]| ==> nodes[kids[1..][i]].text != nodes[kids[0]].text
  {
    assert forall i :: 0 <= i < |kids[1..]| ==> kids[1..][i] == kids[i + 1];
  }

  /** The first child in front of distinct-labelled later children keeps the labels distinct. */
  lemma DistinctCons<T>(nodes: seq<Node<T>>, kids: seq<nat>, rest: seq<nat>)
    requires DistinctLabels(nodes, kids) && kids != [] && DistinctLabels(nodes, rest)
    requires forall i :: 0 <= i < |rest| ==> rest[i] in kids[1..]
    ensures DistinctLabels(nodes, [kids[0]] + rest)
  {
    DistinctTail(nodes, kids);
    forall i, j | 0 <= i < j < |[kids[0]] + rest|
      ensures nodes[([kids[0]] + rest)[i]].text != nodes[([kids[0]] + rest)[j]].text
    {
      assert ([kids[0]] + rest)[j] == rest[j - 1];
      if i > 0 {
        assert ([kids[0]] + rest)[i] == rest[i - 1];
      } else {
        var m :| 0 <= m < |kids[1..]| && kids[1..][m] == rest[j - 1];
      }
    }
  }

  /** FirstWithLabel never sees the children that WithoutLabel dropped. */
  lemma {:induction false} FirstWithoutLabel<T>(nodes: seq<Node<T>>, kids: seq<nat>, s: seq<char>, t: seq<char>)
    requires InArena(nodes, kids)
    ensures FirstWithLabel(nodes, WithoutLabel(nodes, kids, s), t)
            == if t == s then None else FirstWithLabel(nodes, kids, t)
  {
    if kids != [] {
      FirstWithoutLabel(nodes, kids[1..], s, t);
      var rest := WithoutLabel(nodes, kids[1..], s);
      if nodes[kids[0]].text != s {
        assert ([kids[0]] + rest)[1..] == rest;
      }
    }
  }

  /**
   * TrieNode.removeNextNode: afterwards no child is labelled `s`, every child
   * with another text is still found, and nothing but the child list changes.
   */
  function RemoveNextNode<T>(nodes: seq<Node<T>>, node: Node<T>, s: seq<char>): (r: Node<T>)
    requires InArena(nodes, node.next)
    ensures r.text == node.text && r.value == node.value && r.size == node.size
    ensures r.previous == node.previous
    ensures InArena(nodes, r.next)
    ensures GetNextNode(nodes, r, s) == None
    ensures forall t :: t != s ==> GetNextNode(nodes, r, t) == GetNextNode(nodes, node, t)
    ensures (forall i :: 0 <= i < |node.next| ==> nodes[node.next[i]].text != s) ==> r == node
    ensures DistinctLabels(nodes, node.next) ==> DistinctLabels(nodes, r.next)
  {
    var r := node.(next := WithoutLabel(nodes, node.next, s));
    assert (forall i :: 0 <= i < |node.next| ==> nodes[node.next[i]].text != s) ==> r == node by {
      if forall i :: 0 <= i < |node.next| ==> nodes[node.next[i]].text != s {
        WithoutAbsentLabel(nodes, node.next, s);
      }
    }
    assert DistinctLabels(nodes, node.next) ==> DistinctLabels(nodes, r.next) by {
      if DistinctLabels(nodes, node.next) { WithoutLabelDistinct(nodes, node.next, s); }
    }
    assert forall t :: FirstWithLabel(nodes, r.next, t)
                       == if t == s then None else FirstWithLabel(nodes, node.next, t) by {
      forall t { FirstWithoutLabel(nodes, node.next, s, t); }
    }
    r
  }

  /** The characters on the way from the root to node `n`. */
  ghost function PathTo<T>(nodes: seq<Node<T>>, n: nat): (p: seq<char>)
    ensures WellFormed(nodes) && n < |nodes| ==> (|p| > 0 <==> n > 0)
    decreases n
  {
    if n == 0 || n >= |nodes| || nodes[n].previous.None? || nodes[n].previous.value >= n then []
    else PathTo(nodes, nodes[n].previous.value) + nodes[n].text
  }

  /** The largest size among `kids`, 0 when there is none (`maxOfOrNull { it.size } ?: 0`). */
  function MaxSize<T>(nodes: seq<Node<T>>, kids: seq<nat>): (m: nat)
    requires InArena(nodes, kids)
    ensures forall i :: 0 <= i < |kids| ==> nodes[kids[i]].size <= m
    ensures kids != [] ==> exists i :: 0 <= i < |kids| && nodes[kids[i]].size == m
    ensures kids == [] ==> m == 0
  {
    if kids == [] then 0
    else
      var rest := MaxSize(nodes, kids[1..]);
      var m := if nodes[kids[0]].size >= rest then nodes[kids[0]].size else rest;
      assert forall i :: 1 <= i < |kids| ==> kids[i] == kids[1..][i - 1];
      assert kids[1..] != [] ==> exists i :: 1 <= i < |kids| && nodes[kids[i]].size == rest by {
        if kids[1..] != [] {
          var i :| 0 <= i < |kids[1..]| && nodes[kids[1..][i]].size == rest;
          assert kids[i + 1] == kids[1..][i];
        }
      }
      m
  }

  /** The first of `kids` of largest size, as Kotlin's `maxByOrNull { it.size }`. */
  function MaxBySize<T>(nodes: seq<Node<T>>, kids: seq<nat>): (r: Option<nat>)
    requires InArena(nodes, kids)
    ensures r.Some? <==> kids != []
    ensures r.Some? ==> r.value in kids && nodes[r.value].size == MaxSize(nodes, kids)
  {
    if kids == [] then None
    else
      var rest := MaxBySize(nodes, kids[1..]);
      if rest.None? || nodes[kids[0]].size >= nodes[rest.value].size then Some(kids[0]) else rest
  }

  /** `kids` without `x` (Kotlin's `filter { it != next }`). */
  function Without(kids: seq<nat>, x: nat): (r: seq<nat>)
    ensures forall i :: 0 <= i < |r| ==> r[i] in kids && r[i] != x
    ensures forall i :: 0 <= i < |kids| && kids[i] != x ==> kids[i] in r
  {
    if kids == [] then []
    else if kids[0] == x then Without(kids[1..], x)
    else [kids[0]] + Without(kids[1..], x)
  }

  /**
   * The size a node gets from Trie.updateSizes when `next` is one of its
   * children or None: one more than the largest child size.
   */
  lemma MaxWithout<T>(nodes: seq<Node<T>>, kids: seq<nat>, next: Option<nat>)
    requires InArena(nodes, kids)
    requires next.Some? ==> next.value in kids
    ensures next.Some? ==> InArena(nodes, Without(kids, next.value))
    ensures
      var newSize := (if next.Some? then nodes[next.value].size else 0) + 1;
      (if kids != [] then
         (var m := 1 + (if next.Some? then MaxSize(nodes, Without(kids, next.value)) else MaxSize(nodes, kids));
          if newSize >= m then newSize else m)
       else newSize)
      == 1 + MaxSize(nodes, kids)
  {
    if next.Some? {
      var w := Without(kids, next.value);
      var mw := MaxSize(nodes, w);
      var mk := MaxSize(nodes, kids);
      if kids != [] {
        var i :| 0 <= i < |kids| && nodes[kids[i]].size == mk;
        if kids[i] != next.value {
          assert kids[i] in w;
          var j :| 0 <= j < |w| && w[j] == kids[i];
        }
      }
    }
  }

  /**
   * The arena after `current.next.add(node)` for a node created by
   * `TrieNode(...)`: the new node is appended at the end of the arena.
   */
  function AddNextNode<T>(nodes: seq<Node<T>>, current: nat, node: Node<T>): (r: seq<Node<T>>)
    requires current < |nodes|
    ensures |r| == |nodes| + 1 && r[|nodes|] == node
    ensures r[current] == nodes[current].(next := nodes[current].next + [|nodes|])
    ensures forall m :: 0 <= m < |nodes| && m != current ==> r[m] == nodes[m]
  {
    (nodes + [node])[current := nodes[current].(next := nodes[current].next + [|nodes|])]
  }

  /** The arena after node `u`'s children are replaced by `kids`. */
  function Relinked<T>(nodes: seq<Node<T>>, u: nat, kids: seq<nat>): (r: seq<Node<T>>)
    requires u < |nodes|
    ensures |r| == |nodes| && r[u] == nodes[u].(next := kids)
    ensures forall m :: 0 <= m < |nodes| && m != u ==> r[m] == nodes[m]
  {
    nodes[u := nodes[u].(next := kids)]
  }

  /** Adding a fresh leaf under a label its parent does not have yet keeps the arena well formed. */
  lemma AddNextNodeWellFormed<T>(nodes: seq<Node<T>>, current: nat, node: Node<T>)
    requires WellFormed(nodes) && current < |nodes|
    requires |node.text| == 1 && node.previous == Some(current) && node.next == []
    requires GetNextNode(nodes, nodes[current], node.text) == None
    ensures WellFormed(AddNextNode(nodes, current, node))
  {
    AddNextNodeLinks(nodes, current, node);
    AddNextNodeDistinct(nodes, current, node);
    assert var r := AddNextNode(nodes, current, node);
      |r| > 0 && r[0].text == [] && r[0].previous == None;
    assert var r := AddNextNode(nodes, current, node);
      forall n {:trigger r[n].text} :: 0 < n < |r| ==> |r[n].text| == 1;
    assert var r := AddNextNode(nodes, current, node);
      forall n {:trigger r[n].previous} :: 0 < n < |r| ==> r[n].previous.Some? && r[n].previous.value < n;
  }

  lemma AddNextNodeLinks<T>(nodes: seq<Node<T>>, current: nat, node: Node<T>)
    requires WellFormed(nodes) && current < |nodes|
    requires node.previous == Some(current) && node.next == []
    ensures var r := AddNextNode(nodes, current, node);
            forall n, i :: 0 <= n < |r| && 0 <= i < |r[n].next| ==>
              n < r[n].next[i] < |r| && r[r[n].next[i]].previous == Some(n)
  {
    var r := AddNextNode(nodes, current, node);
    forall n, i | 0 <= n < |r| && 0 <= i < |r[n].next|
      ensures n < r[n].next[i] < |r| && r[r[n].next[i]].previous == Some(n)
    {
      if n == current && i == |nodes[current].next| {
      } else {
        assert r[n].next[i] == nodes[n].next[i];
      }
    }
  }

  lemma AddNextNodeDistinct<T>(nodes: seq<Node<T>>, current: nat, node: Node<T>)
    requires WellFormed(nodes) && current < |nodes| && node.next == []
    requires GetNextNode(nodes, nodes[current], node.text) == None
    ensures var r := AddNextNode(nodes, current, node);
            forall n {:trigger r[n].next} :: 0 <= n < |r| ==> DistinctLabels(r, r[n].next)
  {
    forall n | 0 <= n < |AddNextNode(nodes, current, node)|
      ensures DistinctLabels(AddNextNode(nodes, current, node), AddNextNode(nodes, current, node)[n].next)
    {
      if n == current {
        AddedDistinct(nodes, current, node);
      } else if n < |nodes| {
        DistinctGrow(nodes, AddNextNode(nodes, current, node), nodes[n].next);
      }
    }
  }

  /** The parent of a new leaf keeps distinct labels: the leaf's label was missing. */
  lemma AddedDistinct<T>(nodes: seq<Node<T>>, current: nat, node: Node<T>)
    requires WellFormed(nodes) && current < |nodes|
    requires GetNextNode(nodes, nodes[current], node.text) == None
    ensures DistinctLabels(AddNextNode(nodes, current, node), AddNextNode(nodes, current, node)[current].next)
  {
    var kids := nodes[current].next;
    assert DistinctLabels(nodes, kids);
    forall i, j | 0 <= i < j < |kids| + 1
      ensures AddNextNode(nodes, current, node)[AddNextNode(nodes, current, node)[current].next[i]].text
              != AddNextNode(nodes, current, node)[AddNextNode(nodes, current, node)[current].next[j]].text
    {
      assert AddNextNode(nodes, current, node)[current].next[i] == kids[i];
      if j < |kids| { assert AddNextNode(nodes, current, node)[current].next[j] == kids[j]; }
    }
  }

  /** Appending nodes to the arena keeps DistinctLabels of existing children. */
  lemma DistinctGrow<T>(nodes: seq<Node<T>>, nodes': seq<Node<T>>, kids: seq<nat>)
    requires DistinctLabels(nodes, kids) && |nodes'| >= |nodes|
    requires forall m :: 0 <= m < |nodes| ==> nodes'[m].text == nodes[m].text
    ensures DistinctLabels(nodes', kids)
  {
  }

  /** Dropping the children labelled `s` from one node keeps the arena well formed. */
  lemma WithoutLabelWellFormed<T>(nodes: seq<Node<T>>, u: nat, s: seq<char>)
    requires WellFormed(nodes) && u < |nodes|
    ensures InArena(nodes, nodes[u].next)
    ensures WellFormed(Relinked(nodes, u, WithoutLabel(nodes, nodes[u].next, s)))
  {
    ChildrenInArena(nodes, u);
    WithoutLabelLinks(nodes, u, s);
    WithoutLabelAllDistinct(nodes, u, s);
    assert var r := Relinked(nodes, u, WithoutLabel(nodes, nodes[u].next, s));
      |r| > 0 && r[0].text == [] && r[0].previous == None;
    assert var r := Relinked(nodes, u, WithoutLabel(nodes, nodes[u].next, s));
      forall n {:trigger r[n].text} :: 0 < n < |r| ==> |r[n].text| == 1;
    assert var r := Relinked(nodes, u, WithoutLabel(nodes, nodes[u].next, s));
      forall n {:trigger r[n].previous} :: 0 < n < |r| ==> r[n].previous.Some? && r[n].previous.value < n;
  }

  lemma WithoutLabelLinks<T>(nodes: seq<Node<T>>, u: nat, s: seq<char>)
    requires WellFormed(nodes) && u < |nodes| && InArena(nodes, nodes[u].next)
    ensures var r := Relinked(nodes, u, WithoutLabel(nodes, nodes[u].next, s));
            forall n, i :: 0 <= n < |r| && 0 <= i < |r[n].next| ==>
              n < r[n].next[i] < |r| && r[r[n].next[i]].previous == Some(n)
  {
    var kids := WithoutLabel(nodes, nodes[u].next, s);
    var r := Relinked(nodes, u, kids);
    forall n, i | 0 <= n < |r| && 0 <= i < |r[n].next|
      ensures n < r[n].next[i] < |r| && r[r[n].next[i]].previous == Some(n)
    {
      if n == u {
        assert kids[i] in nodes[u].next;
      }
    }
  }

  lemma WithoutLabelAllDistinct<T>(nodes: seq<Node<T>>, u: nat, s: seq<char>)
    requires WellFormed(nodes) && u < |nodes| && InArena(nodes, nodes[u].next)
    ensures var r := Relinked(nodes, u, WithoutLabel(nodes, nodes[u].next, s));
            forall n {:trigger r[n].next} :: 0 <= n < |r| ==> DistinctLabels(r, r[n].next)
  {
    WithoutLabelDistinct(nodes, nodes[u].next, s);
    forall n | 0 <= n < |nodes| {
      WithoutLabelDistinctAt(nodes, u, s, n);
    }
  }

  lemma WithoutLabelDistinctAt<T>(nodes: seq<Node<T>>, u: nat, s: seq<char>, n: nat)
    requires WellFormed(nodes) && u < |nodes| && InArena(nodes, nodes[u].next) && n < |nodes|
    requires DistinctLabels(nodes, WithoutLabel(nodes, nodes[u].next, s))
    ensures var r := Relinked(nodes, u, WithoutLabel(nodes, nodes[u].next, s));
            DistinctLabels(r, r[n].next)
  {
    if n == u {
      DistinctFrame(nodes, Relinked(nodes, u, WithoutLabel(nodes, nodes[u].next, s)), WithoutLabel(nodes, nodes[u].next, s));
    } else {
      DistinctFrame(nodes, Relinked(nodes, u, WithoutLabel(nodes, nodes[u].next, s)), nodes[n].next);
    }
  }

  /** Only the texts matter to DistinctLabels. */
  lemma DistinctFrame<T>(nodes: seq<Node<T>>, nodes': seq<Node<T>>, kids: seq<nat>)
    requires DistinctLabels(nodes, kids) && |nodes'| == |nodes|
    requires forall m :: 0 <= m < |nodes| ==> nodes'[m].text == nodes[m].text
    ensures DistinctLabels(nodes', kids)
  {
  }

  /** Only the texts and parents matter to a path. */
  lemma {:induction false} PathToFrame<T>(nodes: seq<Node<T>>, nodes': seq<Node<T>>, n: nat)
    requires n < |nodes| <= |nodes'|
    requires forall m :: 0 <= m < |nodes| ==>
               nodes'[m].text == nodes[m].text && nodes'[m].previous == nodes[m].previous
    ensures PathTo(nodes', n) == PathTo(nodes, n)
    decreases n
  {
    if n > 0 && nodes[n].previous.Some? && nodes[n].previous.value < n {
      PathToFrame(nodes, nodes', nodes[n].previous.value);
    }
  }

  /** Only the children's texts matter to FirstWithLabel. */
  lemma {:induction false} FirstWithLabelFrame<T>(nodes: seq<Node<T>>, nodes': seq<Node<T>>, kids: seq<nat>, s: seq<char>)
    requires InArena(nodes, kids) && InArena(nodes', kids)
    requires forall i :: 0 <= i < |kids| ==> nodes'[kids[i]].text == nodes[kids[i]].text
    ensures FirstWithLabel(nodes', kids, s) == FirstWithLabel(nodes, kids, s)
  {
    if kids != [] {
      assert forall i :: 0 <= i < |kids[1..]| ==> kids[1..][i] == kids[i + 1];
      FirstWithLabelFrame(nodes, nodes', kids[1..], s);
    }
  }

  /** FirstWithLabel over a list with one more child at its end. */
  lemma {:induction false} FirstWithLabelAppend<T>(nodes: seq<Node<T>>, kids: seq<nat>, x: nat, s: seq<char>)
    requires InArena(nodes, kids) && x < |nodes|
    ensures InArena(nodes, kids + [x])
    ensures FirstWithLabel(nodes, kids + [x], s)
            == var f := FirstWithLabel(nodes, kids, s);
               if f.Some? then f else if nodes[x].text == s then Some(x) else None
  {
    if kids != [] {
      assert (kids + [x])[1..] == kids[1..] + [x];
      FirstWithLabelAppend(nodes, kids[1..], x, s);
    } else {
      assert (kids + [x])[1..] == [];
    }
  }

  /** Only the children's sizes matter to MaxSize. */
  lemma {:induction false} MaxSizeFrame<T>(nodes: seq<Node<T>>, nodes': seq<Node<T>>, kids: seq<nat>)
    requires InArena(nodes, kids) && InArena(nodes', kids)
    requires forall i :: 0 <= i < |kids| ==> nodes'[kids[i]].size == nodes[kids[i]].size
    ensures MaxSize(nodes', kids) == MaxSize(nodes, kids)
  {
    if kids != [] {
      assert forall i :: 0 <= i < |kids[1..]| ==> kids[1..][i] == kids[i + 1];
      MaxSizeFrame(nodes, nodes', kids[1..]);
    }
  }

  /** `b` is `a` with some cached sizes changed and nothing else. */
  ghost predicate SameButSizes<T>(a: seq<Node<T>>, b: seq<Node<T>>)
  {
    |a| == |b| && forall m :: 0 <= m < |a| ==> b[m] == a[m].(size := b[m].size)
  }

  lemma SameButSizesStep<T>(a: seq<Node<T>>, b: seq<Node<T>>, n: nat, sz: nat)
    requires n < |a| && SameButSizes(a[n := a[n].(size := sz)], b)
    ensures SameButSizes(a, b)
  {
  }
}

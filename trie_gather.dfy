/**
 * The breadth-first walk of Trie.gatherAll. The queue holds pairs of a live
 * node and its path, no queued path is a prefix of another, and every stored
 * key below the start is already in the results or lies below a queued path.
 */
module TrieGather {
  import opened Options
  import opened TrieNodes
  import opened TrieIndex

  /** The live paths at or below some queued path; the walk still has to visit them. */
  ghost function Below(index: map<seq<char>, nat>, queue: seq<(nat, seq<char>)>): set<seq<char>>
  {
    set k | k in index && exists i :: 0 <= i < |queue| && queue[i].1 <= k
  }

  /** Every queued pair is a live node below `start` with its own path. */
  ghost predicate QueueLive(index: map<seq<char>, nat>, start: seq<char>, queue: seq<(nat, seq<char>)>)
  {
    forall i :: 0 <= i < |queue| ==> queue[i].1 in index && index[queue[i].1] == queue[i].0 && start <= queue[i].1
  }

  /** No queued path is a prefix of another. */
  ghost predicate Antichain(queue: seq<(nat, seq<char>)>)
  {
    forall i, j :: 0 <= i < j < |queue| ==> !(queue[i].1 <= queue[j].1) && !(queue[j].1 <= queue[i].1)
  }

  /** The results found so far are stored keys below `start` with their values. */
  ghost predicate Sound<T>(c: map<seq<char>, T>, start: seq<char>, results: map<seq<char>, T>)
  {
    forall k :: k in results ==> k in c && start <= k && results[k] == c[k]
  }

  /** Every stored key below `start` is found or still below the queue. */
  ghost predicate Covered<T>(c: map<seq<char>, T>, index: map<seq<char>, nat>, start: seq<char>,
                             queue: seq<(nat, seq<char>)>, results: map<seq<char>, T>)
  {
    forall k :: k in c && start <= k ==> k in results || k in Below(index, queue)
  }

  ghost predicate GatherInv<T>(nodes: seq<Node<T>>, index: map<seq<char>, nat>, start: seq<char>,
                               queue: seq<(nat, seq<char>)>, results: map<seq<char>, T>)
  {
    && Shape(nodes, index)
    && QueueLive(index, start, queue) && Antichain(queue)
    && Sound(Contents(nodes, index), start, results)
    && Covered(Contents(nodes, index), index, start, queue, results)
  }

  /** `queue` is `rest` followed by the first `count` of `kids`, each paired with `s` plus its label. */
  ghost predicate Enqueued<T>(nodes: seq<Node<T>>, queue: seq<(nat, seq<char>)>, rest: seq<(nat, seq<char>)>,
                              kids: seq<nat>, s: seq<char>, count: nat)
  {
    && count <= |kids| && InArena(nodes, kids)
    && |queue| == |rest| + count
    && (forall i :: 0 <= i < |rest| ==> queue[i] == rest[i])
    && (forall i :: 0 <= i < count ==> queue[|rest| + i] == (kids[i], s + nodes[kids[i]].text))
  }

  /** Queueing the next child extends what is queued by one. */
  lemma EnqueueStep<T>(nodes: seq<Node<T>>, queue: seq<(nat, seq<char>)>, rest: seq<(nat, seq<char>)>,
                       kids: seq<nat>, s: seq<char>, count: nat)
    requires Enqueued(nodes, queue, rest, kids, s, count) && count < |kids|
    ensures Enqueued(nodes, queue + [(kids[count], s + nodes[kids[count]].text)], rest, kids, s, count + 1)
  {
  }

  /** The walk starts with the start node alone in the queue and nothing found. */
  lemma GatherStart<T>(nodes: seq<Node<T>>, index: map<seq<char>, nat>, start: seq<char>)
    requires Shape(nodes, index) && start in index
    ensures GatherInv(nodes, index, start, [(index[start], start)], map[])
  {
    var queue := [(index[start], start)];
    forall k | k in Contents(nodes, index) && start <= k ensures k in Below(index, queue) {
      assert queue[0].1 <= k;
    }
  }

  /** The children of the node at `s`, paired with their paths, are live paths below `s`. */
  lemma ChildrenLiveBelow<T>(nodes: seq<Node<T>>, index: map<seq<char>, nat>, s: seq<char>,
                             queue: seq<(nat, seq<char>)>, rest: seq<(nat, seq<char>)>)
    requires Shape(nodes, index) && s in index
    requires Enqueued(nodes, queue, rest, nodes[index[s]].next, s, |nodes[index[s]].next|)
    ensures forall i :: |rest| <= i < |queue| ==>
              queue[i].1 in index && index[queue[i].1] == queue[i].0 && s <= queue[i].1 && |queue[i].1| == |s| + 1
  {
    forall i | |rest| <= i < |queue|
      ensures queue[i].1 in index && index[queue[i].1] == queue[i].0 && s <= queue[i].1 && |queue[i].1| == |s| + 1
    {
      ChildIsLive(nodes, index, s, i - |rest|);
    }
  }

  /** Popping the first pair and queueing its children keeps the queue live and an antichain. */
  lemma StepQueue<T>(nodes: seq<Node<T>>, index: map<seq<char>, nat>, start: seq<char>,
                     queue: seq<(nat, seq<char>)>, queue': seq<(nat, seq<char>)>)
    requires Shape(nodes, index) && QueueLive(index, start, queue) && Antichain(queue) && queue != []
    requires Enqueued(nodes, queue', queue[1..], nodes[queue[0].0].next, queue[0].1, |nodes[queue[0].0].next|)
    ensures QueueLive(index, start, queue') && Antichain(queue')
  {
    var s := queue[0].1;
    var rest := queue[1..];
    ChildrenLiveBelow(nodes, index, s, queue', rest);
    forall i, j | 0 <= i < j < |queue'|
      ensures !(queue'[i].1 <= queue'[j].1) && !(queue'[j].1 <= queue'[i].1)
    {
      if j < |rest| {
        assert queue'[i] == queue[i + 1] && queue'[j] == queue[j + 1];
      } else if i < |rest| {
        assert queue'[i] == queue[i + 1];
        assert !(queue[0].1 <= queue[i + 1].1) && !(queue[i + 1].1 <= queue[0].1);
        PrefixOfChild(queue'[i].1, s, queue'[j].1);
      } else {
        SiblingPaths(nodes, index, s, i - |rest|, j - |rest|);
      }
    }
  }

  /** A path that is no prefix of `s`, nor extends it, is no prefix of a child path of `s` nor extends one. */
  lemma PrefixOfChild(r: seq<char>, s: seq<char>, c: seq<char>)
    requires !(s <= r) && !(r <= s) && s <= c && |c| == |s| + 1
    ensures !(r <= c) && !(c <= r)
  {
    assert c[..|s|] == s;
    if |r| <= |s| {
      assert c[..|r|] == s[..|r|];
    }
  }

  /** Two different children of a live node have paths neither of which is a prefix of the other. */
  lemma SiblingPaths<T>(nodes: seq<Node<T>>, index: map<seq<char>, nat>, s: seq<char>, a: nat, b: nat)
    requires Shape(nodes, index) && s in index && a < b < |nodes[index[s]].next|
    ensures var kids := nodes[index[s]].next;
            kids[a] < |nodes| && kids[b] < |nodes| &&
            !(s + nodes[kids[a]].text <= s + nodes[kids[b]].text)
  {
    var kids := nodes[index[s]].next;
    assert DistinctLabels(nodes, kids);
    ChildIsLive(nodes, index, s, a);
    ChildIsLive(nodes, index, s, b);
    var ta := nodes[kids[a]].text;
    var tb := nodes[kids[b]].text;
    assert ta != tb && |ta| == 1 && |tb| == 1;
    assert ta[0] != tb[0];
    assert (s + ta)[|s|] == ta[0] && (s + tb)[|s|] == tb[0];
  }

  /** What the walk has still to visit shrinks by the popped path. */
  lemma StepBelow<T>(nodes: seq<Node<T>>, index: map<seq<char>, nat>, start: seq<char>,
                     queue: seq<(nat, seq<char>)>, queue': seq<(nat, seq<char>)>)
    requires Shape(nodes, index) && QueueLive(index, start, queue) && Antichain(queue) && queue != []
    requires Enqueued(nodes, queue', queue[1..], nodes[queue[0].0].next, queue[0].1, |nodes[queue[0].0].next|)
    ensures Below(index, queue') < Below(index, queue)
  {
    var s := queue[0].1;
    var rest := queue[1..];
    ChildrenLiveBelow(nodes, index, s, queue', rest);
    forall k | k in Below(index, queue') ensures k in Below(index, queue) {
      var i :| 0 <= i < |queue'| && queue'[i].1 <= k;
      if i < |rest| {
        assert queue'[i] == queue[i + 1];
      } else {
        assert queue[0].1 <= k;
      }
    }
    assert queue[0].1 <= s;
    assert s in Below(index, queue);
    forall i | 0 <= i < |queue'| ensures !(queue'[i].1 <= s) {
      if i < |rest| {
        assert queue'[i] == queue[i + 1];
      }
    }
  }

  /** Every stored key below the popped path is the path itself or below one of its children. */
  lemma StepCovered<T>(nodes: seq<Node<T>>, index: map<seq<char>, nat>, start: seq<char>,
                       queue: seq<(nat, seq<char>)>, queue': seq<(nat, seq<char>)>,
                       results: map<seq<char>, T>, results': map<seq<char>, T>)
    requires Shape(nodes, index) && QueueLive(index, start, queue) && queue != []
    requires Covered(Contents(nodes, index), index, start, queue, results)
    requires Enqueued(nodes, queue', queue[1..], nodes[queue[0].0].next, queue[0].1, |nodes[queue[0].0].next|)
    requires results.Keys <= results'.Keys
    requires Completes(nodes[queue[0].0]) ==> queue[0].1 in results'
    ensures Covered(Contents(nodes, index), index, start, queue', results')
  {
    var s := queue[0].1;
    var n := queue[0].0;
    var rest := queue[1..];
    forall k | k in Contents(nodes, index) && start <= k && k !in results'
      ensures k in Below(index, queue')
    {
      var i :| 0 <= i < |queue| && queue[i].1 <= k;
      if i > 0 {
        assert queue'[i - 1] == queue[i];
      } else {
        assert k != s;
        var p := ChildTowardsKey(nodes, index, s, k);
        assert queue'[|rest| + p].1 <= k;
      }
    }
  }

  /** The child of the live node at `s` whose path leads on to the longer live path `k`. */
  lemma ChildTowardsKey<T>(nodes: seq<Node<T>>, index: map<seq<char>, nat>, s: seq<char>, k: seq<char>)
      returns (p: nat)
    requires Shape(nodes, index) && s in index && k in index && s <= k && s != k
    ensures p < |nodes[index[s]].next| && nodes[index[s]].next[p] < |nodes|
    ensures s + nodes[nodes[index[s]].next[p]].text <= k
  {
    var c := k[..|s| + 1];
    assert c in index && Parent(c) == s;
    ParentOf(nodes, index, c);
    var kids := nodes[index[s]].next;
    p :| 0 <= p < |kids| && kids[p] == index[c];
    ChildIsLive(nodes, index, s, p);
    IndexInjective(nodes, index, c, s + nodes[index[c]].text);
  }

  /**
   * One turn of the loop: the popped node's key is recorded when it
   * completes and its children are queued; the invariant holds again and
   * less is left to visit.
   */
  lemma GatherStep<T>(nodes: seq<Node<T>>, index: map<seq<char>, nat>, start: seq<char>,
                      queue: seq<(nat, seq<char>)>, queue': seq<(nat, seq<char>)>,
                      results: map<seq<char>, T>, results': map<seq<char>, T>)
    requires GatherInv(nodes, index, start, queue, results) && queue != []
    requires Enqueued(nodes, queue', queue[1..], nodes[queue[0].0].next, queue[0].1, |nodes[queue[0].0].next|)
    requires results' == if Completes(nodes[queue[0].0]) then results[queue[0].1 := nodes[queue[0].0].value.value]
                         else results
    ensures GatherInv(nodes, index, start, queue', results')
    ensures Below(index, queue') < Below(index, queue)
  {
    StepQueue(nodes, index, start, queue, queue');
    StepBelow(nodes, index, start, queue, queue');
    StepCovered(nodes, index, start, queue, queue', results, results');
  }

  /** An empty queue: the results are exactly the stored keys below `start`. */
  lemma GatherDone<T>(nodes: seq<Node<T>>, index: map<seq<char>, nat>, start: seq<char>, results: map<seq<char>, T>)
    requires GatherInv(nodes, index, start, [], results)
    ensures results == StartingWith(Contents(nodes, index), start)
  {
  }

  /** A path with no node has no stored key below it. */
  lemma NoKeysBelowMissing<T>(nodes: seq<Node<T>>, index: map<seq<char>, nat>, p: seq<char>)
    requires Shape(nodes, index) && p !in index
    ensures StartingWith(Contents(nodes, index), p) == map[]
  {
    forall k ensures k in index && p <= k ==> p in index {
      PrefixOfLive(index, k, p);
    }
  }

  /** A prefix of a live path is live. */
  lemma PrefixOfLive(index: map<seq<char>, nat>, k: seq<char>, p: seq<char>)
    requires PrefixClosed(index)
    ensures k in index && p <= k ==> p in index
  {
    if k in index && p <= k {
      assert k[..|p|] == p;
    }
  }
}

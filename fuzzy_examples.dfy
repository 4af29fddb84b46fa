/**
 * Two searches of TrieFuzzySearchTest.kt, walked step by step: the pattern
 * "index" with tolerance 2 under ANCHOR_TO_PREFIX, over the arena a trie
 * holding one key builds (whatever value is stored with it), from the
 * initial state to the state whose search result the test expects.
 */
module FuzzyExamples {
  import opened Options
  import opened TrieNodes
  import opened FuzzySearch

  /**
   * The arena of a trie holding the single key `w`: the root, then one node
   * per character, each the only child of the one before, with the value on
   * the last one and every size one more than the height below it.
   */
  function Chain<T>(w: string, v: T): (nodes: seq<Node<T>>)
    ensures |nodes| == |w| + 1
    ensures forall i :: 0 < i <= |w| ==> nodes[i].text == [w[i - 1]]
    ensures forall i :: 0 <= i < |w| ==> nodes[i].next == [i + 1] && nodes[i].value == None
    ensures nodes[|w|].next == [] && nodes[|w|].value == Some(v)
  {
    seq(|w| + 1, i requires 0 <= i <= |w| =>
      Node(if i == 0 then [] else [w[i - 1]],
           if i == |w| then Some(v) else None,
           |w| - i + 1,
           if i < |w| then [i + 1] else [],
           if i == 0 then None else Some(i - 1)))
  }

  /** The chain is a well-formed arena, and the path to its node `i` spells the first `i` characters. */
  lemma ChainWellFormed<T>(w: string, v: T)
    ensures WellFormed(Chain(w, v))
    ensures forall i :: 0 <= i <= |w| ==> PathTo(Chain(w, v), i) == w[..i]
  {
    ChainShape(w, v);
    forall i | 0 <= i <= |w| ensures PathTo(Chain(w, v), i) == w[..i] {
      ChainPath(w, v, i);
    }
  }

  lemma ChainShape<T>(w: string, v: T)
    ensures WellFormed(Chain(w, v))
  {
    var nodes := Chain(w, v);
    forall n | 0 <= n < |nodes| ensures DistinctLabels(nodes, nodes[n].next) {
    }
  }

  lemma {:induction false} ChainPath<T>(w: string, v: T, i: nat)
    requires i <= |w|
    ensures PathTo(Chain(w, v), i) == w[..i]
  {
    if i > 0 {
      ChainPath(w, v, i - 1);
      assert w[..i] == w[..i - 1] + [w[i - 1]];
    }
  }

  /** Along the chain, a state without a node to skip has one child to go through. */
  lemma ChainStep<T>(w: string, v: T, s: State)
    requires s.node < |w| && s.skip.None?
    ensures InArena(Chain(w, v), Chain(w, v)[s.node].next)
    ensures NextStates(Chain(w, v), s) == NextStatesFrom(Chain(w, v), s, s.node + 1)
  {
    var nodes := Chain(w, v);
    assert Eligible(nodes[s.node].next, s.skip) == [s.node + 1];
    assert [s.node + 1][1..] == [];
  }

  /** A walk that goes one node down the chain at every step is a run. */
  lemma ChainRun<T>(w: string, v: T, run: seq<State>)
    requires |run| == |w| + 1
    requires forall i :: 0 <= i < |w| ==>
               run[i].node == i && run[i].skip.None? && run[i + 1] in NextStatesFrom(Chain(w, v), run[i], i + 1)
    ensures Run(Chain(w, v), run)
  {
    forall i | 0 <= i < |run| - 1
      ensures run[i].node < |Chain(w, v)| && InArena(Chain(w, v), Chain(w, v)[run[i].node].next)
      ensures run[i + 1] in NextStates(Chain(w, v), run[i])
    {
      ChainStep(w, v, run[i]);
    }
  }

  /** nextStates(nextNode) takes the first of the four builders that applies. */
  lemma Picks<T>(nodes: seq<Node<T>>, s: State, next: nat)
    requires s.node < |nodes| && next < |nodes| && InArena(nodes, nodes[s.node].next)
    ensures SufficientlyMatches(s) ==> NextStatesFrom(nodes, s, next) == BuildFinisherState(nodes, s, next).value
    ensures !SufficientlyMatches(s) && MatchGate(nodes, s) && NextMatches(nodes, s, next) ==>
              NextStatesFrom(nodes, s, next) == BuildSearchMatchState(nodes, s, next).value
    ensures !SufficientlyMatches(s) && !(MatchGate(nodes, s) && NextMatches(nodes, s, next)) &&
            s.errors < s.tolerance && ErrorGate(s) ==>
              NextStatesFrom(nodes, s, next) == BuildSearchErrorState(nodes, s, next).value
    ensures !SufficientlyMatches(s) && !(MatchGate(nodes, s) && NextMatches(nodes, s, next)) &&
            !(s.errors < s.tolerance && ErrorGate(s)) ==>
              NextStatesFrom(nodes, s, next) == BuildSearchResetState(nodes, s, next)
  {
  }

  /** The walk to "ondex": the first letter is a substitution, the rest match, the last as a finisher. */
  function Ondex(k: int): State
  {
    if k == 0 then State(AnchorToPrefix, "index", 0, None, None, None, 0, 0, 0, 0, 2, "", false)
    else if k == 1 then State(AnchorToPrefix, "index", 1, None, None, None, 1, 0, 1, 0, 2, "o", false)
    else if k == 2 then State(AnchorToPrefix, "index", 2, None, Some(1), Some(1), 2, 1, 1, 0, 2, "on", false)
    else if k == 3 then State(AnchorToPrefix, "index", 3, None, Some(1), Some(2), 3, 2, 1, 0, 2, "ond", false)
    else if k == 4 then State(AnchorToPrefix, "index", 4, None, Some(1), Some(3), 4, 3, 1, 0, 2, "onde", false)
    else State(AnchorToPrefix, "index", 5, None, Some(1), Some(4), 5, 4, 1, 0, 2, "ondex", true)
  }

  /**
   * "ondex" found for "index" with one substituted letter: the search walks
   * from its initial state to a state whose result has the window "ndex",
   * one position into the word "ondex".
   */
  lemma OneSubstitutionExample<T>(v: T)
    ensures var nodes, run, final := Chain("ondex", v), seq(6, k => Ondex(k)), Ondex(5);
            && WellFormed(nodes) && Run(nodes, run)
            && run[0] == Initial(0, "index", 0, 2, AnchorToPrefix) && run[5] == final
            && HasSearchResult(nodes, final)
            && BuildSearchResult(nodes, final)
               == Success(SearchResult("ondex", v, "ndex", "ondex", 4, 1, 1, false, false))
  {
    ChainWellFormed("ondex", v);
    OndexRuns(v);
    OndexResult(v);
  }

  lemma OndexResult<T>(v: T)
    ensures HasSearchResult(Chain("ondex", v), Ondex(5))
    ensures BuildSearchResult(Chain("ondex", v), Ondex(5))
            == Success(SearchResult("ondex", v, "ndex", "ondex", 4, 1, 1, false, false))
  {
    var txt := "ondex";
    assert LastSep(txt, 1) == None by {
      assert !IsSep(txt[1]) && !IsSep(txt[0]);
    }
    assert FirstSep(txt, 1) == None by {
      assert !IsSep(txt[1]) && !IsSep(txt[2]) && !IsSep(txt[3]) && !IsSep(txt[4]);
    }
    assert txt[1..5] == "ndex" && txt[0..5] == txt;
  }

  /** Each state of the walk to "ondex" is a successor of the one before. */
  lemma OndexRuns<T>(v: T)
    ensures Run(Chain("ondex", v), seq(6, k => Ondex(k)))
  {
    var w, nodes, run := "ondex", Chain("ondex", v), seq(6, k => Ondex(k));
    forall i | 0 <= i < |run| - 1
      ensures run[i].node == i && run[i].skip.None? && run[i + 1] in NextStatesFrom(nodes, run[i], i + 1)
    {
      if i == 0 {
        OndexStep1(v);
      } else if i == 1 {
        OndexStep2(v);
      } else if i == 2 {
        OndexStep3(v);
      } else if i == 3 {
        OndexStep4(v);
      } else {
        OndexStep5(v);
      }
    }
    ChainRun(w, v, run);
  }


  /** "o" is charged as a substitution for "i". */
  lemma OndexStep1<T>(v: T)
    ensures Ondex(1) in NextStatesFrom(Chain("ondex", v), Ondex(0), 1)
  {
    var nodes, s := Chain("ondex", v), Ondex(0);
    Picks(nodes, s, 1);
    assert nodes[1].text == "o";
    assert s.sequence + "o" == "o";
  }

  /** The window opens at "n". */
  lemma OndexStep2<T>(v: T)
    ensures Ondex(2) in NextStatesFrom(Chain("ondex", v), Ondex(1), 2)
  {
    var nodes, s := Chain("ondex", v), Ondex(1);
    Picks(nodes, s, 2);
    assert nodes[2].text == "n";
    assert s.sequence + "n" == "on";
  }

  lemma OndexStep3<T>(v: T)
    ensures Ondex(3) in NextStatesFrom(Chain("ondex", v), Ondex(2), 3)
  {
    var nodes, s := Chain("ondex", v), Ondex(2);
    Picks(nodes, s, 3);
    assert nodes[3].text == "d";
    assert s.sequence + "d" == "ond";
  }

  lemma OndexStep4<T>(v: T)
    ensures Ondex(4) in NextStatesFrom(Chain("ondex", v), Ondex(3), 4)
  {
    var nodes, s := Chain("ondex", v), Ondex(3);
    Picks(nodes, s, 4);
    assert nodes[4].text == "e";
    assert s.sequence + "e" == "onde";
  }

  /** The fourth match leaves the state sufficient, so "x" is matched by a finisher. */
  lemma OndexStep5<T>(v: T)
    ensures Ondex(5) in NextStatesFrom(Chain("ondex", v), Ondex(4), 5)
  {
    var nodes, s := Chain("ondex", v), Ondex(4);
    Picks(nodes, s, 5);
    assert nodes[5].text == "x";
    assert s.sequence + "x" == "ondex";
  }

  /** The walk to "lalala index": two letters charged as errors, restarts up to the space, then five matches. */
  function Lalala(k: int): State
  {
    if k == 0 then State(AnchorToPrefix, "index", 0, None, None, None, 0, 0, 0, 0, 2, "", false)
    else if k == 1 then State(AnchorToPrefix, "index", 1, None, None, None, 0, 0, 1, 0, 2, "l", false)
    else if k == 2 then State(AnchorToPrefix, "index", 2, None, None, None, 0, 0, 2, 0, 2, "la", false)
    else if k == 3 then State(AnchorToPrefix, "index", 3, None, None, None, 0, 0, 0, 0, 2, "lal", false)
    else if k == 4 then State(AnchorToPrefix, "index", 4, None, None, None, 0, 0, 0, 0, 2, "lala", false)
    else if k == 5 then State(AnchorToPrefix, "index", 5, None, None, None, 0, 0, 0, 0, 2, "lalal", false)
    else if k == 6 then State(AnchorToPrefix, "index", 6, None, None, None, 0, 0, 0, 0, 2, "lalala", false)
    else if k == 7 then State(AnchorToPrefix, "index", 7, None, None, None, 0, 0, 0, 0, 2, "lalala ", false)
    else if k == 8 then State(AnchorToPrefix, "index", 8, None, Some(7), Some(7), 1, 1, 0, 0, 2, "lalala i", false)
    else if k == 9 then State(AnchorToPrefix, "index", 9, None, Some(7), Some(8), 2, 2, 0, 0, 2, "lalala in", false)
    else if k == 10 then State(AnchorToPrefix, "index", 10, None, Some(7), Some(9), 3, 3, 0, 0, 2, "lalala ind", false)
    else if k == 11 then State(AnchorToPrefix, "index", 11, None, Some(7), Some(10), 4, 4, 0, 0, 2, "lalala inde", true)
    else State(AnchorToPrefix, "index", 12, None, Some(7), Some(11), 5, 5, 0, 0, 2, "lalala index", true)
  }

  /**
   * "index" found exactly after a space: the search walks from its initial
   * state to a whole-word match that is not the whole text.
   */
  lemma WholeWordExample<T>(v: T)
    ensures var nodes, run, final := Chain("lalala index", v), seq(13, k => Lalala(k)), Lalala(12);
            && WellFormed(nodes) && Run(nodes, run)
            && run[0] == Initial(0, "index", 0, 2, AnchorToPrefix) && run[12] == final
            && HasSearchResult(nodes, final)
            && BuildSearchResult(nodes, final)
               == Success(SearchResult("lalala index", v, "index", "index", 5, 0, 0, false, true))
  {
    ChainWellFormed("lalala index", v);
    LalalaRuns(v);
    LalalaResult(v);
  }

  lemma LalalaResult<T>(v: T)
    ensures HasSearchResult(Chain("lalala index", v), Lalala(12))
    ensures BuildSearchResult(Chain("lalala index", v), Lalala(12))
            == Success(SearchResult("lalala index", v, "index", "index", 5, 0, 0, false, true))
  {
    var txt := "lalala index";
    assert LastSep(txt, 7) == Some(6) by {
      assert !IsSep(txt[7]) && IsSep(txt[6]);
    }
    assert FirstSep(txt, 7) == None by {
      assert forall j :: 7 <= j < 12 ==> !IsSep(txt[j]);
    }
    assert txt[7..12] == "index";
  }

  /** Each state of the walk to "lalala index" is a successor of the one before. */
  lemma LalalaRuns<T>(v: T)
    ensures Run(Chain("lalala index", v), seq(13, k => Lalala(k)))
  {
    LalalaErrorSteps(v);
    LalalaRestartSteps(v);
    LalalaMatchSteps(v);
    ChainRun("lalala index", v, seq(13, k => Lalala(k)));
  }

  /** The first three steps: two letters charged as errors, then a restart. */
  lemma LalalaErrorSteps<T>(v: T)
    ensures forall i :: 0 <= i < 3 ==>
              Lalala(i).node == i && Lalala(i).skip.None? && Lalala(i + 1) in NextStatesFrom(Chain("lalala index", v), Lalala(i), i + 1)
  {
    forall i | 0 <= i < 3
      ensures Lalala(i).node == i && Lalala(i).skip.None? && Lalala(i + 1) in NextStatesFrom(Chain("lalala index", v), Lalala(i), i + 1)
    {
      if i == 0 {
        LalalaStep1(v);
      } else if i == 1 {
        LalalaStep2(v);
      } else {
        LalalaStep3(v);
      }
    }
  }

  /** The next four steps: restarts, every letter too far from a separator. */
  lemma LalalaRestartSteps<T>(v: T)
    ensures forall i :: 3 <= i < 7 ==>
              Lalala(i).node == i && Lalala(i).skip.None? && Lalala(i + 1) in NextStatesFrom(Chain("lalala index", v), Lalala(i), i + 1)
  {
    forall i | 3 <= i < 7
      ensures Lalala(i).node == i && Lalala(i).skip.None? && Lalala(i + 1) in NextStatesFrom(Chain("lalala index", v), Lalala(i), i + 1)
    {
      if i == 3 {
        LalalaStep4(v);
      } else if i == 4 {
        LalalaStep5(v);
      } else if i == 5 {
        LalalaStep6(v);
      } else {
        LalalaStep7(v);
      }
    }
  }

  /** The last five steps: the five letters of "index", matched after the space. */
  lemma LalalaMatchSteps<T>(v: T)
    ensures forall i :: 7 <= i < 12 ==>
              Lalala(i).node == i && Lalala(i).skip.None? && Lalala(i + 1) in NextStatesFrom(Chain("lalala index", v), Lalala(i), i + 1)
  {
    forall i | 7 <= i < 12
      ensures Lalala(i).node == i && Lalala(i).skip.None? && Lalala(i + 1) in NextStatesFrom(Chain("lalala index", v), Lalala(i), i + 1)
    {
      if i == 7 {
        LalalaStep8(v);
      } else if i == 8 {
        LalalaStep9(v);
      } else if i == 9 {
        LalalaStep10(v);
      } else if i == 10 {
        LalalaStep11(v);
      } else {
        LalalaStep12(v);
      }
    }
  }

  /** Near the start of the text, a letter the pattern lacks is charged as an error. */
  lemma LalalaStep1<T>(v: T)
    ensures Lalala(1) in NextStatesFrom(Chain("lalala index", v), Lalala(0), 1)
  {
    var nodes, s := Chain("lalala index", v), Lalala(0);
    Picks(nodes, s, 1);
    assert nodes[1].text == "l";
    assert s.sequence + "l" == "l";
  }

  lemma LalalaStep2<T>(v: T)
    ensures Lalala(2) in NextStatesFrom(Chain("lalala index", v), Lalala(1), 2)
  {
    var nodes, s := Chain("lalala index", v), Lalala(1);
    Picks(nodes, s, 2);
    assert nodes[2].text == "a";
    assert s.sequence + "a" == "la";
  }

  /** With the tolerance spent, the search restarts. */
  lemma LalalaStep3<T>(v: T)
    ensures Lalala(3) in NextStatesFrom(Chain("lalala index", v), Lalala(2), 3)
  {
    var nodes, s := Chain("lalala index", v), Lalala(2);
    Picks(nodes, s, 3);
    assert nodes[3].text == "l";
    assert s.sequence + "l" == "lal";
  }

  /** Too far from a separator to start a match, the search restarts. */
  lemma LalalaStep4<T>(v: T)
    ensures Lalala(4) in NextStatesFrom(Chain("lalala index", v), Lalala(3), 4)
  {
    var nodes, s := Chain("lalala index", v), Lalala(3);
    Picks(nodes, s, 4);
    assert nodes[4].text == "a";
    assert !IsSep(s.sequence[1]) && !IsSep(s.sequence[2]);
    assert s.sequence + "a" == "lala";
  }

  lemma LalalaStep5<T>(v: T)
    ensures Lalala(5) in NextStatesFrom(Chain("lalala index", v), Lalala(4), 5)
  {
    var nodes, s := Chain("lalala index", v), Lalala(4);
    Picks(nodes, s, 5);
    assert nodes[5].text == "l";
    assert !IsSep(s.sequence[2]) && !IsSep(s.sequence[3]);
    assert s.sequence + "l" == "lalal";
  }

  lemma LalalaStep6<T>(v: T)
    ensures Lalala(6) in NextStatesFrom(Chain("lalala index", v), Lalala(5), 6)
  {
    var nodes, s := Chain("lalala index", v), Lalala(5);
    Picks(nodes, s, 6);
    assert nodes[6].text == "a";
    assert !IsSep(s.sequence[3]) && !IsSep(s.sequence[4]);
    assert s.sequence + "a" == "lalala";
  }

  lemma LalalaStep7<T>(v: T)
    ensures Lalala(7) in NextStatesFrom(Chain("lalala index", v), Lalala(6), 7)
  {
    var nodes, s := Chain("lalala index", v), Lalala(6);
    Picks(nodes, s, 7);
    assert nodes[7].text == " ";
    assert !IsSep(s.sequence[4]) && !IsSep(s.sequence[5]);
    assert s.sequence + " " == "lalala ";
  }

  /** Right after the space a match may start. */
  lemma LalalaStep8<T>(v: T)
    ensures Lalala(8) in NextStatesFrom(Chain("lalala index", v), Lalala(7), 8)
  {
    var nodes, s := Chain("lalala index", v), Lalala(7);
    Picks(nodes, s, 8);
    assert nodes[8].text == "i";
    assert IsSep(s.sequence[6]);
    assert s.sequence + "i" == "lalala i";
  }

  lemma LalalaStep9<T>(v: T)
    ensures Lalala(9) in NextStatesFrom(Chain("lalala index", v), Lalala(8), 9)
  {
    var nodes, s := Chain("lalala index", v), Lalala(8);
    Picks(nodes, s, 9);
    assert nodes[9].text == "n";
    assert s.sequence + "n" == "lalala in";
  }

  lemma LalalaStep10<T>(v: T)
    ensures Lalala(10) in NextStatesFrom(Chain("lalala index", v), Lalala(9), 10)
  {
    var nodes, s := Chain("lalala index", v), Lalala(9);
    Picks(nodes, s, 10);
    assert nodes[10].text == "d";
    assert s.sequence + "d" == "lalala ind";
  }

  /** Three matches leave the state sufficient; from here finishers take over. */
  lemma LalalaStep11<T>(v: T)
    ensures Lalala(11) in NextStatesFrom(Chain("lalala index", v), Lalala(10), 11)
  {
    var nodes, s := Chain("lalala index", v), Lalala(10);
    Picks(nodes, s, 11);
    assert nodes[11].text == "e";
    assert s.sequence + "e" == "lalala inde";
  }

  lemma LalalaStep12<T>(v: T)
    ensures Lalala(12) in NextStatesFrom(Chain("lalala index", v), Lalala(11), 12)
  {
    var nodes, s := Chain("lalala index", v), Lalala(11);
    Picks(nodes, s, 12);
    assert nodes[12].text == "x";
    assert s.sequence + "x" == "lalala index";
  }
}

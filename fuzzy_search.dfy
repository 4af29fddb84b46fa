/**
 * FuzzySubstringSearchState.kt: one immutable state of the approximate
 * substring matcher that walks the trie, the successors of a state and the
 * search result a state yields. A state points at a node of the trie arena
 * (its index in `nodes`), so the walk is over the same arena Trie.kt keeps.
 */
module FuzzySearch {
  import opened Options
  import opened TrieNodes

  /** FuzzySubstringMatchingStrategy, as the state uses it. */
  datatype Strategy = Liberal | ExactPrefix | MatchPrefix | AnchorToPrefix

  /**
   * The fields of FuzzySubstringSearchState: `start`/`end` are the match
   * window in `sequence`, `searchIndex` the position in the pattern,
   * `errors` the errors accrued on the walk and `predetermined` those
   * charged before it.
   */
  datatype State = State(
    strategy: Strategy,
    search: seq<char>,
    node: nat,
    skip: Option<nat>,
    start: Option<int>,
    end: Option<int>,
    searchIndex: nat,
    matches: nat,
    errors: nat,
    predetermined: int,
    tolerance: int,
    sequence: seq<char>,
    finisher: bool)

  /** TrieSearchResult, in the order of its constructor. */
  datatype SearchResult<T> = SearchResult(
    text: seq<char>,
    value: T,
    matchedSubstring: seq<char>,
    matchedWord: seq<char>,
    numberOfMatches: int,
    numberOfErrors: int,
    prefixDistance: int,
    matchedWholeSequence: bool,
    matchedWholeWord: bool)

  /** SearchWithErrorStrategy: where an error successor continues. */
  datatype ErrorMove = ErrorMove(node: nat, skip: Option<nat>, searchIndex: nat, sequence: seq<char>)

  /**
   * The word-separator class `[\s\p{P}]` on ASCII: the whitespace of `\s`
   * (space, tab, line feed, vertical tab, form feed, carriage return) and
   * the ASCII characters of the Unicode punctuation categories.
   */
  predicate IsSep(c: char): (b: bool)
    ensures b ==> c as int < 128
    ensures 'a' <= c <= 'z' || 'A' <= c <= 'Z' || '0' <= c <= '9' ==> !b
  {
    var n := c as int;
    n == 32 || 9 <= n <= 13 ||
    n in {33, 34, 35, 37, 38, 39, 40, 41, 42, 44, 45, 46, 47, 58, 59, 63, 64, 91, 92, 93, 95, 123, 125}
  }

  /** String.isWordSeparator: the empty label or one separator character. */
  predicate IsWordSeparator(s: seq<char>): (b: bool)
    ensures |s| > 1 ==> !b
  {
    s == [] || (|s| == 1 && IsSep(s[0]))
  }

  /** isWordSeparatorAt: positions outside the text count as separators. */
  predicate IsWordSeparatorAt(s: seq<char>, i: int): (b: bool)
    ensures 0 <= i < |s| ==> (b <==> IsWordSeparator([s[i]]))
    ensures !(0 <= i < |s|) ==> b
  {
    i < 0 || i >= |s| || IsSep(s[i])
  }

  /** indexOfLastWordSeparator(endIndex): the last separator at or before `endIndex`. */
  function LastSep(s: seq<char>, endIndex: int): (r: Option<nat>)
    requires endIndex < |s|
    ensures r.Some? ==> r.value <= endIndex && IsSep(s[r.value])
    ensures r.Some? ==> forall j :: r.value < j <= endIndex ==> !IsSep(s[j])
    ensures r.None? ==> forall j :: 0 <= j <= endIndex ==> !IsSep(s[j])
    decreases endIndex + 1
  {
    if endIndex < 0 then None
    else if IsSep(s[endIndex]) then Some(endIndex)
    else LastSep(s, endIndex - 1)
  }

  /** indexOfFirstWordSeparator(startIndex): the first separator at or after `startIndex`. */
  function FirstSep(s: seq<char>, startIndex: nat): (r: Option<nat>)
    ensures r.Some? ==> startIndex <= r.value < |s| && IsSep(s[r.value])
    ensures r.Some? ==> forall j :: startIndex <= j < r.value ==> !IsSep(s[j])
    ensures r.None? ==> forall j :: startIndex <= j < |s| ==> !IsSep(s[j])
    decreases |s| - startIndex
  {
    if startIndex >= |s| then None
    else if IsSep(s[startIndex]) then Some(startIndex)
    else FirstSep(s, startIndex + 1)
  }

  /** The companion `invoke`: a state at the root with nothing matched. */
  function Initial(root: nat, search: seq<char>, predetermined: int, tolerance: int,
                   strategy: Strategy): (r: State)
    ensures r.node == root && r.sequence == [] && r.start.None? && r.skip.None?
    ensures ActualErrors(r) == predetermined + |search|
    ensures !SufficientlyMatches(r)
  {
    State(strategy, search, root, None, None, None, 0, 0, 0, predetermined, tolerance, [], false)
  }

  /** getActualNumberOfErrors: pattern characters not reached yet count as errors. */
  function ActualErrors(s: State): (r: int)
    ensures r >= s.predetermined + s.errors
    ensures s.searchIndex >= |s.search| ==> r == s.predetermined + s.errors
    ensures s.searchIndex < |s.search| ==> r == s.predetermined + s.errors + |s.search| - s.searchIndex
  {
    var unmatched := if |s.search| - s.searchIndex > 0 then |s.search| - s.searchIndex else 0;
    s.predetermined + s.errors + unmatched
  }

  /** sufficientlyMatches: a match has started and both counts are within the tolerance. */
  predicate SufficientlyMatches(s: State): (b: bool)
    ensures b ==> s.start.Some? && s.predetermined + s.errors <= s.tolerance
    ensures b ==> |s.search| - s.searchIndex <= s.tolerance - s.predetermined - s.errors
  {
    && s.start.Some?
    && s.matches >= |s.search| - s.tolerance
    && ActualErrors(s) <= s.tolerance
  }

  /** hasSearchResult. */
  predicate HasSearchResult<T>(nodes: seq<Node<T>>, s: State)
    requires s.node < |nodes|
  {
    Completes(nodes[s.node]) && SufficientlyMatches(s)
  }

  /**
   * distanceToStartWordSeparatorIsPermissible: the run of non-separators at
   * the end of the text is at most one longer than the errors accrued, that
   * is, the text is that short or a separator sits that close to its end.
   */
  predicate StartIsNearSeparator(s: State): (b: bool)
    ensures b <==> (|s.sequence| <= s.errors + 1 ||
                    exists j :: 0 <= j < |s.sequence| && |s.sequence| - s.errors - 2 <= j && IsSep(s.sequence[j]))
  {
    var last := LastSep(s.sequence, |s.sequence| - 1);
    var before := if last.Some? then last.value else -1;
    |s.sequence| - 1 - before - 1 <= s.errors
  }

  /** The strategy gate in front of a match step. */
  predicate MatchGate<T>(nodes: seq<Node<T>>, s: State): (b: bool)
    requires s.node < |nodes|
    ensures s.matches > 0 || s.strategy == Liberal || s.strategy == ExactPrefix ==> b
  {
    match s.strategy
    case AnchorToPrefix => s.matches > 0 || StartIsNearSeparator(s)
    case MatchPrefix => s.matches > 0 || IsWordSeparator(nodes[s.node].text)
    case _ => true
  }

  /** The strategy gate in front of an error step, once the tolerance allows one. */
  predicate ErrorGate(s: State): (b: bool)
    ensures s.matches > 0 ==> b
    ensures b ==> s.matches > 0 || s.strategy == AnchorToPrefix
  {
    match s.strategy
    case AnchorToPrefix => s.matches > 0 || StartIsNearSeparator(s)
    case _ => s.matches > 0
  }

  /**
   * Whenever the error gate opens, so does the match gate, so a child that
   * carries the next pattern character is always taken by a match first.
   */
  lemma ErrorGateOpensMatchGate<T>(nodes: seq<Node<T>>, s: State)
    requires s.node < |nodes| && ErrorGate(s)
    ensures MatchGate(nodes, s)
  {
  }

  /** The child `next` carries the pattern character at `searchIndex`. */
  predicate NextMatches<T>(nodes: seq<Node<T>>, s: State, next: nat)
    requires next < |nodes|
  {
    s.searchIndex < |s.search| && nodes[next].text == [s.search[s.searchIndex]]
  }

  /** buildSearchResetState: start over at `next`, keeping only the text walked. */
  function BuildSearchResetState<T>(nodes: seq<Node<T>>, s: State, next: nat): (r: seq<State>)
    requires next < |nodes|
    ensures |r| == 1 && r[0].node == next && r[0].sequence == s.sequence + nodes[next].text
    ensures r[0].start.None? && r[0].end.None? && r[0].skip.None? && !r[0].finisher
    ensures r[0].searchIndex == 0 && r[0].matches == 0 && r[0].errors == 0
    ensures Keeps(s, r[0])
  {
    [s.(node := next, skip := None, start := None, end := None, searchIndex := 0, matches := 0,
        errors := 0, sequence := s.sequence + nodes[next].text, finisher := false)]
  }

  /** A successor keeps the strategy, the pattern, the predetermined errors and the tolerance. */
  predicate Keeps(s: State, t: State)
  {
    t.strategy == s.strategy && t.search == s.search &&
    t.predetermined == s.predetermined && t.tolerance == s.tolerance
  }

  /**
   * buildFinisherState: once a state sufficiently matches it goes on to
   * `next` as a finisher, consuming a pattern character if `next` carries
   * it and charging an error if it does not; a state that is not itself a
   * finisher and has not matched the whole pattern also restarts at `next`.
   */
  function BuildFinisherState<T>(nodes: seq<Node<T>>, s: State, next: nat): (r: Option<seq<State>>)
    requires next < |nodes|
    ensures r.None? <==> !SufficientlyMatches(s)
    ensures r.Some? ==> 1 <= |r.value| <= 2 && r.value[0].finisher && r.value[0].node == next
    ensures r.Some? ==> (|r.value| == 2 <==> !s.finisher && |s.search| != s.matches)
    ensures r.Some? && |r.value| == 2 ==> r.value[1..] == BuildSearchResetState(nodes, s, next)
    ensures r.Some? ==> r.value[0].sequence == s.sequence + nodes[next].text && Keeps(s, r.value[0])
    ensures r.Some? ==> r.value[0].start == s.start && r.value[0].searchIndex == s.searchIndex + 1
    ensures r.Some? ==> (r.value[0].matches == s.matches + 1 <==> NextMatches(nodes, s, next))
    ensures r.Some? ==> r.value[0].matches + r.value[0].errors
                        == s.matches + s.errors + (if s.searchIndex < |s.search| then 1 else 0)
  {
    if !SufficientlyMatches(s) then None
    else
      var matches := NextMatches(nodes, s, next);
      var errors := if s.searchIndex < |s.search| && !matches then s.errors + 1 else s.errors;
      var count := if matches then s.matches + 1 else s.matches;
      var end := if matches then Some(|s.sequence|)
                 else if s.end.None? then Some(|s.sequence| - 1)
                 else s.end;
      var finisher := s.(node := next, skip := None, end := end, searchIndex := s.searchIndex + 1,
                         matches := count, errors := errors,
                         sequence := s.sequence + nodes[next].text, finisher := true);
      if !s.finisher && |s.search| != s.matches then
        Some([finisher] + BuildSearchResetState(nodes, s, next))
      else
        Some([finisher])
  }

  /**
   * buildSearchMatchState: behind the strategy gate, a child carrying the
   * next pattern character is matched; the window opens (if it was not
   * open) and ends at the character appended.
   */
  function BuildSearchMatchState<T>(nodes: seq<Node<T>>, s: State, next: nat): (r: Option<seq<State>>)
    requires s.node < |nodes| && next < |nodes|
    ensures r.Some? <==> MatchGate(nodes, s) && NextMatches(nodes, s, next)
    ensures r.Some? ==> |r.value| == 1 && r.value[0].node == next && !r.value[0].finisher
    ensures r.Some? ==> r.value[0].sequence == s.sequence + nodes[next].text && Keeps(s, r.value[0])
    ensures r.Some? ==> r.value[0].matches == s.matches + 1 && r.value[0].errors == s.errors
    ensures r.Some? ==> r.value[0].searchIndex == s.searchIndex + 1 <= |s.search|
    ensures r.Some? ==> r.value[0].end == Some(|s.sequence|)
    ensures r.Some? ==> r.value[0].start == (if s.start.Some? then s.start else Some(|s.sequence|))
  {
    if MatchGate(nodes, s) && NextMatches(nodes, s, next) then
      var start := if s.start.Some? then s.start else Some(|s.sequence|);
      Some([s.(node := next, skip := None, start := start, end := Some(|s.sequence|),
               searchIndex := s.searchIndex + 1, matches := s.matches + 1,
               sequence := s.sequence + nodes[next].text, finisher := false)])
    else
      None
  }

  /**
   * getErrorStrategies: a misspelling (consume the pattern character and
   * move to `next`), a character missing from the stored text (consume
   * the pattern character and stay, skipping later the child that carries
   * it) and a character missing from the pattern (move to `next` only).
   */
  function GetErrorStrategies<T>(nodes: seq<Node<T>>, s: State, next: nat): (r: seq<ErrorMove>)
    requires s.node < |nodes| && next < |nodes| && InArena(nodes, nodes[s.node].next)
    ensures |r| == 3
    ensures r[0].node == next && r[0].searchIndex == s.searchIndex + 1 && r[0].skip.None?
    ensures r[1].node == s.node && r[1].searchIndex == s.searchIndex + 1 && r[1].sequence == s.sequence
    ensures r[2].node == next && r[2].searchIndex == s.searchIndex && r[2].skip.None?
    ensures r[0].sequence == r[2].sequence == s.sequence + nodes[next].text
    ensures s.skip.Some? ==> r[1].skip == s.skip
    ensures s.skip.None? && r[1].skip.Some? ==>
              r[1].skip.value in nodes[s.node].next && NextMatches(nodes, s, r[1].skip.value)
    ensures s.skip.None? ==>
              (r[1].skip.Some? <==>
                 exists i :: 0 <= i < |nodes[s.node].next| && NextMatches(nodes, s, nodes[s.node].next[i]))
  {
    var skip := if s.skip.Some? then s.skip
                else if s.searchIndex < |s.search| then FirstWithLabel(nodes, nodes[s.node].next, [s.search[s.searchIndex]])
                else None;
    [ErrorMove(next, None, s.searchIndex + 1, s.sequence + nodes[next].text),
     ErrorMove(s.node, skip, s.searchIndex + 1, s.sequence),
     ErrorMove(next, None, s.searchIndex, s.sequence + nodes[next].text)]
  }

  /** The state an error move leads to: one more error, counts and window kept. */
  function ErrorState(s: State, m: ErrorMove): (t: State)
    ensures t.errors == s.errors + 1 && t.matches == s.matches && Keeps(s, t)
    ensures t.start == s.start && t.end == s.end && !t.finisher
  {
    s.(node := m.node, skip := m.skip, searchIndex := m.searchIndex, errors := s.errors + 1,
       sequence := m.sequence, finisher := false)
  }

  /**
   * buildSearchErrorState: while accrued errors stay below the tolerance
   * and the strategy gate lets an error in, every error move yields a
   * successor with one more error.
   */
  function BuildSearchErrorState<T>(nodes: seq<Node<T>>, s: State, next: nat): (r: Option<seq<State>>)
    requires s.node < |nodes| && next < |nodes| && InArena(nodes, nodes[s.node].next)
    ensures r.Some? <==> s.errors < s.tolerance && ErrorGate(s)
    ensures r.Some? ==> |r.value| == 3
    ensures r.Some? ==> forall t :: t in r.value ==>
              t.errors == s.errors + 1 && t.matches == s.matches && Keeps(s, t) &&
              t.start == s.start && t.end == s.end && !t.finisher
    ensures r.Some? ==> r.value[1].node == s.node && r.value[1].sequence == s.sequence
    ensures r.Some? ==> r.value[0].node == r.value[2].node == next
    ensures r.Some? ==> r.value[0].sequence == r.value[2].sequence == s.sequence + nodes[next].text
  {
    if s.errors < s.tolerance && ErrorGate(s) then
      var moves := GetErrorStrategies(nodes, s, next);
      Some([ErrorState(s, moves[0]), ErrorState(s, moves[1]), ErrorState(s, moves[2])])
    else
      None
  }

  /** The successor moves into the child `next`, or stays with the text unchanged. */
  predicate Moves<T>(nodes: seq<Node<T>>, s: State, next: nat, t: State)
    requires next < |nodes|
  {
    (t.node == next && t.sequence == s.sequence + nodes[next].text) ||
    (t.node == s.node && t.sequence == s.sequence)
  }

  /** nextStates(nextNode): the first of finisher, match, error and reset that applies. */
  function NextStatesFrom<T>(nodes: seq<Node<T>>, s: State, next: nat): (r: seq<State>)
    requires s.node < |nodes| && next < |nodes| && InArena(nodes, nodes[s.node].next)
    ensures 1 <= |r| <= 3
    ensures forall t :: t in r ==> Keeps(s, t) && Moves(nodes, s, next, t)
  {
    var finisher := BuildFinisherState(nodes, s, next);
    if finisher.Some? then finisher.value
    else
      var matched := BuildSearchMatchState(nodes, s, next);
      if matched.Some? then matched.value
      else
        var erred := BuildSearchErrorState(nodes, s, next);
        if erred.Some? then erred.value
        else BuildSearchResetState(nodes, s, next)
  }

  /** The children that are not the node to skip. */
  function Eligible(kids: seq<nat>, skip: Option<nat>): (r: seq<nat>)
    ensures forall k :: k in r <==> k in kids && skip != Some(k)
    ensures |r| <= |kids|
  {
    if kids == [] then []
    else if skip == Some(kids[0]) then Eligible(kids[1..], skip)
    else [kids[0]] + Eligible(kids[1..], skip)
  }

  /** The successors through each of `kids`, in order. */
  function Successors<T>(nodes: seq<Node<T>>, s: State, kids: seq<nat>): (r: seq<State>)
    requires s.node < |nodes| && InArena(nodes, nodes[s.node].next) && InArena(nodes, kids)
    ensures |kids| <= |r| <= 3 * |kids|
    ensures forall t :: t in r ==>
              (Keeps(s, t) &&
               ((t.node == s.node && t.sequence == s.sequence) ||
                (t.node in kids && t.sequence == s.sequence + nodes[t.node].text)))
  {
    if kids == [] then []
    else NextStatesFrom(nodes, s, kids[0]) + Successors(nodes, s, kids[1..])
  }

  /**
   * nextStates: the successors through every child of the state's node
   * except the node to skip.
   */
  function NextStates<T>(nodes: seq<Node<T>>, s: State): (r: seq<State>)
    requires s.node < |nodes| && InArena(nodes, nodes[s.node].next)
    ensures |Eligible(nodes[s.node].next, s.skip)| <= |r| <= 3 * |Eligible(nodes[s.node].next, s.skip)|
    ensures forall t :: t in r ==>
              (Keeps(s, t) &&
               ((t.node == s.node && t.sequence == s.sequence) ||
                (t.node in nodes[s.node].next && Some(t.node) != s.skip &&
                 t.sequence == s.sequence + nodes[t.node].text)))
  {
    var kids := Eligible(nodes[s.node].next, s.skip);
    assert InArena(nodes, kids) by {
      forall i | 0 <= i < |kids| ensures kids[i] < |nodes| {
        assert kids[i] in nodes[s.node].next;
      }
    }
    Successors(nodes, s, kids)
  }

  /**
   * buildSearchResult: the result a completing, sufficiently matching state
   * yields. The Kotlin code throws when the window is unset or out of the
   * text (the `!!` reads and the index reads), and when the window starts on
   * a separator (the matched-word `substring` then gets a begin past its end);
   * both are Failure here.
   */
  function BuildSearchResult<T>(nodes: seq<Node<T>>, s: State): (r: Result<SearchResult<T>, string>)
    requires s.node < |nodes| && HasSearchResult(nodes, s)
    ensures r.Success? <==> s.end.Some? && 0 <= s.start.value <= s.end.value < |s.sequence| &&
                            !IsSep(s.sequence[s.start.value])
    ensures r.Success? ==>
              var start, end, txt, res := s.start.value, s.end.value, s.sequence, r.value;
              && res.text == txt && Some(res.value) == nodes[s.node].value
              && res.matchedSubstring == txt[start..end + 1]
              && res.numberOfMatches == s.matches && res.numberOfErrors == ActualErrors(s)
              && (res.matchedWholeSequence <==> ActualErrors(s) == 0 && start == 0 && end >= |txt| - 1)
              && (res.matchedWholeWord <==> ActualErrors(s) == 0 && IsWordSeparatorAt(txt, start - 1) &&
                                            IsWordSeparatorAt(txt, end + 1))
  {
    var start := s.start.value;
    if s.end.None? || !(0 <= start <= s.end.value < |s.sequence|) then
      Failure("match window unset or outside the text")
    else
      var end, txt := s.end.value, s.sequence;
      var actual := ActualErrors(s);
      var last := LastSep(txt, start);
      var first := FirstSep(txt, start);
      var before := if last.Some? then last.value as int else -1;
      var after := if first.Some? then first.value else |txt|;
      if before + 1 > after then
        Failure("match window starts on a word separator")
      else
        Success(SearchResult(
          txt,
          nodes[s.node].value.value,
          txt[start..end + 1],
          txt[before + 1..after],
          s.matches,
          actual,
          start - before - 1,
          actual == 0 && start == 0 && end >= |txt| - 1,
          actual == 0 && IsWordSeparatorAt(txt, start - 1) && IsWordSeparatorAt(txt, end + 1)))
  }

  /**
   * What every state reachable from the initial one satisfies: its text is
   * the path from the root to its node, the node to skip is a child of that
   * node, the window is unset at both ends or lies inside the text, and the
   * match count is bounded by the pattern position and the pattern length.
   */
  ghost predicate Coherent<T>(nodes: seq<Node<T>>, s: State)
  {
    && s.node < |nodes|
    && s.sequence == PathTo(nodes, s.node)
    && (s.skip.Some? ==> s.skip.value in nodes[s.node].next)
    && (s.start.None? <==> s.end.None?)
    && (s.start.Some? ==> 0 <= s.start.value <= s.end.value < |s.sequence|)
    && s.matches <= s.searchIndex && s.matches <= |s.search|
  }

  /** The search starts coherent at the root. */
  lemma InitialCoherent<T>(nodes: seq<Node<T>>, search: seq<char>, predetermined: int, tolerance: int,
                           strategy: Strategy)
    requires WellFormed(nodes)
    ensures Coherent(nodes, Initial(0, search, predetermined, tolerance, strategy))
  {
  }

  /** Moving into a child appends exactly the child's one-character label. */
  lemma ChildPath<T>(nodes: seq<Node<T>>, n: nat, c: nat)
    requires WellFormed(nodes) && n < |nodes| && c in nodes[n].next
    ensures 0 < c < |nodes| && |nodes[c].text| == 1
    ensures PathTo(nodes, c) == PathTo(nodes, n) + nodes[c].text
  {
    var i :| 0 <= i < |nodes[n].next| && nodes[n].next[i] == c;
  }

  /** Every successor through the child `next` is coherent again. */
  lemma NextStatesFromCoherent<T>(nodes: seq<Node<T>>, s: State, next: nat)
    requires WellFormed(nodes) && Coherent(nodes, s) && next in nodes[s.node].next
    ensures InArena(nodes, nodes[s.node].next) && next < |nodes|
    ensures forall t :: t in NextStatesFrom(nodes, s, next) ==> Coherent(nodes, t)
  {
    ChildrenInArena(nodes, s.node);
    ChildPath(nodes, s.node, next);
    ChildrenInArena(nodes, next);
    var finisher := BuildFinisherState(nodes, s, next);
    if finisher.Some? {
      FinisherCoherent(nodes, s, next);
    } else if BuildSearchMatchState(nodes, s, next).Some? {
    } else if BuildSearchErrorState(nodes, s, next).Some? {
      ErrorCoherent(nodes, s, next);
    }
  }

  lemma FinisherCoherent<T>(nodes: seq<Node<T>>, s: State, next: nat)
    requires WellFormed(nodes) && Coherent(nodes, s) && next in nodes[s.node].next
    requires 0 < next < |nodes| && |nodes[next].text| == 1
    requires PathTo(nodes, next) == PathTo(nodes, s.node) + nodes[next].text
    requires BuildFinisherState(nodes, s, next).Some?
    ensures forall t :: t in BuildFinisherState(nodes, s, next).value ==> Coherent(nodes, t)
  {
  }

  lemma ErrorCoherent<T>(nodes: seq<Node<T>>, s: State, next: nat)
    requires WellFormed(nodes) && Coherent(nodes, s) && next in nodes[s.node].next
    requires 0 < next < |nodes| && |nodes[next].text| == 1
    requires PathTo(nodes, next) == PathTo(nodes, s.node) + nodes[next].text
    requires InArena(nodes, nodes[s.node].next)
    requires BuildSearchErrorState(nodes, s, next).Some?
    ensures forall t :: t in BuildSearchErrorState(nodes, s, next).value ==> Coherent(nodes, t)
  {
  }

  /** Every successor through a run of the node's children is coherent. */
  lemma {:induction false} SuccessorsCoherent<T>(nodes: seq<Node<T>>, s: State, kids: seq<nat>)
    requires WellFormed(nodes) && Coherent(nodes, s)
    requires forall k :: k in kids ==> k in nodes[s.node].next
    ensures InArena(nodes, nodes[s.node].next) && InArena(nodes, kids)
    ensures forall t :: t in Successors(nodes, s, kids) ==> Coherent(nodes, t)
  {
    ChildrenInArena(nodes, s.node);
    if kids != [] {
      NextStatesFromCoherent(nodes, s, kids[0]);
      SuccessorsCoherent(nodes, s, kids[1..]);
    }
  }

  /** One step of the search keeps every state coherent. */
  lemma NextStatesCoherent<T>(nodes: seq<Node<T>>, s: State)
    requires WellFormed(nodes) && Coherent(nodes, s)
    ensures InArena(nodes, nodes[s.node].next)
    ensures forall t :: t in NextStates(nodes, s) ==> Coherent(nodes, t)
  {
    SuccessorsCoherent(nodes, s, Eligible(nodes[s.node].next, s.skip));
  }

  /** A walk of the search: every state after the first is a successor of the one before. */
  ghost predicate Run<T>(nodes: seq<Node<T>>, run: seq<State>)
  {
    && |run| > 0
    && forall i :: 0 <= i < |run| - 1 ==>
         && run[i].node < |nodes| && InArena(nodes, nodes[run[i].node].next)
         && run[i + 1] in NextStates(nodes, run[i])
  }

  /** Every state of a walk that starts coherent is coherent. */
  lemma {:induction false} RunCoherent<T>(nodes: seq<Node<T>>, run: seq<State>)
    requires WellFormed(nodes) && Run(nodes, run) && Coherent(nodes, run[0])
    ensures forall i :: 0 <= i < |run| ==> Coherent(nodes, run[i])
  {
    if |run| > 1 {
      var front := run[..|run| - 1];
      assert Run(nodes, front) by {
        forall i | 0 <= i < |front| - 1
          ensures front[i].node < |nodes| && InArena(nodes, nodes[front[i].node].next)
          ensures front[i + 1] in NextStates(nodes, front[i])
        {
          assert front[i] == run[i] && front[i + 1] == run[i + 1];
        }
      }
      RunCoherent(nodes, front);
      assert Coherent(nodes, run[|run| - 2]) by {
        assert front[|run| - 2] == run[|run| - 2];
      }
      NextStatesCoherent(nodes, run[|run| - 2]);
      forall i | 0 <= i < |run| ensures Coherent(nodes, run[i]) {
        if i < |run| - 1 {
          assert front[i] == run[i];
        }
      }
    }
  }

  /**
   * The finisher successor of a sufficiently matching state matches
   * sufficiently too: it never loses a match and never gains an actual error.
   */
  lemma FinisherStaysSufficient<T>(nodes: seq<Node<T>>, s: State, next: nat)
    requires next < |nodes| && SufficientlyMatches(s)
    ensures BuildFinisherState(nodes, s, next).Some?
    ensures var t := BuildFinisherState(nodes, s, next).value[0];
            && t.matches >= s.matches && ActualErrors(t) <= ActualErrors(s)
            && SufficientlyMatches(t)
  {
    var t := BuildFinisherState(nodes, s, next).value[0];
    if s.searchIndex < |s.search| {
      assert ActualErrors(t) == ActualErrors(s) - 1 + (t.errors - s.errors);
    }
  }

  /**
   * With no tolerance and no predetermined errors, a sufficient match has
   * matched the whole pattern without a single error.
   */
  lemma ExactWithoutTolerance(s: State)
    requires s.tolerance == 0 && s.predetermined == 0 && s.matches <= |s.search|
    requires SufficientlyMatches(s)
    ensures s.matches == |s.search| && s.errors == 0 && s.searchIndex >= |s.search|
  {
  }

  /** The same states under another strategy. */
  function Relabel(ts: seq<State>, strategy: Strategy): (r: seq<State>)
    ensures |r| == |ts|
    ensures forall i :: 0 <= i < |ts| ==> r[i] == ts[i].(strategy := strategy)
  {
    if ts == [] then [] else [ts[0].(strategy := strategy)] + Relabel(ts[1..], strategy)
  }

  /**
   * EXACT_PREFIX takes the `else` branches of both strategy gates, so one
   * step under it is a step under LIBERAL with the strategy relabelled.
   */
  lemma {:induction false} ExactPrefixIsLiberal<T>(nodes: seq<Node<T>>, s: State, kids: seq<nat>)
    requires s.node < |nodes| && InArena(nodes, nodes[s.node].next) && InArena(nodes, kids)
    ensures Successors(nodes, s.(strategy := ExactPrefix), kids)
            == Relabel(Successors(nodes, s.(strategy := Liberal), kids), ExactPrefix)
  {
    if kids != [] {
      var liberal := s.(strategy := Liberal);
      var here := NextStatesFrom(nodes, liberal, kids[0]);
      ExactPrefixStep(nodes, s, kids[0]);
      ExactPrefixIsLiberal(nodes, s, kids[1..]);
      RelabelAppend(here, Successors(nodes, liberal, kids[1..]), ExactPrefix);
    }
  }

  /** The same for the successors through one child. */
  lemma ExactPrefixStep<T>(nodes: seq<Node<T>>, s: State, next: nat)
    requires s.node < |nodes| && next < |nodes| && InArena(nodes, nodes[s.node].next)
    ensures NextStatesFrom(nodes, s.(strategy := ExactPrefix), next)
            == Relabel(NextStatesFrom(nodes, s.(strategy := Liberal), next), ExactPrefix)
  {
    var exact, liberal := s.(strategy := ExactPrefix), s.(strategy := Liberal);
    var finisher := BuildFinisherState(nodes, liberal, next);
    var matched := BuildSearchMatchState(nodes, liberal, next);
    var erred := BuildSearchErrorState(nodes, liberal, next);
    if finisher.Some? {
      SameFinisher(nodes, s, next);
    } else if matched.Some? {
      SameMatch(nodes, s, next);
    } else if erred.Some? {
      SameError(nodes, s, next);
    } else {
      SameReset(nodes, s, next);
    }
  }

  lemma SameFinisher<T>(nodes: seq<Node<T>>, s: State, next: nat)
    requires next < |nodes|
    ensures var exact := BuildFinisherState(nodes, s.(strategy := ExactPrefix), next);
            var liberal := BuildFinisherState(nodes, s.(strategy := Liberal), next);
            exact.Some? == liberal.Some? && (liberal.Some? ==> exact.value == Relabel(liberal.value, ExactPrefix))
  {
  }

  lemma SameMatch<T>(nodes: seq<Node<T>>, s: State, next: nat)
    requires s.node < |nodes| && next < |nodes|
    ensures var exact := BuildSearchMatchState(nodes, s.(strategy := ExactPrefix), next);
            var liberal := BuildSearchMatchState(nodes, s.(strategy := Liberal), next);
            exact.Some? == liberal.Some? && (liberal.Some? ==> exact.value == Relabel(liberal.value, ExactPrefix))
  {
  }

  lemma SameError<T>(nodes: seq<Node<T>>, s: State, next: nat)
    requires s.node < |nodes| && next < |nodes| && InArena(nodes, nodes[s.node].next)
    ensures var exact := BuildSearchErrorState(nodes, s.(strategy := ExactPrefix), next);
            var liberal := BuildSearchErrorState(nodes, s.(strategy := Liberal), next);
            exact.Some? == liberal.Some? && (liberal.Some? ==> exact.value == Relabel(liberal.value, ExactPrefix))
  {
    var moves := GetErrorStrategies(nodes, s.(strategy := Liberal), next);
    assert GetErrorStrategies(nodes, s.(strategy := ExactPrefix), next) == moves;
    forall m ensures ErrorState(s.(strategy := ExactPrefix), m) == ErrorState(s.(strategy := Liberal), m).(strategy := ExactPrefix) {
    }
  }

  lemma SameReset<T>(nodes: seq<Node<T>>, s: State, next: nat)
    requires next < |nodes|
    ensures BuildSearchResetState(nodes, s.(strategy := ExactPrefix), next)
            == Relabel(BuildSearchResetState(nodes, s.(strategy := Liberal), next), ExactPrefix)
  {
  }

  lemma RelabelAppend(a: seq<State>, b: seq<State>, strategy: Strategy)
    ensures Relabel(a + b, strategy) == Relabel(a, strategy) + Relabel(b, strategy)
  {
  }

  /**
   * On a coherent state the only way buildSearchResult fails is a window
   * that starts on a word separator.
   */
  lemma ResultOfCoherent<T>(nodes: seq<Node<T>>, s: State)
    requires Coherent(nodes, s) && HasSearchResult(nodes, s)
    ensures s.end.Some? && 0 <= s.start.value <= s.end.value < |s.sequence|
    ensures BuildSearchResult(nodes, s).Success? <==> !IsSep(s.sequence[s.start.value])
  {
  }

  /**
   * The matched word is the whole run of non-separators around the start of
   * the window, and the prefix distance is how far into that run the window
   * starts.
   */
  lemma MatchedWordIsWord<T>(nodes: seq<Node<T>>, s: State)
    requires s.node < |nodes| && HasSearchResult(nodes, s) && BuildSearchResult(nodes, s).Success?
    ensures var start, txt, word := s.start.value, s.sequence, BuildSearchResult(nodes, s).value.matchedWord;
            var lo := start - BuildSearchResult(nodes, s).value.prefixDistance;
            && 0 <= lo <= start < lo + |word| <= |txt| && word == txt[lo..lo + |word|]
            && (forall j :: lo <= j < lo + |word| ==> !IsSep(txt[j]))
            && (lo == 0 || IsSep(txt[lo - 1]))
            && (lo + |word| == |txt| || IsSep(txt[lo + |word|]))
  {
  }
}

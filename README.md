# Tapestrie trie, fuzzy substring search step and URL fixing, in Dafny

This project models the core of Tapestrie, a Kotlin string trie with exact,
prefix and fuzzy substring search, and proves properties of the model.

**The trie.** The trie (`Trie.kt`, `TrieNode.kt`) is the class `Tries.Trie`.
- Its nodes live in an arena `nodes: seq<Node<T>>`.
  - A node is addressed by its position in the arena, and the root is position 0.
  - The node's children are a sequence of positions in insertion order, since Kotlin's `mutableSetOf` keeps insertion order.
  - Each node's `previous` is its parent's position.
- A ghost map `index` sends every live path to its node.
  - The stored keys and values, `Contents()`, are derived from `index` and the node values.
  - A node completes a key exactly when it carries a value. `TrieNodes.Completes` is defined as `value.Some?`, which is `completes()`.
- Every operation keeps the invariant `Valid()`. It says:
  - the arena is a tree with distinct child labels;
  - `index` is exactly its set of paths;
  - every cached size is one more than the longest key below its node;
  - every leaf but the root completes a key.
- `put`, `remove`, `prefixMatchUpTo`, `gatherAll` and `updateSizes` are methods with their own loops or recursion. Each is proved against `Contents()`.

**The fuzzy step.** One step of the fuzzy substring matcher (`FuzzySubstringSearchState.kt`) is the module `FuzzySearch`.
- A state is a datatype that points into the same arena.
- The successors of a state are a pure function over the arena.
- The search result a state yields is computed by `BuildSearchResult`.
- A run is a sequence of states, each a successor of the one before. Every state of a run from a coherent state is coherent.

**Two searches, step by step.** The module `FuzzyExamples` walks two searches from `TrieFuzzySearchTest.kt` over the arena of a trie holding one key.
- The walks start from the initial state and take one successor per step.
- Each ends in the state whose search result the test expects.

**URL fixing.** `HtmlCrawler.fixUrl` is the method `UrlFix.FixUrl`. It keeps the original while loop and is proved equal to the function `UrlFix.FixedUrl`.

Where the code and its description disagree, the model follows the code:
- `put` on an existing key starts `updateSizes` at the parent of the key's node.
- A fresh trie's root has size 0 (depth -1), but a trie emptied by removals has a root of size 1 (depth 0).
- `remove` as written drops every key that extends the removed key. See Findings.

## Model

| member | source | states |
|---|---|---|
| TrieNodes.Completes | src/main/kotlin/com/rcs/trie/TrieNode.kt:11-13 | a node completes a key iff it carries a value; what this means for the stored keys is stated by `TrieIndex.ContentsAt` |
| TrieNodes.FirstWithLabel | src/main/kotlin/com/rcs/trie/TrieNode.kt:17 | the first child carrying the label, with no earlier child carrying it; None exactly when no child carries it |
| TrieNodes.GetNextNode | src/main/kotlin/com/rcs/trie/TrieNode.kt:15-19 | a child labelled `s` when there is one; None iff no child is labelled `s` |
| TrieNodes.RemoveNextNode | src/main/kotlin/com/rcs/trie/TrieNode.kt:21-25 | afterwards no child is labelled `s`; lookups of every other label are unchanged; text, value, size and parent are kept; nothing changes when no child had the label |
| TrieNodes.AddNextNode | src/main/kotlin/com/rcs/trie/Trie.kt:59-60 | the new node is appended to the arena and to the end of the parent's children; no other node changes |
| TrieNodes.MaxSize | src/main/kotlin/com/rcs/trie/Trie.kt:216 | an upper bound on the sizes of the children that one of them reaches; 0 for no children |
| TrieNodes.MaxBySize | src/main/kotlin/com/rcs/trie/Trie.kt:80 | a child of largest size, None exactly when there are no children |
| TrieIndex.NewSize | src/main/kotlin/com/rcs/trie/Trie.kt:211-216 | the size updateSizes assigns, `max(next.size + 1, 1 + max over the other children)`, is one more than the tallest child |
| TrieIndex.ContentsAt | src/main/kotlin/com/rcs/trie/TrieNode.kt:11-13 | a path is a stored key iff its node completes, and the stored value is the node's value |
| TrieIndex.Height | src/main/kotlin/com/rcs/trie/Trie.kt:19-21 | a node's size is one more than the longest stored key through it, measured from its path, and some stored key reaches that length |
| TrieIndex.EmptyIffNoRootChildren | src/main/kotlin/com/rcs/trie/Trie.kt:23-25 | the root has no children iff nothing is stored |
| TrieIndex.UnlinkIsRemoveNextNode | src/main/kotlin/com/rcs/trie/Trie.kt:129-131 | unlinking a character below a node is `removeNextNode` applied to that node |
| TrieIndex.FreshTrie | src/main/kotlin/com/rcs/trie/Trie.kt:15-17 | the fresh root alone is a valid trie holding nothing |
| Tries.Trie.constructor | src/main/kotlin/com/rcs/trie/Trie.kt:11-13 | a new trie is valid, empty, and holds the single fresh root |
| Tries.Trie.Clear | src/main/kotlin/com/rcs/trie/Trie.kt:15-17 | afterwards the trie is valid and empty, with a fresh root |
| Tries.Trie.Depth | src/main/kotlin/com/rcs/trie/Trie.kt:19-21 | the length of the longest stored key; -1 or 0 when nothing is stored |
| Tries.Trie.IsEmpty | src/main/kotlin/com/rcs/trie/Trie.kt:23-25 | true iff nothing is stored |
| Tries.Trie.Put | src/main/kotlin/com/rcs/trie/Trie.kt:30-89 | an empty key fails with the source's message and changes nothing; otherwise the key is bound to the value, nothing else changes, the previous value (if any) is answered, and the invariant with all sizes holds again |
| Tries.Trie.PutWalk | src/main/kotlin/com/rcs/trie/Trie.kt:41-83 | the loop leaves the key bound to the value, answers the previous value, and leaves only the chain of prefixes of the node at which updateSizes starts to re-size |
| Tries.Trie.UpdateSizes | src/main/kotlin/com/rcs/trie/Trie.kt:209-225 | walking up from the given node restores every size; only sizes change |
| Tries.Trie.PrefixMatchUpTo | src/main/kotlin/com/rcs/trie/Trie.kt:168-187 | the node of the string's path, or None iff no path spells the string |
| Tries.Trie.GetExactly | src/main/kotlin/com/rcs/trie/Trie.kt:142-144 | the stored value of exactly this key, None when it is not stored |
| Tries.Trie.ContainsExactly | src/main/kotlin/com/rcs/trie/Trie.kt:146-148 | true iff exactly this key is stored |
| Tries.Trie.MatchByPrefix | src/main/kotlin/com/rcs/trie/Trie.kt:150-154 | exactly the stored entries whose key starts with the prefix; empty when no path spells the prefix |
| Tries.Trie.GatherAll | src/main/kotlin/com/rcs/trie/Trie.kt:189-207 | the breadth-first walk from a node collects exactly the stored entries whose key extends that node's path |
| Tries.Trie.IsUsedForOtherStrings | src/main/kotlin/com/rcs/trie/Trie.kt:227-229 | a node not used for other strings is not the root, stores no key and has exactly one child |
| Tries.Trie.Trail | src/main/kotlin/com/rcs/trie/Trie.kt:96-115 | the walk of remove stacks the node of every prefix of the key; it gives up iff the key has no path |
| Tries.Trie.LookBack | src/main/kotlin/com/rcs/trie/Trie.kt:122-126 | the pop loop stops at the nearest node above the key that is used for other strings; every node strictly between is unused |
| Tries.Trie.Unwind | src/main/kotlin/com/rcs/trie/Trie.kt:122-133 | unlinking below that node and re-sizing keeps the invariant and drops exactly the stored keys that extend the key |
| Tries.Trie.RemoveAsWritten | src/main/kotlin/com/rcs/trie/Trie.kt:94-140 | remove as written: answers the stored value or None; a stored key is dropped together with every stored key that extends it; a missing key changes nothing |
| Tries.Trie.ClearValue | src/main/kotlin/com/rcs/trie/Trie.kt:118-135 | clearing the value of a node that keeps children forgets exactly that key |
| Tries.Trie.Remove | src/main/kotlin/com/rcs/trie/Trie.kt:94-140 | remove corrected: answers the stored value or None; a stored key is forgotten and nothing else is; a missing key changes nothing |
| Tries.TwoKeys | src/main/kotlin/com/rcs/trie/Trie.kt:30-89 | putting "a" then "ab" stores exactly those two keys |
| Tries.RemoveAsWrittenExample | src/main/kotlin/com/rcs/trie/Trie.kt:118-133 | removing "a" as written from {"a", "ab"} leaves nothing |
| Tries.RemoveExample | src/main/kotlin/com/rcs/trie/Trie.kt:118-133 | the corrected remove of "a" from {"a", "ab"} leaves "ab" |
| TrieRemove.UnwindFinish | src/main/kotlin/com/rcs/trie/Trie.kt:128-133 | at the stopping node, unlinking the key's next character drops exactly the keys extending the key, and leaves updateSizes its precondition |
| TrieGather.GatherDone | src/main/kotlin/com/rcs/trie/Trie.kt:194-206 | once the queue is empty, the results are exactly the stored entries below the start |
| FuzzySearch.IsSep | src/main/kotlin/com/rcs/trie/FuzzySubstringSearchState.kt:60 | a separator is an ASCII character, and no letter or digit is one |
| FuzzySearch.IsWordSeparator | src/main/kotlin/com/rcs/trie/FuzzySubstringSearchState.kt:331-333 | a string of more than one character is never a word separator |
| FuzzySearch.IsWordSeparatorAt | src/main/kotlin/com/rcs/trie/FuzzySubstringSearchState.kt:327-329 | inside the text: iff the character there is a separator; outside the text: always |
| FuzzySearch.LastSep | src/main/kotlin/com/rcs/trie/FuzzySubstringSearchState.kt:335-339 | the last separator at or before the end index, with none after it; None iff there is none |
| FuzzySearch.FirstSep | src/main/kotlin/com/rcs/trie/FuzzySubstringSearchState.kt:341-345 | the first separator at or after the start index, with none before it; None iff there is none |
| FuzzySearch.Initial | src/main/kotlin/com/rcs/trie/FuzzySubstringSearchState.kt:27-50 | the first state sits at the root with empty text and no window; all pattern characters count as errors; it does not match sufficiently |
| FuzzySearch.InitialCoherent | src/main/kotlin/com/rcs/trie/FuzzySubstringSearchState.kt:35-49 | the first state satisfies the state invariant |
| FuzzySearch.ActualErrors | src/main/kotlin/com/rcs/trie/FuzzySubstringSearchState.kt:307-310 | the predetermined and accrued errors, plus the unmatched rest of the pattern, clamped at 0 once the pattern index runs past the end |
| FuzzySearch.SufficientlyMatches | src/main/kotlin/com/rcs/trie/FuzzySubstringSearchState.kt:117-121 | a sufficient state has a window and its errors within the tolerance, and the pattern characters still unmatched fit in the tolerance left |
| FuzzySearch.HasSearchResult | src/main/kotlin/com/rcs/trie/FuzzySubstringSearchState.kt:73-75 | a state has a result iff it completes a key and matches sufficiently |
| FuzzySearch.StartIsNearSeparator | src/main/kotlin/com/rcs/trie/FuzzySubstringSearchState.kt:312-316 | true iff the text is no longer than the errors plus one, or one of its last `errors + 2` characters is a separator |
| FuzzySearch.MatchGate | src/main/kotlin/com/rcs/trie/FuzzySubstringSearchState.kt:185-192 | a match may be tried once something matched, and always under LIBERAL and EXACT_PREFIX |
| FuzzySearch.ErrorGate | src/main/kotlin/com/rcs/trie/FuzzySubstringSearchState.kt:226-232 | an error may be charged once something matched; before that only under ANCHOR_TO_PREFIX |
| FuzzySearch.ErrorGateOpensMatchGate | src/main/kotlin/com/rcs/trie/FuzzySubstringSearchState.kt:185-232 | whenever the error gate opens, the match gate is open too |
| FuzzySearch.ExactWithoutTolerance | src/main/kotlin/com/rcs/trie/FuzzySubstringSearchState.kt:117-121 | with tolerance 0 and no predetermined errors, a sufficient match has matched every pattern character, with no accrued error |
| FuzzySearch.BuildSearchResetState | src/main/kotlin/com/rcs/trie/FuzzySubstringSearchState.kt:287-305 | one successor at the child, text extended by its label, with window, pattern index, matches and errors cleared; strategy, pattern, predetermined errors and tolerance are kept |
| FuzzySearch.BuildFinisherState | src/main/kotlin/com/rcs/trie/FuzzySubstringSearchState.kt:130-180 | present iff the state sufficiently matches; a finisher successor, plus a reset iff the state is no finisher and has not matched the whole pattern; a pattern character is consumed, counted as a match iff the child carries it |
| FuzzySearch.FinisherStaysSufficient | src/main/kotlin/com/rcs/trie/FuzzySubstringSearchState.kt:135-154 | the finisher successor of a sufficient state never loses a match, never gains an actual error, and is sufficient |
| FuzzySearch.BuildSearchMatchState | src/main/kotlin/com/rcs/trie/FuzzySubstringSearchState.kt:182-219 | present iff the strategy gate opens and the child carries the next pattern character; one more match; the window opens if unset and ends at the appended character |
| FuzzySearch.GetErrorStrategies | src/main/kotlin/com/rcs/trie/FuzzySubstringSearchState.kt:257-285 | three moves: substitution (next pattern character, into the child), character missing from the text (next pattern character, stay) and character missing from the pattern (into the child only); from a state with no skip, the stay move skips a child iff some child carries the next pattern character |
| FuzzySearch.ErrorState | src/main/kotlin/com/rcs/trie/FuzzySubstringSearchState.kt:236-249 | an error successor has exactly one more error and the same matches and window |
| FuzzySearch.BuildSearchErrorState | src/main/kotlin/com/rcs/trie/FuzzySubstringSearchState.kt:221-255 | present iff accrued errors are below the tolerance and the error gate opens; then three successors, each with one more error |
| FuzzySearch.ExactPrefixIsLiberal | src/main/kotlin/com/rcs/trie/FuzzySubstringSearchState.kt:185-232 | under EXACT_PREFIX a step yields exactly LIBERAL's successors with the strategy relabelled |
| FuzzySearch.NextStatesFrom | src/main/kotlin/com/rcs/trie/FuzzySubstringSearchState.kt:123-128 | the first of finisher, match, error and reset that applies, so 1 to 3 successors; each moves into the child with its label appended or stays with the text unchanged |
| FuzzySearch.Eligible | src/main/kotlin/com/rcs/trie/FuzzySubstringSearchState.kt:65-67 | the children other than the node to skip |
| FuzzySearch.Successors | src/main/kotlin/com/rcs/trie/FuzzySubstringSearchState.kt:64-69 | between 1 and 3 successors per listed child; each keeps strategy, pattern, predetermined errors and tolerance, and either moves into a listed child with its label appended or stays put with the text unchanged |
| FuzzySearch.NextStates | src/main/kotlin/com/rcs/trie/FuzzySubstringSearchState.kt:62-71 | between 1 and 3 successors per child other than the node to skip; each keeps strategy, pattern, predetermined errors and tolerance, and appends exactly the child's label or stays put |
| FuzzySearch.NextStatesCoherent | src/main/kotlin/com/rcs/trie/FuzzySubstringSearchState.kt:150-154 | a step keeps the state invariant: the text is the root-to-node path; the window is unset at both ends or inside the text; the skip node is a child; matches stay within the pattern index and length |
| FuzzySearch.RunCoherent | src/main/kotlin/com/rcs/trie/FuzzySubstringSearchState.kt:62-71 | every state of a run that starts from a coherent state is coherent |
| FuzzySearch.BuildSearchResult | src/main/kotlin/com/rcs/trie/FuzzySubstringSearchState.kt:77-115 | fails iff the window is unset, outside the text, or starts on a separator; otherwise text, value, window substring, matches and actual errors; whole-sequence and whole-word flags hold exactly under their conditions |
| FuzzySearch.MatchedWordIsWord | src/main/kotlin/com/rcs/trie/FuzzySubstringSearchState.kt:92-102 | the matched word is the maximal run of non-separators around the window start, and the prefix distance is the window start's offset in it |
| FuzzySearch.ResultOfCoherent | src/main/kotlin/com/rcs/trie/FuzzySubstringSearchState.kt:82-84 | on a reachable state the `!!` reads are safe, and the result fails only when the window starts on a separator |
| FuzzyExamples.ChainWellFormed | src/main/kotlin/com/rcs/trie/Trie.kt:30-89 | the arena of a trie holding one key is well formed, and the path to its node `i` spells the key's first `i` characters |
| FuzzyExamples.ChainRun | src/main/kotlin/com/rcs/trie/FuzzySubstringSearchState.kt:62-71 | in that arena, a walk whose every state is a successor through the one child below it is a run |
| FuzzyExamples.OneSubstitutionExample | src/test/kotlin/com/rcs/trie/TrieFuzzySearchTest.kt:41 | searching "ondex" for "index" with tolerance 2 under ANCHOR_TO_PREFIX: a five-step run from the initial state reaches a state whose result is substring "ndex", word "ondex", 4 matches, 1 error, prefix distance 1, neither flag |
| FuzzyExamples.WholeWordExample | src/test/kotlin/com/rcs/trie/TrieFuzzySearchTest.kt:40 | searching "lalala index" for "index" the same way: a twelve-step run from the initial state (two errors, restarts up to the space, then five matches) reaches a whole-word match that is not the whole sequence, with prefix distance 0 |
| UrlFix.LastIndexOf | src/main/kotlin/com/rcs/htmlcrawlerdemo/HtmlCrawler.kt:112 | the last position of the character with none after it, or -1 iff it does not occur |
| UrlFix.RemoveUps | src/main/kotlin/com/rcs/htmlcrawlerdemo/HtmlCrawler.kt:114 | never longer; a link starting with `../` gets at least 3 shorter; a link without `../` is unchanged |
| UrlFix.ReplaceCanFormUp | src/main/kotlin/com/rcs/htmlcrawlerdemo/HtmlCrawler.kt:114 | one replace pass can leave a new `../` behind: `....//` becomes `../` |
| UrlFix.Climb | src/main/kotlin/com/rcs/htmlcrawlerdemo/HtmlCrawler.kt:113-116 | the loop from a cut page path fails iff it makes more passes than the path has `/` to cut at |
| UrlFix.FixedUrl | src/main/kotlin/com/rcs/htmlcrawlerdemo/HtmlCrawler.kt:110-118 | fails iff the page path has no more `/` than the link has passes of the loop; a page path without `/` always fails |
| UrlFix.FixUrl | src/main/kotlin/com/rcs/htmlcrawlerdemo/HtmlCrawler.kt:110-118 | the loop computes `FixedUrl`, failure included, and terminates |
| UrlFix.LastSlash | src/main/kotlin/com/rcs/htmlcrawlerdemo/HtmlCrawler.kt:112 | cutting at the last `/` removes exactly one `/` |
| UrlFix.ClimbShape | src/main/kotlin/com/rcs/htmlcrawlerdemo/HtmlCrawler.kt:113-117 | a successful climb is a prefix of the path, cut just before a `/` iff a pass ran, followed by what is left of the link once the passes stop; the part cut off holds one `/` per pass |
| UrlFix.FixedUrlShape | src/main/kotlin/com/rcs/htmlcrawlerdemo/HtmlCrawler.kt:112-117 | a fixed URL is the page path cut just before one of its `/`, followed by what is left of the link; the part cut off holds one `/` for the first cut and one per pass |
| UrlFix.NoClimb | src/main/kotlin/com/rcs/htmlcrawlerdemo/HtmlCrawler.kt:111-117 | a link without a leading `../` is appended to the page path cut before its last `/` |
| UrlFix.DoubleUpClimbsOnce | src/main/kotlin/com/rcs/htmlcrawlerdemo/HtmlCrawler.kt:113-116 | `../../x` from `/a/b/p` climbs one level only, giving `/a` followed by `x` |
| UrlFix.ClimbAboveTopFails | src/main/kotlin/com/rcs/htmlcrawlerdemo/HtmlCrawler.kt:115 | climbing above `/page.html` fails, because nothing is left to cut at |

## Left out

- Locking: every `synchronized` block and the size-update lock are left out, and every operation is modelled as sequential. The multithreaded stress test is not modelled; its sequential expectations follow from the `Put`, `Remove` and `GetExactly` contracts.
- `Trie.iterator()` is called by the concurrency test but is not part of this model.
- `matchBySubstring`, `matchBySubstringFuzzy` and the `FuzzySubstringSearcher` driver (frontier and ranking of results) are not part of this model. Only the step of the search is modelled.
- `FuzzySubstringMatchingStrategy` and `TrieSearchResult` are not part of this model either. The strategy is a four-constructor datatype taken from its uses, and the result is a nine-field datatype in the order of the constructor call.
- FuzzySearch.IsSep: the separator class `[\s\p{P}]` is modelled on ASCII only. Non-ASCII whitespace and punctuation do not count as separators here.
- FuzzySearch.BuildSearchResult: the JVM `assert(hasSearchResult())` becomes a precondition. All out-of-range index failures become one Failure, whichever Kotlin call would have thrown first.
- FuzzySearch.BuildSearchResult: an empty window (start one past end) fails here, where Kotlin's `substring` would answer "". No coherent state has one, since a set window has start at most end.
- Tries.Trie.Depth: on an empty trie it states only "-1 or 0". A fresh root has size 0, but a root left by removals keeps size 1.
- UrlFix.RemoveUps: the contract does not say how many occurrences a pass deletes. The examples show the single-pass behaviour.
- Kotlin `Int` is 32-bit. Sizes, indices, counters and tolerances are unbounded here, so overflow is not modelled.
- Values are non-null `T`. A nullable value type, where `put(k, null)` would store a key that `completes()` denies, is not modelled.
- The rest of `HtmlCrawler` (`init`, `search`, `crawl`, `indexPage`) does network and console I/O through classes that are not part of this model, and is left out. So is `HtmlCrawlerDemo`.
- Node identity (`===`, `!=` on nodes) is equality of arena positions. Unlinked nodes stay in the arena, unreachable.

## Findings

| source | as written | input that shows it | evidently intended | confidence | as-written member | corrected member |
|---|---|---|---|---|---|---|
| src/main/kotlin/com/rcs/trie/Trie.kt:118-133 | after popping the key's own node, `remove` walks back from its parent and unlinks the first unused character on the key's path, without checking whether the key's node has children, so every stored key that extends the removed key is dropped too | `put("a", 1)`, `put("ab", 2)`, `remove("a")`: nothing is left | only "a" is forgotten and "ab" stays stored (a node with children just loses its value) | not executed | Tries.Trie.RemoveAsWritten, Tries.RemoveAsWrittenExample | Tries.Trie.Remove, Tries.RemoveExample |

# Greedy superstring callback: a Dafny model

This project models `Superstring_callback` from
`tribble/find-superstring/superstring_callback.cc`. It is the stateful part of
a greedy shortest-superstring assembler. An external suffix-array matcher
reports overlap events. Each event says that the string of lexicographic rank
`read_lex_rank` overlaps, by `match_length` characters, the strings whose ranks
lie in `[match_sa_begin, match_sa_end]`. The callback object decides which
merge, if any, to commit for each event. It records the merge in three places:
a per-string chain root (`leftend`), a per-string availability flag
(`rightavailable`), and an append-only merge list. At the end,
`build_final_superstring` sorts the merge list and concatenates pieces of the
input strings.

The model follows the code as written:

- `Callback.SuperstringCallback` is a class. `leftend`, `next` and
  `rightavailable` are arrays with one slot per string. The merge list is a
  `seq<Merge>` field that the methods reassign. `merges_done` is a field that
  no method changes.
- `Registry` holds the value-level specification:
  - the availability scan (`NextAvailable`);
  - a one-scan reference definition of what an event resolves to
    (`FirstEligible`);
  - the registry invariant that every committed merge keeps;
  - the lemmas about that invariant.
- `Assembly` holds the lexicographic sort of merge triples and the final
  assembly as the loop computes it.
- `ChainAssembly` is the assembly the loop evidently intends (see Findings).
- `Scenarios` holds two clients of the class: the three-string example, and a
  two-string run in which the merge counter never stops the merging.

Results proved:

- **An available string is its own chain root.** So `try_merge(L, k)` on an
  available `k` fails exactly when `k == L`.
- **The two attempts in `callback` find the reference answer.** Together they
  find the first available string in the interval other than `L`. When the
  second attempt is in range it always commits, as the comment at :73 says.
- **The consumed strings match the merge list.** They are exactly the right
  strings of the merges. Their number equals the length of the list, and no
  string is consumed twice.
- **Exactly one chain head remains after `n - 1` merges.** The head scan finds
  it.
- **`merges_done` is never incremented.** So the guard at :49 returns early
  only when there is a single string. With two strings, two events commit two
  merges that form a cycle and consume both strings (`CounterNeverStops`).
- **The final assembly reads one record.** It reads the record at the head's
  position on every iteration and uses that record's right index as the
  overlap. Its length is therefore `(n - 1) * right + |strings[right]|`.

Where the code's own comments state an intent that the code does not carry
out, the model follows the code:

- **Merge budget.** The guard at :49 is commented "No more merges can be
  done", which means at most `n - 1` merges. The counter it tests is never
  incremented, so it stays 0, and the guard fires only when there is a single
  string.
- **Assembly.** The comment at :101 says the loop concatenates all strings
  and writes the overlapping region of adjacent strings only once. The loop
  reads one record on every iteration, so its result is neither that
  concatenation nor of that length. `ChainAssembly` models the stated intent
  and proves its length and containment properties (see Findings).

Two more facts about the code, modelled as they are:

- **Sort key.** The sort at :89 orders whole `(left, right, overlap)` tuples
  lexicographically.
- **Zero strings.** With `n_strings == 0`, `n_strings - 1` wraps at :49, so
  the guard does not fire, and the array reads that follow are out of bounds.
  The model's `Callback` therefore requires at least one string.

## Model

| member | source | states |
|---|---|---|
| `Callback.SuperstringCallback.constructor` | tribble/find-superstring/superstring_callback.cc:22-29 | every string is its own chain root and available, `next[i] == i + 1`, no merges, counter 0; the registry invariant holds |
| `Callback.SuperstringCallback.TryMerge` | tribble/find-superstring/superstring_callback.cc:31-40 | commits iff `leftend[right] != left`; on commit appends exactly `(left, right, overlap)`, clears `rightavailable[right]`, sets `leftend[right]` to the old root of `left`, and leaves every other entry unchanged; otherwise changes nothing; keeps the invariant when `right` was available |
| `Callback.SuperstringCallback.SetSubstringCount` | tribble/find-superstring/superstring_callback.cc:43-45 | changes nothing |
| `Callback.SuperstringCallback.NextRightAvailable` | tribble/find-superstring/superstring_callback.cc:77-83 | returns `NextAvailable` from `index + 1` in 64-bit arithmetic (so from 0 when `index` is the wrapped `0 - 1`), changes nothing |
| `Callback.SuperstringCallback.Callback` | tribble/find-superstring/superstring_callback.cc:48-75 | with one string returns true and changes nothing, whatever the arguments; otherwise returns true iff an eligible right string exists, commits exactly `(read_lex_rank - 1, k, match_length)` for the first one `k` with the matching flag and root updates, and otherwise changes nothing; keeps the invariant |
| `Callback.SuperstringCallback.BuildFinalSuperstring` | tribble/find-superstring/superstring_callback.cc:85-115 | zero strings give `""` and one string gives `strings[0]`, both without touching the merge list; otherwise the merge list becomes its sorted permutation and the result is `AssembleAsWritten` of it; flags and roots are unchanged and the invariant holds |
| `Registry.WrapIncDec` | tribble/find-superstring/superstring_callback.cc:55 | the scan from `(match_sa_begin - 1) + 1` in 64-bit arithmetic starts at `match_sa_begin`, including when it is 0 |
| `Registry.NextAvailable` | tribble/find-superstring/superstring_callback.cc:77-83 | result is `|avail|` or an available index `>= from`, and every index skipped is unavailable |
| `Registry.FirstEligible` | tribble/find-superstring/superstring_callback.cc:55-73 | result is `|avail|` or an available index in `[lo, hi]` other than the left string, and no smaller index in `[lo, hi]` is such an index |
| `Registry.TwoScansFindFirstEligible` | tribble/find-superstring/superstring_callback.cc:55-73 | the scan, the bound check, and the rescan after the first candidate when it is the left string itself together compute `FirstEligible` |
| `Registry.InitialInvariant` | tribble/find-superstring/superstring_callback.cc:22-29 | the constructed state satisfies the registry invariant |
| `Registry.CommitPreserves` | tribble/find-superstring/superstring_callback.cc:32-35 | a commit on an available right string keeps the invariant: the consumed set grows by exactly that string, and with it the merge count |
| `Registry.PermutationPreserves` | tribble/find-superstring/superstring_callback.cc:89 | reordering the merge list keeps the invariant |
| `Registry.MergeCountBound` | tribble/find-superstring/superstring_callback.cc:31-40 | at most `n` merges can ever be committed |
| `Registry.RightsDistinct` | tribble/find-superstring/superstring_callback.cc:32-34 | under the invariant the right strings of the merges are pairwise distinct |
| `Registry.HeadExists` | tribble/find-superstring/superstring_callback.cc:93-99 | with fewer merges than strings the head scan finds a string |
| `Registry.HeadUnique` | tribble/find-superstring/superstring_callback.cc:93-99 | after `n - 1` merges exactly one string is available, and it is the one the head scan finds |
| `Assembly.Sort` | tribble/find-superstring/superstring_callback.cc:89 | the result is sorted in lexicographic triple order and is a permutation of the input |
| `Assembly.SortedPermutationUnique` | tribble/find-superstring/superstring_callback.cc:89 | two sorted permutations of the same list are equal, so `Sort` is the result of any correct sort |
| `Assembly.SortIdempotent` | tribble/find-superstring/superstring_callback.cc:89 | sorting a sorted merge list changes nothing, so a second assembly over the same state gives the same string |
| `Assembly.AsWrittenLength` | tribble/find-superstring/superstring_callback.cc:104-112 | the length of the result is `(n - 1)` times the right index of the head-position record plus the length of its right string |
| `Assembly.AsWrittenReadsOneRecord` | tribble/find-superstring/superstring_callback.cc:105-107 | merge lists that agree on the left and right index of the head-position record give the same result, whatever their overlaps and other records |
| `Assembly.AsWrittenBanana` | tribble/find-superstring/superstring_callback.cc:104-112 | on the three-string example the loop returns `"aaanaconda"` |
| `ChainAssembly.FindByLeft` | tribble/find-superstring/superstring_callback.cc:105 | returns a record of the list with the given left string, or `None` when the list has none |
| `ChainAssembly.Follow` | tribble/find-superstring/superstring_callback.cc:104-111 | returns at most `count` records of the list, linked right-to-left; the first is the record looked up by `start`, each later one the record looked up by the previous right string, and the walk stops before `count` only at a string that no record has as its left string |
| `ChainAssembly.ChainSuperstringLength` | tribble/find-superstring/superstring_callback.cc:101-112 | the chain result plus all overlaps is as long as the strings the chain visits |
| `ChainAssembly.SumLengthsPermutation` | tribble/find-superstring/superstring_callback.cc:101-112 | the summed length of visited strings does not depend on their order |
| `ChainAssembly.ChainSuperstringTotalLength` | tribble/find-superstring/superstring_callback.cc:101-112 | when the chain visits each string once, the result is as long as all strings less all overlaps |
| `ChainAssembly.ChainStartsWithHead` | tribble/find-superstring/superstring_callback.cc:101-112 | with real overlaps the result starts with the head string |
| `ChainAssembly.ChainContainsVisited` | tribble/find-superstring/superstring_callback.cc:101-112 | with real overlaps every string the chain visits occurs contiguously in the result |
| `ChainAssembly.AlongChainTotalLength` | tribble/find-superstring/superstring_callback.cc:85-115 | when the walk from the chain head fits the strings and passes through every string once, the intended assembly plus the overlaps it follows is as long as all strings together |
| `ChainAssembly.AlongChainBananaVisitsAll` | tribble/find-superstring/superstring_callback.cc:101-112 | on the three-string example the walk from the head visits strings 0, 1 and 2 once each, so the example meets the hypotheses of `AlongChainTotalLength` |
| `ChainAssembly.AlongChainBanana` | tribble/find-superstring/superstring_callback.cc:101-112 | on the three-string example the chain assembly gives `"bananacondashing"`, which differs from what the loop returns |
| `Scenarios.BananaEvents` | tribble/find-superstring/superstring_callback.cc:48-75 | two events on three strings commit `(0, 1, 3)` and `(1, 2, 2)` and leave only string 0 available |
| `Scenarios.BananaScenario` | tribble/find-superstring/superstring_callback.cc:85-115 | building after those events returns `"aaanaconda"` |
| `Scenarios.CounterNeverStops` | tribble/find-superstring/superstring_callback.cc:49 | with two strings, two events commit two merges and consume both strings, because the counter never reaches its bound |

## Left out

- Console output (:36, :51): it has no effect on state or results.
- The external suffix-array matcher that calls `callback`, and the declarations in `superstring_callback.hh`: superstring_callback.hh is not part of this model. Event arguments are parameters.
- `std::sort` internals: the sort is specified as a sorted permutation under lexicographic triple order. `Assembly.Sort` is one such function, and `SortedPermutationUnique` shows that every sorted permutation equals it.
- 64-bit overflow: excluded by `requires` clauses. The exception is the one wrap the code relies on, `match_sa_begin - 1` followed by `index + 1` (:55, :78), which is modelled with `WrapDec` and `WrapInc`. `next[i] = i + 1` cannot wrap, because `i < n_strings`.
- The `assert`s at :52 and :99: modelled as preconditions, since a failed assertion ends the process. The first is `read_lex_rank >= 1`, required only when there are at least two strings, because with one string :49 returns before :52. The second is that a string is still available before assembly.
- Out-of-range behaviour the code does not guard: modelled as preconditions, since it is undefined behaviour or throws `std::out_of_range`. This covers `match_sa_end < n_strings` (again only with at least two strings), `strings.size() == n_strings`, the head position being a valid position of the merge list, and the right index used as overlap being at most the length of the left string.
- `Callback.SuperstringCallback.TryMerge`: it promises to keep the registry invariant only when `right` is available. That is the only way `callback` calls it. The source itself states no invariant.

## Findings

| source | as written | input that shows it | evidently intended | confidence | as-written member | corrected member |
|---|---|---|---|---|---|---|
| tribble/find-superstring/superstring_callback.cc:104-112 | every iteration reads `merges[current_string_idx]` (`current_string_idx` never advances; :111 only changes a loop-local). It uses `std::get<1>`, the right index, as the overlap, and appends the last that many characters of the left string | strings `banana`, `anaconda`, `dashing` with merges `(0, 1, 3)` and `(1, 2, 2)`: the loop returns `"aaanaconda"` | follow the chain from the head by left string; append each left string without its overlap; end with the last string whole: `"bananacondashing"`, length 21 - 5 | high; not executed | `Assembly.AsWrittenBanana` | `ChainAssembly.ChainSuperstringTotalLength` |

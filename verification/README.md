# Crossword CSP solver — Dafny model

This project models the constraint-satisfaction engine of a crossword
generator (`generate.py`, class `CrosswordCreator`). The engine fills the
word slots of a fixed grid from a word list. Each slot is a variable whose
domain is a set of candidate words. The engine works in four stages:

- **node consistency** keeps only the words of the slot's length;
- **AC-3** prunes every word that has no distinct, crossing-compatible partner
  in another slot's domain;
- **backtracking search** chooses slots by minimum remaining values with a
  degree tie-break, and tries words in least-constraining order;
- an **interleaved variant** of the search collapses the chosen slot's domain
  and runs AC-3 after every tentative choice.

The model is functional. A domain store is a `map<Variable, set<Word>>` and an
assignment is a `map<Variable, Word>`. The source mutates `self.domains` and the
assignment dictionary in place; the model threads the states through
out-parameters instead. The slot-and-overlap structure comes from the
`crossword` module. Its parsing code is not modelled; its outputs are taken as
given data: a `Puzzle` value holding the slots, the vocabulary and the overlap map.
The predicate `WellFormed` states what the engine relies on: crossings are
between distinct slots of the puzzle, are symmetric with the indices swapped,
and have their indices inside the slots.

Modules:
- `Wrappers` (wrappers.dfy): `Option`.
- `Crossword` (crossword.dfy): slots, the puzzle, `Overlap`, `Neighbors` and
  `OverlapSatisfied`.
- `Domains` (domains.dfy): the domain store, assignments and reference
  definitions. These cover support and revision of an arc, arc consistency,
  consistency of an assignment, solutions, and the lemmas relating them.
- `Consistency` (consistency.dfy): node consistency, `revise` and AC-3.
- `Search` (search.dfy): the assignment check `consistent` and the two
  ordering heuristics.
- `Backtracking` (backtrack.dfy): plain and interleaved backtracking.
- `Solver` (solver.dfy): `solve`.
- `Instances` (instances.dfy): small concrete puzzles pushed through the contracts above.

Main results:
- A grid returned by `Solve` is a solution. Every slot holds a distinct
  vocabulary word of its length, and crossing slots agree.
- Without interleaving, "no solution" is exact. Node consistency and AC-3
  never remove a word of any solution. Plain backtracking fails only when no
  solution extends the assignment it was given.
- AC-3 terminates. It only shrinks domains. It reports failure only when a
  domain is empty. With full seeding, a true result leaves every arc between
  crossing slots arc consistent.

## Model

| member | source | states |
|---|---|---|
| Crossword.OverlapSatisfied | generate.py:121-141 | Without a crossing any two words agree; with crossing indices (ix, iy), the words agree when letter ix of one equals letter iy of the other |
| Crossword.OverlapSatisfiedSymmetric | generate.py:121-141 | Whether two words agree at a crossing does not depend on which of the two slots is asked first, for a well-formed puzzle |
| Crossword.NeighborsSymmetric | generate.py:181 | y crosses x exactly when x crosses y |
| Domains.AssignmentComplete | generate.py:185-189 | An assignment is complete when every slot of the domain store is assigned |
| Domains.InitialDomains | generate.py:17-20 | The initial store has one domain per slot of the puzzle, each the whole vocabulary |
| Domains.CompatibleSymmetric | generate.py:151 | The witness condition of a revision (distinct words that agree at the crossing) is symmetric in the two slots |
| Domains.RevisedIsArcConsistent | generate.py:143-161 | After revising (x, y), every remaining candidate of x has a distinct, crossing-compatible partner in y's domain |
| Domains.RevisedKeepsReverseArc | generate.py:180-182 | Revising (x, y) cannot break the arc (y, x); this justifies leaving y out when arcs into x are queued again |
| Domains.ShrinkKeepsArc | generate.py:173-182 | Shrinking domains other than the target y of an arc keeps that arc consistent |
| Domains.RevisedKeepsSolutions | generate.py:143-161 | A revision never removes the word that a consistent full assignment within the store gives to x |
| Domains.RevisedShrinksEntries | generate.py:176-182 | A revision never adds a (slot, word) entry, and a shrinking revision strictly removes one; this is the termination measure of AC-3 |
| Domains.RestrictionConsistent | generate.py:191-216 | Every sub-assignment of a consistent assignment is consistent |
| Consistency.EnforceNodeConsistency | generate.py:105-119 | Each domain becomes exactly the old domain restricted to words of the slot's length; no slot is added or dropped, and words are only removed |
| Consistency.HasSupport | generate.py:148-153 | The inner loop of a revision finds a partner exactly when y's domain holds a word that differs from vx and agrees at the crossing |
| Consistency.Revise | generate.py:143-161 | x's new domain is exactly the old candidates that have a distinct, crossing-compatible partner in y's domain. No other domain changes. The result is true exactly when x's domain strictly shrank |
| Consistency.AllArcs | generate.py:165-170 | The default queue holds every ordered pair of distinct slots, and nothing else |
| Consistency.ArcsInto | generate.py:181-182 | The queued arcs are exactly (z, x) for each z crossing x, leaving out the skipped slots |
| Consistency.UnchangedRevisionKeepsCover | generate.py:173-183 | When a revision removes nothing, dropping the popped arc keeps every watched crossing arc either queued or arc consistent |
| Consistency.RevisionKeepsCover | generate.py:176-182 | After a shrinking revision of (x, y) queues (z, x) for every z crossing x other than y, every watched crossing arc is queued or arc consistent |
| Consistency.RevisedKeepsAllSolutions | generate.py:176 | A revision keeps every solution that the store admitted before it |
| Consistency.FullQueueCovers | generate.py:165-170 | The default queue contains every arc between crossing slots |
| Consistency.RevisionKeepsSeedSupport | generate.py:174-182 | Revising the popped arc settles it: each word left for x has a distinct, compatible partner in y's entry domain. Arcs settled earlier stay settled as domains shrink |
| Consistency.SeedArcsSupported | generate.py:173-183 | When the queue runs empty, every arc of the initial queue, crossing or not, is settled against the entry domains |
| Consistency.WatchedArcsConsistent | generate.py:173-183 | When the queue runs empty, every crossing arc that was queued at the start, or was arc consistent at the start, is arc consistent |
| Consistency.ProcessArc | generate.py:173-182 | One round pops the last arc. Either a domain that was non-empty when AC-3 started is now empty, or the store keeps its solutions, keeps every watched crossing arc queued or arc consistent, and keeps every arc of the initial queue queued or settled against the entry domains, while losing an entry (or, unchanged, the queue shrinks) |
| Consistency.AC3 | generate.py:163-183 | Domains only shrink and solutions are never pruned. False is returned only when a domain that was non-empty on entry has become empty, so no solution exists. A missing or empty queue is seeded with all pairs, and then true means every crossing arc is arc consistent. Also, for every ordered pair of distinct slots, crossing or not, each word left for the first has a distinct, compatible partner in the second slot's domain as it was on entry. A given queue that covers every inconsistent crossing arc gives the same guarantee. On true, every crossing arc in a given queue ends arc consistent, every arc of a given queue is settled against the entry domains in the same way, and no crossing arc that was arc consistent on entry loses that. On true, no domain was emptied by the run; on false, one was. The loop terminates |
| Search.Consistent | generate.py:191-216 | The result is false exactly when two slots hold the same word, a word's length differs from its slot's, or two assigned crossing slots disagree. The empty assignment is consistent |
| Search.RuleOut | generate.py:220-231 | The rule-out count of a word for v: the number of (crossing slot, candidate) pairs it disagrees with at the crossing |
| Search.LeastConstraining | generate.py:220-234 | The chosen candidate rules out no more crossing-slot candidates than any other |
| Search.OrderDomainValues | generate.py:218-234 | The result is a permutation of the slot's domain, with each word once, ordered non-decreasingly by the number of (crossing slot, candidate) pairs the word disagrees with |
| Search.Preferred | generate.py:243 | The sort key of slot selection: fewer candidates first, and among equal counts more crossing slots first |
| Search.SelectUnassignedVariable | generate.py:235-245 | The chosen slot is unassigned and has the fewest candidates; among those it has the most crossing slots |
| Backtracking.FoundLifts | generate.py:262-265 | A result found after assigning v, over a store pruned from the current one, is a valid result for the caller's assignment and store |
| Backtracking.ValueExcluded | generate.py:259-266 | A word for v that fails `consistent`, or leads to a failed search, belongs to no solution keeping the caller's choices |
| Backtracking.ExcludedAll | generate.py:259-267 | Once every candidate of v has been excluded, no solution keeps the caller's choices |
| Backtracking.TryValue | generate.py:259-266 | On success the result extends the assignment, fills every slot, takes every new word from the store, and is consistent if the entry was. On failure the assignment is restored and no solution gives v that word |
| Backtracking.Backtrack | generate.py:247-267 | A result is complete, extends the entry assignment, takes new words from their slots' domains, and is consistent whenever the entry assignment is. On failure the assignment equals its entry state, and no solution of the store extends it |
| Backtracking.Propagate | generate.py:285-288 | Collapsing v to the chosen word and running AC-3 on the arcs into v only shrinks the store. Every solution of the store that gives v this word survives. Unless some domain ended empty, every word left for a slot crossing v differs from the chosen word and agrees with it at the crossing |
| Backtracking.TryValueAC3 | generate.py:282-294 | As TryValue for soundness. The store object it works on ends pruned from the entry store |
| Backtracking.BacktrackAC3 | generate.py:269-295 | A result is complete, extends the entry assignment, takes new words from the entry store, and is consistent whenever the entry assignment is. On failure the assignment is restored. The store object current on entry only ever loses words |
| Solver.SolutionsSurvive | generate.py:96-97 | Every solution of the puzzle survives node consistency and the initial AC-3 pass |
| Solver.FoundIsSolution | generate.py:98-103 | A search result from the empty assignment is a solution: every slot filled, each with a distinct vocabulary word of its length, crossings agreeing |
| Solver.Solve | generate.py:92-103 | A returned grid is a solution of the puzzle. Without interleaving, "no solution" is returned only when the puzzle has none |
| Instances.CatTarOnlySolution | generate.py:191-216 | Two length-3 slots where the last letter of the across word is the first of the down word, with words "cat" and "tar": the only solution is "cat" across, "tar" down |
| Instances.SolveCatTar | generate.py:92-103 | Plain `solve` on that corner crossing returns exactly the fill "cat" across, "tar" down |
| Instances.CatArtUnsolvable | generate.py:191-216 | With words "cat" and "art", two length-3 slots crossing at their middle letters have no solution: the middle letters differ, and the same word cannot fill both slots |
| Instances.SolveCatArt | generate.py:92-103 | Two length-3 slots crossing at their middle letters, with words "cat" and "art": both search variants report no solution |
| Instances.ParallelSingleWordFails | generate.py:163-183 | Two slots that do not cross, with the single word "cat": the full seed still pairs them, and AC-3 returns false with a domain emptied |
| Instances.SingleWordFails | generate.py:163-183 | The same crossing with the single word "cat": AC-3 with the full queue returns false and empties a domain, because no word has a distinct partner |

## Left out

- Terminal and image output (`print`, `save`, `main`, argument handling, generate.py:38-90 and 297-322) is I/O. It depends on an imaging library and a font file.
- `letter_grid` (generate.py:22-36) prepares rendering over grid dimensions. Those dimensions come from the `crossword` module's parsing, which is not modelled.
- The global counters `BACKTRACK_COUNTER` and `WORDS_TESTED` are diagnostics with no effect on the result.
- The parsing code of the `crossword` module (reading the grid and word files and computing the slots and their overlaps) is not modelled. Its outputs are given as data: `Variable`, `Puzzle.overlaps` and `Neighbors` represent them. `WellFormed` assumes the symmetry and index ranges that the grid geometry would give.
- Tie-breaking in both heuristics and the iteration order of sets and dicts depend on Python hashing. The model chooses nondeterministically among equals, so the slot choice and the candidate order are fixed only up to ties. The order of the AC-3 queue is left unconstrained: `AllArcs` and `ArcsInto` fix which arcs are queued, not their order.
- Crossword.OverlapSatisfied: it treats an overlap index past the end of a word as a disagreement, where the source raises IndexError. Every call made by `solve` passes words of the slot's length, and the overlap indices lie inside the slot, so the case is never reached from `solve`.
- Search.Consistent: suppose an assigned crossing slot holds a word too short for the overlap index. The source can raise IndexError when it reaches that slot's crossing before its length check. The model returns false there. Backtracking only assigns node-consistent words, so this is not reached from `solve`.
- Backtracking.BacktrackAC3: completeness, exact restore of the domains and equivalence with plain backtracking are not claimed. The snapshot (generate.py:280) is taken once per call and becomes the live store after the first candidate (generate.py:294). Later candidates then start from a store that earlier candidates have pruned. The model follows this aliasing and proves soundness only.
- Solver.Solve: the result of the initial `ac3` call is not consulted (generate.py:97), so there is no early "no solution". The model follows the code. With the interleaved search, "no solution" is not proved exact, for the reason given for BacktrackAC3.
- The source decides success with `if result:`, which would treat an empty dict as failure. A recursive result always contains the slot just assigned, so the model tests for `Some`.
- `ac3` pops from the list passed in, which mutates the caller's list. No caller reads that list afterwards, so the model does not represent the mutation.

# QueueEntry: candidate derivations of the chart decoder's cube-pruning search

This project models `QueueEntry` from the Moses chart decoder
(`branches/mt3_chart/moses-chart/src/QueueEntry.cpp`). A queue entry is one
candidate derivation for a chart cell. It holds a translation option (a rule
application) and one `ChildEntry` cursor per non-terminal child. Each cursor
holds a rank, the child cell's hypotheses sorted best first, and the label
looked up. The entry also caches a combined score. The model covers:

- the seed constructor, which walks the rule's backward-linked `WordConsumed`
  chain earliest node first, adds a rank-0 cursor per non-terminal, and fails
  on the first child cell that has no hypotheses for its label;
- the deviant constructor, which copies a parent entry and advances exactly
  one cursor by one;
- `CalcScore`, which sets the cached score to the option's score plus the
  selected hypotheses' scores;
- `CreateDeviants`, which builds at most one deviant per cursor that has a
  further hypothesis and appends to the cell's queue only those whose score is
  strictly above the threshold read at the start;
- `operator<`, the tie-break order: option identity first, then the cursor
  vectors compared lexicographically.

Modules, one per file:

- `WordsConsumed` (`word_consumed.dfy`): the consumption chain as a recursive
  datatype with an optional `prev` link. `ChildSlots` is the order the
  recursion visits; `NonTerminals(Chain(w))` is an independent front-to-back
  reading of the chain.
- `QueueEntries` (`queue_entry.dfy`): `ChildEntry`, the entry value, its
  invariant `Valid` (all cursors in range, cached score exact), and the
  constructors and `CalcScore` as methods.
- `ChartCells` (`chart_cell.dfy`): the cell as a class whose `queue` field
  `AddQueueEntry` appends to, plus its `threshold`.
- `Expansion` (`expansion.dfy`): `CreateDeviants`, specified by the function
  `Deviants`, and lemmas about what it adds.
- `EntryOrder` (`entry_order.dfy`): `operator<` and its order properties.

An entry is never changed after its constructor returns (`CreateDeviants` is
`const`). So entries are immutable values here. Their constructors are methods
that build them step by step: the recursive `push_back` becomes a recursive
method with an accumulator, and the copy and the score sum are loops. The cell,
whose queue is appended in place, is a class.

A failed seed construction is not empty: it keeps the cursors of the
non-terminals before the first empty child cell, and its caller drops it.
`NewQueueEntry` states which cursors those are.

## Model

| member | source | states |
|---|---|---|
| `WordsConsumed.ChildSlotsInChainOrder` | branches/mt3_chart/moses-chart/src/QueueEntry.cpp:33-61 | The recursion that handles the previous node before the current one visits exactly the non-terminal nodes of the chain, earliest first: one slot per non-terminal node and none for a terminal. |
| `QueueEntries.FirstEmpty` | branches/mt3_chart/moses-chart/src/QueueEntry.cpp:43-52 | Gives the first non-terminal whose child cell has no hypotheses for its label, or the slot count when there is none. Every slot before it has hypotheses. |
| `QueueEntries.CreateChildEntry` | branches/mt3_chart/moses-chart/src/QueueEntry.cpp:33-61 | Succeeds exactly when no child cell is empty. It appends a rank-0 cursor (that cell's hypotheses and label) for each non-terminal before the first empty cell, in chain order, and nothing after it. |
| `QueueEntries.CalcScore` | branches/mt3_chart/moses-chart/src/QueueEntry.cpp:110-121 | The accumulated score is the option's total score plus the score of the hypothesis every cursor selects, so the entry invariant `Valid` holds. |
| `QueueEntries.NewQueueEntry` | branches/mt3_chart/moses-chart/src/QueueEntry.cpp:19-31 | Keeps the option. `isOK` holds exactly when every non-terminal of the chain has hypotheses. On success there is one rank-0 cursor per non-terminal node, earliest first, and the cached score is exact. On failure there is a first non-terminal whose cell is empty (every earlier one has hypotheses), and the entry holds exactly the rank-0 cursors of the non-terminals before it. |
| `QueueEntries.SeedOutcome` | branches/mt3_chart/moses-chart/src/QueueEntry.cpp:24-27 | Reads the walk's result back as facts about the slots: success exactly when no cell is empty, then the cursors of all slots, all in range; otherwise the cursors of the slots before the first empty one. |
| `QueueEntries.NewDeviant` | branches/mt3_chart/moses-chart/src/QueueEntry.cpp:63-80 | The copy-then-advance construction yields the deviant `Deviant(copy, i)`: the parent with cursor `i` advanced and the score recomputed. |
| `QueueEntries.SumSelectedUpdate` | branches/mt3_chart/moses-chart/src/QueueEntry.cpp:110-121 | Replacing one cursor changes the score sum by exactly the difference between that cursor's old and new hypothesis scores. |
| `QueueEntries.DeviantShape` | branches/mt3_chart/moses-chart/src/QueueEntry.cpp:63-80 | A deviant keeps the option and the number of cursors. Cursor `i` moves up by exactly one over the same hypotheses and label, and every other cursor is unchanged. The cached-score invariant still holds, and the score changes by the step at `i`. |
| `QueueEntries.DeviantNotAbove` | branches/mt3_chart/moses-chart/src/QueueEntry.cpp:76-79 | When the advanced child's hypotheses are sorted best first, a deviant never scores above its parent. |
| `ChartCells.ChartCell.GetThreshold` | branches/mt3_chart/moses-chart/src/QueueEntry.cpp:89 | Returns the cell's current pruning threshold, the value `CreateDeviants` reads once before its loop. |
| `ChartCells.ChartCell.AddQueueEntry` | branches/mt3_chart/moses-chart/src/QueueEntry.cpp:100 | Appends the entry to the cell's queue and leaves the threshold alone. |
| `Expansion.CreateDeviants` | branches/mt3_chart/moses-chart/src/QueueEntry.cpp:87-108 | Appends to the old queue exactly `Deviants(entry, t, d)`, where `t` is the threshold at the start and `d` the number of cursors. The threshold is unchanged, and the entry, a value, is untouched. |
| `Expansion.AcceptedIndicesExact` | branches/mt3_chart/moses-chart/src/QueueEntry.cpp:91-101 | The cursors whose deviants are kept are exactly those that have more hypotheses and whose deviant scores strictly above the threshold. They come in strictly increasing index order, at most one per cursor. |
| `Expansion.DeviantsAtAcceptedIndices` | branches/mt3_chart/moses-chart/src/QueueEntry.cpp:91-101 | The k-th entry added is the deviant at the k-th kept cursor, and that cursor had more hypotheses. |
| `Expansion.ExpansionBoundedAndFiltered` | branches/mt3_chart/moses-chart/src/QueueEntry.cpp:87-107 | Expansion adds at most as many entries as there are cursors. Every added entry scores strictly above the threshold, keeps the parent's option and satisfies `Valid`, so all of its positions stay in range. |
| `EntryOrder.ChildEntriesLess` | branches/mt3_chart/moses-chart/src/QueueEntry.cpp:128 | The vector comparison holds exactly when there is an index where the two vectors part with the left one first: equal ranks before it, and there either a smaller rank on the left or the end of the left vector while the right goes on. |
| `EntryOrder.Less` | branches/mt3_chart/moses-chart/src/QueueEntry.cpp:123-129 | An entry whose option identity is smaller comes first, and no entry comes before one with a smaller identity. For the same identity, the order is the lexicographic order of the rank vectors described for `ChildEntriesLess`. |
| `EntryOrder.ChildEntriesLessIrreflexive` | branches/mt3_chart/moses-chart/src/QueueEntry.cpp:128 | The lexicographic comparison of cursor vectors never puts a vector before itself. |
| `EntryOrder.ChildEntriesLessTransitive` | branches/mt3_chart/moses-chart/src/QueueEntry.cpp:128 | The lexicographic comparison of cursor vectors is transitive. |
| `EntryOrder.ChildEntriesLessTrichotomy` | branches/mt3_chart/moses-chart/src/QueueEntry.cpp:128 | Two cursor vectors are incomparable (neither is less than the other) exactly when their rank vectors are equal. |
| `EntryOrder.LessIsStrictOrder` | branches/mt3_chart/moses-chart/src/QueueEntry.cpp:123-129 | `operator<` is irreflexive, asymmetric and transitive. |
| `EntryOrder.LessIncomparable` | branches/mt3_chart/moses-chart/src/QueueEntry.cpp:123-129 | Two entries are incomparable exactly when they have the same option identity and select the same ranks. The cached score, hypothesis lists and labels play no part. |
| `EntryOrder.AdvanceOneIsGreater` | branches/mt3_chart/moses-chart/src/QueueEntry.cpp:128 | Advancing any one cursor makes the vector lexicographically greater. |
| `EntryOrder.DeviantFollowsParent` | branches/mt3_chart/moses-chart/src/QueueEntry.cpp:123-129 | Every deviant comes strictly after its parent in `operator<`. |

## Left out

- The `operator<<` stream printers (QueueEntry.cpp:132-147): output formatting only.
- Scores are unbounded integers, not `float`. Rounding, NaN and infinities are not modelled. The strict `>` against the threshold is kept.
- Memory management (`new`, `delete`, the empty destructor): a deviant is either appended to the queue as a value or dropped.
- Option identity: the address comparison `&m_transOpt` is an integer `id` on the option.
- `ChildEntry`, `ChartCell`, `ChartCellCollection`, `TranslationOption`, `Hypothesis` and `WordConsumed` are not part of this model beyond the accessors used here. A hypothesis is its total score. A cell lookup is a total function from (range, label) to a list of scores. `HasMoreHypo` is `pos + 1 < |list|` and `IncrementPos` is `pos + 1`.
- `EntryOrder.ChildLess`: `ChildEntry::operator<` is declared with the class, which is not part of this model. It is taken to compare ranks only. The vector comparison is `std::lexicographical_compare` over it.
- The sortedness of the hypothesis lists is not enforced by the model. Only `QueueEntries.DeviantNotAbove` assumes it.
- `QueueEntries.NewQueueEntry`: on failure the source leaves the combined score uninitialised. The model sets it to 0 and states nothing about it.
- The pop/realize/threshold-update drive loop and threshold tightening live in other files and are not part of this model. So is deduplication: the code does none, and neither does the model.
- The `assert(nonTerm.IsNonTerminal())` at QueueEntry.cpp:55 holds by construction: a node has a single non-terminal flag.

/**
  A queue entry of the cube-pruning search: one candidate derivation, made of a
  translation option and one ChildEntry cursor per non-terminal child, with a
  cached combined score. An entry is never changed once built, so it is a value
  here; its two constructors (the seed built from a consumption chain, and the
  deviant that advances one cursor of a parent) are methods that build it step
  by step as the constructors do.
 */
module QueueEntries {
  import opened WordsConsumed

  /** Scores are kept as integers; see README for floating point. */
  type Score = int

  /**
    The chart cells of all smaller spans, read through
    `Get(range).GetSortedHypotheses(label)`: the total scores of the cell's
    hypotheses for that label, best first (possibly none).
   */
  type ChartCellCollection = (WordsRange, Word) -> seq<Score>

  /** A rule application; `id` stands for the object's identity (its address). */
  datatype TranslationOption = TranslationOption(id: int, totalScore: Score, lastWordConsumed: WordConsumed)

  /** A cursor into one child cell's sorted hypotheses. */
  datatype ChildEntry = ChildEntry(pos: nat, orderedHypos: seq<Score>, headWord: Word) {
    predicate HasMoreHypo() {
      pos + 1 < |orderedHypos|
    }

    function IncrementPos(): ChildEntry {
      this.(pos := pos + 1)
    }

    predicate InRange() {
      pos < |orderedHypos|
    }

    /** The total score of the selected hypothesis. */
    function HypothesisScore(): Score
      requires InRange()
    {
      orderedHypos[pos]
    }
  }

  datatype QueueEntry = QueueEntry(transOpt: TranslationOption, childEntries: seq<ChildEntry>, combinedScore: Score)

  predicate AllInRange(cs: seq<ChildEntry>) {
    forall i :: 0 <= i < |cs| ==> cs[i].InRange()
  }

  /** The sum of the selected hypotheses' scores. */
  function SumSelected(cs: seq<ChildEntry>): Score
    requires AllInRange(cs)
  {
    if cs == [] then 0 else SumSelected(cs[..|cs| - 1]) + cs[|cs| - 1].HypothesisScore()
  }

  /**
    The invariant of a live entry: every cursor selects an existing hypothesis
    and the cached score is the option's score plus the selected ones.
   */
  predicate Valid(e: QueueEntry) {
    && AllInRange(e.childEntries)
    && e.combinedScore == e.transOpt.totalScore + SumSelected(e.childEntries)
  }

  predicate SortedDescending(s: seq<Score>) {
    forall j, k :: 0 <= j < k < |s| ==> s[j] >= s[k]
  }

  function Hypotheses(cells: ChartCellCollection, slot: ChildSlot): seq<Score> {
    cells(slot.range, slot.headWord)
  }

  /**
    The index of the first slot whose child cell has no hypotheses for its
    label, or |slots| when every slot has some.
   */
  function FirstEmpty(slots: seq<ChildSlot>, cells: ChartCellCollection): (r: nat)
    ensures r <= |slots|
    ensures forall i :: 0 <= i < r ==> Hypotheses(cells, slots[i]) != []
    ensures r < |slots| ==> Hypotheses(cells, slots[r]) == []
  {
    if slots == [] then 0
    else
      var f := FirstEmpty(slots[..|slots| - 1], cells);
      if f < |slots| - 1 then f
      else if Hypotheses(cells, slots[|slots| - 1]) == [] then |slots| - 1
      else |slots|
  }

  /** The cursors a seed entry starts with: rank 0 of each slot's hypotheses. */
  function SeedEntries(slots: seq<ChildSlot>, cells: ChartCellCollection): seq<ChildEntry> {
    seq(|slots|, i requires 0 <= i < |slots| => ChildEntry(0, Hypotheses(cells, slots[i]), slots[i].headWord))
  }

  /**
    QueueEntry::CreateChildEntry: handles the previous part of the chain first,
    then, if everything so far succeeded and this node is a non-terminal, fails
    on an empty child cell or appends a cursor at rank 0. `children` is the
    vector being filled; `children'` is the vector afterwards.
   */
  method CreateChildEntry(wordsConsumed: WordConsumed, allChartCells: ChartCellCollection, children: seq<ChildEntry>)
    returns (ret: bool, children': seq<ChildEntry>)
    decreases wordsConsumed
    ensures ret <==> FirstEmpty(ChildSlots(wordsConsumed), allChartCells) == |ChildSlots(wordsConsumed)|
    ensures children' == children + SeedEntries(ChildSlots(wordsConsumed)[..FirstEmpty(ChildSlots(wordsConsumed), allChartCells)], allChartCells)
  {
    if wordsConsumed.prev.Some? {
      ret, children' := CreateChildEntry(wordsConsumed.prev.value, allChartCells, children);
    } else {
      ret, children' := true, children;
    }
    ghost var before := PrevSlots(wordsConsumed);
    ghost var f := FirstEmpty(before, allChartCells);
    assert ret <==> f == |before|;
    assert children' == children + SeedEntries(before[..f], allChartCells);

    if ret && wordsConsumed.isNonTerminal {
      var hypos := allChartCells(wordsConsumed.range, wordsConsumed.sourceWord);
      FirstEmptySnoc(before, SlotOf(wordsConsumed), allChartCells);
      if |hypos| == 0 {
        return false, children';
      }
      children' := children' + [ChildEntry(0, hypos, wordsConsumed.sourceWord)];
      SeedEntriesSnoc(before, SlotOf(wordsConsumed), allChartCells);
      assert before[..f] == before;
      assert (before + [SlotOf(wordsConsumed)])[..f + 1] == before + [SlotOf(wordsConsumed)];
    } else if wordsConsumed.isNonTerminal {
      FirstEmptySnoc(before, SlotOf(wordsConsumed), allChartCells);
      assert ChildSlots(wordsConsumed) == before + [SlotOf(wordsConsumed)];
      assert FirstEmpty(ChildSlots(wordsConsumed), allChartCells) == f;
    } else {
      assert ChildSlots(wordsConsumed) == before;
    }
  }

  /** The slots of the nodes before `w`. */
  function PrevSlots(w: WordConsumed): (r: seq<ChildSlot>)
    ensures ChildSlots(w) == r + (if w.isNonTerminal then [SlotOf(w)] else [])
  {
    match w.prev
    case None => []
    case Some(p) => ChildSlots(p)
  }

  lemma FirstEmptySnoc(slots: seq<ChildSlot>, slot: ChildSlot, cells: ChartCellCollection)
    ensures var f := FirstEmpty(slots, cells);
      && FirstEmpty(slots + [slot], cells)
           == (if f < |slots| then f else if Hypotheses(cells, slot) == [] then |slots| else |slots| + 1)
      && (slots + [slot])[..f] == slots[..f]
  {
    assert (slots + [slot])[..|slots|] == slots;
  }

  lemma SeedEntriesSnoc(slots: seq<ChildSlot>, slot: ChildSlot, cells: ChartCellCollection)
    ensures SeedEntries(slots + [slot], cells)
         == SeedEntries(slots, cells) + [ChildEntry(0, Hypotheses(cells, slot), slot.headWord)]
  {
  }

  /**
    QueueEntry::CalcScore: the option's total score plus the total score of the
    hypothesis each cursor selects.
   */
  method CalcScore(transOpt: TranslationOption, childEntries: seq<ChildEntry>) returns (combinedScore: Score)
    requires AllInRange(childEntries)
    ensures Valid(QueueEntry(transOpt, childEntries, combinedScore))
  {
    combinedScore := transOpt.totalScore;
    for ind := 0 to |childEntries|
      invariant combinedScore == transOpt.totalScore + SumSelected(childEntries[..ind])
    {
      assert childEntries[..ind + 1][..ind] == childEntries[..ind];
      combinedScore := combinedScore + childEntries[ind].HypothesisScore();
    }
    assert childEntries[..|childEntries|] == childEntries;
  }

  /**
    The seed constructor QueueEntry(transOpt, allChartCells, isOK). It succeeds
    exactly when every non-terminal child cell has a hypothesis for its label;
    then there is one cursor per non-terminal node, in chain order, each at
    rank 0, and the cached score holds. On failure the cursors of the
    non-terminals before the first empty one are all that was appended; the
    score is left unset by the source and is 0 here.
   */
  method NewQueueEntry(transOpt: TranslationOption, allChartCells: ChartCellCollection)
    returns (e: QueueEntry, isOK: bool)
    ensures e.transOpt == transOpt
    ensures var slots := NonTerminals(Chain(transOpt.lastWordConsumed));
      isOK <==> forall i :: 0 <= i < |slots| ==> Hypotheses(allChartCells, slots[i]) != []
    ensures isOK ==> (Valid(e)
      && e.childEntries == SeedEntries(NonTerminals(Chain(transOpt.lastWordConsumed)), allChartCells))
    ensures !isOK ==> var slots := NonTerminals(Chain(transOpt.lastWordConsumed));
      exists k :: 0 <= k < |slots| && Hypotheses(allChartCells, slots[k]) == []
        && (forall j :: 0 <= j < k ==> Hypotheses(allChartCells, slots[j]) != [])
        && e.childEntries == SeedEntries(slots[..k], allChartCells)
  {
    var childEntries;
    isOK, childEntries := CreateChildEntry(transOpt.lastWordConsumed, allChartCells, []);
    ChildSlotsInChainOrder(transOpt.lastWordConsumed);
    SeedOutcome(NonTerminals(Chain(transOpt.lastWordConsumed)), allChartCells, isOK, childEntries);
    var combinedScore := 0;
    if isOK {
      combinedScore := CalcScore(transOpt, childEntries);
    }
    e := QueueEntry(transOpt, childEntries, combinedScore);
  }

  /**
    What the recursive walk reports, read back as facts about the slots: it
    succeeds exactly when no cell is empty, and otherwise it has built the
    cursors of the slots before the first empty one.
   */
  lemma SeedOutcome(slots: seq<ChildSlot>, cells: ChartCellCollection, ret: bool, children: seq<ChildEntry>)
    requires ret <==> FirstEmpty(slots, cells) == |slots|
    requires children == SeedEntries(slots[..FirstEmpty(slots, cells)], cells)
    ensures ret <==> forall i :: 0 <= i < |slots| ==> Hypotheses(cells, slots[i]) != []
    ensures ret ==> children == SeedEntries(slots, cells) && AllInRange(children)
    ensures !ret ==>
      exists k :: 0 <= k < |slots| && Hypotheses(cells, slots[k]) == []
        && (forall j :: 0 <= j < k ==> Hypotheses(cells, slots[j]) != [])
        && children == SeedEntries(slots[..k], cells)
  {
    var f := FirstEmpty(slots, cells);
    if f == |slots| {
      assert slots[..f] == slots;
    } else {
      assert Hypotheses(cells, slots[f]) == [];
    }
  }

  /** The deviant of `e` that advances cursor `i` by one, with its score recomputed. */
  function Deviant(e: QueueEntry, i: nat): QueueEntry
    requires Valid(e) && i < |e.childEntries| && e.childEntries[i].HasMoreHypo()
  {
    var cs := e.childEntries[i := e.childEntries[i].IncrementPos()];
    QueueEntry(e.transOpt, cs, e.transOpt.totalScore + SumSelected(cs))
  }

  /**
    The deviant constructor QueueEntry(copy, childEntryIncr): copies every
    cursor, advances the chosen one and recomputes the score. The source
    indexes the vector and reads the advanced cursor's hypothesis unchecked,
    so its callers pass an existing index whose cursor has more hypotheses.
   */
  method NewDeviant(copy: QueueEntry, childEntryIncr: nat) returns (e: QueueEntry)
    requires Valid(copy)
    requires childEntryIncr < |copy.childEntries| && copy.childEntries[childEntryIncr].HasMoreHypo()
    ensures e == Deviant(copy, childEntryIncr)
  {
    var childEntries: seq<ChildEntry> := [];
    for i := 0 to |copy.childEntries|
      invariant childEntries == copy.childEntries[..i]
    {
      childEntries := childEntries + [copy.childEntries[i]];
    }
    assert childEntries == copy.childEntries;
    childEntries := childEntries[childEntryIncr := childEntries[childEntryIncr].IncrementPos()];
    var combinedScore := CalcScore(copy.transOpt, childEntries);
    e := QueueEntry(copy.transOpt, childEntries, combinedScore);
  }

  /**
    Changing one cursor changes the sum of the selected scores by the
    difference of that cursor's old and new selections.
   */
  lemma {:induction false} SumSelectedUpdate(cs: seq<ChildEntry>, i: nat, c: ChildEntry)
    requires AllInRange(cs) && i < |cs| && c.InRange()
    ensures AllInRange(cs[i := c])
    ensures SumSelected(cs[i := c]) == SumSelected(cs) - cs[i].HypothesisScore() + c.HypothesisScore()
  {
    var n := |cs|;
    var cs' := cs[i := c];
    assert cs'[..n - 1] == if i == n - 1 then cs[..n - 1] else cs[..n - 1][i := c];
    if i < n - 1 {
      SumSelectedUpdate(cs[..n - 1], i, c);
    }
  }

  /**
    A deviant keeps the option and the number of cursors, advances cursor `i`
    by exactly one over the same hypotheses and label, leaves every other cursor
    as it was, and keeps the cached-score invariant; its score differs from the
    parent's by the step from the old to the new hypothesis at `i`.
   */
  lemma DeviantShape(e: QueueEntry, i: nat)
    requires Valid(e) && i < |e.childEntries| && e.childEntries[i].HasMoreHypo()
    ensures var d := Deviant(e, i);
      && d.transOpt == e.transOpt
      && |d.childEntries| == |e.childEntries|
      && d.childEntries[i].pos == e.childEntries[i].pos + 1
      && d.childEntries[i].orderedHypos == e.childEntries[i].orderedHypos
      && d.childEntries[i].headWord == e.childEntries[i].headWord
      && (forall j :: 0 <= j < |e.childEntries| && j != i ==> d.childEntries[j] == e.childEntries[j])
      && Valid(d)
      && d.combinedScore == e.combinedScore
           - e.childEntries[i].orderedHypos[e.childEntries[i].pos]
           + e.childEntries[i].orderedHypos[e.childEntries[i].pos + 1]
  {
    SumSelectedUpdate(e.childEntries, i, e.childEntries[i].IncrementPos());
  }

  /**
    When the advanced child's hypotheses are sorted best first, a deviant never
    scores above its parent: the search expands towards worse candidates only.
   */
  lemma DeviantNotAbove(e: QueueEntry, i: nat)
    requires Valid(e) && i < |e.childEntries| && e.childEntries[i].HasMoreHypo()
    requires SortedDescending(e.childEntries[i].orderedHypos)
    ensures Deviant(e, i).combinedScore <= e.combinedScore
  {
    DeviantShape(e, i);
  }
}

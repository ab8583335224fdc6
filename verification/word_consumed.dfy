/**
  The consumption chain of one rule application: a backward-linked list of
  WordConsumed nodes, one per source symbol the rule consumed, each pointing to
  the node consumed just before it. Non-terminal nodes name a child cell (a
  range) and the label whose sorted hypotheses the rule combines.
 */
module WordsConsumed {

  datatype Option<+T> = None | Some(value: T)

  /** A span of source positions, the key of a chart cell. */
  datatype WordsRange = WordsRange(startPos: nat, endPos: nat)

  /** A source-side symbol: a terminal word or a non-terminal label. */
  type Word = string

  /** One consumed symbol, with the link to the one consumed before it. */
  datatype WordConsumed = WordConsumed(
    range: WordsRange,
    sourceWord: Word,
    isNonTerminal: bool,
    prev: Option<WordConsumed>)

  /** What a non-terminal node asks of the chart: a cell and a label in it. */
  datatype ChildSlot = ChildSlot(range: WordsRange, headWord: Word)

  function SlotOf(w: WordConsumed): ChildSlot {
    ChildSlot(w.range, w.sourceWord)
  }

  /** The whole chain ending at `w`, earliest node first. */
  function Chain(w: WordConsumed): (r: seq<WordConsumed>)
    decreases w
    ensures |r| >= 1 && r[|r| - 1] == w
    ensures r[0].prev.None?
  {
    match w.prev
    case None => [w]
    case Some(p) => Chain(p) + [w]
  }

  /** The non-terminal nodes of a node list, in list order. */
  function NonTerminals(nodes: seq<WordConsumed>): seq<ChildSlot> {
    if nodes == [] then []
    else (if nodes[0].isNonTerminal then [SlotOf(nodes[0])] else []) + NonTerminals(nodes[1..])
  }

  /**
    The child slots in the order QueueEntry::CreateChildEntry visits them:
    everything before this node first, then this node if it is a non-terminal.
   */
  function ChildSlots(w: WordConsumed): seq<ChildSlot>
    decreases w
  {
    (match w.prev
     case None => []
     case Some(p) => ChildSlots(p))
    + (if w.isNonTerminal then [SlotOf(w)] else [])
  }

  lemma {:induction false} NonTerminalsAppend(a: seq<WordConsumed>, b: seq<WordConsumed>)
    ensures NonTerminals(a + b) == NonTerminals(a) + NonTerminals(b)
  {
    if a != [] {
      assert (a + b)[1..] == a[1..] + b;
      NonTerminalsAppend(a[1..], b);
    } else {
      assert a + b == b;
    }
  }

  /**
    The recursion that visits the previous node before the current one yields
    exactly the non-terminal nodes of the chain, earliest first: one slot per
    non-terminal node and none for a terminal.
   */
  lemma {:induction false} ChildSlotsInChainOrder(w: WordConsumed)
    decreases w
    ensures ChildSlots(w) == NonTerminals(Chain(w))
  {
    var own := if w.isNonTerminal then [SlotOf(w)] else [];
    assert NonTerminals([w]) == own by {
      assert [w][1..] == [];
    }
    match w.prev
    case None =>
    case Some(p) =>
      ChildSlotsInChainOrder(p);
      NonTerminalsAppend(Chain(p), [w]);
  }
}

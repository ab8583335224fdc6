/**
  QueueEntry::CreateDeviants: the expansion step of cube pruning. For each
  cursor that has a further hypothesis, one deviant advancing that cursor is
  built; it joins the cell's queue only if its score is strictly above the
  threshold the cell had when expansion started, and is dropped otherwise.
 */
module Expansion {
  import opened QueueEntries
  import opened ChartCells

  /** Whether the deviant at cursor `i` is built and kept under threshold `t`. */
  predicate Accepted(e: QueueEntry, t: Score, i: nat)
    requires Valid(e) && i < |e.childEntries|
  {
    e.childEntries[i].HasMoreHypo() && Deviant(e, i).combinedScore > t
  }

  /** The cursors among the first `n` whose deviants are kept, in index order. */
  function AcceptedIndices(e: QueueEntry, t: Score, n: nat): seq<nat>
    requires Valid(e) && n <= |e.childEntries|
  {
    if n == 0 then []
    else AcceptedIndices(e, t, n - 1) + (if Accepted(e, t, n - 1) then [n - 1] else [])
  }

  /** The deviants that expanding the first `n` cursors adds to the queue. */
  function Deviants(e: QueueEntry, t: Score, n: nat): seq<QueueEntry>
    requires Valid(e) && n <= |e.childEntries|
  {
    if n == 0 then []
    else Deviants(e, t, n - 1) + (if Accepted(e, t, n - 1) then [Deviant(e, n - 1)] else [])
  }

  /**
    Appends to the cell's queue, in cursor order, the deviants of `entry`
    whose score beats the threshold read at the start; `entry` itself is a
    value and is left as it was, and nothing else in the cell changes.
   */
  method CreateDeviants(entry: QueueEntry, currCell: ChartCell)
    requires Valid(entry)
    modifies currCell
    ensures currCell.threshold == old(currCell.threshold)
    ensures currCell.queue == old(currCell.queue) + Deviants(entry, old(currCell.threshold), |entry.childEntries|)
  {
    var threshold := currCell.GetThreshold();
    for ind := 0 to |entry.childEntries|
      invariant currCell.threshold == threshold
      invariant currCell.queue == old(currCell.queue) + Deviants(entry, threshold, ind)
    {
      var childEntry := entry.childEntries[ind];
      if childEntry.HasMoreHypo() {
        var newEntry := NewDeviant(entry, ind);
        if newEntry.combinedScore > threshold {
          currCell.AddQueueEntry(newEntry);
        }
      }
    }
  }

  /**
    The kept cursors are exactly those, below `n`, that have more hypotheses
    and whose deviant beats the threshold; they come in strictly increasing
    order, so there are at most `n` of them.
   */
  lemma {:induction false} AcceptedIndicesExact(e: QueueEntry, t: Score, n: nat)
    requires Valid(e) && n <= |e.childEntries|
    ensures var idx := AcceptedIndices(e, t, n);
      && |idx| <= n
      && (forall a, b :: 0 <= a < b < |idx| ==> idx[a] < idx[b])
      && (forall k: nat :: k in idx <==> k < n && Accepted(e, t, k))
  {
    if n > 0 {
      AcceptedIndicesExact(e, t, n - 1);
      var prefix := AcceptedIndices(e, t, n - 1);
      assert forall a :: 0 <= a < |prefix| ==> prefix[a] < n - 1 by {
        forall a | 0 <= a < |prefix| ensures prefix[a] < n - 1 {
          assert prefix[a] in prefix;
        }
      }
    }
  }

  /** The queue additions are the deviants at the kept cursors, one each, in order. */
  lemma {:induction false} DeviantsAtAcceptedIndices(e: QueueEntry, t: Score, n: nat)
    requires Valid(e) && n <= |e.childEntries|
    ensures var idx := AcceptedIndices(e, t, n);
      && |Deviants(e, t, n)| == |idx|
      && forall k :: 0 <= k < |idx| ==>
           (idx[k] < |e.childEntries| && e.childEntries[idx[k]].HasMoreHypo()
            && Deviants(e, t, n)[k] == Deviant(e, idx[k]))
  {
    if n > 0 {
      DeviantsAtAcceptedIndices(e, t, n - 1);
    }
  }

  /**
    Bounded fan-out and threshold filtering: expansion adds at most one entry
    per cursor, every added entry scores strictly above the threshold, keeps
    the parent's option and satisfies the entry invariant (all cursors in
    range, cached score exact).
   */
  lemma ExpansionBoundedAndFiltered(e: QueueEntry, t: Score)
    requires Valid(e)
    ensures var ds := Deviants(e, t, |e.childEntries|);
      && |ds| <= |e.childEntries|
      && forall k :: 0 <= k < |ds| ==>
           ds[k].combinedScore > t && ds[k].transOpt == e.transOpt && Valid(ds[k])
  {
    var n := |e.childEntries|;
    var idx := AcceptedIndices(e, t, n);
    AcceptedIndicesExact(e, t, n);
    DeviantsAtAcceptedIndices(e, t, n);
    forall k | 0 <= k < |idx|
      ensures Deviants(e, t, n)[k].combinedScore > t
      ensures Deviants(e, t, n)[k].transOpt == e.transOpt && Valid(Deviants(e, t, n)[k])
    {
      assert idx[k] in idx;
      DeviantShape(e, idx[k]);
    }
  }
}

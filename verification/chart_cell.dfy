/**
  The part of a chart cell the cube-pruning search touches: the pruning
  threshold and the queue of candidate entries waiting to be popped.
 */
module ChartCells {
  import opened QueueEntries

  class ChartCell {
    var threshold: Score
    var queue: seq<QueueEntry>

    constructor (threshold: Score)
      ensures this.threshold == threshold && queue == []
    {
      this.threshold := threshold;
      queue := [];
    }

    function GetThreshold(): (t: Score)
      reads this
      ensures t == threshold
    {
      threshold
    }

    /** Takes ownership of an entry by appending it to the queue. */
    method AddQueueEntry(entry: QueueEntry)
      modifies this
      ensures queue == old(queue) + [entry]
      ensures threshold == old(threshold)
    {
      queue := queue + [entry];
    }
  }
}

/**
  QueueEntry::operator<, the tie-break order on entries: option identity
  first, then the cursor vectors compared lexicographically. The combined
  score is never consulted; the queue ranks by score separately.
 */
module EntryOrder {
  import opened QueueEntries

  /**
    ChildEntry's own operator< (declared with the class, not part of this
    model) is taken to compare the selected ranks.
   */
  predicate ChildLess(a: ChildEntry, b: ChildEntry) {
    a.pos < b.pos
  }

  /**
    `a` comes before `b` at index `k`: they agree on the ranks before `k`, and
    at `k` either `a` has the smaller rank or `a` has ended while `b` goes on.
   */
  predicate DiffersFirstAt(a: seq<ChildEntry>, b: seq<ChildEntry>, k: nat) {
    && k <= |a| && k <= |b|
    && (forall j :: 0 <= j < k ==> a[j].pos == b[j].pos)
    && ((k < |a| && k < |b| && a[k].pos < b[k].pos) || (k == |a| && k < |b|))
  }

  /** Dropping an equal first rank shifts the index where two vectors part. */
  lemma DiffersFirstAtTail(a: seq<ChildEntry>, b: seq<ChildEntry>)
    requires a != [] && b != [] && a[0].pos == b[0].pos
    ensures (exists k: nat :: DiffersFirstAt(a, b, k)) <==> (exists k: nat :: DiffersFirstAt(a[1..], b[1..], k))
  {
    if k: nat :| DiffersFirstAt(a, b, k) {
      assert k > 0;
      assert DiffersFirstAt(a[1..], b[1..], k - 1);
    }
    if k: nat :| DiffersFirstAt(a[1..], b[1..], k) {
      assert DiffersFirstAt(a, b, k + 1);
    }
  }

  /**
    The vector `<` (std::lexicographical_compare with ChildLess): `a` is less
    than `b` exactly when there is an index where they part with `a` first.
   */
  predicate ChildEntriesLess(a: seq<ChildEntry>, b: seq<ChildEntry>): (r: bool)
    ensures r <==> exists k: nat :: DiffersFirstAt(a, b, k)
  {
    if b == [] then
      assert forall k: nat :: !DiffersFirstAt(a, b, k);
      false
    else if a == [] then
      assert DiffersFirstAt(a, b, 0);
      true
    else if ChildLess(a[0], b[0]) then
      assert DiffersFirstAt(a, b, 0);
      true
    else if ChildLess(b[0], a[0]) then
      assert forall k: nat :: !DiffersFirstAt(a, b, k);
      false
    else
      DiffersFirstAtTail(a, b);
      ChildEntriesLess(a[1..], b[1..])
  }

  /**
    QueueEntry::operator<: entries of different options are ordered by option
    identity; entries of the same option by their cursor vectors.
   */
  predicate Less(a: QueueEntry, b: QueueEntry): (r: bool)
    ensures a.transOpt.id < b.transOpt.id ==> r
    ensures r ==> a.transOpt.id <= b.transOpt.id
    ensures a.transOpt.id == b.transOpt.id ==> (r <==> exists k: nat :: DiffersFirstAt(a.childEntries, b.childEntries, k))
  {
    if a.transOpt.id != b.transOpt.id then a.transOpt.id < b.transOpt.id
    else ChildEntriesLess(a.childEntries, b.childEntries)
  }

  /** The rank vector of a cursor vector. */
  function Positions(cs: seq<ChildEntry>): (r: seq<nat>)
    ensures |r| == |cs| && forall i :: 0 <= i < |cs| ==> r[i] == cs[i].pos
  {
    seq(|cs|, i requires 0 <= i < |cs| => cs[i].pos)
  }

  lemma {:induction false} ChildEntriesLessIrreflexive(a: seq<ChildEntry>)
    ensures !ChildEntriesLess(a, a)
  {
    if a != [] {
      ChildEntriesLessIrreflexive(a[1..]);
    }
  }

  lemma {:induction false} ChildEntriesLessTransitive(a: seq<ChildEntry>, b: seq<ChildEntry>, c: seq<ChildEntry>)
    requires ChildEntriesLess(a, b) && ChildEntriesLess(b, c)
    ensures ChildEntriesLess(a, c)
  {
    if a != [] && a[0].pos == b[0].pos && b[0].pos == c[0].pos {
      ChildEntriesLessTransitive(a[1..], b[1..], c[1..]);
    }
  }

  /** Two cursor vectors are incomparable exactly when their rank vectors agree. */
  lemma {:induction false} ChildEntriesLessTrichotomy(a: seq<ChildEntry>, b: seq<ChildEntry>)
    ensures !ChildEntriesLess(a, b) && !ChildEntriesLess(b, a) <==> Positions(a) == Positions(b)
  {
    if a != [] && b != [] {
      ChildEntriesLessTrichotomy(a[1..], b[1..]);
      assert Positions(a) == [a[0].pos] + Positions(a[1..]);
      assert Positions(b) == [b[0].pos] + Positions(b[1..]);
    }
  }

  /** operator< is a strict order: irreflexive, asymmetric and transitive. */
  lemma LessIsStrictOrder(a: QueueEntry, b: QueueEntry, c: QueueEntry)
    ensures !Less(a, a)
    ensures Less(a, b) ==> !Less(b, a)
    ensures Less(a, b) && Less(b, c) ==> Less(a, c)
  {
    ChildEntriesLessIrreflexive(a.childEntries);
    if Less(a, b) && Less(b, a) {
      ChildEntriesLessTransitive(a.childEntries, b.childEntries, a.childEntries);
    }
    if Less(a, b) && Less(b, c) && a.transOpt.id == b.transOpt.id == c.transOpt.id {
      ChildEntriesLessTransitive(a.childEntries, b.childEntries, c.childEntries);
    }
  }

  /**
    Entries are incomparable exactly when they share the option identity and
    select the same ranks; cached scores, hypothesis lists and labels play no
    part.
   */
  lemma LessIncomparable(a: QueueEntry, b: QueueEntry)
    ensures !Less(a, b) && !Less(b, a) <==> a.transOpt.id == b.transOpt.id && Positions(a.childEntries) == Positions(b.childEntries)
  {
    ChildEntriesLessTrichotomy(a.childEntries, b.childEntries);
  }

  lemma {:induction false} AdvanceOneIsGreater(cs: seq<ChildEntry>, i: nat)
    requires i < |cs|
    ensures ChildEntriesLess(cs, cs[i := cs[i].IncrementPos()])
  {
    if i > 0 {
      assert cs[i := cs[i].IncrementPos()][1..] == cs[1..][i - 1 := cs[i].IncrementPos()];
      AdvanceOneIsGreater(cs[1..], i - 1);
    }
  }

  /** Every deviant comes strictly after its parent in this order. */
  lemma DeviantFollowsParent(e: QueueEntry, i: nat)
    requires Valid(e) && i < |e.childEntries| && e.childEntries[i].HasMoreHypo()
    ensures Less(e, Deviant(e, i)) && !Less(Deviant(e, i), e)
  {
    AdvanceOneIsGreater(e.childEntries, i);
    LessIsStrictOrder(e, Deviant(e, i), e);
  }
}

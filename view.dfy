/**
 * The two views the list page renders: the items still to buy and the
 * items already bought, each a `filter` of the current list.
 */
module View {
  import opened Seqs
  import opened Items
  import opened Mutations

  /** `items.filter(item => !item.is_completed)`. */
  function ActiveItems(s: seq<Item>): (r: seq<Item>)
    ensures forall i :: i in r <==> i in s && !i.isCompleted
    ensures IsSubseq(r, s)
  {
    Filter(s, (i: Item) => !i.isCompleted)
  }

  /** `items.filter(item => item.is_completed)`. */
  function CompletedItems(s: seq<Item>): (r: seq<Item>)
    ensures forall i :: i in r <==> i in s && i.isCompleted
    ensures IsSubseq(r, s)
  {
    Filter(s, (i: Item) => i.isCompleted)
  }

  /**
   * The two views partition the list: every entry is shown in exactly one of
   * them, as often as it occurs, so their lengths add up to the list's.
   */
  lemma ViewsPartition(s: seq<Item>)
    ensures multiset(ActiveItems(s)) + multiset(CompletedItems(s)) == multiset(s)
    ensures |ActiveItems(s)| + |CompletedItems(s)| == |s|
  {
    FilterSplit(s, (i: Item) => !i.isCompleted, (i: Item) => i.isCompleted);
  }

  /**
   * After the optimistic toggle of an item, every entry with its id is shown
   * in the completed view exactly when the passed item was active.
   */
  lemma ToggleMovesBetweenViews(prev: seq<Item>, item: Item)
    ensures var s := ToggleOptimistic(prev, item).items;
            forall k :: 0 <= k < |s| && s[k].id == item.id ==>
              (s[k] in CompletedItems(s) <==> !item.isCompleted)
              && (s[k] in ActiveItems(s) <==> item.isCompleted)
  {
  }
}

/**
 * The change-feed callback of the list page: every row-level notification
 * for the household is merged into the current list by one updater chosen
 * by event type. Inserts are prepended unconditionally: nothing relates a
 * confirmed insert to the provisional entry of the local user's own add,
 * and nothing checks whether the row is already present.
 */
module ChangeFeed {
  import opened Seqs
  import opened Items
  import opened Mutations

  /** A change-feed payload: the new row for INSERT and UPDATE, the old row's id for DELETE. */
  datatype Change =
    | Inserted(row: Item)
    | Updated(row: Item)
    | Deleted(oldId: Id)

  /** The list after one change-feed event. */
  function Apply(prev: seq<Item>, c: Change): (r: seq<Item>)
    ensures c.Inserted? ==> |r| == |prev| + 1 && r[0] == c.row && r[1..] == prev
    ensures c.Updated? ==>
      && |r| == |prev|
      && (forall k :: 0 <= k < |prev| ==> r[k].id == prev[k].id)
      && (forall k :: 0 <= k < |prev| && prev[k].id == c.row.id ==> r[k] == c.row)
      && (forall k :: 0 <= k < |prev| && prev[k].id != c.row.id ==> r[k] == prev[k])
    ensures c.Deleted? ==>
      && !HasId(r, c.oldId)
      && IsSubseq(r, prev)
      && (forall i :: i in r <==> i in prev && i.id != c.oldId)
      && (forall i :: multiset(r)[i] == if i.id == c.oldId then 0 else multiset(prev)[i])
  {
    match c
    case Inserted(row) => [row] + prev
    case Updated(row) => ReplaceById(prev, row)
    case Deleted(oldId) => RemoveId(prev, oldId)
  }

  /** Delivering the same UPDATE or DELETE twice is delivering it once. */
  lemma ApplyTwiceIsApplyOnce(prev: seq<Item>, c: Change)
    requires !c.Inserted?
    ensures Apply(Apply(prev, c), c) == Apply(prev, c)
  {
    match c
    case Updated(row) => ReplaceByIdIdempotent(prev, row);
    case Deleted(oldId) => RemoveIdIdempotent(prev, oldId);
  }

  /** An UPDATE or DELETE for an id the list does not hold is ignored. */
  lemma ApplyAbsentIsNoop(prev: seq<Item>, c: Change)
    requires c.Updated? ==> !HasId(prev, c.row.id)
    requires c.Deleted? ==> !HasId(prev, c.oldId)
    requires !c.Inserted?
    ensures Apply(prev, c) == prev
  {
    match c
    case Updated(row) => ReplaceAbsentId(prev, row);
    case Deleted(oldId) => RemoveAbsentId(prev, oldId);
  }

  /** A feed DELETE and a local delete of the same id leave the same list. */
  lemma FeedDeleteIsLocalDelete(prev: seq<Item>, id: Id)
    ensures Apply(prev, Deleted(id)) == DeleteOptimistic(prev, id).items
  {
  }

  /** The echo of a local delete arriving on the feed changes nothing further. */
  lemma DeleteEchoIsNoop(prev: seq<Item>, id: Id)
    ensures Apply(DeleteOptimistic(prev, id).items, Deleted(id)) == DeleteOptimistic(prev, id).items
  {
    RemoveIdIdempotent(prev, id);
  }

  /**
   * INSERT is not idempotent: a row delivered twice, or a row whose id the
   * list already holds, ends up in two entries with the same id.
   */
  lemma InsertDuplicatesPresentId(prev: seq<Item>, row: Item)
    requires HasId(prev, row.id)
    ensures exists j, k :: 0 <= j < k < |Apply(prev, Inserted(row))|
                           && Apply(prev, Inserted(row))[j].id == row.id
                           && Apply(prev, Inserted(row))[k].id == row.id
  {
    var r := Apply(prev, Inserted(row));
    var k :| 0 <= k < |prev| && prev[k].id == row.id;
    assert r[k + 1] == prev[k];
  }

  /**
   * The local user's own add, once confirmed, shows up twice: the feed
   * prepends the store's row for that insert, and the successful settle
   * step keeps the provisional entry behind it. The two entries agree on
   * name, quantity, creator and household and differ only in id, category,
   * completion and timestamps as the store set them.
   */
  lemma OwnAddAppearsTwice(prev: seq<Item>, name: string, quantity: string,
                           user: Option<Id>, household: Option<Id>,
                           tempId: Id, createdAt: Timestamp, updatedAt: Timestamp,
                           confirmed: Item)
    requires AddOptimistic(prev, name, quantity, user, household, tempId, createdAt, updatedAt).request
             == Some(InsertRow(NewRow(confirmed.name, confirmed.quantity,
                                      confirmed.addedByUserId, confirmed.householdId)))
    requires confirmed.id != tempId
    ensures var step := AddOptimistic(prev, name, quantity, user, household, tempId, createdAt, updatedAt);
            var after := Apply(AddSettle(step.items, tempId, false), Inserted(confirmed));
            && |after| == |prev| + 2
            && after[0] == confirmed
            && after[1] == step.items[0] && after[1].id == tempId
            && after[2..] == prev
            && after[0].name == after[1].name && after[0].quantity == after[1].quantity
            && after[0].addedByUserId == after[1].addedByUserId
            && after[0].householdId == after[1].householdId
  {
  }
}

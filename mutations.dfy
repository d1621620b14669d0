/**
 * The three user-initiated handlers of the list page: add, toggle and
 * delete. Each runs in two steps. The optimistic step rewrites the list at
 * once and yields the request it sends to the store. The settle step runs
 * when the store answers; the store's outcome is the `failed` flag. The
 * settle step applies to whatever the list holds by then, because change
 * feed events may have arrived in between.
 */
module Mutations {
  import opened Seqs
  import opened Items

  /** The fields of a new row as sent to the store: it assigns id and timestamps. */
  datatype NewRow = NewRow(name: string, quantity: Option<string>, addedByUserId: Id, householdId: Id)

  /** A request to the persistent store issued by an optimistic step. */
  datatype Request =
    | InsertRow(row: NewRow)
    | UpdateCompleted(id: Id, isCompleted: bool)
    | DeleteRow(id: Id)

  /** The list after an optimistic step, and the request it issued (if any). */
  datatype Step = Step(items: seq<Item>, request: Option<Request>)

  /** ECMAScript WhiteSpace and LineTerminator code points, the set `String.prototype.trim` strips. */
  predicate IsTrimmable(c: char) {
    c == '\t' || c == '\n' || c == '\U{000B}' || c == '\U{000C}' || c == '\r' || c == ' '
    || c == '\U{00A0}' || c == '\U{1680}' || ('\U{2000}' <= c <= '\U{200A}')
    || c == '\U{2028}' || c == '\U{2029}' || c == '\U{202F}' || c == '\U{205F}'
    || c == '\U{3000}' || c == '\U{FEFF}'
  }

  /** Drops the leading trimmable characters. */
  function TrimStart(s: string): (r: string)
    ensures |r| <= |s| && r == s[|s| - |r|..]
    ensures forall k :: 0 <= k < |s| - |r| ==> IsTrimmable(s[k])
    ensures r == [] || !IsTrimmable(r[0])
  {
    if s != [] && IsTrimmable(s[0]) then TrimStart(s[1..]) else s
  }

  /** Drops the trailing trimmable characters. */
  function TrimEnd(s: string): (r: string)
    ensures |r| <= |s| && r == s[..|r|]
    ensures forall k :: |r| <= k < |s| ==> IsTrimmable(s[k])
    ensures r == [] || !IsTrimmable(r[|r| - 1])
  {
    if s != [] && IsTrimmable(s[|s| - 1]) then TrimEnd(s[..|s| - 1]) else s
  }

  /** `String.prototype.trim`: empty exactly when every character is trimmable. */
  function Trim(s: string): (r: string)
    ensures |r| <= |s|
    ensures r == [] <==> forall k :: 0 <= k < |s| ==> IsTrimmable(s[k])
  {
    var t := TrimStart(s);
    assert forall k :: |s| - |t| <= k < |s| ==> s[k] == t[k - (|s| - |t|)];
    TrimEnd(t)
  }

  /** `newItemQuantity || null`: the empty string is falsy and becomes null. */
  function OptionalText(q: string): (r: Option<string>)
    ensures r == None <==> q == []
    ensures r != None ==> r.value == q
  {
    if q == [] then None else Some(q)
  }

  /**
   * The optimistic step of `addItem`. A blank name, or no signed-in user or
   * household, is rejected with no change and no request. Otherwise a
   * provisional entry with the caller's temporary id goes to the head of
   * the list and an insert of the same fields, without id, is requested.
   * The two clock readings for the timestamps are separate parameters.
   */
  function AddOptimistic(prev: seq<Item>, name: string, quantity: string,
                         user: Option<Id>, household: Option<Id>,
                         tempId: Id, createdAt: Timestamp, updatedAt: Timestamp): (r: Step)
    ensures r.request == None <==>
      (forall k :: 0 <= k < |name| ==> IsTrimmable(name[k])) || user == None || household == None
    ensures r.request == None ==> r.items == prev
    ensures r.request != None ==>
      && |r.items| == |prev| + 1
      && r.items[1..] == prev
      && r.items[0].id == tempId
      && r.items[0].name == name
      && r.items[0].quantity == OptionalText(quantity)
      && r.items[0].category == None
      && !r.items[0].isCompleted
      && r.items[0].createdAt == createdAt && r.items[0].updatedAt == updatedAt
      && r.request == Some(InsertRow(NewRow(r.items[0].name, r.items[0].quantity,
                                            r.items[0].addedByUserId, r.items[0].householdId)))
      && Some(r.items[0].addedByUserId) == user
      && Some(r.items[0].householdId) == household
  {
    if Trim(name) == [] || user == None || household == None then
      Step(prev, None)
    else
      var provisional := Item(tempId, name, OptionalText(quantity), None, false,
                              user.value, household.value, createdAt, updatedAt);
      Step([provisional] + prev,
           Some(InsertRow(NewRow(name, OptionalText(quantity), user.value, household.value))))
  }

  /**
   * The settle step of `addItem`. On failure every entry carrying the
   * temporary id is filtered out of the current list; on success nothing
   * happens, so the provisional entry stays.
   */
  function AddSettle(cur: seq<Item>, tempId: Id, failed: bool): (r: seq<Item>)
    ensures !failed ==> r == cur
    ensures failed ==> !HasId(r, tempId) && IsSubseq(r, cur)
    ensures failed ==> forall i :: i in r <==> i in cur && i.id != tempId
    ensures failed ==> forall i :: multiset(r)[i] == if i.id == tempId then 0 else multiset(cur)[i]
  {
    if failed then RemoveId(cur, tempId) else cur
  }

  /**
   * A failed add, with nothing arriving in between, removes the provisional
   * entry and every older entry that happens to share its temporary id.
   */
  lemma AddThenFailRemovesTempId(prev: seq<Item>, name: string, quantity: string,
                                 user: Option<Id>, household: Option<Id>,
                                 tempId: Id, createdAt: Timestamp, updatedAt: Timestamp)
    ensures AddSettle(AddOptimistic(prev, name, quantity, user, household, tempId, createdAt, updatedAt).items, tempId, true)
            == RemoveId(prev, tempId)
  {
  }

  /** When the temporary id was fresh, a failed add restores the list exactly. */
  lemma AddThenFailRestores(prev: seq<Item>, name: string, quantity: string,
                            user: Option<Id>, household: Option<Id>,
                            tempId: Id, createdAt: Timestamp, updatedAt: Timestamp)
    requires !HasId(prev, tempId)
    ensures AddSettle(AddOptimistic(prev, name, quantity, user, household, tempId, createdAt, updatedAt).items, tempId, true)
            == prev
  {
    AddThenFailRemovesTempId(prev, name, quantity, user, household, tempId, createdAt, updatedAt);
    RemoveAbsentId(prev, tempId);
  }

  /**
   * The optimistic step of `toggleItem`: entries with the item's id get the
   * negation of the passed item's flag, and an update of that single field
   * is requested.
   */
  function ToggleOptimistic(prev: seq<Item>, item: Item): (r: Step)
    ensures |r.items| == |prev|
    ensures forall k :: 0 <= k < |prev| && prev[k].id == item.id ==>
      r.items[k] == prev[k].(isCompleted := !item.isCompleted)
    ensures forall k :: 0 <= k < |prev| && prev[k].id != item.id ==> r.items[k] == prev[k]
    ensures r.request == Some(UpdateCompleted(item.id, !item.isCompleted))
  {
    Step(SetCompleted(prev, item.id, !item.isCompleted), Some(UpdateCompleted(item.id, !item.isCompleted)))
  }

  /**
   * The settle step of `toggleItem`. On failure the entries with the item's
   * id get `!newCompleted`, which is the passed item's own flag; on success
   * nothing happens.
   */
  function ToggleSettle(cur: seq<Item>, item: Item, failed: bool): (r: seq<Item>)
    ensures !failed ==> r == cur
    ensures failed ==> |r| == |cur|
    ensures failed ==> forall k :: 0 <= k < |cur| && cur[k].id == item.id ==>
      r[k] == cur[k].(isCompleted := item.isCompleted)
    ensures failed ==> forall k :: 0 <= k < |cur| && cur[k].id != item.id ==> r[k] == cur[k]
  {
    if failed then SetCompleted(cur, item.id, item.isCompleted) else cur
  }

  /**
   * A failed toggle, with nothing arriving in between, leaves every matching
   * entry with the passed item's original flag and changes nothing else.
   */
  lemma ToggleThenFailRevertsFlag(prev: seq<Item>, item: Item)
    ensures ToggleSettle(ToggleOptimistic(prev, item).items, item, true)
            == SetCompleted(prev, item.id, item.isCompleted)
  {
  }

  /**
   * When the passed item's flag agrees with every entry that carries its
   * id (it was rendered from the current list), a failed toggle restores
   * the list exactly.
   */
  lemma ToggleThenFailRestores(prev: seq<Item>, item: Item)
    requires forall k :: 0 <= k < |prev| && prev[k].id == item.id ==> prev[k].isCompleted == item.isCompleted
    ensures ToggleSettle(ToggleOptimistic(prev, item).items, item, true) == prev
  {
  }

  /** The optimistic step of `deleteItem`: the id is filtered out and a delete requested. */
  function DeleteOptimistic(prev: seq<Item>, id: Id): (r: Step)
    ensures !HasId(r.items, id)
    ensures IsSubseq(r.items, prev)
    ensures forall i :: i in r.items <==> i in prev && i.id != id
    ensures forall i :: multiset(r.items)[i] == if i.id == id then 0 else multiset(prev)[i]
    ensures r.request == Some(DeleteRow(id))
  {
    Step(RemoveId(prev, id), Some(DeleteRow(id)))
  }

  /**
   * The settle step of `deleteItem`. On failure the list is reloaded:
   * `refetched` is what the reload delivered, `None` when it failed or no
   * household was set, in which case the list stays. On success nothing
   * happens.
   */
  function DeleteSettle(cur: seq<Item>, failed: bool, refetched: Option<seq<Item>>): (r: seq<Item>)
    ensures !failed || refetched == None ==> r == cur
    ensures failed && refetched != None ==> r == refetched.value
  {
    if failed && refetched != None then refetched.value else cur
  }

  /** Deleting an id that is not in the list changes nothing locally. */
  lemma DeleteAbsentIsNoop(prev: seq<Item>, id: Id)
    requires !HasId(prev, id)
    ensures DeleteOptimistic(prev, id).items == prev
  {
    RemoveAbsentId(prev, id);
  }

  /** Deleting the same id twice leaves the same list as deleting it once. */
  lemma DeleteTwiceIsDeleteOnce(prev: seq<Item>, id: Id)
    ensures DeleteOptimistic(DeleteOptimistic(prev, id).items, id).items == DeleteOptimistic(prev, id).items
  {
    RemoveIdIdempotent(prev, id);
  }

  /**
   * A failed delete whose reload delivers nothing leaves the id absent from
   * the list, although the store still holds the row: nothing puts it back
   * until a later reload or feed event.
   */
  lemma FailedDeleteWithoutReloadStaysDeleted(prev: seq<Item>, id: Id)
    ensures !HasId(DeleteSettle(DeleteOptimistic(prev, id).items, true, None), id)
    ensures DeleteSettle(DeleteOptimistic(prev, id).items, true, None) == RemoveId(prev, id)
  {
  }

  /** A failed delete whose reload delivered a list shows exactly that list. */
  lemma FailedDeleteShowsReload(prev: seq<Item>, id: Id, reloaded: seq<Item>)
    ensures DeleteSettle(DeleteOptimistic(prev, id).items, true, Some(reloaded)) == reloaded
  {
  }
}

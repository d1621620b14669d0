/**
 * A row of the shared shopping list and the three id-keyed updaters every
 * handler of the list page is built from: remove by id (`filter`),
 * replace by id (`map` with a whole-row replacement) and set the
 * completion flag by id (`map` with a one-field patch).
 */
module Items {
  import opened Seqs

  datatype Option<T> = None | Some(value: T)

  /** Row ids are opaque strings: store-assigned ids and `temp-…` tokens alike. */
  type Id = string
  /** ISO-8601 text as produced by `toISOString`; never interpreted here. */
  type Timestamp = string

  datatype Item = Item(
    id: Id,
    name: string,
    quantity: Option<string>,
    category: Option<string>,
    isCompleted: bool,
    addedByUserId: Id,
    householdId: Id,
    createdAt: Timestamp,
    updatedAt: Timestamp)

  /** Some entry of `s` carries `id`. */
  predicate HasId(s: seq<Item>, id: Id) {
    exists k :: 0 <= k < |s| && s[k].id == id
  }

  /** `prev.filter(i => i.id !== id)`: every entry with `id` goes, the rest stay in order. */
  function RemoveId(s: seq<Item>, id: Id): (r: seq<Item>)
    ensures !HasId(r, id)
    ensures forall i :: i in r <==> i in s && i.id != id
    ensures forall i :: multiset(r)[i] == if i.id == id then 0 else multiset(s)[i]
    ensures IsSubseq(r, s)
  {
    var r := Filter(s, (i: Item) => i.id != id);
    assert forall k :: 0 <= k < |r| ==> r[k] in r;
    r
  }

  /** Removing an id no entry carries changes nothing. */
  lemma RemoveAbsentId(s: seq<Item>, id: Id)
    requires !HasId(s, id)
    ensures RemoveId(s, id) == s
  {
    FilterKeepsAll(s, (i: Item) => i.id != id);
  }

  /** Removing the same id twice is removing it once. */
  lemma RemoveIdIdempotent(s: seq<Item>, id: Id)
    ensures RemoveId(RemoveId(s, id), id) == RemoveId(s, id)
  {
    RemoveAbsentId(RemoveId(s, id), id);
  }

  /**
   * `prev.map(item => item.id === row.id ? row : item)`: each entry with the
   * row's id becomes the row, wholesale; every other entry, the length and
   * the order of ids stay as they were.
   */
  function ReplaceById(s: seq<Item>, row: Item): (r: seq<Item>)
    ensures |r| == |s|
    ensures forall k :: 0 <= k < |s| ==> r[k].id == s[k].id
    ensures forall k :: 0 <= k < |s| && s[k].id == row.id ==> r[k] == row
    ensures forall k :: 0 <= k < |s| && s[k].id != row.id ==> r[k] == s[k]
  {
    Map(s, (i: Item) => if i.id == row.id then row else i)
  }

  /** Replacing by an id no entry carries changes nothing. */
  lemma ReplaceAbsentId(s: seq<Item>, row: Item)
    requires !HasId(s, row.id)
    ensures ReplaceById(s, row) == s
  {
  }

  /** Replacing by the same row twice is replacing it once. */
  lemma ReplaceByIdIdempotent(s: seq<Item>, row: Item)
    ensures ReplaceById(ReplaceById(s, row), row) == ReplaceById(s, row)
  {
  }

  /**
   * `prev.map(i => i.id === id ? { ...i, is_completed: v } : i)`: entries
   * with `id` get completion flag `v` and keep every other field; all other
   * entries, the length and the order stay as they were.
   */
  function SetCompleted(s: seq<Item>, id: Id, v: bool): (r: seq<Item>)
    ensures |r| == |s|
    ensures forall k :: 0 <= k < |s| && s[k].id == id ==> r[k].isCompleted == v
    ensures forall k :: 0 <= k < |s| ==> r[k].(isCompleted := s[k].isCompleted) == s[k]
    ensures forall k :: 0 <= k < |s| && s[k].id != id ==> r[k] == s[k]
  {
    Map(s, (i: Item) => if i.id == id then i.(isCompleted := v) else i)
  }

  /** Setting the flag twice on the same id keeps only the second value. */
  lemma SetCompletedTwice(s: seq<Item>, id: Id, v: bool, w: bool)
    ensures SetCompleted(SetCompleted(s, id, v), id, w) == SetCompleted(s, id, w)
  {
  }

  /** Setting the flag to the value every matching entry already has changes nothing. */
  lemma SetCompletedUnchanged(s: seq<Item>, id: Id, v: bool)
    requires forall k :: 0 <= k < |s| && s[k].id == id ==> s[k].isCompleted == v
    ensures SetCompleted(s, id, v) == s
  {
  }
}

# Shared shopping list: list-state reconciliation

This project models the client-side list logic of the household shopping-list
page (`ListPage`). Two or more members of a household edit one list. Every
change to the local list is a pure updater from the previous list to the
next one, and this model lifts each updater into a Dafny function over
`seq<Item>`:

- **Optimistic mutations.** `addItem`, `toggleItem` and `deleteItem` each
  run in two steps. The optimistic step rewrites the list at once and
  yields the request sent to the store. The settle step runs when the store
  answers, with the outcome given as a `failed` flag. It applies to the list
  as it is by then, since feed events may have arrived in between.
- **Change-feed reducer.** The feed callback merges INSERT (prepend),
  UPDATE (replace by id, wholesale) and DELETE (filter by id) events.
- **Presence.** `PartnerOnline` flattens the presence roster and asks
  whether some entry belongs to someone other than the local user.
- **View partition.** `ActiveItems` and `CompletedItems` split the list.

Modules: `Seqs` (generic `filter`, `map`, `some`, `flat`, and `IsSubseq`,
the order-preservation relation), `Items` (the row type and the id-keyed
updaters), `Mutations`, `ChangeFeed`, `Presence`, `View`.

The model follows the code. Two behaviours one might expect of a shared
list are absent from it: a confirmed insert does not replace its
provisional entry, and the list may hold two entries with the same id.
The feed always prepends an INSERT. A successful add never removes its provisional `temp-…` entry. So the local user's own add
ends up in the list twice (`ChangeFeed.OwnAddAppearsTwice`), and an INSERT
delivered twice duplicates its id (`ChangeFeed.InsertDuplicatesPresentId`).
No "unique ids" invariant is claimed anywhere.

## Model

| member | source | states |
|---|---|---|
| `Items.RemoveId` | page.tsx:189 | Filtering by id leaves no entry with that id. It keeps every other entry, with its multiplicity. The result is a subsequence of the input, so relative order is kept. |
| `Items.RemoveAbsentId` | page.tsx:189 | Removing an id that no entry carries returns the list unchanged. |
| `Items.RemoveIdIdempotent` | page.tsx:189 | Removing an id twice equals removing it once. |
| `Items.ReplaceById` | page.tsx:95-99 | Every entry whose id matches the row becomes the row. All other entries stay as they were. Length and the id at each position are preserved. |
| `Items.ReplaceAbsentId` | page.tsx:95-99 | Replacing by an id no entry carries returns the list unchanged. |
| `Items.ReplaceByIdIdempotent` | page.tsx:95-99 | Replacing by the same row twice equals replacing once. |
| `Items.SetCompleted` | page.tsx:171-173 | Matching entries get the given completion flag and keep every other field. Non-matching entries, the length and the order are unchanged. |
| `Items.SetCompletedTwice` | page.tsx:180-183 | Two flag writes on the same id equal the second write alone. |
| `Items.SetCompletedUnchanged` | page.tsx:180-183 | Writing the flag that every matching entry already has returns the list unchanged. |
| `Mutations.Trim` | page.tsx:137 | The trimmed name is empty exactly when every character is ECMAScript whitespace or a line terminator. |
| `Mutations.OptionalText` | page.tsx:142 | An empty quantity becomes null. Any other quantity is kept verbatim, untrimmed. |
| `Mutations.AddOptimistic` | page.tsx:135-160 | A blank name, a missing user or a missing household leaves the list unchanged and issues no insert. Otherwise the list grows by one. The head is a provisional entry with the temp id, the name, null category, not completed, the quantity as typed (null when the input is empty), the two given timestamps, and the local user and household. The tail is the old list. The insert request carries the same name, quantity, user and household. |
| `Mutations.AddSettle` | page.tsx:162-165 | On failure, no entry with the temp id remains, every other entry survives as often as it occurred, and the others keep their order. On success, the list is unchanged, so the provisional entry stays. |
| `Mutations.AddThenFailRemovesTempId` | page.tsx:151-163 | A failed add equals filtering the temp id out of the pre-add list. This includes older entries that share the temp id. |
| `Mutations.AddThenFailRestores` | page.tsx:151-163 | If the temp id was absent before the add, a failed add returns exactly the pre-add list. |
| `Mutations.ToggleOptimistic` | page.tsx:168-178 | Matching entries get the negation of the passed item's flag, and nothing else about them changes. Other entries, the length and the order are unchanged. An update of that single field is requested. |
| `Mutations.ToggleSettle` | page.tsx:180-185 | On failure, matching entries get the passed item's own flag, and nothing else changes. On success, the list is unchanged. |
| `Mutations.ToggleThenFailRevertsFlag` | page.tsx:168-183 | Toggling and then failing equals writing the passed item's original flag on the matching entries. |
| `Mutations.ToggleThenFailRestores` | page.tsx:168-183 | When the passed item's flag matches the list's, toggling and then failing returns exactly the original list. |
| `Mutations.DeleteOptimistic` | page.tsx:188-191 | No entry with the id remains. Every other entry survives as often as it occurred, in order. A delete of that id is requested. |
| `Mutations.DeleteSettle` | page.tsx:191-196 | On failure, the list becomes what the reload delivered, or stays if the reload delivered nothing. On success, the list is unchanged. |
| `Mutations.FailedDeleteWithoutReloadStaysDeleted` | page.tsx:189-195 | A failed delete whose reload delivers nothing leaves the list as the optimistic delete made it, so the id stays absent locally while the store still holds the row (the reload returns early without a household, page.tsx:63, and keeps the list on error, page.tsx:71). |
| `Mutations.FailedDeleteShowsReload` | page.tsx:193-195 | A failed delete whose reload delivered a list shows exactly that list. |
| `Mutations.DeleteAbsentIsNoop` | page.tsx:189 | Deleting an absent id changes nothing. |
| `Mutations.DeleteTwiceIsDeleteOnce` | page.tsx:189 | Deleting twice equals deleting once. |
| `ChangeFeed.Apply` | page.tsx:90-103 | INSERT grows the list by one, with the row at the head and the old list behind it. UPDATE preserves length and ids: matching entries become the row and the others are unchanged. DELETE leaves no entry with the id and keeps every other entry, as often as it occurred, in order. |
| `ChangeFeed.ApplyTwiceIsApplyOnce` | page.tsx:94-101 | Applying an UPDATE or DELETE event twice equals applying it once. |
| `ChangeFeed.ApplyAbsentIsNoop` | page.tsx:94-101 | An UPDATE or DELETE for an id that is not in the list is ignored. |
| `ChangeFeed.FeedDeleteIsLocalDelete` | page.tsx:100-101 | A feed DELETE and a local delete of the same id produce the same list. |
| `ChangeFeed.DeleteEchoIsNoop` | page.tsx:100-101 | When the feed echoes a local delete, the list does not change further. |
| `ChangeFeed.InsertDuplicatesPresentId` | page.tsx:91-93 | An INSERT whose id is already in the list produces two entries with that id. So INSERT is not idempotent. |
| `ChangeFeed.OwnAddAppearsTwice` | page.tsx:151-165 | After a successful own add and the feed INSERT (page.tsx:91-93) of the confirmed row, the list holds both the confirmed row and the provisional entry, followed by the old list. The two share name, quantity, creator and household. |
| `Presence.PartnerOnline` | page.tsx:118-122 | The flag is true if and only if some entry of some roster group has a user id different from the local user's. |
| `Presence.OnlySelfIsOffline` | page.tsx:120-121 | A roster with only the local user's entries gives false. |
| `Presence.OtherJoinIsOnline` | page.tsx:120-121 | Adding a group tracked by another user gives true. |
| `View.ActiveItems` | page.tsx:204 | Holds exactly the entries that are not completed, in list order. |
| `View.CompletedItems` | page.tsx:205 | Holds exactly the completed entries, in list order. |
| `View.ViewsPartition` | page.tsx:204-205 | Together, the two views hold each entry exactly as often as the list does. Their lengths sum to the list's length. |
| `View.ToggleMovesBetweenViews` | page.tsx:171-173 | After an optimistic toggle, every entry with the item's id is in the completed view exactly when the passed item was active, and in the active view exactly when it was completed. |

## Left out

- The store calls (`auth.getUser`, `from('items')…select/insert/update/delete`) are foreign I/O. Their outcome is an input: the `failed` flag, or for the reload the delivered list as an `Option`.
- The feed and presence channel plumbing (`channel`, `on`, `subscribe`, `track`, `removeChannel`) is left out. The model takes each delivered event or roster as an input.
- `initializeUser` and `handleLogout` are routing and session plumbing.
- `loadItems` is not modelled beyond its effect after a failed delete: the list is replaced by what was fetched, or left alone. The newest-first order comes from the server query.
- `Date.now()` and `new Date().toISOString()` are left out. The temp id and the two timestamps (`created_at` and `updated_at` are two separate clock readings) are parameters of `AddOptimistic`. So the model does not capture that two adds in the same millisecond get the same temp id. `AddThenFailRemovesTempId` shows what a failure then does: it removes both.
- Async interleaving between handlers and the feed is not modelled. Each updater is one atomic step, and the settle steps take the list current at their time.
- Toast notices are not modelled. This includes the "partner added an item" notice, which the code raises on every INSERT, the local user's own included.
- JSX, animation, the loading flag and the input-field state (`newItemName`, `newItemQuantity`, `inputRef`) are left out.
- A presence entry is modelled as its `user_id` alone. The channel's own bookkeeping fields play no part in the flag.
- Correlating a confirmed insert with its provisional entry, idempotent inserts and unique ids are not promised: the code has none of these, and the model follows the code (see `ChangeFeed.OwnAddAppearsTwice` and `ChangeFeed.InsertDuplicatesPresentId`).

# Item store model

A Dafny model of the client-side item store of the Next.js frontend
templates (`nextjs-frontend-dev/templates/zustand-store.ts`). The store holds
a list of `{id, name}` items and a nullable selected id. Five actions replace
one or both of those fields: `addItem`, `removeItem`, `updateItem`,
`selectItem` and `clearItems`. Three queries read them: `getItemById`,
`getItemCount` and `getSelectedItem`.

The model has three modules:

- `Wrappers` (`wrappers.dfy`): the `Option` type standing for `T | undefined`
  and `T | null`.
- `Items` (`items.dfy`): the `Item` record, the partial record `Patch` that
  `updateItem` receives, and the pure list expressions the store is built
  from. These are the spread merge (`Merge`), the `filter` of `removeItem`
  (`Without`), the `map` of `updateItem` (`Updated`) and the `find` of the
  queries (`FindById`). Lemmas about them state what the actions promise.
- `ItemStore` (`store.dfy`): the class `Store` with the two fields `items`
  and `selectedId`. Each action is a method with `modifies this` whose
  postcondition gives the new value of both fields. Each query is a function
  that reads the fields.

Zustand's `set` is modelled as an assignment of the fields an action
returns. A field the action does not return keeps its value.

Edge cases kept from the code:

- `addItem` does not reject duplicate ids. An appended duplicate stays
  invisible to `getItemById` while an earlier item has that id.
- `removeItem` and `updateItem` act on every item with the id, not only the
  first.
- `updateItem` may rename items, since a partial record may carry an `id`.
- `selectItem` does not check that any item has the id.
- `getSelectedItem` treats the empty string as no selection, because it tests
  `!selectedId`.

## Model

| member | source | states |
|---|---|---|
| `Items.Merge` | nextjs-frontend-dev/templates/zustand-store.ts:53 | each field present in the partial record overrides the item's field; each absent field keeps the item's value |
| `Items.MergeIdempotent` | nextjs-frontend-dev/templates/zustand-store.ts:53 | merging the same partial record twice equals merging it once |
| `Items.MergeEmpty` | nextjs-frontend-dev/templates/zustand-store.ts:53 | merging an empty partial record leaves the item unchanged |
| `Items.Count` | nextjs-frontend-dev/templates/zustand-store.ts:45 | the number of items with an id is at most the list length, and zero exactly when no item has the id |
| `Items.Without` | nextjs-frontend-dev/templates/zustand-store.ts:45 | the filtered list has no item with the id, keeps every item without it, and its length is the old length minus the number of items with the id |
| `Items.WithoutAppend` | nextjs-frontend-dev/templates/zustand-store.ts:45 | the filter distributes over concatenation, so surviving items keep their relative order |
| `Items.WithoutIdempotent` | nextjs-frontend-dev/templates/zustand-store.ts:45 | removing the same id twice equals removing it once |
| `Items.WithoutAbsent` | nextjs-frontend-dev/templates/zustand-store.ts:45 | removing an id that no item has leaves the list unchanged |
| `Items.Updated` | nextjs-frontend-dev/templates/zustand-store.ts:52-54 | the mapped list has the same length; position by position, an item with the id becomes the merged item and any other item is unchanged |
| `Items.UpdatedIdempotent` | nextjs-frontend-dev/templates/zustand-store.ts:50-56 | applying the same update twice equals applying it once, even when the update renames the items |
| `Items.UpdatedAbsent` | nextjs-frontend-dev/templates/zustand-store.ts:50-56 | an update for an id that no item has leaves the list unchanged |
| `Items.FindById` | nextjs-frontend-dev/templates/zustand-store.ts:68 | `find` returns an item of the list that has the id, and returns nothing exactly when no item has it |
| `Items.FindByIdIsFirst` | nextjs-frontend-dev/templates/zustand-store.ts:68 | the item found is the first in list order that has the id |
| `Items.FindByIdAppend` | nextjs-frontend-dev/templates/zustand-store.ts:37-41 | after an append, lookup returns the earlier item if one has the id; otherwise it returns the appended item if it matches, and nothing if not |
| `Items.FindByIdWithout` | nextjs-frontend-dev/templates/zustand-store.ts:43-47 | removing one id does not change the item found for any other id |
| `Items.FindByIdUpdated` | nextjs-frontend-dev/templates/zustand-store.ts:50-56 | when the update keeps the id, the item found for the id afterwards is the old first match merged with the update |
| `Items.FindByIdUpdatedOther` | nextjs-frontend-dev/templates/zustand-store.ts:50-56 | an update of one id does not change the item found for another id, unless the update renames items to that other id |
| `ItemStore.Store.constructor` | nextjs-frontend-dev/templates/zustand-store.ts:32-34 | the initial state has no items and no selection |
| `ItemStore.Store.GetItemById` | nextjs-frontend-dev/templates/zustand-store.ts:67-69 | returns a stored item with the id, or nothing exactly when no stored item has it |
| `ItemStore.Store.GetItemCount` | nextjs-frontend-dev/templates/zustand-store.ts:71-73 | the number of stored items, duplicates included; zero exactly when the list is empty |
| `ItemStore.Store.GetSelectedItem` | nextjs-frontend-dev/templates/zustand-store.ts:75-79 | returns nothing exactly when there is no selection, the selection is the empty string, or no item has the selected id; otherwise returns the first item with the selected id |
| `ItemStore.Store.AddItem` | nextjs-frontend-dev/templates/zustand-store.ts:37-41 | the list becomes the old list plus the item at the end and the selection is unchanged; the count grows by one; with no duplicate check, an earlier item with the same id still wins the lookup; lookups for other ids do not change |
| `ItemStore.Store.RemoveItem` | nextjs-frontend-dev/templates/zustand-store.ts:43-48 | the list becomes the filtered list and the count drops by the number of matches; the selection becomes null exactly when it equalled the id and is otherwise unchanged; the id is no longer found; the selected item becomes nothing if it had the removed id and is otherwise unchanged |
| `ItemStore.Store.UpdateItem` | nextjs-frontend-dev/templates/zustand-store.ts:50-56 | the list becomes the mapped list, with the same count; the selection is unchanged; when the update keeps the id, the lookup yields the old match merged |
| `ItemStore.Store.SelectItem` | nextjs-frontend-dev/templates/zustand-store.ts:58-60 | the selection becomes the given id, or null, whether or not an item has it; the list is unchanged; a non-empty selection resolves to the lookup of that id |
| `ItemStore.Store.ClearItems` | nextjs-frontend-dev/templates/zustand-store.ts:62-64 | the list is empty and the selection is null whatever the old state was, so the action is idempotent |

## Left out

- The `persist` middleware and its `localStorage` key `store-storage`
  (zustand-store.ts lines 2, 30 and 81-83). Browser storage and JSON
  serialisation are done by the library and are not visible here.
- Zustand's `create`, `set` and `get` machinery, with its subscriptions and
  re-rendering (zustand-store.ts lines 29-31). `set` is modelled as plain
  assignment of the returned fields, and `get` as reading the fields.
- Object identity. JavaScript items are references: `updateItem` creates new
  objects only for the matched items, and the others keep their identity.
  The model compares items by value.
- `ItemStore.Store.UpdateItem`: a partial record with a field explicitly set
  to `undefined` is not modelled, because `Patch` only has present or absent
  fields. In JavaScript such a field would overwrite the item's value with
  `undefined`.
- Extra item fields ("Add your fields"). Only `id` and `name` are modelled.
- `nextjs-frontend-dev/templates/query-hook.ts`. Its fetch calls are network
  I/O, and its caching, staleness (`staleTime`, `gcTime`) and invalidation
  are all done by TanStack Query, so there is no logic of its own to model.
- `nextjs-frontend-dev/templates/api-route.ts`. It is Next.js request and
  response plumbing, `zod` validation, logging and a placeholder data
  source. The page and limit defaulting depends on `URL` and `parseInt`.
- `nextjs-frontend-dev/templates/client-component.tsx` and
  `nextjs-frontend-dev/templates/component.tsx`. They are UI rendering with
  no decision logic.
- `eslint.config.js`. It is static lint configuration.

# Shopping list — a Dafny model of its list logic

The application keeps a shopping list in three places, and each place has its own add and
remove rules:

- the **shopping-list component** (`ShoppingList`) holds React state
  `itemsArray`, `inputValue` and `invalidInput`. Adding rejects an exact, case-sensitive
  duplicate by showing a warning and clearing the input. It ignores text that is all white
  space. Otherwise it appends the text as typed. Removing looks the name up with `indexOf`
  and `splice`s one element out.
- the **global items store** (`Store`) is a zustand store with `items` and `newItem`. Its
  updaters return a partial state, and `set` merges it shallowly into the current state.
- the **`/api/items` route** (`ItemsRoute`) appends the request body on POST. On DELETE it
  filters out every stored entry whose `name` equals the body's `name`.

Two helper modules give the JavaScript built-ins their ECMAScript meaning:
`JsString` covers `trim` and its white-space set, and `JsArray` covers `some`, `indexOf`,
`splice` and `filter` with a `!==` test. `Options` holds the optional value used for a
`name` property that may be absent.

React batches state updates, so a component handler reads the state of the render that
created it and its writes land together. Each handler is therefore specified as a function
from a snapshot `View` to the next `View` (`Added`, `KeyPressed`, `Removed`, `InputChanged`,
`Focused`). The class `ShoppingList.Component` has the three state fields, and its handler
methods are proved to produce exactly those functions' results. The invariant "no name twice,
no blank name" holds from the initial state under any sequence of user events
(`ReachableInv`), and every handler method keeps it (`old(Valid()) ==> Valid()`).

Both route handlers answer `{status: 200, data}`, where `data` is the request body exactly as
received. Neither handler checks the body's `name`: POST stores whatever body it gets.

Because of that, a stored entry's `name` is optional (`Entry.name: Option<string>`).
A DELETE whose body has no `name` compares `undefined !== undefined`, so it removes every
stored entry that has no name.

## Model

| member | source | states |
|---|---|---|
| `JsString.TrimStart` | components/shoppingList/shoppingListComponent.tsx:44 | the result is a suffix of the input, everything cut off is white space, and the result does not start with white space |
| `JsString.TrimEnd` | components/shoppingList/shoppingListComponent.tsx:44 | the result is a prefix of the input, everything cut off is white space, and the result does not end with white space |
| `JsString.Trim` | components/shoppingList/shoppingListComponent.tsx:44 | a non-empty result neither starts nor ends with white space |
| `JsString.TrimEmptyIffBlank` | components/shoppingList/shoppingListComponent.tsx:44 | `trim()` gives the falsy empty string exactly when the text is all white space |
| `JsArray.SomeEqual` | components/shoppingList/shoppingListComponent.tsx:33 | `some(item => item === v)` is true exactly when some element equals v |
| `JsArray.IndexOf` | components/shoppingList/shoppingListComponent.tsx:65-67 | `indexOf` gives -1 exactly when the value is absent, and otherwise the first index holding it |
| `JsArray.Splice` | components/shoppingList/shoppingListComponent.tsx:68 | `splice` never lengthens the array and introduces no new element |
| `JsArray.SpliceOneAt` | components/shoppingList/shoppingListComponent.tsx:68 | `splice(i, 1)` with i in range removes exactly element i and keeps the rest in order |
| `JsArray.SpliceOneAtMinusOne` | components/shoppingList/shoppingListComponent.tsx:68 | `splice(-1, 1)` removes the last element, and leaves an empty array empty |
| `JsArray.Without` | store/store.ts:45 | the filtered array is never longer than the input; its result is stated by the `JsArray.Without*` lemmas, closed by `JsArray.WithoutUnique` |
| `JsArray.WithoutExcludes` | store/store.ts:45 | after `filter(x => key(x) !== k)` no element has key k |
| `JsArray.WithoutMultiplicity` | store/store.ts:45 | the filter keeps every element with another key exactly as often as it occurred |
| `JsArray.WithoutIsSubsequence` | store/store.ts:45 | the filter keeps the survivors in their original relative order |
| `JsArray.WithoutLength` | store/store.ts:45 | the filter drops exactly as many elements as have key k |
| `JsArray.WithoutAbsent` | store/store.ts:45 | filtering by a key no element has returns the array unchanged |
| `JsArray.WithoutIdempotent` | store/store.ts:45 | filtering twice by the same key equals filtering once |
| `JsArray.WithoutAppend` | src/app/api/items/route.ts:28 | filtering a concatenation is concatenating the filtered parts |
| `JsArray.WithoutUnique` | store/store.ts:45 | the filter's result is the only ordered subsequence that avoids key k and keeps one element per element with another key |
| `ShoppingList.InitialView` | components/shoppingList/shoppingListComponent.tsx:19-23 | no contract of its own; its result is stated by `ShoppingList.ReachableInv` and `ShoppingList.Component.constructor` |
| `ShoppingList.InputChanged` | components/shoppingList/shoppingListComponent.tsx:26-29 | no contract of its own; its result is stated by `ShoppingList.Component.HandleInputChange` and `ShoppingList.StepKeepsInv` |
| `ShoppingList.Focused` | components/shoppingList/shoppingListComponent.tsx:84 | no contract of its own; its result is stated by `ShoppingList.Component.HandleFocus` and `ShoppingList.StepKeepsInv` |
| `ShoppingList.Added` | components/shoppingList/shoppingListComponent.tsx:42-49 | no contract of its own; its result is stated by `ShoppingList.AddedDuplicate`, `ShoppingList.AddedBlank`, `ShoppingList.AddedFresh` and `ShoppingList.AddedKeepsInv` |
| `ShoppingList.KeyPressed` | components/shoppingList/shoppingListComponent.tsx:52-61 | no contract of its own; its result is stated by `ShoppingList.Component.HandleKeyDown` and `ShoppingList.StepKeepsInv` |
| `ShoppingList.Removed` | components/shoppingList/shoppingListComponent.tsx:64-70 | no contract of its own; its result is stated by `ShoppingList.RemovedPresent`, `ShoppingList.RemovedAbsent`, `ShoppingList.RemovedPresentIsGone` and `ShoppingList.RemovedKeepsInv` |
| `ShoppingList.AddedDuplicate` | components/shoppingList/shoppingListComponent.tsx:32-49 | adding text that is already listed leaves the list unchanged, raises the warning and clears the input |
| `ShoppingList.AddedBlank` | components/shoppingList/shoppingListComponent.tsx:44 | adding new text that is all white space changes nothing |
| `ShoppingList.AddedFresh` | components/shoppingList/shoppingListComponent.tsx:44-48 | adding new text with a visible character appends it untrimmed, clears the input and lowers the warning |
| `ShoppingList.RemovedPresent` | components/shoppingList/shoppingListComponent.tsx:64-70 | removing a listed name deletes its first occurrence and keeps the rest in order; input and warning are untouched |
| `ShoppingList.RemovedAbsent` | components/shoppingList/shoppingListComponent.tsx:64-70 | removing an unlisted name deletes the last item (index -1), or nothing from an empty list; input and warning are untouched |
| `ShoppingList.RemovedPresentIsGone` | components/shoppingList/shoppingListComponent.tsx:64-70 | in a list without repeats, removing a listed name shortens it by one and the name is no longer listed |
| `ShoppingList.AddedKeepsInv` | components/shoppingList/shoppingListComponent.tsx:42-49 | adding keeps the list free of repeats and of blank names |
| `ShoppingList.DeleteAtKeepsInv` | components/shoppingList/shoppingListComponent.tsx:68 | deleting any one position keeps a list free of repeats and of blank names |
| `ShoppingList.RemovedKeepsInv` | components/shoppingList/shoppingListComponent.tsx:64-70 | removing, even an unlisted name, keeps the list free of repeats and of blank names |
| `ShoppingList.StepKeepsInv` | components/shoppingList/shoppingListComponent.tsx:26-84 | every user event keeps the list free of repeats and of blank names |
| `ShoppingList.RunKeepsInv` | components/shoppingList/shoppingListComponent.tsx:26-84 | any sequence of user events keeps the list free of repeats and of blank names |
| `ShoppingList.ReachableInv` | components/shoppingList/shoppingListComponent.tsx:19-84 | from the empty initial state, any sequence of events leaves a list with no repeats and no blank names |
| `ShoppingList.MilkScenario` | components/shoppingList/shoppingListComponent.tsx:26-84 | "Milk" then "milk" are both listed (case-sensitive), "Milk" again is rejected with the warning, and removing "Milk" leaves ["milk"] |
| `ShoppingList.Component.constructor` | components/shoppingList/shoppingListComponent.tsx:19-23 | the component starts with no items, an empty input and no warning |
| `ShoppingList.Component.HandleInputChange` | components/shoppingList/shoppingListComponent.tsx:26-29 | the input takes the new text, the warning is lowered, and the list is untouched |
| `ShoppingList.Component.HandleFocus` | components/shoppingList/shoppingListComponent.tsx:84 | focusing only lowers the warning |
| `ShoppingList.Component.IsInputValid` | components/shoppingList/shoppingListComponent.tsx:32-39 | returns true exactly when the shown text is listed; then it raises the warning and clears the input, otherwise it changes nothing |
| `ShoppingList.Component.AddItem` | components/shoppingList/shoppingListComponent.tsx:42-49 | the new state is `Added` of the shown state, and the invariant is kept |
| `ShoppingList.Component.HandleKeyDown` | components/shoppingList/shoppingListComponent.tsx:52-61 | Enter gives exactly the state `addItem` gives; any other key changes nothing |
| `ShoppingList.Component.RemoveItem` | components/shoppingList/shoppingListComponent.tsx:64-70 | the new state is `Removed` of the old one (indexOf then splice one), and the invariant is kept |
| `Store.Merge` | store/store.ts:27 | `set` gives each field the partial state mentions its new value and keeps every field it does not mention |
| `Store.Initial` | store/store.ts:24-25 | the store starts with no items and an empty `newItem` |
| `Store.AddItem` | store/store.ts:26-36 | no contract of its own; its result is stated by `Store.AddItemAppends` and `Store.AddItemRepeatsName` |
| `Store.SetNewItem` | store/store.ts:37-42 | no contract of its own; its result is stated by `Store.SetNewItemOnlyText` |
| `Store.RemoveItem` | store/store.ts:43-47 | no contract of its own; its result is stated by `Store.RemoveItemRemovesAll`, `Store.RemoveItemKeepsOthers`, `Store.RemoveItemAbsent` and `Store.RemoveItemIdempotent` |
| `Store.AddItemAppends` | store/store.ts:26-36 | `addItem` appends `{name: newItem}`, so the list grows by exactly one, and resets `newItem` |
| `Store.AddItemRepeatsName` | store/store.ts:27-34 | there is no duplicate check: the count of items with that name grows by one |
| `Store.SetNewItemOnlyText` | store/store.ts:37-42 | `setNewItem` changes `newItem` and nothing else |
| `Store.RemoveItemRemovesAll` | store/store.ts:43-47 | after `removeItem(n)` no item is named n |
| `Store.RemoveItemKeepsOthers` | store/store.ts:43-47 | `removeItem(n)` keeps every other item with its multiplicity and order, drops exactly the items named n, and leaves `newItem` unchanged because `set` merges |
| `Store.RemoveItemAbsent` | store/store.ts:45 | removing a name no item has leaves the state unchanged |
| `Store.RemoveItemIdempotent` | store/store.ts:45 | removing a name twice equals removing it once |
| `ItemsRoute.Appended` | src/app/api/items/route.ts:18 | POST's new array is one longer, has the old array as a prefix, and ends with the body |
| `ItemsRoute.Deleted` | src/app/api/items/route.ts:28 | the filtered array is never longer than the stored one; its result is stated by `ItemsRoute.DeleteRemovesAll`, `ItemsRoute.DeleteKeepsOthers`, `ItemsRoute.DeleteAbsent`, `ItemsRoute.DeleteIdempotent` and `ItemsRoute.DeleteAfterPost` |
| `ItemsRoute.PostRepeatsName` | src/app/api/items/route.ts:18 | there is no duplicate or name check: posting a stored name stores it once more |
| `ItemsRoute.DeleteRemovesAll` | src/app/api/items/route.ts:28 | after DELETE no stored entry has the body's name |
| `ItemsRoute.DeleteKeepsOthers` | src/app/api/items/route.ts:28 | DELETE keeps every entry with another name, with its multiplicity and in order, and drops exactly the matching ones |
| `ItemsRoute.DeleteAbsent` | src/app/api/items/route.ts:28-29 | DELETE of a name no entry has leaves the stored array unchanged |
| `ItemsRoute.DeleteIdempotent` | src/app/api/items/route.ts:28-29 | DELETE twice with the same body equals DELETE once |
| `ItemsRoute.DeleteAfterPost` | src/app/api/items/route.ts:18-28 | DELETE after POST of the same name gives what DELETE alone gives |
| `ItemsRoute.ItemsApi.constructor` | src/app/api/items/route.ts:17 | the handlers start from the stored array as read |
| `ItemsRoute.ItemsApi.Post` | src/app/api/items/route.ts:13-21 | the stored array becomes the old one plus the body, and the answer is status 200 with the body unchanged |
| `ItemsRoute.ItemsApi.Delete` | src/app/api/items/route.ts:23-31 | the stored array becomes the filtered one, with no entry of the body's name, and the answer is status 200 with the body unchanged |

## Left out

- `GET` in src/app/api/items/route.ts returns a JSON module bundled at build time, not the file, so what it returns depends on the bundler.
- File reads and writes, path resolution, `JSON.parse`, `JSON.stringify` and `request.json()` are not modelled. The stored file is the field `ItemsApi.stored`. A failure in any of them throws, and the framework turns the throw into an error response; that path is not modelled.
- Stored entries and request bodies are modelled by their `name` only, present as a string or absent. Other properties, and non-string names, are not modelled.
- Request bodies that are not objects are not modelled, and neither is the throw they cause. A POST of `null` stores `null`; from then on every DELETE throws when its filter reads `item.name` of that entry, until the file is edited. A DELETE whose body is `null` throws when it reads `data.name`, as soon as the stored array is non-empty.
- Concurrent requests and the lost update on the shared file are not modelled: the model is sequential.
- The DOM lookup `previousElementSibling?.getAttribute("placeholder")` in `removeItem` is replaced by the item name passed in, since that placeholder is the item shown beside the button.
- React rendering, hook scheduling and zustand's subscription mechanics are not modelled, apart from the snapshot-then-commit reading of the component handlers and the shallow merge of `set`.
- Syncing the list into a URL query parameter and sending component changes to the API do not appear in the modelled files, so they are not modelled.
- components/navigation/navigationComponent.tsx (menu toggling and clipboard copy), src/app/layout.tsx, src/app/page.tsx, src/app/api-doc/react-swagger.tsx and the echo route src/app/api/route.ts hold no list logic and are not part of this model.
- JavaScript strings are sequences of UTF-16 code units, while the model uses `seq<char>` of Unicode scalar values. Equality and the trim white-space set do not depend on the difference; lone surrogates are not representable.

# Product catalogue client: table projection, property editor, token store, route guard

A Dafny model of the four pieces of logic in the Angular product-catalogue
client. Each piece is stated in Dafny and its behaviour is proved.

- **Table projection** (`ProductListDataSource`, files `product_sort.dfy` and
  `product_list_datasource.dfy`). The data source holds the loaded product
  list and a loading flag. It turns the list into the rows on screen:
  - it sorts a copy by the active column with the `compare` comparator;
  - it slices out the current page.

  `connect` refuses to run until a paginator and a sort are attached.
  - The sort is specified on sequences as `SortBy`, which inserts each element
    in turn the way the engine's insertion sort does.
  - The sort runs in place on an `array` (`SortInPlace`) and is proved equal to
    `SortBy`.
  - `SortBy` is proved to give a permutation of its input.
  - For a known column it is proved ordered by that column's key.
  - For an unknown column it is proved to be the identity.
  - With distinct keys, the ascending sort is proved strictly increasing and
    the descending sort is proved to be its exact reverse.
  - The page is proved to be the contiguous run
    `[pageIndex*pageSize, pageIndex*pageSize+pageSize)`, cut short at the end
    of the list.
- **Custom-property editor** (`ProductPropertyEditor`, file
  `product_property_editor.dfy`). A class holds the list of
  `{key, value, isEditing}` items and the parent form's `profile` map, and
  every method keeps two invariants:
  - item keys are pairwise unique;
  - every item key is a profile key.

  Each method states its whole new state:
  - `ngOnInit` yields the non-reserved profile entries, in entry order;
  - `addProperty` is guarded three ways;
  - `removeProperty` is idempotent;
  - `toggleEdit` and `onValueBlur` write the value back to the profile.
- **Token store** (`Auth`, file `auth_service.dfy`). A class holds the
  in-memory token and the browser's key-value storage as a
  `map<string,string>`, with the token kept under the key `"token"`.
  - `getToken` falls back from memory to storage.
  - `setToken` followed by `getToken` gives back the token.
  - After `logout`, `getToken` yields null.
  - `logout` is idempotent.
- **Route guard** (`RouteGuard`, file `auth_guard.dfy`). The guard is a pure
  decision on the value `getToken()` returns. It allows exactly when that
  value is truthy. On deny it returns the navigation to `['/login']` as an
  output.

The profile's custom keys can include a reserved key. As in the code, the
duplicate check in `addProperty` looks only at the custom list, so adding a
key `type` is accepted and overwrites `profile["type"]`. The model does the
same. `removeProperty` takes an item and removes by that item's key, as the code does.

## Model

| member | source | states |
|---|---|---|
| ProductSort.ColumnOf | src/app/products/product-list/product-list-datasource.ts:105-116 | a column is recognised exactly when the active id is one of `id`, `name`, `sku`, `cost`; anything else falls to the `default` branch |
| ProductSort.Compare | src/app/products/product-list/product-list-datasource.ts:122-128 | `compare` yields only -1 or 1, never 0; ascending gives -1 exactly when a < b, descending exactly when not a < b |
| ProductSort.Comparator | src/app/products/product-list/product-list-datasource.ts:103-117 | the sort callback yields 0 for every pair under an unrecognised column and only -1 or 1 under a recognised one |
| ProductSort.KeyOf | src/app/products/product-list/product-list-datasource.ts:106-113 | the key the `switch` compares: a number for `id` and `cost`, a string for `name` and `sku` |
| ProductSort.StrLess | src/app/products/product-list/product-list-datasource.ts:127 | JavaScript `<` on two strings: a string is never below itself, and a proper prefix is below the longer string |
| ProductSort.KeyLess | src/app/products/product-list/product-list-datasource.ts:127 | `<` on the column's keys: a key is never below itself |
| ProductSort.ComparatorFor | src/app/products/product-list/product-list-datasource.ts:103-117 | the function value handed to `data.sort` agrees with the callback on every pair of products |
| ProductSort.Insert | src/app/products/product-list/product-list-datasource.ts:103 | one insertion step of the engine's sort; its contract states only that the result is one element longer, and its content is given by InsertPermutation and InsertAt |
| ProductSort.SortBy | src/app/products/product-list/product-list-datasource.ts:103 | the order `data.sort(cmp)` leaves; its contract states only that the length is kept, and SortPermutation, SortOrdered and SortInPlace state the rest |
| ProductSort.SortPermutation | src/app/products/product-list/product-list-datasource.ts:103-117 | the sorted list holds the same elements with the same multiplicities as the input |
| ProductSort.SortUnknownColumnKeepsOrder | src/app/products/product-list/product-list-datasource.ts:114-115 | under an unrecognised active column the comparator returns 0, so the sort keeps the input order exactly |
| ProductSort.SortOrdered | src/app/products/product-list/product-list-datasource.ts:104-113 | for a recognised column the sorted list is non-decreasing by that column's key ascending, non-increasing descending |
| ProductSort.SortAscendingStrict | src/app/products/product-list/product-list-datasource.ts:104-113 | with pairwise distinct keys, the ascending output strictly increases by the key |
| ProductSort.SortDescendingIsReverse | src/app/products/product-list/product-list-datasource.ts:122-128 | with pairwise distinct keys, the descending output is exactly the reverse of the ascending output |
| ProductSort.SortInPlace | src/app/products/product-list/product-list-datasource.ts:103-117 | `data.sort(cmp)` rearranges the array in place into the insertion-sort result for `cmp` |
| ProductListDataSource.SortedData | src/app/products/product-list/product-list-datasource.ts:98-118 | the list `getSortedData` returns: as long as its input, and the input itself when the sort is off; SortedDataSpec states the rest |
| ProductListDataSource.SortedDataSpec | src/app/products/product-list/product-list-datasource.ts:98-118 | `getSortedData` returns its input unchanged when the sort is absent, the active column is empty or the direction is ''; otherwise it returns a permutation, in input order for an unknown column and ordered by the key for a known one |
| ProductListDataSource.Slice | src/app/products/product-list/product-list-datasource.ts:89 | `slice(begin, end)` has length `min(end, len) - begin` (0 when that is not positive) and its k-th element is the input's `begin + k`-th |
| ProductListDataSource.GetPagedData | src/app/products/product-list/product-list-datasource.ts:86-92 | without a paginator the input is returned as is; with one, the result is the run starting at `pageIndex*pageSize`, at most `pageSize` long, of length `min(pageSize, len - start)` when the start is inside the list and empty when it is at or past the end |
| ProductListDataSource.FirstPageHoldsAll | src/app/products/product-list/product-list-datasource.ts:86-92 | page 0 of a page size at least the list's length is the whole list |
| ProductListDataSource.RowsComeFromProducts | src/app/products/product-list/product-list-datasource.ts:45-49 | every row on screen is an element of the loaded list, and there are at most `pageSize` rows |
| ProductListDataSource.DataSource.constructor | src/app/products/product-list/product-list-datasource.ts:15-29 | a new data source has empty data, an empty product list, loading false and no paginator or sort |
| ProductListDataSource.DataSource.SetLoading | src/app/products/product-list/product-list-datasource.ts:23-25 | the loading flag takes the given value and nothing else changes |
| ProductListDataSource.DataSource.LoadProducts | src/app/products/product-list/product-list-datasource.ts:67-68 | loading becomes true when the load starts |
| ProductListDataSource.DataSource.ReceiveProducts | src/app/products/product-list/product-list-datasource.ts:69-79 | on success `data` and the projected list both become the returned list; on error both are unchanged and the error is passed on; loading ends false either way |
| ProductListDataSource.DataSource.GetSortedData | src/app/products/product-list/product-list-datasource.ts:98-118 | the array is left unchanged when the sort is off, and otherwise is sorted in place by the active column's comparator |
| ProductListDataSource.DataSource.Connect | src/app/products/product-list/product-list-datasource.ts:36-56 | fails with the fixed message exactly when the paginator or the sort is missing; otherwise yields the current page of a sorted copy of the product list, and changes no state |
| ProductPropertyEditor.HasKey | src/app/products/product-property-editor/product-property-editor.component.ts:68 | the `properties.some(p => p.key === newKey)` test; it has no contract of its own and is the definition that AddProperty's guard and Without's contract use |
| ProductPropertyEditor.CustomProperties | src/app/products/product-property-editor/product-property-editor.component.ts:53-63 | every item is a non-reserved profile entry with its profile value and `isEditing` false, and every non-reserved entry has an item |
| ProductPropertyEditor.CustomPropertiesUnique | src/app/products/product-property-editor/product-property-editor.component.ts:56-62 | distinct entry keys give items with pairwise distinct keys |
| ProductPropertyEditor.CustomPropertiesKeepOrder | src/app/products/product-property-editor/product-property-editor.component.ts:56-62 | the items follow the profile's entry order |
| ProductPropertyEditor.Without | src/app/products/product-property-editor/product-property-editor.component.ts:89 | the filter keeps exactly the items whose key differs from the removed one, so none with that key remains |
| ProductPropertyEditor.WithoutIdempotent | src/app/products/product-property-editor/product-property-editor.component.ts:89 | filtering a key out twice equals filtering it out once |
| ProductPropertyEditor.WithoutUniqueDropsOne | src/app/products/product-property-editor/product-property-editor.component.ts:89 | with unique keys, removing a present key drops exactly its one item and the other items keep their order |
| ProductPropertyEditor.WithoutKeepsUnique | src/app/products/product-property-editor/product-property-editor.component.ts:89 | removing a key keeps item keys unique |
| ProductPropertyEditor.PropertyEditor.constructor | src/app/products/product-property-editor/product-property-editor.component.ts:42-51 | the editor starts with no items and an empty new-property form |
| ProductPropertyEditor.PropertyEditor.NgOnInit | src/app/products/product-property-editor/product-property-editor.component.ts:53-63 | the items become the profile's non-reserved entries in entry order, none being edited, with keys unique |
| ProductPropertyEditor.PropertyEditor.AddProperty | src/app/products/product-property-editor/product-property-editor.component.ts:65-86 | with a non-empty key and value and a key no item has: exactly one non-editing item is appended, the profile gets that key and value, and the form is cleared; otherwise the items, the profile and the form are unchanged; keys stay unique |
| ProductPropertyEditor.PropertyEditor.RemoveProperty | src/app/products/product-property-editor/product-property-editor.component.ts:88-97 | every item with the key is dropped and the key is deleted from the profile; other items keep their order, other profile keys are untouched, and keys stay unique |
| ProductPropertyEditor.PropertyEditor.ToggleEdit | src/app/products/product-property-editor/product-property-editor.component.ts:99-111 | only the item's editing flag flips; when it becomes false the profile gets the item's value under its key, and when it becomes true the profile is unchanged |
| ProductPropertyEditor.PropertyEditor.OnValueBlur | src/app/products/product-property-editor/product-property-editor.component.ts:113-124 | writes the item's value to the profile only while the item is being edited; the items are never changed |
| ProductPropertyEditor.RemovePropertyTwice | src/app/products/product-property-editor/product-property-editor.component.ts:88-97 | removing the same item twice leaves the state that removing it once leaves |
| Auth.GetItem | src/app/core/auth.service.ts:16 | the storage read yields the stored value exactly when the key is present, and null otherwise |
| Auth.AuthService.constructor | src/app/core/auth.service.ts:7-8 | the in-memory token starts as the empty string and storage is as found |
| Auth.AuthService.SetToken | src/app/core/auth.service.ts:10-13 | the same token is written to memory and to storage under `"token"`; other storage keys are untouched |
| Auth.AuthService.GetToken | src/app/core/auth.service.ts:15-17 | a non-empty in-memory token is returned; with an empty one, whatever storage holds under `"token"` is returned, or null when nothing is there; no state changes |
| Auth.AuthService.Logout | src/app/core/auth.service.ts:19-22 | the in-memory token becomes empty and the storage key is removed; other storage keys are untouched |
| Auth.SetThenGet | src/app/core/auth.service.ts:10-17 | after `setToken(t)`, `getToken()` returns `t`, for every `t` including the empty string |
| Auth.LogoutThenGet | src/app/core/auth.service.ts:15-22 | after `logout()`, `getToken()` returns null |
| Auth.LogoutTwice | src/app/core/auth.service.ts:19-22 | a second `logout()` leaves the state the first one left |
| Auth.GetTokenTwice | src/app/core/auth.service.ts:15-17 | two reads in a row return the same value, because reading changes nothing |
| RouteGuard.Decide | src/app/core/auth.guard.ts:7-8 | allows exactly when the token is non-null and non-empty; on deny the navigation is `['/login']`, and on allow there is none |
| RouteGuard.AuthGuard | src/app/core/auth.guard.ts:5-9 | allows exactly when the in-memory token is non-empty or storage holds a non-empty token; redirects to `['/login']` on deny and navigates nowhere on allow |
| RouteGuard.GuardAfterSetToken | src/app/core/auth.guard.ts:8 | after `setToken` with a non-empty token, the guard allows without navigating |
| RouteGuard.GuardAfterLogout | src/app/core/auth.guard.ts:8 | after `logout`, the guard denies and redirects to `['/login']` |

## Left out

- RxJS stream behaviour is not modelled. This covers `merge` re-emission on paginator or sort events, `BehaviorSubject` replay, `finalize` timing and completion in `disconnect`. The model keeps only the resulting state: `data`, the projected list and the loading flag. `connect` is modelled as computing the rows once.
- ProductListDataSource.DataSource.LoadProducts: the HTTP call `getProducts()` is not modelled. The load is split in two steps: `LoadProducts` raises the flag, and `ReceiveProducts` takes the response as a parameter (a list or an error).
- ProductSort.SortBy: for two elements that compare equal (same key, or any pair under an unknown column), the order is that of an insertion sort that moves an element left only past elements it compares below. That is what V8's sort does. The JavaScript standard leaves this order to the engine, so other engines may differ. With distinct keys, the result is the same under every engine.
- ProductSort.StrLess: strings compare character by character on Dafny `char`. JavaScript compares UTF-16 code units, which differs only for characters outside the Basic Multilingual Plane.
- ProductSort.KeyOf: `id` and `cost` are integers. The `+a.id!` coercion of a string id and floating-point costs are not modelled.
- Profile values are strings. The reserved keys hold a boolean and a number in the parent form, and the editor only reads and writes the custom entries as strings.
- `profile` is a plain map that the editor writes, as the code's spread and `delete` express. Angular's `FormGroup.patchValue`, which ignores keys that have no control, is not modelled. The parent form is not part of this model, and neither is the `if (profileControl)` guard: the parent always has a `profile` group.
- ProductPropertyEditor.PropertyEditor.NgOnInit: `Object.entries` order is taken as a parameter, a duplicate-free list of the profile's keys. JavaScript's rule that integer-like keys come first is not modelled.
- ProductPropertyEditor.PropertyEditor.AddProperty: the form's `reset()` sets the fields to null. The model uses the empty string, which the guard treats the same way.
- ProductPropertyEditor.PropertyEditor.ToggleEdit: the item is named by its index in the list rather than by an object reference, so aliasing of the item object is not modelled. The same holds for `OnValueBlur`. Template bindings that edit `prop.value` are direct writes to the list and are not part of this model.
- The `propertiesChange` output and `isViewMode` are not modelled. The output is declared but never emitted, and the flag only affects the template.
- `isLoggedIn` is not modelled. It is called by the app shell, but the token store does not define it.
- `src/app/core/auth.interceptor.ts` is not part of this model. It sends `Bearer null` when no token is stored.
- The list component, product dialog, login page and route table are not part of this model. They are dialog, snackbar, form and navigation plumbing.

# Favorites core of the bookshelf catalog app

Three of the app's screens share the favorites: the catalog (`HomeScreen`), the detail page of one entry (`DetailScreen`) and the favorites list (`FavouriteScreen`). The app also registers login, registration and profile screens, which do not touch favorites. The three favorites screens keep favorites under one AsyncStorage key, `"favorites"`, which holds a JSON array of catalog entries. No in-memory store is shared. Each screen keeps its own copy of the list and reads and writes the key on its own.

This project models that core in Dafny:

- `lists.dfy` (`Lists`): the JavaScript array operations the screens use. These are `filter`, the first-occurrence order that `[...new Set(xs)]` keeps, and the order-preserving subsequence relation in which both are specified.
- `items.dfy` (`FavoriteItems`): the favorite record and the list work keyed by `id`. This covers the `some` membership test, the filter that drops one id, and the toggle with its laws: membership flips, other entries keep their place, toggling twice restores the list, and ids stay distinct.
- `store.dfy` (`AsyncStore`): the `"favorites"` key. It can hold nothing, text that `JSON.parse` rejects, or a list. Two flags on the store say whether the backend answers reads and whether it accepts writes, so a read can succeed and the following write still be rejected.
- `favourite_screen.dfy` (`Favourite`): the favorites list screen as a class with its own fields. These are `favorites`, `isLoading`, `isEditMode`, `selectedForDeletion` and `showDeleteAll`. The class has the load, toggle, selection, delete and delete-all handlers, the focus effect, and the Edit, Cancel, Done and Delete All buttons. Its invariant is that `showDeleteAll` always equals "more than 2 favorites".
- `home_screen.dfy` (`Home`): the catalog screen as a class. It holds the distinct brands in first-occurrence order, brand filtering and case-insensitive search on `artName`. It also has the heart test, the toggle on the screen's own copy, the load and the focus effect.
- `detail_screen.dfy` (`Detail`): the detail screen as a class. On mount it derives `isFavorite`. Its toggle reads the store afresh, removes or appends according to the flag, writes, and only then flips the flag.
- `interleavings.dfy` (`Interleavings`): sequential runs of several screens against one `Store`.
  - A lost update: the catalog screen writes from its older copy.
  - The same two toggles with a reload in between, where nothing is lost.
  - A duplicate id from a detail toggle made before the mount read.
  - A stale selection that regaining focus discards.
  - Delete All hidden (and its handler refusing) at 2 items, and shown and done at 3 after the catalog screen adds an entry.
  - Add, remove, delete all.

Alerts are modelled as the `Alert` value a handler raises, plus a `confirmed` argument for the user's answer. The catalog fetch is a parameter (`Option<seq<Item>>`). Every `await` runs to completion before the next handler starts.

Some JavaScript details are modelled as written:

- `selectedBrand` and `searchQuery` are tested for truthiness, so an empty brand selects everything.
- `filter` keeps every entry with a kept value, so a list that already holds an id twice loses both entries when that id is toggled.
- `FavouriteScreen.toggleFavorite` decides by comparing lengths after filtering. `Favourite.FilterThenPushIsToggle` proves this is the same as the catalog screen's `some`-then-filter-or-append toggle. No rendered element of the favorites screen calls that handler, but it is modelled.

## Design versus code

The code differs in several places from what one would expect of a favorites list shared through one storage key. The repository does not state such a contract anywhere. Apart from two comments, the code is its only statement of intent: `screens/FavouriteScreen.js:30` says `showDeleteAll` follows the list length on load, and `screens/HomeScreen.js:61` says the catalog screen updates its state immediately for UI feedback. The model follows the code throughout.

- **Reading a value that does not parse.** One would expect it to read as an empty list. In the code:
  - the favorites screen keeps its previous list;
  - the catalog screen's handler aborts with nothing changed;
  - the detail screen keeps its flag.
- **How screens mutate the store.** One would expect each mutation to start from a fresh read of the stored list. In the code:
  - the favorites and catalog screens write their own local copy (see `Interleavings.LostUpdate`);
  - only the detail screen reads fresh.
- **Rejected writes.** One would expect a rejected write to leave the mutation unapplied. In the code:
  - the favorites and catalog screens update their local state before the write and do not catch its failure;
  - the catalog screen does this on purpose: its comment at `screens/HomeScreen.js:61` puts the local update first for immediate UI feedback;
  - only the detail screen catches it.
- **The `isFavorite` flag.** One would expect it to be re-derived from the list after each mutation. In the code it is only flipped. Because nothing checks the flag against the list, a stale flag appends a duplicate id (`Detail.StaleFlagDuplicatesId`, `Interleavings.ToggleBeforeMountReadDuplicates`).
- **The deletion selection.** One would expect ids that disappear from the list to be pruned from the selection. The code does not prune them. Instead, `deleteFavorites` ignores selected ids that are not in the list (`Favourite.DeleteIgnoresAbsent`), and the focus effect clears the selection.

## Model

| member | source | states |
|---|---|---|
| `Lists.Filter` | screens/HomeScreen.js:69 | `filter` returns no more elements than it was given. Every element it returns passes the test and came from the input. Every input element that passes is in the result. |
| `Lists.FilterExact` | screens/FavouriteScreen.js:109-111 | A filtered list is a subsequence of its input (order kept). Each kept value occurs exactly as often as in the input, and each rejected value does not occur. |
| `Lists.Dedup` | screens/HomeScreen.js:33 | `[...new Set(xs)]` has no duplicates and contains exactly the values of `xs`. |
| `Lists.SubsequenceKeepsDistinctBy` | screens/FavouriteScreen.js:55 | Deleting elements from a list whose elements have distinct keys never makes two keys collide. |
| `Lists.DedupFirstOccurrenceOrder` | screens/HomeScreen.js:33 | The values of `[...new Set(xs)]` stand in the order of their first occurrences in `xs`. |
| `FavoriteItems.HasId` | screens/HomeScreen.js:56 | `some((fav) => fav.id === id)` holds exactly when some entry has that id. |
| `FavoriteItems.Without` | screens/FavouriteScreen.js:44 | Filtering out an id removes every entry with it. Every other entry is kept, as often as before and in order. |
| `FavoriteItems.WithoutShrinksIffPresent` | screens/FavouriteScreen.js:44-45 | The filtered list has the original length exactly when the id was absent. In that case it equals the original list. |
| `FavoriteItems.Toggle` | screens/HomeScreen.js:56-59 | Toggling flips whether the id is present and leaves the entries with other ids exactly as they were, in order. A present id shrinks the list. An absent one grows it by one, with `item` at the end. |
| `FavoriteItems.ToggleTwice` | screens/HomeScreen.js:56-59 | Toggling twice restores the id's membership, and restores the exact list when the id started absent. |
| `FavoriteItems.ToggleKeepsIdsDistinct` | screens/HomeScreen.js:56-59 | A list with distinct ids still has distinct ids after a toggle. |
| `FavoriteItems.SubsequenceKeepsIdsDistinct` | screens/FavouriteScreen.js:109-111 | Removing entries never creates a repeated id. |
| `AsyncStore.Store.GetItem` | screens/FavouriteScreen.js:26 | `getItem` yields the stored value when storage answers, and rejects otherwise. |
| `AsyncStore.Store.SetItem` | screens/FavouriteScreen.js:50 | `setItem` succeeds exactly when storage answers and accepts writes. It then replaces the value with the list. Otherwise it changes nothing. |
| `Favourite.Unselect` | screens/FavouriteScreen.js:55 | Dropping an id from the selection removes every copy of it and keeps the other ids, as often as before and in order. |
| `Favourite.ToggleSelection` | screens/FavouriteScreen.js:53-58 | The new selection flips membership of the id, and the other ids stay as they were, in order. An absent id is appended at the end, so the result is the old selection followed by the id; a present id leaves exactly the old selection with every copy of it removed. A selection without duplicates gets none. |
| `Favourite.DeleteSelected` | screens/FavouriteScreen.js:109-111 | Deleting removes exactly the entries whose id is selected and keeps the rest, as often as before and in order. |
| `Favourite.DeleteIgnoresAbsent` | screens/FavouriteScreen.js:109-111 | Selected ids that no entry has make no difference to the deletion. |
| `Favourite.DeleteKeepsIdsDistinct` | screens/FavouriteScreen.js:109-111 | Deleting a selection keeps ids distinct. |
| `Favourite.FilterThenPushIsToggle` | screens/FavouriteScreen.js:44-47 | Filtering and then pushing when the length did not change gives the same list as the `some`-based toggle. |
| `Favourite.FavouriteScreen.constructor` | screens/FavouriteScreen.js:17-21 | The screen starts loading, with an empty list, not editing, an empty selection and Delete All hidden. |
| `Favourite.FavouriteScreen.LoadFavorites` | screens/FavouriteScreen.js:24-41 | A stored list replaces the local one wholesale, with `showDeleteAll` set to "more than 2". An absent key empties it. A rejected read or an unparseable value leaves the list and flag unchanged. Loading always ends. |
| `Favourite.FavouriteScreen.OnFocus` | screens/FavouriteScreen.js:127-133 | On focus the screen leaves edit mode, clears the selection and reloads. |
| `Favourite.FavouriteScreen.ToggleFavorite` | screens/FavouriteScreen.js:43-51 | The local list becomes the toggle of the old one and `showDeleteAll` follows its length. The store holds the new list when the write succeeds. |
| `Favourite.FavouriteScreen.ToggleSelectionForDeletion` | screens/FavouriteScreen.js:53-59 | The selection becomes the toggled selection. |
| `Favourite.FavouriteScreen.DeleteFavorites` | screens/FavouriteScreen.js:108-117 | The selected entries are removed and the selection is cleared. Edit mode ends, `showDeleteAll` follows the new length, and the store receives the new list. |
| `Favourite.FavouriteScreen.DeleteAllFavorites` | screens/FavouriteScreen.js:119-125 | The list and selection become empty, edit mode and Delete All are off, and the store receives `[]`. |
| `Favourite.FavouriteScreen.ConfirmDeletion` | screens/FavouriteScreen.js:61-82 | An empty selection raises "Nothing to delete" and changes no state and no storage. Otherwise the handler asks about that many items and deletes only on confirmation. Pressed through the enabled Done button it never reaches the refusal. |
| `Favourite.FavouriteScreen.ConfirmDeletionAll` | screens/FavouriteScreen.js:84-106 | With 2 items or fewer it raises "Not enough items" and changes nothing. Otherwise it asks about all items and deletes everything only on confirmation. Pressed through the rendered Delete All button it never reaches the refusal. |
| `Favourite.FavouriteScreen.EditEnabled` | screens/FavouriteScreen.js:236-242 | The Edit button can be pressed only outside edit mode and with a non-empty list. |
| `Favourite.FavouriteScreen.DoneEnabled` | screens/FavouriteScreen.js:216-222 | The Done button can be pressed only in edit mode and with a non-empty selection. |
| `Favourite.FavouriteScreen.DeleteAllShown` | screens/FavouriteScreen.js:226-229 | The Delete All button, rendered from `favorites.length > 2`, is shown in edit mode exactly when the `showDeleteAll` flag is set. |
| `Favourite.FavouriteScreen.PressEdit` | screens/FavouriteScreen.js:236-245 | Edit mode is entered only when the Edit button is shown and enabled, so only with a non-empty list. |
| `Favourite.FavouriteScreen.PressCancel` | screens/FavouriteScreen.js:207-215 | Cancel leaves edit mode and clears the selection without touching the list or the store. |
| `Home.UniqueBrands` | screens/HomeScreen.js:33 | The brand list has no duplicates and contains exactly the brands in the catalog. |
| `Home.BrandsOf` | screens/HomeScreen.js:33 | The mapped list has one brand per catalog entry, position by position. |
| `Home.UniqueBrandsInFirstOccurrenceOrder` | screens/HomeScreen.js:33 | The brands are listed in the order of their first appearance in the catalog. |
| `Home.FilteredData` | screens/HomeScreen.js:68-70 | With no brand, or an empty one, the whole catalog is shown. Otherwise exactly the entries of that brand are shown, in catalog order. |
| `Home.LowerChar` | screens/HomeScreen.js:74 | A lowercased character is never an upper-case ASCII letter. An upper-case ASCII letter maps to the lower-case letter at the same place in the alphabet, and every other character is left alone. |
| `Home.Lower` | screens/HomeScreen.js:74 | Lowercasing keeps the length and leaves no upper-case ASCII letter. |
| `Home.Includes` | screens/HomeScreen.js:74 | `includes` holds exactly when the needle occurs at some position of the haystack. |
| `Home.Matches` | screens/HomeScreen.js:74 | An entry matches exactly when the lowercased query occurs at some position of its lowercased name, so the empty query matches every entry. |
| `Home.SearchedData` | screens/HomeScreen.js:72-76 | An empty query returns the brand-filtered list. Any other query returns exactly the entries whose lowercased name contains the lowercased query, in order. |
| `Home.VisibleIsSubsequenceOfCatalog` | screens/HomeScreen.js:68-76 | The searched, filtered list is always a subsequence of the catalog. |
| `Home.SearchIgnoresQueryCase` | screens/HomeScreen.js:74 | For every query, searching for its lowercased form gives the same result as searching for the query. |
| `Home.HomeScreen.constructor` | screens/HomeScreen.js:17-22 | The screen starts loading, with an empty catalog, no brand, no brands, no favorites and an empty query. |
| `Home.HomeScreen.GetArtData` | screens/HomeScreen.js:25-40 | A fetched catalog replaces the data, and the brand list stays the distinct brands of the data. A failed fetch changes neither. Loading always ends. |
| `Home.HomeScreen.LoadFavorites` | screens/HomeScreen.js:42-47 | A stored list replaces the local copy wholesale. An absent key, a rejected read or an unparseable value leaves it unchanged. |
| `Home.HomeScreen.OnFocus` | screens/HomeScreen.js:49-53 | Each focus change clears the brand filter, refetches and reloads. |
| `Home.HomeScreen.ToggleFavorite` | screens/HomeScreen.js:55-66 | The local copy becomes its own toggle, and that copy, not a fresh read, is written to the store. |
| `Home.HomeScreen.SelectBrand` | screens/HomeScreen.js:191-214 | The All button clears the brand and a brand button selects that brand. |
| `Home.HomeScreen.SetSearchQuery` | screens/HomeScreen.js:178-179 | The search box sets the query. |
| `Home.HomeScreen.Visible` | screens/HomeScreen.js:68-76 | The rendered list is a subsequence of the catalog. |
| `Home.HomeScreen.HeartFor` | screens/HomeScreen.js:103-108 | The heart is filled exactly when some local favorite has the card's id. |
| `Detail.ParsedOrEmpty` | screens/DetailScreen.js:34-35 | An absent key reads as `[]` and a stored list as itself. |
| `Detail.DetailToggle` | screens/DetailScreen.js:36-40 | With the flag on, the written list has no entry with `itemId` and keeps all other entries in order. With it off, it is the stored list with `DetailInfo` added at the end, one longer. |
| `Detail.DetailToggleKeepsOthers` | screens/DetailScreen.js:36-40 | Entries whose id differs from the item's are never changed or reordered by a toggle. |
| `Detail.DetailToggleWithFreshFlag` | screens/DetailScreen.js:36-40 | With a flag that matches the stored list, the detail toggle equals the shared toggle and keeps ids distinct. |
| `Detail.DetailToggleTwice` | screens/DetailScreen.js:36-42 | From a list without the item and the flag off, two toggles restore the exact list. |
| `Detail.StaleFlagDuplicatesId` | screens/DetailScreen.js:38-39 | With the flag off while the item is stored, the toggle makes the ids non-distinct. |
| `Detail.DetailScreen.constructor` | screens/DetailScreen.js:9-10 | The screen opens with `isFavorite` false, for an entry whose id is `itemId`, as every navigation to it passes. |
| `Detail.DetailScreen.LoadFavorites` | screens/DetailScreen.js:16-30 | On mount, a stored list sets `isFavorite` to "some entry has `itemId`". An absent key, a rejected read or an unparseable value leaves it as it was. |
| `Detail.DetailScreen.ToggleFavorite` | screens/DetailScreen.js:32-46 | The toggle succeeds exactly when the read answers, the value parses and the write is accepted. Only then does `isFavorite` flip, and the store holds the toggle of the freshly read list, with the entries of other ids unchanged. A rejected read, an unparseable value or a rejected write leaves store and flag untouched. |
| `Interleavings.LostUpdate` | screens/HomeScreen.js:55-65 | Suppose the catalog screen loaded `[]`, and the detail screen then adds `a`. When the catalog screen toggles `b`, the store ends as `[b]` while the detail screen still shows `a` as a favorite. The run leaves out the catalog screen's reload on returning from the detail screen, so in the app it needs a heart tap before that reload's read resolves. |
| `Interleavings.ReloadBeforeToggleKeepsBoth` | screens/HomeScreen.js:42-47 | With a reload between the two toggles, the store ends as `[a, b]`. |
| `Interleavings.ToggleBeforeMountReadDuplicates` | screens/DetailScreen.js:16-40 | A detail toggle before the mount read turns a stored `[a]` into `[a, a]`. |
| `Interleavings.RejectedWriteKeepsFlag` | screens/DetailScreen.js:41-45 | When the read succeeds but the write is rejected, the detail toggle reports failure, the flag stays off and the store is unchanged. |
| `Interleavings.FocusDiscardsStaleSelection` | screens/FavouriteScreen.js:127-132 | Suppose an entry is selected and another screen then removes it. On regaining focus the favorites screen is out of edit mode, with an empty selection and the stored list. |
| `Interleavings.DeleteAllHiddenAtTwo` | screens/FavouriteScreen.js:84-88 | At 2 items in edit mode the Delete All button is not shown, and its handler, called directly, refuses with the store untouched. |
| `Interleavings.CatalogAddsThird` | screens/HomeScreen.js:55-65 | When the catalog screen has loaded `[a, b]` and its heart adds `c`, the store holds `[a, b, c]`. |
| `Interleavings.DeleteAllShownAtThree` | screens/FavouriteScreen.js:226-229 | After the catalog screen adds a third entry and the favorites screen regains focus and enters edit mode, Delete All is shown and, once confirmed, leaves the store empty. |
| `Interleavings.AddRemoveDeleteAll` | screens/FavouriteScreen.js:43-51 | From `[a]`: adding `b` stores `[a, b]`, removing `a` stores `[b]`, and deleting all stores `[]`. The run calls the favorites screen's handlers directly: no rendered element calls its `toggleFavorite`, and in the app `deleteAllFavorites` is reached only through the Delete All alert, which refuses at 2 items or fewer. |

## Left out

- Price and rating arithmetic: the discounted price with `toFixed(2)` and the rating average. These are floating-point formatting, and the average divides by zero when there are no comments. `price` and `limitedTimeDeal` are carried as opaque `real` fields.
- The `comments` field of a catalog entry: it only feeds the rating and comment display.
- JSON text:
  - the stored value is abstract (absent, unparseable, or a list);
  - stored text that parses to something other than an array is not modelled;
  - an empty stored string, which the screens treat like an absent key, is not modelled, because nothing in the core writes it.
- `Alert.alert` dialogs: a handler returns the alert it raises, and the user's answer is a `confirmed` argument.
- The remote catalog `fetch`: its outcome is the `response` parameter of `GetArtData`.
- Navigation and rendering:
  - the tab and stack setup in `App.js`, the JSX and the style sheets;
  - the loading spinner, beyond the `isLoading` flag;
  - `components/comments.js` and `components/avatar.js`.
- `screens/ProfileScreen.js` and `screens/RegisterScreen.js`: form and storage wrappers outside the favorites core.
- `hooks/FavoritesProvider.js`: the file is entirely commented out.
- Real asynchrony:
  - races between a pending read and a later handler are not modelled, so `Interleavings.LostUpdate` omits the catalog screen's reload on returning from the detail screen, which in the app must still be pending when the heart is tapped;
  - each handler runs to completion before another starts;
  - in the catalog screen's focus effect, the fetch is taken to settle before the favorites read;
  - responses that reach an unmounted screen are not modelled;
  - whether the backend answers reads and accepts writes is fixed for the life of a `Store`.
- `console.error` logging in the catch blocks.
- The `!favorites` null test of the Edit button: the local list is never null in the model.
- `Home.LowerChar`, `Home.Lower`: only the ASCII letters A-Z are lowercased (other characters, such as `Ä`, are left alone), whereas JavaScript's `toLowerCase` applies full Unicode case mapping.
- `Home.HomeScreen.OnFocus`: the effect also runs when the screen loses focus. The model has one method for any change of the focus flag.

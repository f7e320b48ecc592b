/** Sequential interleavings of the three screens against one shared store.
    Each screen keeps its own copy of the favorites and reads and writes the
    "favorites" key on its own; these scenarios show what that yields. */
module Interleavings {
  import opened FavoriteItems
  import opened AsyncStore
  import opened Favourite
  import opened Home
  import opened Detail

  lemma RemoveFirstOfTwo(x: Item, y: Item)
    requires x.id != y.id
    ensures Without([x, y], x.id) == [y]
  {
    WithoutAppend([x], y, x.id);
    WithoutAppend([], x, x.id);
    assert [x] + [y] == [x, y] && [] + [x] == [x];
  }

  lemma AddThird(a: Item, b: Item, c: Item)
    requires a.id != c.id && b.id != c.id
    ensures Toggle([a, b], c) == [a, b, c]
  {
    assert !HasId([a, b], c.id);
    assert [a, b] + [c] == [a, b, c];
  }

  /** Lost update: the catalog screen writes the toggle of its own, older
      copy, so an entry the detail screen added in between disappears from the
      store while the detail screen still shows it as a favorite. The catalog
      screen's focus effect also reloads on the way back from the detail
      screen; this run leaves that reload out, so in the app it needs a heart
      tap before that reload's read resolves. */
  method LostUpdate(a: Item, b: Item) returns (final: Stored, detailShowsFavorite: bool)
    requires a.id != b.id
    ensures final == Saved([b])
    ensures detailShowsFavorite && !HasId(final.items, a.id)
  {
    var store := new Store(Saved([]), true, true);
    var home := new HomeScreen(store);
    home.LoadFavorites();
    var detail := new DetailScreen(store, a.id, a);
    detail.LoadFavorites();
    assert home.favorites == [] && !detail.isFavorite;
    var ok := detail.ToggleFavorite();
    assert store.value == Saved([a]);
    assert Toggle([], b) == [b] by {
      assert !HasId([], b.id);
    }
    home.ToggleFavorite(b);
    final := store.value;
    detailShowsFavorite := detail.isFavorite;
  }

  /** The same two toggles with a reload of the catalog screen in between keep both entries. */
  method ReloadBeforeToggleKeepsBoth(a: Item, b: Item) returns (final: Stored)
    requires a.id != b.id
    ensures final == Saved([a, b])
  {
    var store := new Store(Saved([]), true, true);
    var home := new HomeScreen(store);
    var detail := new DetailScreen(store, a.id, a);
    detail.LoadFavorites();
    var ok := detail.ToggleFavorite();
    assert store.value == Saved([a]);
    home.LoadFavorites();
    assert home.favorites == [a];
    assert Toggle([a], b) == [a, b] by {
      assert !HasId([a], b.id);
    }
    home.ToggleFavorite(b);
    final := store.value;
  }

  /** A toggle on the detail screen before its mount read has set the flag
      appends the entry a second time: the stored ids are no longer distinct. */
  method ToggleBeforeMountReadDuplicates(a: Item) returns (final: Stored)
    ensures final == Saved([a, a])
    ensures !DistinctIds(final.items)
  {
    var store := new Store(Saved([a]), true, true);
    var detail := new DetailScreen(store, a.id, a);
    var ok := detail.ToggleFavorite();
    final := store.value;
    assert final.items[0].id == final.items[1].id;
  }

  /** A write rejected after a successful read: the detail screen's toggle
      reports failure, its flag stays off and the store keeps `[]`. */
  method RejectedWriteKeepsFlag(a: Item) returns (ok: bool, flag: bool, final: Stored)
    ensures !ok && !flag && final == Saved([])
  {
    var store := new Store(Saved([]), true, false);
    var detail := new DetailScreen(store, a.id, a);
    detail.LoadFavorites();
    ok := detail.ToggleFavorite();
    flag := detail.isFavorite;
    final := store.value;
  }

  /** A selection made before another screen changed the store does not
      survive: regaining focus leaves edit mode, clears the selection and
      adopts the stored list. */
  method FocusDiscardsStaleSelection(x: Item, y: Item)
    returns (favorites: seq<Item>, editing: bool, selection: seq<Id>)
    requires x.id != y.id
    ensures favorites == [y] && !editing && selection == []
  {
    var store := new Store(Saved([x, y]), true, true);
    var list := new FavouriteScreen(store);
    list.OnFocus();
    assert list.favorites == [x, y] && !list.isLoading && !list.isEditMode;
    list.PressEdit();
    assert list.isEditMode;
    list.ToggleSelectionForDeletion(x);
    var home := new HomeScreen(store);
    home.LoadFavorites();
    assert home.favorites == [x, y];
    assert HasId([x, y], x.id);
    RemoveFirstOfTwo(x, y);
    assert Toggle([x, y], x) == [y];
    home.ToggleFavorite(x);
    assert store.value == Saved([y]);
    list.OnFocus();
    favorites, editing, selection := list.favorites, list.isEditMode, list.selectedForDeletion;
  }

  /** Delete All at two items: in edit mode the button is not rendered, and
      its handler, called directly, refuses with the store untouched. */
  method DeleteAllHiddenAtTwo(a: Item, b: Item) returns (shown: bool, refused: Alert, after: Stored)
    requires a.id != b.id
    ensures !shown && refused == NotEnoughItems && after == Saved([a, b])
  {
    var store := new Store(Saved([a, b]), true, true);
    var list := new FavouriteScreen(store);
    list.OnFocus();
    assert list.favorites == [a, b] && !list.isLoading;
    list.PressEdit();
    shown := list.DeleteAllShown();
    refused := list.ConfirmDeletionAll(true);
    after := store.value;
  }

  /** The catalog screen loads `[a, b]` and adds `c` with its heart. */
  method CatalogAddsThird(a: Item, b: Item, c: Item) returns (store: Store)
    requires a.id != c.id && b.id != c.id
    ensures fresh(store) && store.Writes() && store.value == Saved([a, b, c])
  {
    store := new Store(Saved([a, b]), true, true);
    var home := new HomeScreen(store);
    home.LoadFavorites();
    assert home.favorites == [a, b];
    AddThird(a, b, c);
    home.ToggleFavorite(c);
  }

  /** Delete All as the app reaches it: the catalog screen adds a third
      entry, the list screen is then focused and enters edit mode, the button
      is shown and, once confirmed, empties the store. */
  method DeleteAllShownAtThree(a: Item, b: Item, c: Item) returns (shown: bool, asked: Alert, after: Stored)
    requires a.id != c.id && b.id != c.id
    ensures shown && asked == ConfirmDeleteAll(3) && after == Saved([])
  {
    var store := CatalogAddsThird(a, b, c);
    var list := new FavouriteScreen(store);
    list.OnFocus();
    assert list.favorites == [a, b, c] && !list.isLoading && !list.isEditMode;
    list.PressEdit();
    shown := list.DeleteAllShown();
    asked := list.ConfirmDeletionAll(true);
    after := store.value;
  }

  /** Add b to [a], remove a, then delete all: [a, b], [b], []. The
      favorites screen's handlers are called directly here; the app reaches
      neither its toggle nor Delete All on one item. */
  method AddRemoveDeleteAll(a: Item, b: Item) returns (s1: Stored, s2: Stored, s3: Stored)
    requires a.id != b.id
    ensures s1 == Saved([a, b]) && s2 == Saved([b]) && s3 == Saved([])
  {
    var store := new Store(Saved([a]), true, true);
    var list := new FavouriteScreen(store);
    list.OnFocus();
    assert list.favorites == [a];
    assert !HasId([a], b.id);
    assert Toggle([a], b) == [a, b];
    list.ToggleFavorite(b);
    s1 := store.value;
    assert HasId([a, b], a.id);
    RemoveFirstOfTwo(a, b);
    assert Toggle([a, b], a) == [b];
    list.ToggleFavorite(a);
    s2 := store.value;
    list.DeleteAllFavorites();
    s3 := store.value;
  }
}

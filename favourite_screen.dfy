/** The favorites list screen (screens/FavouriteScreen.js): a local copy of the
    stored list, an edit mode with a selection of ids to delete, and a
    "Delete All" that is offered only above two items. */
module Favourite {
  import opened Lists
  import opened FavoriteItems
  import opened AsyncStore

  /** "Delete All" needs strictly more than this many favorites. */
  const DeleteAllThreshold: nat := 2

  /** The alert a confirm handler raises. */
  datatype Alert =
    | NothingToDelete
    | NotEnoughItems
    | ConfirmDelete(count: nat)
    | ConfirmDeleteAll(count: nat)

  /** `sel.filter((id) => id !== x)`. */
  function Unselect(sel: seq<Id>, x: Id): (r: seq<Id>)
    ensures x !in r
    ensures IsSubsequence(r, sel)
    ensures forall y :: multiset(r)[y] == if y == x then 0 else multiset(sel)[y]
  {
    var keep := (id: Id) => id != x;
    FilterExact(sel, keep);
    Filter(sel, keep)
  }

  /** `toggleSelectionForDeletion`'s new selection: drop `x` if it is selected,
      otherwise append it at the end. Membership of `x` flips; the other ids
      stay as they were, in order; a selection without duplicates keeps none. */
  function ToggleSelection(sel: seq<Id>, x: Id): (r: seq<Id>)
    ensures x in r <==> x !in sel
    ensures Unselect(r, x) == Unselect(sel, x)
    ensures x !in sel ==> |r| == |sel| + 1 && r[..|sel|] == sel && r[|sel|] == x
    ensures NoDuplicates(sel) ==> NoDuplicates(r)
  {
    var keep := (id: Id) => id != x;
    if x in sel then
      FilterKeepsAll(Unselect(sel, x), keep);
      assert NoDuplicates(sel) ==> NoDuplicates(Unselect(sel, x)) by {
        if NoDuplicates(sel) {
          SubsequenceKeepsDistinctBy(Unselect(sel, x), sel, (id: Id) => id);
        }
      }
      Unselect(sel, x)
    else
      FilterKeepsAll(sel, keep);
      FilterAppend(sel, [x], keep);
      assert Filter([x], keep) == [];
      assert (sel + [x])[..|sel|] == sel;
      sel + [x]
  }

  /** `favorites.filter((item) => !selectedForDeletion.includes(item.id))`:
      exactly the entries whose id is selected are removed, the rest are kept
      in order. */
  function DeleteSelected(favs: seq<Item>, sel: seq<Id>): (r: seq<Item>)
    ensures IsSubsequence(r, favs)
    ensures forall i :: 0 <= i < |r| ==> r[i].id !in sel
    ensures forall x :: multiset(r)[x] == if x.id in sel then 0 else multiset(favs)[x]
  {
    var keep := (item: Item) => item.id !in sel;
    FilterExact(favs, keep);
    Filter(favs, keep)
  }

  /** Selected ids that are not in the list are ignored: deleting the
      selection is the same as deleting only the selected ids that are present. */
  lemma DeleteIgnoresAbsent(favs: seq<Item>, sel: seq<Id>, extra: seq<Id>)
    requires forall k :: 0 <= k < |extra| ==> !HasId(favs, extra[k])
    ensures DeleteSelected(favs, sel + extra) == DeleteSelected(favs, sel)
  {
    forall i | 0 <= i < |favs| ensures favs[i].id !in extra {
      assert HasId(favs, favs[i].id);
    }
    FilterAgrees(favs, (item: Item) => item.id !in sel + extra, (item: Item) => item.id !in sel);
  }

  /** Deleting a selection keeps the ids of the list distinct. */
  lemma DeleteKeepsIdsDistinct(favs: seq<Item>, sel: seq<Id>)
    requires DistinctIds(favs)
    ensures DistinctIds(DeleteSelected(favs, sel))
  {
    SubsequenceKeepsIdsDistinct(DeleteSelected(favs, sel), favs);
  }

  /** The screen's toggle (filter, then push when nothing was removed) is the
      same list operation as the catalog screen's `some`-based toggle. */
  lemma FilterThenPushIsToggle(s: seq<Item>, item: Item)
    ensures (if |Without(s, item.id)| == |s| then Without(s, item.id) + [item] else Without(s, item.id))
            == Toggle(s, item)
  {
    WithoutShrinksIffPresent(s, item.id);
  }

  class FavouriteScreen {
    const store: Store
    var favorites: seq<Item>
    var isLoading: bool
    var isEditMode: bool
    var selectedForDeletion: seq<Id>
    var showDeleteAll: bool

    /** `showDeleteAll` always mirrors the list length, and edit mode is only
        reachable once loading has finished. */
    ghost predicate Valid()
      reads this
    {
      && showDeleteAll == (|favorites| > DeleteAllThreshold)
      && (isEditMode ==> !isLoading)
    }

    constructor (store: Store)
      ensures Valid()
      ensures this.store == store
      ensures favorites == [] && isLoading && !isEditMode && selectedForDeletion == [] && !showDeleteAll
    {
      this.store := store;
      favorites := [];
      isLoading := true;
      isEditMode := false;
      selectedForDeletion := [];
      showDeleteAll := false;
    }

    /** The Edit button is shown (not loading, not editing) and enabled (list non-empty). */
    predicate EditEnabled(): (enabled: bool)
      reads this
      ensures enabled ==> !isEditMode && |favorites| > 0
    {
      !isLoading && !isEditMode && |favorites| > 0
    }

    /** The Done button is shown (not loading, editing) and enabled (selection non-empty). */
    predicate DoneEnabled(): (enabled: bool)
      reads this
      ensures enabled ==> isEditMode && |selectedForDeletion| > 0
    {
      !isLoading && isEditMode && |selectedForDeletion| > 0
    }

    /** The Delete All button is shown. It is rendered from the list length,
        and in a valid state that is the same as the `showDeleteAll` flag. */
    predicate DeleteAllShown(): (shown: bool)
      reads this
      ensures Valid() ==> (shown <==> !isLoading && isEditMode && showDeleteAll)
    {
      !isLoading && isEditMode && |favorites| > DeleteAllThreshold
    }

    /** The state `loadFavorites` leaves, given the list and flag before it and what the store held. */
    ghost predicate Reloaded(favorites0: seq<Item>, showDeleteAll0: bool)
      reads this, store
    {
      && !isLoading
      && (store.online && store.value.Saved? ==> favorites == store.value.items)
      && (store.online && store.value.Missing? ==> favorites == [])
      && (!store.online || store.value.Garbled? ==>
            favorites == favorites0 && showDeleteAll == showDeleteAll0)
      && (store.online && !store.value.Garbled? ==> showDeleteAll == (|favorites| > DeleteAllThreshold))
    }

    /** The state `deleteFavorites` leaves. */
    ghost predicate DeletedSelection(favorites0: seq<Item>, selected0: seq<Id>, stored0: Stored)
      reads this, store
    {
      && favorites == DeleteSelected(favorites0, selected0)
      && selectedForDeletion == []
      && !isEditMode
      && showDeleteAll == (|favorites| > DeleteAllThreshold)
      && store.value == (if store.Writes() then Saved(favorites) else stored0)
    }

    /** The state `deleteAllFavorites` leaves. */
    ghost predicate DeletedAll(stored0: Stored)
      reads this, store
    {
      && favorites == []
      && selectedForDeletion == []
      && !isEditMode
      && !showDeleteAll
      && store.value == (if store.Writes() then Saved([]) else stored0)
    }

    /** `loadFavorites`: replace the list wholesale with the stored one (an
        absent key reads as empty); a rejected read or an unparseable value is
        caught and leaves the list as it was. Loading ends either way. */
    method LoadFavorites()
      requires Valid()
      modifies this`favorites, this`showDeleteAll, this`isLoading
      ensures Valid()
      ensures Reloaded(old(favorites), old(showDeleteAll))
    {
      var fetched := store.GetItem();
      match fetched {
        case Read(Saved(items)) =>
          favorites := items;
          showDeleteAll := |items| > DeleteAllThreshold;
        case Read(Missing) =>
          favorites := [];
          showDeleteAll := false;
        case _ =>
      }
      isLoading := false;
    }

    /** The focus effect: leave edit mode, clear the selection, reload. */
    method OnFocus()
      requires Valid()
      modifies this`favorites, this`showDeleteAll, this`isLoading, this`isEditMode, this`selectedForDeletion
      ensures Valid()
      ensures !isEditMode && selectedForDeletion == []
      ensures Reloaded(old(favorites), old(showDeleteAll))
    {
      isEditMode := false;
      selectedForDeletion := [];
      LoadFavorites();
    }

    /** `toggleFavorite`: filter out `item.id`, push `item` if nothing was
        removed, adopt the new list locally, then write it. The local list
        changes even when the write is rejected. */
    method ToggleFavorite(item: Item)
      requires Valid()
      modifies this`favorites, this`showDeleteAll, store`value
      ensures Valid()
      ensures favorites == Toggle(old(favorites), item)
      ensures store.value == if store.Writes() then Saved(favorites) else old(store.value)
    {
      var newFavorites := Without(favorites, item.id);
      if |newFavorites| == |favorites| {
        newFavorites := newFavorites + [item];
      }
      assert newFavorites == Toggle(favorites, item) by {
        FilterThenPushIsToggle(favorites, item);
      }
      favorites := newFavorites;
      showDeleteAll := |newFavorites| > DeleteAllThreshold;
      var _ := store.SetItem(newFavorites);
    }

    /** `toggleSelectionForDeletion`. */
    method ToggleSelectionForDeletion(item: Item)
      modifies this`selectedForDeletion
      ensures selectedForDeletion == ToggleSelection(old(selectedForDeletion), item.id)
    {
      if item.id in selectedForDeletion {
        selectedForDeletion := Unselect(selectedForDeletion, item.id);
      } else {
        selectedForDeletion := selectedForDeletion + [item.id];
      }
    }

    /** `deleteFavorites`: drop the selected entries, clear the selection,
        leave edit mode, then write the list. */
    method DeleteFavorites()
      requires Valid()
      modifies this`favorites, this`selectedForDeletion, this`isEditMode, this`showDeleteAll, store`value
      ensures Valid()
      ensures DeletedSelection(old(favorites), old(selectedForDeletion), old(store.value))
    {
      var newFavorites := DeleteSelected(favorites, selectedForDeletion);
      favorites := newFavorites;
      selectedForDeletion := [];
      isEditMode := false;
      showDeleteAll := |newFavorites| > DeleteAllThreshold;
      var _ := store.SetItem(newFavorites);
    }

    /** `deleteAllFavorites`: empty everything, leave edit mode, write `[]`. */
    method DeleteAllFavorites()
      requires Valid()
      modifies this`favorites, this`selectedForDeletion, this`isEditMode, this`showDeleteAll, store`value
      ensures Valid()
      ensures DeletedAll(old(store.value))
    {
      favorites := [];
      selectedForDeletion := [];
      isEditMode := false;
      showDeleteAll := false;
      var _ := store.SetItem([]);
    }

    /** `confirmDeletion`: with nothing selected it only raises "Nothing to
        delete"; otherwise it asks, and deletes when the user confirms. */
    method ConfirmDeletion(confirmed: bool) returns (alert: Alert)
      requires Valid()
      modifies this`favorites, this`selectedForDeletion, this`isEditMode, this`showDeleteAll, store`value
      ensures Valid()
      ensures old(selectedForDeletion) == [] ==> alert == NothingToDelete && unchanged(this, store)
      ensures old(selectedForDeletion) != [] ==> alert == ConfirmDelete(|old(selectedForDeletion)|)
      ensures old(selectedForDeletion) != [] && !confirmed ==> unchanged(this, store)
      ensures old(selectedForDeletion) != [] && confirmed ==>
                DeletedSelection(old(favorites), old(selectedForDeletion), old(store.value))
      ensures old(DoneEnabled()) ==> alert.ConfirmDelete?
    {
      if |selectedForDeletion| == 0 {
        return NothingToDelete;
      }
      alert := ConfirmDelete(|selectedForDeletion|);
      if confirmed {
        DeleteFavorites();
      }
    }

    /** `confirmDeletionAll`: with two items or fewer it only raises "Not
        enough items"; otherwise it asks, and deletes everything when the user
        confirms. */
    method ConfirmDeletionAll(confirmed: bool) returns (alert: Alert)
      requires Valid()
      modifies this`favorites, this`selectedForDeletion, this`isEditMode, this`showDeleteAll, store`value
      ensures Valid()
      ensures |old(favorites)| <= DeleteAllThreshold ==> alert == NotEnoughItems && unchanged(this, store)
      ensures |old(favorites)| > DeleteAllThreshold ==> alert == ConfirmDeleteAll(|old(favorites)|)
      ensures |old(favorites)| > DeleteAllThreshold && !confirmed ==> unchanged(this, store)
      ensures |old(favorites)| > DeleteAllThreshold && confirmed ==> DeletedAll(old(store.value))
      ensures old(DeleteAllShown()) ==> alert.ConfirmDeleteAll?
    {
      if |favorites| <= DeleteAllThreshold {
        return NotEnoughItems;
      }
      alert := ConfirmDeleteAll(|favorites|);
      if confirmed {
        DeleteAllFavorites();
      }
    }

    /** Pressing Edit enters edit mode only when the button is enabled. */
    method PressEdit()
      requires Valid()
      modifies this`isEditMode
      ensures Valid()
      ensures isEditMode == (old(isEditMode) || old(EditEnabled()))
      ensures isEditMode && !old(isEditMode) ==> |favorites| > 0
    {
      if EditEnabled() {
        isEditMode := true;
      }
    }

    /** Pressing Cancel (shown only in edit mode) leaves edit mode and clears the selection. */
    method PressCancel()
      requires Valid()
      modifies this`isEditMode, this`selectedForDeletion
      ensures Valid()
      ensures old(isEditMode) ==> !isEditMode && selectedForDeletion == []
      ensures !old(isEditMode) ==> unchanged(this)
    {
      if isEditMode {
        isEditMode := false;
        selectedForDeletion := [];
      }
    }
  }
}

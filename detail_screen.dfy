/** The detail screen (screens/DetailScreen.js): one catalog entry, a flag
    saying whether it is a favorite, and a toggle that reads the store afresh,
    changes the list, writes it, and only then flips the flag. */
module Detail {
  import opened Lists
  import opened FavoriteItems
  import opened AsyncStore

  /** `storedFavorites ? JSON.parse(storedFavorites) : []` for a value that parses. */
  function ParsedOrEmpty(v: Stored): (r: seq<Item>)
    requires !v.Garbled?
    ensures v.Missing? ==> r == []
    ensures v.Saved? ==> r == v.items
  {
    if v.Saved? then v.items else []
  }

  /** The list `toggleFavorite` writes. The branch is chosen by the screen's
      flag, not by looking at the list: when the flag says "favorite" every
      entry with `itemId` is removed, otherwise `info` is appended. */
  function DetailToggle(stored: seq<Item>, isFavorite: bool, itemId: Id, info: Item): (r: seq<Item>)
    ensures isFavorite ==>
              && !HasId(r, itemId)
              && IsSubsequence(r, stored)
              && forall x: Item :: x.id != itemId ==> multiset(r)[x] == multiset(stored)[x]
    ensures !isFavorite ==> |r| == |stored| + 1 && r[..|stored|] == stored && r[|stored|] == info
  {
    if isFavorite then Without(stored, itemId)
    else
      assert (stored + [info])[..|stored|] == stored;
      stored + [info]
  }

  /** Entries whose id differs from the screen's item are never changed or reordered. */
  lemma DetailToggleKeepsOthers(stored: seq<Item>, isFavorite: bool, info: Item)
    ensures Without(DetailToggle(stored, isFavorite, info.id, info), info.id) == Without(stored, info.id)
  {
    if isFavorite {
      WithoutShrinksIffPresent(Without(stored, info.id), info.id);
    } else {
      WithoutAppend(stored, info, info.id);
    }
  }

  /** With a flag that matches the list, the detail toggle is the shared
      toggle, so it keeps ids distinct. */
  lemma DetailToggleWithFreshFlag(stored: seq<Item>, info: Item)
    ensures DetailToggle(stored, HasId(stored, info.id), info.id, info) == Toggle(stored, info)
    ensures DistinctIds(stored) ==> DistinctIds(DetailToggle(stored, HasId(stored, info.id), info.id, info))
  {
    if DistinctIds(stored) {
      ToggleKeepsIdsDistinct(stored, info);
    }
  }

  /** Starting from a list without the item and the flag off, toggling twice
      (with the flag flipped in between) restores the exact list. */
  lemma DetailToggleTwice(stored: seq<Item>, info: Item)
    requires !HasId(stored, info.id)
    ensures DetailToggle(DetailToggle(stored, false, info.id, info), true, info.id, info) == stored
  {
    WithoutAppend(stored, info, info.id);
    WithoutShrinksIffPresent(stored, info.id);
  }

  /** There is no existence check: a stale "not favorite" flag appends a
      second entry with the same id. */
  lemma StaleFlagDuplicatesId(stored: seq<Item>, info: Item)
    requires HasId(stored, info.id)
    ensures !DistinctIds(DetailToggle(stored, false, info.id, info))
  {
    var r := DetailToggle(stored, false, info.id, info);
    var k :| 0 <= k < |stored| && stored[k].id == info.id;
    assert r[k] == stored[k] by {
      assert r[..|stored|][k] == stored[k];
    }
    assert r[k].id == r[|stored|].id;
  }

  class DetailScreen {
    const store: Store
    const itemId: Id
    const detailInfo: Item
    var isFavorite: bool

    /** The screen is opened for one entry: `itemId` is that entry's id. */
    ghost predicate Valid()
    {
      itemId == detailInfo.id
    }

    /** The screen opens with the flag off, before anything is read. Every
        navigation to it passes an entry and that entry's id. */
    constructor (store: Store, itemId: Id, detailInfo: Item)
      requires itemId == detailInfo.id
      ensures Valid()
      ensures this.store == store && this.itemId == itemId && this.detailInfo == detailInfo
      ensures !isFavorite
    {
      this.store := store;
      this.itemId := itemId;
      this.detailInfo := detailInfo;
      isFavorite := false;
    }

    /** The mount effect: when the key holds a list, the flag becomes "some
        entry has `itemId`"; an absent key, a rejected read or an unparseable
        value leaves the flag as it was. */
    method LoadFavorites()
      modifies this`isFavorite
      ensures store.online && store.value.Saved? ==>
                isFavorite == exists i :: 0 <= i < |store.value.items| && store.value.items[i].id == itemId
      ensures !(store.online && store.value.Saved?) ==> isFavorite == old(isFavorite)
    {
      var fetched := store.GetItem();
      if fetched.Read? && fetched.value.Saved? {
        isFavorite := HasId(fetched.value.items, itemId);
      }
    }

    /** `toggleFavorite`: read the key afresh (absent reads as `[]`), remove or
        append according to the flag, write, and flip the flag only once the
        write succeeded. A rejected read, an unparseable value or a rejected
        write is caught and leaves the store and the flag untouched. Entries
        with other ids are never changed. */
    method ToggleFavorite() returns (ok: bool)
      requires Valid()
      modifies this`isFavorite, store`value
      ensures ok <==> store.Writes() && !old(store.value).Garbled?
      ensures ok ==> isFavorite == !old(isFavorite)
      ensures ok ==> store.value == Saved(DetailToggle(ParsedOrEmpty(old(store.value)), old(isFavorite), itemId, detailInfo))
      ensures ok ==> Without(store.value.items, itemId) == Without(ParsedOrEmpty(old(store.value)), itemId)
      ensures !ok ==> isFavorite == old(isFavorite) && store.value == old(store.value)
    {
      var fetched := store.GetItem();
      if fetched.Rejected? || fetched.value.Garbled? {
        return false;
      }
      var favoritesArray := ParsedOrEmpty(fetched.value);
      if isFavorite {
        favoritesArray := Without(favoritesArray, itemId);
      } else {
        favoritesArray := favoritesArray + [detailInfo];
      }
      DetailToggleKeepsOthers(ParsedOrEmpty(fetched.value), isFavorite, detailInfo);
      ok := store.SetItem(favoritesArray);
      if ok {
        isFavorite := !isFavorite;
      }
    }
  }
}

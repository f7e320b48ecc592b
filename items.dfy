/** The favorite record and the list computations keyed by `id` that the
    catalog, detail and favorites screens all perform on their copies. */
module FavoriteItems {
  import opened Lists

  type Id = string

  /** A catalog entry as it is stored under the "favorites" key. `price` and
      `limitedTimeDeal` are carried through unchanged; the core never computes
      with them. */
  datatype Item = Item(
    id: Id,
    artName: string,
    brand: string,
    image: string,
    description: string,
    glassSurface: bool,
    price: real,
    limitedTimeDeal: real)

  /** `s.some((fav) => fav.id === id)`. */
  function HasId(s: seq<Item>, id: Id): (b: bool)
    ensures b <==> exists i :: 0 <= i < |s| && s[i].id == id
  {
    if s == [] then false
    else if s[0].id == id then true
    else
      assert forall i :: 0 < i < |s| ==> s[i] == s[1..][i - 1];
      HasId(s[1..], id)
  }

  /** No two entries share an id. */
  ghost predicate DistinctIds(s: seq<Item>) {
    DistinctBy(s, (fav: Item) => fav.id)
  }

  /** `s.filter((fav) => fav.id !== id)`: every entry with `id` removed, the
      others kept with their multiplicity and in their original order. */
  function Without(s: seq<Item>, id: Id): (r: seq<Item>)
    ensures !HasId(r, id)
    ensures IsSubsequence(r, s)
    ensures forall x :: multiset(r)[x] == if x.id == id then 0 else multiset(s)[x]
  {
    var keep := (fav: Item) => fav.id != id;
    FilterExact(s, keep);
    Filter(s, keep)
  }

  /** The filter removes something exactly when `id` is present; otherwise it
      returns the list unchanged. */
  lemma WithoutShrinksIffPresent(s: seq<Item>, id: Id)
    ensures |Without(s, id)| == |s| <==> !HasId(s, id)
    ensures !HasId(s, id) ==> Without(s, id) == s
  {
    FilterKeepsAll(s, (fav: Item) => fav.id != id);
  }

  lemma WithoutAppend(s: seq<Item>, x: Item, id: Id)
    ensures Without(s + [x], id) == Without(s, id) + (if x.id == id then [] else [x])
  {
    var keep := (fav: Item) => fav.id != id;
    FilterAppend(s, [x], keep);
    assert Filter([x], keep) == if x.id == id then [] else [x];
  }

  /** Deleting entries never creates a repeated id. */
  lemma SubsequenceKeepsIdsDistinct(r: seq<Item>, s: seq<Item>)
    requires IsSubsequence(r, s) && DistinctIds(s)
    ensures DistinctIds(r)
  {
    SubsequenceKeepsDistinctBy(r, s, (fav: Item) => fav.id);
  }

  /** The catalog screen's toggle (screens/HomeScreen.js): remove every entry
      with `item.id` when one exists, otherwise append `item`. Its membership
      flips, and the entries with other ids stay exactly as they were, in order. */
  function Toggle(s: seq<Item>, item: Item): (r: seq<Item>)
    ensures HasId(r, item.id) <==> !HasId(s, item.id)
    ensures Without(r, item.id) == Without(s, item.id)
    ensures HasId(s, item.id) ==> |r| < |s|
    ensures !HasId(s, item.id) ==> |r| == |s| + 1 && r[|s|] == item
  {
    if HasId(s, item.id) then
      WithoutShrinksIffPresent(s, item.id);
      WithoutShrinksIffPresent(Without(s, item.id), item.id);
      Without(s, item.id)
    else
      WithoutAppend(s, item, item.id);
      assert (s + [item])[|s|] == item;
      s + [item]
  }

  /** Toggling the same item twice restores the list exactly when it started
      without that id, and restores membership of the id in every case. */
  lemma ToggleTwice(s: seq<Item>, item: Item)
    ensures HasId(Toggle(Toggle(s, item), item), item.id) == HasId(s, item.id)
    ensures !HasId(s, item.id) ==> Toggle(Toggle(s, item), item) == s
  {
    var u := Toggle(Toggle(s, item), item);
    if !HasId(s, item.id) {
      WithoutShrinksIffPresent(s, item.id);
      WithoutShrinksIffPresent(u, item.id);
    }
  }

  /** Toggling keeps the ids of the list distinct. */
  lemma ToggleKeepsIdsDistinct(s: seq<Item>, item: Item)
    requires DistinctIds(s)
    ensures DistinctIds(Toggle(s, item))
  {
    if HasId(s, item.id) {
      SubsequenceKeepsIdsDistinct(Without(s, item.id), s);
    } else {
      var r := s + [item];
      forall i, j | 0 <= i < j < |r| ensures r[i].id != r[j].id {
        if j == |s| {
          assert r[i] == s[i];
        }
      }
    }
  }
}

/** The catalog screen (screens/HomeScreen.js): the fetched catalog, the
    brands derived from it, brand and text filtering, and a local copy of the
    favorites that its heart buttons toggle. */
module Home {
  import opened Lists
  import opened FavoriteItems
  import opened AsyncStore

  /** A JavaScript value that may be `null`. */
  datatype Option<T> = None | Some(value: T)

  /** The heart icon drawn on a catalog card. */
  datatype Heart = Filled | Outline

  /** `[...new Set(data.map((item) => item.brand))]`: each brand of the
      catalog once, in the order it first appears. */
  function UniqueBrands(data: seq<Item>): (r: seq<string>)
    ensures NoDuplicates(r)
    ensures forall b :: b in r <==> exists i :: 0 <= i < |data| && data[i].brand == b
  {
    Dedup(BrandsOf(data))
  }

  /** The brand of every catalog entry, in catalog order (`data.map((item) => item.brand)`). */
  function BrandsOf(data: seq<Item>): (r: seq<string>)
    ensures |r| == |data| && forall i :: 0 <= i < |data| ==> r[i] == data[i].brand
  {
    seq(|data|, i requires 0 <= i < |data| => data[i].brand)
  }

  /** The brands are listed in the order of their first appearance in the catalog. */
  lemma UniqueBrandsInFirstOccurrenceOrder(data: seq<Item>)
    ensures forall i, j :: 0 <= i < j < |UniqueBrands(data)| ==>
              IndexOf(BrandsOf(data), UniqueBrands(data)[i]) < IndexOf(BrandsOf(data), UniqueBrands(data)[j])
  {
    DedupFirstOccurrenceOrder(BrandsOf(data));
  }

  /** `filteredData`: the whole catalog when no brand is selected (a null or
      empty brand is falsy), else exactly the entries of that brand, in order. */
  function FilteredData(data: seq<Item>, selectedBrand: Option<string>): (r: seq<Item>)
    ensures IsSubsequence(r, data)
    ensures selectedBrand == None || selectedBrand == Some("") ==> r == data
    ensures selectedBrand.Some? && selectedBrand.value != "" ==>
              && (forall i :: 0 <= i < |r| ==> r[i].brand == selectedBrand.value)
              && (forall x :: multiset(r)[x] == if x.brand == selectedBrand.value then multiset(data)[x] else 0)
  {
    if selectedBrand.Some? && selectedBrand.value != "" then
      var keep := (item: Item) => item.brand == selectedBrand.value;
      FilterExact(data, keep);
      Filter(data, keep)
    else
      SubsequenceReflexive(data);
      data
  }

  /** `c.toLowerCase()` on ASCII letters. */
  function LowerChar(c: char): (r: char)
    ensures !('A' <= r <= 'Z')
    ensures 'A' <= c <= 'Z' ==> 'a' <= r <= 'z' && r as int - 'a' as int == c as int - 'A' as int
    ensures !('A' <= c <= 'Z') ==> r == c
  {
    if 'A' <= c <= 'Z' then (c as int + 32) as char else c
  }

  /** `s.toLowerCase()`, character by character. */
  function Lower(s: string): (r: string)
    ensures |r| == |s|
    ensures forall i :: 0 <= i < |s| ==> r[i] == LowerChar(s[i])
    ensures forall i :: 0 <= i < |r| ==> !('A' <= r[i] <= 'Z')
  {
    seq(|s|, i requires 0 <= i < |s| => LowerChar(s[i]))
  }

  predicate IsPrefix(p: string, s: string) {
    |p| <= |s| && s[..|p|] == p
  }

  /** `hay.includes(needle)`: `needle` occurs in `hay` at some position. */
  function Includes(hay: string, needle: string): (b: bool)
    ensures b <==> exists i :: 0 <= i <= |hay| && IsPrefix(needle, hay[i..])
    decreases |hay|
  {
    if IsPrefix(needle, hay) then
      assert hay[0..] == hay;
      true
    else if hay == [] then false
    else
      var b := Includes(hay[1..], needle);
      assert forall i :: 1 <= i <= |hay| ==> hay[i..] == hay[1..][i - 1..];
      assert b ==> exists i :: 0 <= i <= |hay| && IsPrefix(needle, hay[i..]) by {
        if b {
          var k :| 0 <= k <= |hay[1..]| && IsPrefix(needle, hay[1..][k..]);
          assert hay[k + 1..] == hay[1..][k..];
        }
      }
      assert hay[0..] == hay;
      b
  }

  /** The search test: the lowercased name contains the lowercased query,
      so the empty query matches every entry. */
  predicate Matches(item: Item, query: string): (b: bool)
    ensures b <==> exists i :: 0 <= i <= |item.artName| && IsPrefix(Lower(query), Lower(item.artName)[i..])
    ensures query == "" ==> b
  {
    assert IsPrefix(Lower(""), Lower(item.artName)[0..]);
    Includes(Lower(item.artName), Lower(query))
  }

  /** `searchedData`: the brand-filtered list when the query is empty, else
      exactly the entries whose name contains the query ignoring case, in order. */
  function SearchedData(filtered: seq<Item>, query: string): (r: seq<Item>)
    ensures IsSubsequence(r, filtered)
    ensures query == "" ==> r == filtered
    ensures forall i :: 0 <= i < |r| ==> Matches(r[i], query)
    ensures forall x :: multiset(r)[x] == if Matches(x, query) then multiset(filtered)[x] else 0
  {
    var keep := (item: Item) => Matches(item, query);
    if query == "" then
      SubsequenceReflexive(filtered);
      filtered
    else
      FilterExact(filtered, keep);
      Filter(filtered, keep)
  }

  /** What the catalog list shows is always a subsequence of the catalog. */
  lemma VisibleIsSubsequenceOfCatalog(data: seq<Item>, selectedBrand: Option<string>, query: string)
    ensures IsSubsequence(SearchedData(FilteredData(data, selectedBrand), query), data)
  {
    SubsequenceTransitive(SearchedData(FilteredData(data, selectedBrand), query), FilteredData(data, selectedBrand), data);
  }

  /** The search ignores the case of the query. */
  lemma SearchIgnoresQueryCase(filtered: seq<Item>, query: string)
    ensures SearchedData(filtered, Lower(query)) == SearchedData(filtered, query)
  {
    if query == "" {
      assert Lower(query) == query;
      return;
    }
    assert Lower(Lower(query)) == Lower(query);
    assert Lower(query) != "";
    FilterAgrees(filtered, (item: Item) => Matches(item, Lower(query)), (item: Item) => Matches(item, query));
  }

  class HomeScreen {
    const store: Store
    var isLoading: bool
    var data: seq<Item>
    var selectedBrand: Option<string>
    var brands: seq<string>
    var favorites: seq<Item>
    var searchQuery: string

    /** The brand buttons always list the brands of the current catalog. */
    ghost predicate Valid()
      reads this
    {
      brands == UniqueBrands(data)
    }

    constructor (store: Store)
      ensures Valid()
      ensures this.store == store
      ensures isLoading && data == [] && selectedBrand == None && brands == []
      ensures favorites == [] && searchQuery == ""
    {
      this.store := store;
      isLoading := true;
      data := [];
      selectedBrand := None;
      brands := [];
      favorites := [];
      searchQuery := "";
    }

    /** `getArtData` with the network's answer as a parameter: a catalog, or
        `None` when the fetch or its JSON failed. Loading ends either way. */
    method GetArtData(response: Option<seq<Item>>)
      requires Valid()
      modifies this`data, this`brands, this`isLoading
      ensures Valid()
      ensures !isLoading
      ensures response.Some? ==> data == response.value
      ensures response.None? ==> data == old(data) && brands == old(brands)
    {
      if response.Some? {
        data := response.value;
        brands := UniqueBrands(response.value);
      }
      isLoading := false;
    }

    /** `loadFavorites`: adopt the stored list when the key holds one. An
        absent key leaves the local copy alone; a rejected read or an
        unparseable value aborts the handler with nothing changed. */
    method LoadFavorites()
      modifies this`favorites
      ensures store.online && store.value.Saved? ==> favorites == store.value.items
      ensures !(store.online && store.value.Saved?) ==> favorites == old(favorites)
    {
      var fetched := store.GetItem();
      if fetched.Read? && fetched.value.Saved? {
        favorites := fetched.value.items;
      }
    }

    /** The focus effect: clear the brand filter, then refetch the catalog and reload favorites. */
    method OnFocus(response: Option<seq<Item>>)
      requires Valid()
      modifies this`selectedBrand, this`data, this`brands, this`isLoading, this`favorites
      ensures Valid()
      ensures selectedBrand == None && !isLoading
      ensures response.Some? ==> data == response.value
      ensures response.None? ==> data == old(data)
      ensures store.online && store.value.Saved? ==> favorites == store.value.items
      ensures !(store.online && store.value.Saved?) ==> favorites == old(favorites)
    {
      selectedBrand := None;
      GetArtData(response);
      LoadFavorites();
    }

    /** `toggleFavorite`: toggle on the screen's own copy, adopt it, and write
        that copy, not a fresh read of the store, back to the key. */
    method ToggleFavorite(item: Item)
      modifies this`favorites, store`value
      ensures favorites == Toggle(old(favorites), item)
      ensures store.value == if store.Writes() then Saved(favorites) else old(store.value)
    {
      var present := HasId(favorites, item.id);
      var newFavorites := if present then Without(favorites, item.id) else favorites + [item];
      favorites := newFavorites;
      var _ := store.SetItem(newFavorites);
    }

    /** A brand button (`Some(brand)`) or the "All" button (`None`). */
    method SelectBrand(brand: Option<string>)
      modifies this`selectedBrand
      ensures selectedBrand == brand
    {
      selectedBrand := brand;
    }

    method SetSearchQuery(text: string)
      modifies this`searchQuery
      ensures searchQuery == text
    {
      searchQuery := text;
    }

    /** The list the screen renders. */
    function Visible(): (r: seq<Item>)
      reads this
      ensures IsSubsequence(r, data)
    {
      VisibleIsSubsequenceOfCatalog(data, selectedBrand, searchQuery);
      SearchedData(FilteredData(data, selectedBrand), searchQuery)
    }

    /** The heart on a card is filled exactly when a local favorite has the card's id. */
    function HeartFor(item: Item): (h: Heart)
      reads this
      ensures h == Filled <==> exists i :: 0 <= i < |favorites| && favorites[i].id == item.id
    {
      if HasId(favorites, item.id) then Filled else Outline
    }
  }
}

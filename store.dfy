/** AsyncStorage, reduced to the one key the screens share: "favorites". */
module AsyncStore {
  import opened FavoriteItems

  /** What the "favorites" key holds: nothing, text that `JSON.parse` rejects,
      or the serialised list of favorites. */
  datatype Stored = Missing | Garbled | Saved(items: seq<Item>)

  /** The outcome of `AsyncStorage.getItem("favorites")`: the value, or a rejected promise. */
  datatype Fetch = Read(value: Stored) | Rejected

  class Store {
    /** The value under the "favorites" key. */
    var value: Stored
    /** Whether the storage backend answers; when it does not, `getItem` and
        `setItem` reject and nothing is written. */
    const online: bool
    /** Whether the backend accepts writes; when it does not, `setItem`
        rejects even though `getItem` may answer. */
    const writable: bool

    constructor (value: Stored, online: bool, writable: bool)
      ensures this.value == value && this.online == online && this.writable == writable
    {
      this.value := value;
      this.online := online;
      this.writable := writable;
    }

    /** Whether `setItem` succeeds. */
    predicate Writes()
    {
      online && writable
    }

    /** `AsyncStorage.getItem("favorites")`. */
    method GetItem() returns (r: Fetch)
      ensures online ==> r == Read(value)
      ensures !online ==> r.Rejected?
    {
      r := if online then Read(value) else Rejected;
    }

    /** `AsyncStorage.setItem("favorites", JSON.stringify(items))`. */
    method SetItem(items: seq<Item>) returns (ok: bool)
      modifies this`value
      ensures ok == (online && writable)
      ensures value == if ok then Saved(items) else old(value)
    {
      ok := online && writable;
      if ok {
        value := Saved(items);
      }
    }
  }
}

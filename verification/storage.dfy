/**
 * The browser's client-local key-value store (`localStorage`), shared by the
 * theme and the language widgets. Only the two calls the widgets make are
 * modelled: `getItem` (a missing key reads as `null`) and `setItem`.
 */
module Storage {
  import opened Options

  /** `localStorage.getItem(key)` on a snapshot of the store. */
  function Get(items: map<string, string>, key: string): Option<string>
  {
    if key in items then Some(items[key]) else None
  }

  /**
   * JavaScript truthiness of a `getItem` result: `null` and the empty string
   * are both falsy.
   */
  predicate Truthy(v: Option<string>)
  {
    v.Some? && v.value != ""
  }

  /** `v || dflt` for a `getItem` result. */
  function OrElse(v: Option<string>, dflt: string): (r: string)
    ensures Truthy(v) ==> r == v.value
    ensures !Truthy(v) ==> r == dflt
  {
    if Truthy(v) then v.value else dflt
  }

  class Store {
    var items: map<string, string>

    constructor (items: map<string, string>)
      ensures this.items == items
    {
      this.items := items;
    }

    function GetItem(key: string): (v: Option<string>)
      reads this
      ensures v.Some? <==> key in items
      ensures v.Some? ==> v.value == items[key]
    {
      Get(items, key)
    }

    method SetItem(key: string, value: string)
      modifies this
      ensures items == old(items)[key := value]
      ensures GetItem(key) == Some(value)
    {
      items := items[key := value];
    }
  }
}

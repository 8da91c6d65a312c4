/** The browser's `localStorage`: one synchronous, string-keyed,
    string-valued store shared by every component of the page. */
module LocalStorage {
  import opened Wrappers

  /** `getItem` on a snapshot of the store: None where the browser returns null. */
  function Lookup(items: map<string, string>, key: string): (r: Option<string>)
    ensures r.Some? <==> key in items
    ensures r.Some? ==> r.value == items[key]
  {
    if key in items then Some(items[key]) else None
  }

  class Storage {
    var items: map<string, string>

    /** The store as the page finds it when it loads. */
    constructor (persisted: map<string, string>)
      ensures items == persisted
    {
      items := persisted;
    }

    function GetItem(key: string): (r: Option<string>)
      reads this
      ensures r == Lookup(items, key)
    {
      Lookup(items, key)
    }

    /** `setItem`: the key now holds the value; every other key is as it was. */
    method SetItem(key: string, value: string)
      modifies this
      ensures GetItem(key) == Some(value)
      ensures forall k :: k != key ==> GetItem(k) == old(GetItem(k))
      ensures items == old(items)[key := value]
    {
      items := items[key := value];
    }

    /** `removeItem`: the key is now absent; every other key is as it was. */
    method RemoveItem(key: string)
      modifies this
      ensures GetItem(key) == None
      ensures forall k :: k != key ==> GetItem(k) == old(GetItem(k))
      ensures items == old(items) - {key}
    {
      items := items - {key};
    }
  }
}

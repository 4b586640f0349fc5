/**
 * The `Storage` helper of index.js over an abstract `localStorage`: a map of
 * string items, plus whether reading and writing are possible (when they are
 * not, the browser throws and the helper swallows the error).
 */
module KeyValue {
  import opened Wrappers

  /** What `localStorage.getItem(key) || defaultValue` yields when the read
      succeeds: a missing item (`null`) and the empty string are both falsy. */
  function ItemOr(items: map<string, string>, key: string, default: Option<string>): (r: Option<string>)
    ensures r == default || (key in items && r == Some(items[key]))
    ensures key in items && items[key] != "" ==> r == Some(items[key])
    ensures r.Some? && r != default ==> r.value != ""
  {
    if key in items && items[key] != "" then Some(items[key]) else default
  }

  /** `Storage.get(key, default)` with a string default, as the theme and
      language managers call it: the default when the read throws or the item
      is missing or empty, the item otherwise. */
  function ReadOr(items: map<string, string>, readable: bool, key: string, default: string): (r: string)
    ensures r == default || (readable && key in items && r == items[key] && r != "")
    ensures readable && key in items && items[key] != "" ==> r == items[key]
  {
    if readable then ItemOr(items, key, Some(default)).value else default
  }

  class Storage {
    var items: map<string, string>
    /** False when `getItem` throws. */
    var readable: bool
    /** False when `setItem` throws. */
    var writable: bool

    constructor (items: map<string, string>, readable: bool, writable: bool)
      ensures this.items == items && this.readable == readable && this.writable == writable
    {
      this.items := items;
      this.readable := readable;
      this.writable := writable;
    }

    /** `Storage.get`: the stored item when it is a non-empty string; the
        default when it is missing or empty, or when the read throws. */
    method Get(key: string, default: Option<string>) returns (r: Option<string>)
      ensures !readable ==> r == default
      ensures readable ==> r == ItemOr(items, key, default)
      ensures default.Some? ==> r == Some(ReadOr(items, readable, key, default.value))
    {
      if !readable {
        return default;
      }
      r := ItemOr(items, key, default);
    }

    /** `Storage.set`: store the item; a failing write changes nothing. */
    method Set(key: string, value: string)
      modifies this`items
      ensures items == if writable then old(items)[key := value] else old(items)
    {
      if writable {
        items := items[key := value];
      }
    }
  }

  /** Reading back what was written gives it back, unless it is the empty
      string, which reads as the default. */
  lemma ItemOrAfterSet(items: map<string, string>, key: string, value: string, default: Option<string>)
    ensures ItemOr(items[key := value], key, default) == if value == "" then default else Some(value)
  {
  }

  /** Writing one key leaves the reading of every other key unchanged. */
  lemma ItemOrOtherKey(items: map<string, string>, key: string, other: string, value: string,
                       default: Option<string>)
    requires other != key
    ensures ItemOr(items[key := value], other, default) == ItemOr(items, other, default)
  {
  }
}

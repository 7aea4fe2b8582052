/** The browser objects the theme code touches: `localStorage` and the document's root element. */
module Browser {
  import opened Wrappers

  /** `window.localStorage`: string values by key. */
  class Storage {
    var items: map<string, string>

    constructor (initial: map<string, string>)
      ensures items == initial
    {
      items := initial;
    }

    /** `getItem(key)`: `None` stands for the `null` of a missing key. */
    function GetItem(key: string): (v: Option<string>)
      reads this
      ensures v.Some? <==> key in items
      ensures v.Some? ==> v.value == items[key]
    {
      if key in items then Some(items[key]) else None
    }

    /** `setItem(key, value)` */
    method SetItem(key: string, value: string)
      modifies this
      ensures items == old(items)[key := value]
    {
      items := items[key := value];
    }
  }

  /** `document.documentElement` with its attributes. */
  class Element {
    var attributes: map<string, string>

    constructor (initial: map<string, string>)
      ensures attributes == initial
    {
      attributes := initial;
    }

    /** `setAttribute(name, value)` */
    method SetAttribute(name: string, value: string)
      modifies this
      ensures attributes == old(attributes)[name := value]
    {
      attributes := attributes[name := value];
    }
  }
}

/** The metadata tree the helpers read and update: a hierarchy of nodes addressed
    by dotted paths such as `General.date`, kept here as a map from each leaf's
    path to its value. */
module Metadata {

  const DatePath := "General.date"
  const TimePath := "General.time"
  const ZonePath := "General.time_zone"

  class Tree {
    var items: map<string, string>

    constructor (items: map<string, string>)
      ensures this.items == items
    {
      this.items := items;
    }

    /** `has_item(path)`. */
    function HasItem(path: string): bool
      reads this
    {
      path in items
    }

    /** `set_item(path, value)`: creates or overwrites one leaf. */
    method SetItem(path: string, value: string)
      modifies this
      ensures items == old(items)[path := value]
    {
      items := items[path := value];
    }

    /** `del` of an existing leaf. */
    method DelItem(path: string)
      requires path in items
      modifies this
      ensures items == old(items) - {path}
    {
      items := items - {path};
    }
  }
}

/** Python dictionaries that a caller hands over and that are filled in place. */
module Dicts {

  /** A string-keyed dictionary shared by reference. */
  class Dict<V> {
    var entries: map<string, V>

    constructor()
      ensures entries == map[]
    {
      entries := map[];
    }
  }
}

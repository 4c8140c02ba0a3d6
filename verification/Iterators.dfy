/** The iterator handle (lib/datastruct/iterator.c) over whatever its callback yields. */
module Iterators {
  import opened Sequences
  import opened Sizes

  class Iterator<T> {
    var items: seq<T>  // what the callback has yet to yield
    var sizeHint: SizeT

    constructor (s: seq<T>, hint: SizeT)
      ensures items == s && sizeHint == hint
    {
      items, sizeHint := s, hint;
    }

    /** `k4c_iterator_next`: an exact hint stays exact. */
    method Next() returns (item: Option<T>)
      modifies this
      ensures if old(items) == [] then item == None && items == []
              else item == Some(old(items)[0]) && items == old(items)[1..]
      ensures old(sizeHint) == |old(items)| ==> sizeHint == |items|
      ensures sizeHint == if item.Some? && old(sizeHint) > 0 then old(sizeHint) - 1 else old(sizeHint)
    {
      if items == [] {
        return None;
      }
      item, items := Some(items[0]), items[1..];
      if sizeHint > 0 {
        sizeHint := sizeHint - 1;
      }
    }
  }
}

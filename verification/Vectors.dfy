/** The growable vectors of positions that operators push onto. */
module Vectors {

  class IndexVector {
    var data: seq<int>

    constructor ()
      ensures data == []
    {
      data := [];
    }

    method Push(x: int)
      modifies this
      ensures data == old(data) + [x]
    {
      data := data + [x];
    }

    method Append(xs: seq<int>)
      modifies this
      ensures data == old(data) + xs
    {
      data := data + xs;
    }
  }
}

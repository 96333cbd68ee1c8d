/** execute_full_link: the loops behind each kind of link. */
module Links {
  import opened Columns
  import opened DepGraph
  import opened Vectors

  method SumOf(data: seq<int>) returns (res: int)
    ensures res == Total(data)
  {
    res := 0;
    for i := 0 to |data|
      invariant res == Total(data[..i])
    {
      assert data[..i + 1][..i] == data[..i];
      res := res + data[i];
    }
    assert data[..|data|] == data;
  }

  /** The smallest value, or INT_MAX if nothing is smaller. */
  method MinOf(data: seq<int>) returns (min: int)
    ensures min == Least(data)
    ensures (forall i :: 0 <= i < |data| ==> min <= data[i]) && min <= INT_MAX && (min in data || min == INT_MAX)
  {
    min := INT_MAX;
    for i := 0 to |data|
      invariant min == Least(data[..i])
      invariant (forall j :: 0 <= j < i ==> min <= data[j]) && min <= INT_MAX && (min in data[..i] || min == INT_MAX)
    {
      assert data[..i + 1][..i] == data[..i];
      if data[i] < min {
        min := data[i];
      }
    }
    assert data[..|data|] == data;
  }

  /** The largest value, or -INT_MAX if nothing is larger. */
  method MaxOf(data: seq<int>) returns (max: int)
    ensures max == Greatest(data)
    ensures (forall i :: 0 <= i < |data| ==> data[i] <= max) && -INT_MAX <= max && (max in data || max == -INT_MAX)
  {
    max := -INT_MAX;
    for i := 0 to |data|
      invariant max == Greatest(data[..i])
      invariant (forall j :: 0 <= j < i ==> data[j] <= max) && -INT_MAX <= max && (max in data[..i] || max == -INT_MAX)
    {
      assert data[..i + 1][..i] == data[..i];
      if data[i] > max {
        max := data[i];
      }
    }
    assert data[..|data|] == data;
  }

  method AddArrays(first: seq<int>, second: seq<int>) returns (r: seq<int>)
    requires |first| == |second|
    ensures |r| == |first| && forall i :: 0 <= i < |r| ==> r[i] == first[i] + second[i]
  {
    r := [];
    for i := 0 to |first|
      invariant |r| == i && forall j :: 0 <= j < i ==> r[j] == first[j] + second[j]
    {
      r := r + [first[i] + second[i]];
    }
  }

  method SubArrays(first: seq<int>, second: seq<int>) returns (r: seq<int>)
    requires |first| == |second|
    ensures |r| == |first| && forall i :: 0 <= i < |r| ==> r[i] == first[i] - second[i]
  {
    r := [];
    for i := 0 to |first|
      invariant |r| == i && forall j :: 0 <= j < i ==> r[j] == first[j] - second[j]
    {
      r := r + [first[i] - second[i]];
    }
  }

  /** Fills a link's output from its operands; Failed where an assertion of the operator fails. */
  method ExecuteFullLink(kind: Kind, args: seq<Value>) returns (out: Value)
    requires |args| == kind.Arity()
    ensures out == Evaluate(kind, args)
    ensures Does(kind, args, out)
  {
    EvaluateDoes(kind, args);
    if !args[0].Ints? {
      return Failed;
    }
    var data := args[0].data;
    match kind
    case Select(f) =>
      var result := new IndexVector();
      Columns.SelectRange(data, result, f);
      out := Positions(result.data);
    case Reselect(f) =>
      if !args[1].Positions? || |data| != |args[1].sel| {
        return Failed;
      }
      var result := new IndexVector();
      Columns.Reselect(data, args[1].sel, result, f);
      out := Positions(result.data);
    case Fetch =>
      var memory := data + args[0].slack;
      if !args[1].Positions? || !Within(args[1].sel, |memory|) {
        return Failed;
      }
      var fetched := Columns.Fetch(memory, args[1].sel);
      out := Ints(fetched, []);
    case Aggregate(a) =>
      match a {
        case Avg =>
          var s := SumOf(data);
          out := Average(s, |data|);
        case Min =>
          var m := MinOf(data);
          out := Number(m);
        case Max =>
          var m := MaxOf(data);
          out := Number(m);
        case Sum =>
          var s := SumOf(data);
          out := Number(ToInt(s));
      }
    case Combine(c) =>
      if !args[1].Ints? || |data| != |args[1].data| {
        return Failed;
      }
      var r: seq<int>;
      if c == Add {
        r := AddArrays(data, args[1].data);
      } else {
        r := SubArrays(data, args[1].data);
      }
      out := Ints(r, []);
  }
}

/**
 * The vertex table: the ordered vertex names of a graph. A vertex's position in
 * the table is its row and column in the adjacency matrix. Names are assumed
 * unique; lookup takes the first match.
 */
module Vertices {

  /** The position of the first vertex called `name`, or -1 when no vertex has that name. */
  function IndexOf(names: seq<string>, name: string): (r: int)
    ensures -1 <= r < |names|
    ensures r >= 0 ==> names[r] == name && forall k :: 0 <= k < r ==> names[k] != name
    ensures r == -1 <==> name !in names
    decreases |names|
  {
    if |names| == 0 then -1
    else if names[0] == name then 0
    else
      var rest := IndexOf(names[1..], name);
      if rest == -1 then -1 else rest + 1
  }

  /** encontra_vertice: a linear scan that returns at the first name equal to the query. */
  method FindVertex(names: seq<string>, name: string) returns (r: int)
    ensures r == IndexOf(names, name)
  {
    var i := 0;
    while i < |names|
      invariant 0 <= i <= |names|
      invariant forall k :: 0 <= k < i ==> names[k] != name
    {
      if names[i] == name {
        return i;
      }
      i := i + 1;
    }
    return -1;
  }
}

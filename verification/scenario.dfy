/**
 The driver at the end of programmers.js: three appends, a read-back loop,
 one update, one removal and a second read-back loop. The values the loops
 log are returned instead of printed.
 */
module Scenario {
  import opened LinkedLists

  /** Reads positions 0 .. size-1 with `get`, as the driver's loops do. */
  method ReadAll<T>(l: LinkedList<T>) returns (values: seq<T>)
    requires Valid(l)
    ensures values == Contents(l)
  {
    values := [];
    var i := 0;
    while i < Size(l)
      invariant 0 <= i <= Size(l)
      invariant values == Contents(l)[..i]
    {
      var v := Get(l, i);
      values := values + [v];
      i := i + 1;
    }
  }

  /** add(10), add(20), add(30) reads back 10, 20, 30; after set(1, 25) and
      remove(0) the list holds 25, 30 and has size 2. */
  method Driver() returns (firstReads: seq<int>, secondReads: seq<int>, l: LinkedList<int>)
    ensures firstReads == [10, 20, 30]
    ensures secondReads == [25, 30]
    ensures Valid(l) && Contents(l) == [25, 30] && Size(l) == 2
  {
    l := Empty();
    l := Add(l, 10);
    l := Add(l, 20);
    l := Add(l, 30);
    firstReads := ReadAll(l);
    l := Set(l, 1, 25);
    l := Remove(l, 0);
    secondReads := ReadAll(l);
  }
}

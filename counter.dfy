/** Independent counters made by a closure factory, and the menu that keeps a list of
    counters with a mirror list of their current values. */
module Counters {
  import opened Wrappers
  import opened Text
  import opened PyValues

  /** The closure returned by `crear_contador`: its captured `conteo` is a field that
      each call raises by one. */
  class Counter {
    var count: int

    /** `crear_contador()`: a new counter at 0. */
    constructor ()
      ensures count == 0
    {
      count := 0;
    }

    /** `incrementar()`: `conteo += 1; return conteo`. */
    method Call() returns (n: int)
      modifies this
      ensures count == old(count) + 1
      ensures n == count
    {
      count := count + 1;
      n := count;
    }
  }

  /** The automatic demonstration: c1, c1, c2, c1, c2 on two fresh counters return 1,
      2, 1, 3, 2, since neither counter sees the other's calls. */
  method DemoIndependence() returns (results: seq<int>)
    ensures results == [1, 2, 1, 3, 2]
  {
    var c1 := new Counter();
    var c2 := new Counter();
    var a := c1.Call();
    var b := c1.Call();
    var c := c2.Call();
    var d := c1.Call();
    var e := c2.Call();
    results := [a, b, c, d, e];
  }

  /** Three calls on a fresh counter return 1, 2 and 3. */
  method SequentialCalls() returns (results: seq<int>)
    ensures results == [1, 2, 3]
  {
    var c := new Counter();
    var a := c.Call();
    var b := c.Call();
    var d := c.Call();
    results := [a, b, d];
  }

  /** What option 2 of the menu reports. */
  datatype Increment =
    | NoCounters          // "no counters yet": nothing is asked
    | Rejected            // ValueError: the index text is not an int or out of range
    | NewValue(n: int)    // the chosen counter's new value

  /** The menu's state: `contadores` and its mirror `valores`. */
  class Board {
    var counters: seq<Counter>
    var values: seq<int>

    /** The mirror holds one value per counter, each counter's current count, and no
        counter is listed twice. */
    ghost predicate Valid()
      reads this, set c | c in counters
    {
      |values| == |counters| &&
      (forall i, j :: 0 <= i < j < |counters| ==> counters[i] != counters[j]) &&
      (forall i :: 0 <= i < |counters| ==> values[i] == counters[i].count)
    }

    constructor ()
      ensures Valid()
      ensures counters == [] && values == []
    {
      counters := [];
      values := [];
    }

    /** Option 1: a new counter is appended, and a 0 to the mirror. */
    method Create()
      requires Valid()
      modifies this
      ensures Valid()
      ensures |counters| == |old(counters)| + 1 && counters[..|old(counters)|] == old(counters)
      ensures fresh(counters[|old(counters)|])
      ensures values == old(values) + [0]
    {
      var c := new Counter();
      counters := counters + [c];
      values := values + [0];
    }

    /** Option 2 with the index text typed by the user: no counters gives a warning;
        an index `int()` rejects or outside 1..len(contadores) raises ValueError and
        changes nothing; otherwise counter `idx` is called and its new value stored in
        the mirror, with every other counter and value unchanged. */
    method Increment(idxText: string, conv: Conversions) returns (r: Increment)
      requires Valid()
      modifies set c | c in counters
      modifies this
      ensures Valid()
      ensures counters == old(counters)
      ensures r == NoCounters <==> old(counters) == []
      ensures r.NewValue? <==>
                old(counters) != [] && conv.parseInt(Strip(idxText)).Some? &&
                1 <= conv.parseInt(Strip(idxText)).value <= |old(counters)|
      ensures !r.NewValue? ==>
                values == old(values) &&
                forall i :: 0 <= i < |counters| ==> counters[i].count == old(counters[i].count)
      ensures r.NewValue? ==>
                var k := conv.parseInt(Strip(idxText)).value - 1;
                r.n == old(values[k]) + 1 && values == old(values)[k := r.n] &&
                forall i :: 0 <= i < |counters| && i != k ==> counters[i].count == old(counters[i].count)
    {
      if counters == [] {
        return NoCounters;
      }
      var idx := conv.parseInt(Strip(idxText));
      if idx.None? || !(1 <= idx.value <= |counters|) {
        return Rejected;
      }
      var k := idx.value - 1;
      var n := counters[k].Call();
      values := values[k := n];
      r := NewValue(n);
    }
  }
}

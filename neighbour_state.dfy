/** The sampled neighbours of one cell, with the filter and query the spread rules use
    (src/FireSim/Neighbour/NeighbourState.cs). */
module NeighbourStates {
  import opened CellStates
  import opened Directions
  import opened CellNeighbours

  /** An immutable sequence of (direction, state) entries. */
  datatype NeighbourState = NeighbourState(States: seq<CellNeighbour>)

  /** The entries of `s` whose direction is in `directions`, in their original order
      (LINQ `Where` with `Contains`). */
  function Where(s: seq<CellNeighbour>, directions: seq<CardinalDirection>): (r: seq<CellNeighbour>)
    ensures |r| <= |s|
    ensures forall x :: x in r <==> x in s && x.Direction in directions
  {
    if s == [] then []
    else if s[0].Direction in directions then [s[0]] + Where(s[1..], directions)
    else Where(s[1..], directions)
  }

  /** `FilterByCarinalDirections`: a new state holding only the entries in the given directions. */
  function FilterByCardinalDirections(ns: NeighbourState, directions: seq<CardinalDirection>): (r: NeighbourState)
    ensures |r.States| <= |ns.States|
    ensures forall x :: x in r.States <==> x in ns.States && x.Direction in directions
  {
    NeighbourState(Where(ns.States, directions))
  }

  /** `AnyInState`: whether some entry (LINQ `Any`) is in `state`. */
  function AnyInState(ns: NeighbourState, state: CellState): (r: bool)
    ensures r <==> exists k :: 0 <= k < |ns.States| && ns.States[k].State == state
  {
    AnyIn(ns.States, state)
  }

  /** The search behind `AnyInState`, entry by entry. */
  function AnyIn(s: seq<CellNeighbour>, state: CellState): (r: bool)
    ensures r <==> exists k :: 0 <= k < |s| && s[k].State == state
  {
    if s == [] then false
    else if s[0].State == state then true
    else
      var rest := AnyIn(s[1..], state);
      assert forall k :: 1 <= k < |s| ==> s[k] == s[1..][k - 1];
      rest
  }

  /** Filtering keeps the order of the entries: it distributes over concatenation. */
  lemma {:induction false} WhereAppend(a: seq<CellNeighbour>, b: seq<CellNeighbour>, directions: seq<CardinalDirection>)
    ensures Where(a + b, directions) == Where(a, directions) + Where(b, directions)
  {
    if a == [] {
      assert a + b == b;
    } else {
      assert (a + b)[1..] == a[1..] + b;
      WhereAppend(a[1..], b, directions);
    }
  }

  /** Filtering leaves every surviving entry, state included, as it was: an entry of the result
      is an entry of the input at some position. (That every selected entry of the input
      survives is `Where`'s own membership ensures.) */
  lemma {:induction false} WhereKeepsStates(s: seq<CellNeighbour>, directions: seq<CardinalDirection>, k: int)
    requires 0 <= k < |Where(s, directions)|
    ensures exists j :: 0 <= j < |s| && s[j] == Where(s, directions)[k] && s[j].Direction in directions
  {
    var x := Where(s, directions)[k];
    assert x in Where(s, directions);
    assert x in s;
  }

  /** Filtering twice by the same directions is filtering once. */
  lemma {:induction false} WhereIdempotent(s: seq<CellNeighbour>, directions: seq<CardinalDirection>)
    ensures Where(Where(s, directions), directions) == Where(s, directions)
  {
    if s != [] {
      WhereIdempotent(s[1..], directions);
    }
  }

  /** Filtering by `d1` and then by `d2` is filtering by their intersection. */
  lemma {:induction false} WhereComposes(s: seq<CellNeighbour>, d1: seq<CardinalDirection>, d2: seq<CardinalDirection>,
                                         both: seq<CardinalDirection>)
    requires forall d :: d in both <==> d in d1 && d in d2
    ensures Where(Where(s, d1), d2) == Where(s, both)
  {
    if s != [] {
      WhereComposes(s[1..], d1, d2, both);
    }
  }

  /** The directions present in a sequence of entries. */
  function DirectionsOf(s: seq<CellNeighbour>): (r: set<CardinalDirection>)
    ensures forall d :: d in r <==> exists k :: 0 <= k < |s| && s[k].Direction == d
  {
    set k | 0 <= k < |s| :: s[k].Direction
  }

  /** A state holding one entry for every direction, as the filter tests build it. */
  function FullState(south: CellState): (ns: NeighbourState)
    ensures |ns.States| == 8
    ensures forall d: CardinalDirection :: d in DirectionsOf(ns.States)
  {
    var r := NeighbourState([
      CellNeighbour(North, Empty), CellNeighbour(NorthEast, Empty), CellNeighbour(East, Empty),
      CellNeighbour(SouthEast, Empty), CellNeighbour(South, south), CellNeighbour(SouthWest, Empty),
      CellNeighbour(West, Empty), CellNeighbour(NorthWest, Empty)]);
    forall d: CardinalDirection
      ensures d in DirectionsOf(r.States)
    {
      assert r.States[d.Value() / 2].Direction == d;
    }
    r
  }

  /** Filtering a state that covers every direction by `directions` yields exactly those directions. */
  lemma FilterFullState(south: CellState, directions: seq<CardinalDirection>)
    ensures DirectionsOf(FilterByCardinalDirections(FullState(south), directions).States) == set d | d in directions
  {
    var full := FullState(south);
    var r := FilterByCardinalDirections(full, directions).States;
    forall d | d in directions
      ensures d in DirectionsOf(r)
    {
      assert d in DirectionsOf(full.States);
      var k :| 0 <= k < |full.States| && full.States[k].Direction == d;
      assert full.States[k] in r;
    }
    forall d | d in DirectionsOf(r)
      ensures d in directions
    {
      var k :| 0 <= k < |r| && r[k].Direction == d;
      assert r[k] in r;
    }
  }

  /** `AnyInState` on the empty state is false, whatever the state asked for. */
  lemma NoneInEmptyState(state: CellState)
    ensures !AnyInState(NeighbourState([]), state)
  {
  }

  /** Asking the filtered state for a state asks whether an entry in one of the given directions
      has that state. */
  lemma AnyInFiltered(ns: NeighbourState, directions: seq<CardinalDirection>, state: CellState)
    ensures AnyInState(FilterByCardinalDirections(ns, directions), state) <==>
            exists k :: 0 <= k < |ns.States| && ns.States[k].Direction in directions && ns.States[k].State == state
  {
    var r := FilterByCardinalDirections(ns, directions).States;
    if AnyInState(FilterByCardinalDirections(ns, directions), state) {
      var k :| 0 <= k < |r| && r[k].State == state;
      assert r[k] in ns.States;
    }
    if exists k :: 0 <= k < |ns.States| && ns.States[k].Direction in directions && ns.States[k].State == state {
      var k :| 0 <= k < |ns.States| && ns.States[k].Direction in directions && ns.States[k].State == state;
      assert ns.States[k] in r;
    }
  }

  /** The first entry that filtering keeps is the first entry of the input in one of the directions. */
  lemma {:induction false} FirstOfWhere(s: seq<CellNeighbour>, directions: seq<CardinalDirection>)
    ensures Where(s, directions) != [] <==> exists k :: 0 <= k < |s| && s[k].Direction in directions
    ensures Where(s, directions) != [] ==>
      exists k :: 0 <= k < |s| && s[k] == Where(s, directions)[0] && s[k].Direction in directions &&
                  forall j :: 0 <= j < k ==> s[j].Direction !in directions
  {
    if s != [] {
      FirstOfWhere(s[1..], directions);
      if s[0].Direction !in directions && Where(s, directions) != [] {
        var k :| 0 <= k < |s[1..]| && s[1..][k] == Where(s[1..], directions)[0] && s[1..][k].Direction in directions &&
                 forall j :: 0 <= j < k ==> s[1..][j].Direction !in directions;
        assert s[k + 1] == s[1..][k];
        forall j | 0 <= j < k + 1
          ensures s[j].Direction !in directions
        {
          if j > 0 { assert s[j] == s[1..][j - 1]; }
        }
      }
      if exists k :: 0 <= k < |s| && s[k].Direction in directions {
        var k :| 0 <= k < |s| && s[k].Direction in directions;
        if k > 0 { assert s[1..][k - 1] == s[k]; }
      }
    }
  }
}

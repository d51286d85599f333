/** The inline index: no stored structure, just a binary search over the column
    of a relation whose rows were inserted in increasing order of the attribute. */
module InlineIndex {
  import opened Common

  /** `tuple_id_t` is an unsigned 32-bit integer. */
  const WORD: int := 0x1_0000_0000

  type TupleId = x: nat | x <= INVALID_TUPLE

  predicate Ascending(column: seq<int>) {
    forall i, j :: 0 <= i < j < |column| ==> column[i] < column[j]
  }

  /** Row `r` is the last one below `target`, the first one above it, or holds it. */
  predicate Near(column: seq<int>, target: int, r: nat) {
    && r < |column|
    && (forall i :: 0 <= i < r ==> column[i] < target)
    && (forall i :: r < i < |column| ==> target < column[i])
  }

  /** What `binary_search` returns. */
  predicate Found(column: seq<int>, target: int, exact: bool, r: nat) {
    if exact && target !in column then r == INVALID_TUPLE
    else Near(column, target, r) && (exact ==> column[r] == target)
  }

  function Decrement(x: nat): nat {
    if x == 0 then WORD - 1 else x - 1
  }

  function Increment(x: nat): nat {
    if x == WORD - 1 then 0 else x + 1
  }

  /** `binary_search`, for a target that is not below the first row: otherwise the search need not
      end (see SearchEndsIff). Only rows of the relation are read then. */
  method BinarySearch(column: seq<int>, target: int, exact: bool) returns (center: nat)
    requires Ascending(column) && 0 < |column| < INVALID_TUPLE
    requires column[0] <= target
    ensures Found(column, target, exact, center)
  {
    var min, max := 0, |column| - 1;
    center := min + (max - min) / 2;
    while true
      invariant min <= center <= max < |column|
      invariant forall i :: 0 <= i < min ==> column[i] < target
      invariant forall i :: max < i < |column| ==> target < column[i]
      decreases max - min
    {
      var value := column[center];
      if target > value {
        min := center + 1;
      } else {
        max := Decrement(center);
      }
      if !(min <= max && target != value) {
        if exact && target != value {
          return INVALID_TUPLE;
        }
        return center;
      }
      center := min + (max - min) / 2;
    }
  }

  // ----- exactly when the search ends -----

  datatype Bounds = Bounds(min: nat, max: nat)

  function Center(b: Bounds): nat {
    if b.max >= b.min then b.min + (b.max - b.min) / 2 else b.min
  }

  /** The value that a round compares with. For a row behind the last one nothing is read into
      the row buffer, a local array that is not initialised: `stale` says what each round finds
      there. */
  function ValueAt(column: seq<int>, stale: nat -> int, round: nat, row: nat): int {
    if row < |column| then column[row] else stale(round)
  }

  /** The bounds before round `n` of the loop of `binary_search`. */
  function Before(column: seq<int>, stale: nat -> int, target: int, n: nat): Bounds {
    if n == 0 then Bounds(0, Decrement(|column|)) else
    var b := Before(column, stale, target, n - 1);
    if target > ValueAt(column, stale, n - 1, Center(b)) then Bounds(Increment(Center(b)), b.max)
        else Bounds(b.min, Decrement(Center(b)))
  }

  /** Whether the loop goes on after round `n`. */
  predicate GoesOn(column: seq<int>, stale: nat -> int, target: int, n: nat) {
    var next := Before(column, stale, target, n + 1);
    next.min <= next.max && target != ValueAt(column, stale, n, Center(Before(column, stale, target, n)))
  }

  ghost predicate Ends(column: seq<int>, stale: nat -> int, target: int) {
    exists n: nat :: !GoesOn(column, stale, target, n)
  }

  /** A target in or behind the column: the bounds close in on it. */
  lemma {:induction false} ClosesIn(column: seq<int>, stale: nat -> int, target: int, n: nat)
    requires Ascending(column) && 0 < |column| < INVALID_TUPLE && column[0] <= target
    requires var b := Before(column, stale, target, n); b.min <= b.max < |column|
    ensures Ends(column, stale, target)
    decreases var b := Before(column, stale, target, n); b.max - b.min
  {
    if GoesOn(column, stale, target, n) {
      assert column[0] <= column[Center(Before(column, stale, target, n))];
      ClosesIn(column, stale, target, n + 1);
    }
  }

  /** A target before the column: the upper bound wraps around to the largest row number, and as
      long as the row buffer holds values above the target the search goes on. */
  lemma {:induction false} WrapsAround(column: seq<int>, stale: nat -> int, target: int, n: nat)
    requires Ascending(column) && (column != [] ==> target < column[0])
    requires forall round :: stale(round) > target
    ensures Before(column, stale, target, n).min == 0 && GoesOn(column, stale, target, n)
  {
    if n > 0 {
      WrapsAround(column, stale, target, n - 1);
    }
    var row := Center(Before(column, stale, target, n));
    assert row < |column| ==> column[0] <= column[row];
  }

  /** The search ends for every content of the row buffer iff there is a row that is not above
      the target. */
  lemma SearchEndsIff(column: seq<int>, target: int)
    requires Ascending(column) && |column| < INVALID_TUPLE
    ensures (forall stale :: Ends(column, stale, target)) <==> column != [] && column[0] <= target
  {
    if column != [] && column[0] <= target {
      forall stale ensures Ends(column, stale, target) {
        ClosesIn(column, stale, target, 0);
      }
    } else {
      var stale := (round: nat) => target + 1;
      if Ends(column, stale, target) {
        var n: nat :| !GoesOn(column, stale, target, n);
        WrapsAround(column, stale, target, n);
      }
    }
  }

  // ----- the iterator -----

  /** An index iterator over the inline index, with the row range that its first
      `get_next` caches in static variables. */
  class InlineIterator {
    const column: seq<int>
    var minValue: int
    var maxValue: int
    var nextItemNo: nat
    var cachedStart: TupleId
    var cachedEnd: TupleId

    ghost predicate Valid()
      reads this
    {
      && Ascending(column) && 0 < |column| < INVALID_TUPLE
      && column[0] <= minValue && column[0] <= maxValue
    }

    /** The rows in which the first `get_next` has found the two bounds. */
    ghost predicate Searched()
      reads this
    {
      && Found(column, minValue, minValue == maxValue, cachedStart)
      && (cachedStart != INVALID_TUPLE ==> Found(column, maxValue, minValue == maxValue, cachedEnd))
    }

    constructor (column: seq<int>)
      ensures this.column == column && nextItemNo == cachedStart == cachedEnd == 0
    {
      this.column := column;
      nextItemNo, cachedStart, cachedEnd, minValue, maxValue := 0, 0, 0, 0, 0;
    }

    /** `index_get_iterator`. The cached rows of an earlier search stay. */
    method Open(min: int, max: int)
      modifies this
      ensures nextItemNo == 0 && minValue == min && maxValue == max
      ensures cachedStart == old(cachedStart) && cachedEnd == old(cachedEnd)
    {
      minValue, maxValue, nextItemNo := min, max, 0;
    }

    /** `get_next`. The error code of `range_search` is unsigned, so its caller never
        sees an error: a missing key shows up as the row number INVALID_TUPLE, and
        the end of the previous search stays cached. */
    method GetNext() returns (id: nat)
      requires Valid()
      modifies this
      ensures Valid() && minValue == old(minValue) && maxValue == old(maxValue)
      ensures old(nextItemNo) == 0 ==> Searched() && nextItemNo == 1 && id == cachedStart
      ensures old(nextItemNo) > 0 ==>
                && cachedStart == old(cachedStart) && cachedEnd == old(cachedEnd)
                && var next := (cachedStart + old(nextItemNo)) % WORD;
                   if next <= cachedEnd then id == next && nextItemNo == old(nextItemNo) + 1
                   else id == INVALID_TUPLE && nextItemNo == old(nextItemNo)
    {
      if nextItemNo == 0 {
        var exact := minValue == maxValue;
        cachedStart := BinarySearch(column, minValue, exact);
        if cachedStart != INVALID_TUPLE {
          cachedEnd := BinarySearch(column, maxValue, exact);
        }
        nextItemNo := 1;
        return cachedStart;
      }
      id := (cachedStart + nextItemNo) % WORD;
      if id <= cachedEnd {
        nextItemNo := nextItemNo + 1;
      } else {
        id := INVALID_TUPLE;
      }
    }
  }
}

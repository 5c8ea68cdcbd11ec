/** The bounded history of time-left estimates (`timestamp_changes`): a list
    to which each estimate is appended, and whose oldest entry is popped
    once it holds more than `Capacity` entries. */
module Window {

  const Capacity: nat := 100

  /** The most recent `Capacity` entries of a history, in arrival order. */
  function Recent(s: seq<int>): (r: seq<int>)
    ensures |r| <= Capacity
    ensures |s| <= Capacity ==> r == s
    ensures |s| > Capacity ==> |r| == Capacity
    ensures forall k :: 0 <= k < |r| ==> r[k] == s[|s| - |r| + k]
  {
    if |s| <= Capacity then s else s[|s| - Capacity..]
  }

  /** `append(x)` followed by `pop(0)` when the list has grown past the
      capacity. */
  function Push(w: seq<int>, x: int): (r: seq<int>)
    ensures |r| >= 1 && r[|r| - 1] == x
    ensures |w| < Capacity ==> r == w + [x]
    ensures |w| >= Capacity ==> r == w[1..] + [x]
  {
    var appended := w + [x];
    if |appended| > Capacity then appended[1..] else appended
  }

  /** Appending to a window of at most `Capacity` entries keeps exactly the
      most recent `Capacity` estimates of the whole history. */
  lemma {:induction false} PushRecent(history: seq<int>, x: int)
    ensures Push(Recent(history), x) == Recent(history + [x])
  {
    var w := Recent(history);
    if |history| >= Capacity {
      assert |w| == Capacity;
      var h := history + [x];
      assert w[1..] + [x] == h[|h| - Capacity..];
    }
  }

  /** Pushes `xs` one by one, the first one first. */
  function PushAll(w: seq<int>, xs: seq<int>): (r: seq<int>)
    decreases |xs|
  {
    if |xs| == 0 then w else Push(PushAll(w, xs[..|xs| - 1]), xs[|xs| - 1])
  }

  /** Starting from an empty list, any sequence of pushes leaves the most
      recent `Capacity` estimates, oldest first: the FIFO eviction order. */
  lemma {:induction false} PushAllRecent(xs: seq<int>)
    ensures PushAll([], xs) == Recent(xs)
    decreases |xs|
  {
    if |xs| != 0 {
      var init := xs[..|xs| - 1];
      PushAllRecent(init);
      PushRecent(init, xs[|xs| - 1]);
      assert init + [xs[|xs| - 1]] == xs;
    }
  }

  /** Every entry is a `timedelta.seconds` value. */
  predicate InDayRange(w: seq<int>)
  {
    forall k :: 0 <= k < |w| ==> 0 <= w[k] < 86400
  }

  /** Pushing a value in range keeps every entry in range and the length
      within the capacity. */
  lemma PushInvariant(w: seq<int>, x: int)
    requires |w| <= Capacity && InDayRange(w)
    requires 0 <= x < 86400
    ensures |Push(w, x)| <= Capacity && InDayRange(Push(w, x))
  {
    var r := Push(w, x);
    forall k | 0 <= k < |r| ensures 0 <= r[k] < 86400 {
      if k < |r| - 1 {
        assert r[k] == w[k + |w| + 1 - |r|];
      }
    }
  }

  /** Python's `sum(...)`. */
  function Sum(w: seq<int>): int
  {
    if |w| == 0 then 0 else Sum(w[..|w| - 1]) + w[|w| - 1]
  }

  /** The numerator of the average lies in [0, 86400 * len): the average of
      a non-empty window is a valid `timedelta.seconds` value. */
  lemma {:induction false} SumInDayRange(w: seq<int>)
    requires InDayRange(w)
    ensures 0 <= Sum(w) <= 86400 * |w|
    ensures |w| > 0 ==> Sum(w) < 86400 * |w|
    decreases |w|
  {
    if |w| != 0 {
      var init := w[..|w| - 1];
      assert InDayRange(init) by {
        forall k | 0 <= k < |init| ensures 0 <= init[k] < 86400 {
          assert init[k] == w[k];
        }
      }
      SumInDayRange(init);
    }
  }
}

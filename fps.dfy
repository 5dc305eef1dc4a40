/** The frame-rate history of main.cpp's `DisplayFPS`: a bounded first-in
    first-out window of the most recent frame rates, and its average. */
module Fps {

  /** `historySize`: how many frame rates the window keeps. */
  const HistorySize: nat := 100

  /** The history `h` after `pushAndPop(fps)`: `fps` joins at the back and,
      when that makes the history longer than `HistorySize`, the oldest value
      leaves at the front. */
  function Pushed(h: seq<real>, fps: real): (r: seq<real>)
    ensures |h| < HistorySize ==> r == h + [fps]
    ensures |h| >= HistorySize ==> r == h[1..] + [fps]
    ensures |h| <= HistorySize ==> |r| <= HistorySize
  {
    var grown := h + [fps];
    if |grown| > HistorySize then grown[1..] else grown
  }

  /** The last `HistorySize` values of `s`, or all of them when there are
      fewer. */
  function Window(s: seq<real>): (r: seq<real>)
    ensures |r| <= HistorySize
  {
    if |s| <= HistorySize then s else s[|s| - HistorySize..]
  }

  /** Pushing onto the window of `s` gives the window of `s` extended. */
  lemma PushedWindow(s: seq<real>, x: real)
    ensures Pushed(Window(s), x) == Window(s + [x])
  {
    if |s| >= HistorySize {
      assert Window(s)[1..] + [x] == (s + [x])[|s| + 1 - HistorySize..];
    }
  }

  /** The history after pushing the values `xs` one after another. */
  function PushedAll(h: seq<real>, xs: seq<real>): seq<real>
    decreases |xs|
  {
    if xs == [] then h else Pushed(PushedAll(h, xs[..|xs| - 1]), xs[|xs| - 1])
  }

  /** A history that starts within bounds always holds the latest values
      pushed, at most `HistorySize` of them, oldest first. */
  lemma {:induction false} PushedAllWindow(h: seq<real>, xs: seq<real>)
    requires |h| <= HistorySize
    ensures PushedAll(h, xs) == Window(h + xs)
    decreases |xs|
  {
    if xs == [] {
      assert h + xs == h;
    } else {
      var xs', x := xs[..|xs| - 1], xs[|xs| - 1];
      assert xs == xs' + [x];
      assert PushedAll(h, xs) == Pushed(PushedAll(h, xs'), x);
      PushedAllWindow(h, xs');
      PushedWindow(h + xs', x);
      assert h + xs == (h + xs') + [x];
    }
  }

  /** Starting from the empty history, the window holds exactly the last
      `min(|xs|, HistorySize)` values pushed. */
  lemma LatestValues(xs: seq<real>)
    ensures |xs| <= HistorySize ==> PushedAll([], xs) == xs
    ensures |xs| > HistorySize ==> PushedAll([], xs) == xs[|xs| - HistorySize..]
  {
    var empty: seq<real> := [];
    assert PushedAll(empty, xs) == Window(xs) by {
      assert empty + xs == xs;
      PushedAllWindow(empty, xs);
    }
    if |xs| <= HistorySize {
      assert Window(xs) == xs;
    } else {
      assert Window(xs) == xs[|xs| - HistorySize..];
    }
  }

  /** The sum `returnRollingAverageFPS` accumulates, front to back. */
  function Sum(h: seq<real>): real
  {
    if h == [] then 0.0 else Sum(h[..|h| - 1]) + h[|h| - 1]
  }

  /** Values between `lo` and `hi` sum to between `|h| * lo` and `|h| * hi`. */
  lemma {:induction false} SumBounds(h: seq<real>, lo: real, hi: real)
    requires forall t :: 0 <= t < |h| ==> lo <= h[t] <= hi
    ensures |h| as real * lo <= Sum(h) <= |h| as real * hi
  {
    if h != [] {
      SumBounds(h[..|h| - 1], lo, hi);
    }
  }

  /** The rolling average lies between the smallest and the largest frame
      rate of the history. */
  lemma AverageBounds(h: seq<real>, lo: real, hi: real)
    requires |h| > 0
    requires forall t :: 0 <= t < |h| ==> lo <= h[t] <= hi
    ensures lo <= Sum(h) / |h| as real <= hi
  {
    SumBounds(h, lo, hi);
    var n := |h| as real;
    assert Sum(h) / n * n == Sum(h);
  }

  class DisplayFPS {
    var historicalFPS: seq<real>

    /** The window never holds more than `HistorySize` values. */
    ghost predicate Valid()
      reads this
    {
      |historicalFPS| <= HistorySize
    }

    /** `DisplayFPS()`: an empty history (the text setup is not modelled). */
    constructor ()
      ensures Valid() && historicalFPS == []
    {
      historicalFPS := [];
    }

    /** `pushAndPop`: append the frame rate, then erase the front element if
        the history has grown beyond `HistorySize`. */
    method PushAndPop(fps: real)
      requires Valid()
      modifies this
      ensures Valid()
      ensures historicalFPS == Pushed(old(historicalFPS), fps)
    {
      historicalFPS := historicalFPS + [fps];
      if |historicalFPS| > HistorySize {
        historicalFPS := historicalFPS[1..];
      }
    }

    /** `returnRollingAverageFPS`: the frame rates are summed front to back
        and the sum divided by their number. The source divides by zero on an
        empty history; here the history must hold a value. */
    method RollingAverage() returns (average: real)
      requires |historicalFPS| > 0
      ensures average == Sum(historicalFPS) / |historicalFPS| as real
    {
      var sum := 0.0;
      var t := 0;
      while t < |historicalFPS|
        invariant 0 <= t <= |historicalFPS|
        invariant sum == Sum(historicalFPS[..t])
      {
        assert historicalFPS[..t + 1][..t] == historicalFPS[..t];
        sum := sum + historicalFPS[t];
        t := t + 1;
      }
      assert historicalFPS[..t] == historicalFPS;
      average := sum / |historicalFPS| as real;
    }
  }
}

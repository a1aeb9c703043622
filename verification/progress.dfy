/**
 The textual progress bar (`draw_progress`) and the completion percentage
 computed in `CursesUI.check_file` of concat_go.py.
 */
module Progress {
  import opened Wrappers

  /** The bar symbol and width `draw_progress` uses by default. */
  const DefaultSymbol: char := '='
  const DefaultTicks: nat := 50

  /** Python's `c * n` on a one-character string: `n` copies, none when `n <= 0`. */
  function Repeat(c: char, n: int): (s: string)
    ensures |s| == if n > 0 then n else 0
    ensures forall i :: 0 <= i < |s| ==> s[i] == c
  {
    if n <= 0 then [] else [c] + Repeat(c, n - 1)
  }

  /** The number of filled cells: the floor of `percent/100 * ticks`. */
  function FilledCount(percent: real, ticks: nat): (done: int)
    ensures done as real <= percent / 100.0 * ticks as real < done as real + 1.0
  {
    (percent / 100.0 * ticks as real).Floor
  }

  /** `draw_progress`: '[', then `done` symbols, then `ticks - done` spaces, then ']'.
      Negative counts draw nothing, as Python's string repetition does. */
  function DrawProgress(percent: real, symbol: char, ticks: nat): (bar: string)
    ensures |bar| >= 2 && bar[0] == '[' && bar[|bar| - 1] == ']'
    ensures var done := FilledCount(percent, ticks);
            |bar| == 2 + (if done > 0 then done else 0) + (if ticks - done > 0 then ticks - done else 0)
    ensures forall i :: 1 <= i < |bar| - 1 ==>
              bar[i] == (if i <= FilledCount(percent, ticks) then symbol else ' ')
    ensures 0.0 <= percent <= 100.0 ==> |bar| == ticks + 2
  {
    var done := FilledCount(percent, ticks);
    FilledCountBounds(percent, ticks);
    "[" + Repeat(symbol, done) + Repeat(' ', ticks - done) + "]"
  }

  /** Within 0..100 percent the filled count lies within 0..ticks. */
  lemma FilledCountBounds(percent: real, ticks: nat)
    ensures 0.0 <= percent ==> 0 <= FilledCount(percent, ticks)
    ensures percent <= 100.0 ==> FilledCount(percent, ticks) <= ticks
  {
    var y := percent / 100.0;
    if 0.0 <= percent {
      ScaledFloorAtLeastZero(y, ticks);
    }
    if percent <= 100.0 {
      ScaledFloorAtMost(y, ticks);
    }
  }

  lemma ScaledFloorAtLeastZero(y: real, t: nat)
    requires 0.0 <= y
    ensures 0 <= (y * t as real).Floor
  {
    MulMonotoneNonNeg(0.0, y, t as real);
    FloorAtLeast(y * t as real, 0);
  }

  lemma ScaledFloorAtMost(y: real, t: nat)
    requires y <= 1.0
    ensures (y * t as real).Floor <= t
  {
    MulMonotoneNonNeg(y, 1.0, t as real);
    FloorAtMost(y * t as real, t);
  }

  lemma FloorAtLeast(x: real, n: int)
    requires n as real <= x
    ensures n <= x.Floor
  {
  }

  lemma FloorAtMost(x: real, n: int)
    requires x <= n as real
    ensures x.Floor <= n
  {
  }

  lemma MulMonotoneNonNeg(a: real, b: real, d: real)
    requires a <= b && 0.0 <= d
    ensures a * d <= b * d
  {
  }

  /** A higher percentage never fills fewer cells. */
  lemma FilledCountMonotone(p1: real, p2: real, ticks: nat)
    requires p1 <= p2
    ensures FilledCount(p1, ticks) <= FilledCount(p2, ticks)
  {
    MulMonotoneNonNeg(p1 / 100.0, p2 / 100.0, ticks as real);
  }

  /** At 0% the bar is empty: every cell is a space. */
  lemma EmptyBar(symbol: char, ticks: nat)
    ensures var bar := DrawProgress(0.0, symbol, ticks);
            |bar| == ticks + 2 && forall i :: 1 <= i <= ticks ==> bar[i] == ' '
  {
    assert FilledCount(0.0, ticks) == 0;
  }

  /** At 100% the bar is full: every cell is the symbol. */
  lemma FullBar(symbol: char, ticks: nat)
    ensures var bar := DrawProgress(100.0, symbol, ticks);
            |bar| == ticks + 2 && forall i :: 1 <= i <= ticks ==> bar[i] == symbol
  {
    assert 100.0 / 100.0 * ticks as real == ticks as real;
    assert FilledCount(100.0, ticks) == ticks;
  }

  /** At 50% the default 50-cell bar has 25 symbols followed by 25 spaces. */
  lemma HalfBar()
    ensures var bar := DrawProgress(50.0, DefaultSymbol, DefaultTicks);
            && |bar| == 52
            && (forall i :: 1 <= i <= 25 ==> bar[i] == '=')
            && (forall i :: 26 <= i <= 50 ==> bar[i] == ' ')
  {
    assert FilledCount(50.0, 50) == 25;
  }

  /** `100 * float(cur) / float(expected)`; a zero expected size raises
      ZeroDivisionError, reported here as `None`. */
  function Percent(cur: nat, expected: nat): (p: Option<real>)
    ensures p.None? <==> expected == 0
    ensures p.Some? ==> p.value * expected as real == 100.0 * cur as real
    ensures p.Some? ==> 0.0 <= p.value
    ensures p.Some? && cur <= expected ==> p.value <= 100.0
    ensures p.Some? && cur == 0 ==> p.value == 0.0
  {
    if expected == 0 then None
    else
      var r := 100.0 * cur as real / expected as real;
      PercentFacts(cur, expected);
      Some(r)
  }

  lemma PercentFacts(cur: nat, expected: nat)
    requires expected > 0
    ensures var r := 100.0 * cur as real / expected as real;
            r * expected as real == 100.0 * cur as real && 0.0 <= r
            && (cur <= expected ==> r <= 100.0)
  {
    var e := expected as real;
    var r := 100.0 * cur as real / e;
    if cur <= expected && r > 100.0 {
      assert r * e > 100.0 * e;
    }
  }
}

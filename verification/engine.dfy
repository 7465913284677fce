/** The cross-platform activity engine of src/app.go: the corner placement
    policy, the cancellable wait, the randomised post-click delay, the Bezier
    cursor move, the alive loop and the arm/quit handlers.

    The model is sequential. Every platform function becomes an `Effect`
    recorded in order; time is an integer clock in milliseconds that
    time.Sleep advances exactly; the shared `active` flag, as a running loop
    reads it, is an environment input: it reads true until the quit trigger
    stores false at time `quitAt`; random draws are parameters. */
module Engine {

  datatype Point = Point(x: int, y: int)

  // ── Layout ──────────────────────────────────────────────────────────────

  const ClientW: int := 300
  const ClientH: int := 300
  const BtnW: int := 80
  const BtnH: int := 30
  const Pad: int := 10

  /** btnCorners: top-left, top-right, bottom-right, bottom-left. */
  const BtnCorners: seq<Point> := [
    Point(Pad, Pad),
    Point(ClientW - BtnW - Pad, Pad),
    Point(ClientW - BtnW - Pad, ClientH - BtnH - Pad),
    Point(Pad, ClientH - BtnH - Pad)
  ]

  /** btnCorners[idx % 4]: where cycle idx puts the button. The whole 80x30
      button stays inside the 300x300 client area, `pad` clear of every edge. */
  function Corner(idx: nat): (c: Point)
    ensures Pad <= c.x && c.x + BtnW + Pad <= ClientW
    ensures Pad <= c.y && c.y + BtnH + Pad <= ClientH
    ensures c in BtnCorners
  {
    BtnCorners[idx % 4]
  }

  /** The four corners, in client coordinates. */
  lemma CornerValues()
    ensures BtnCorners == [Point(10, 10), Point(210, 10), Point(210, 260), Point(10, 260)]
  {
  }

  /** Placements repeat every four cycles, and within a period all differ. */
  lemma CornerPeriodic(i: nat, j: nat)
    ensures Corner(i + 4) == Corner(i)
    ensures Corner(i) == Corner(j) <==> i % 4 == j % 4
  {
  }

  /** Consecutive placements are clockwise neighbours: they share exactly one
      coordinate (the button walks along an edge). */
  lemma CornersClockwise(k: nat)
    ensures (Corner(k).x == Corner(k + 1).x) != (Corner(k).y == Corner(k + 1).y)
  {
  }

  /** The button's centre in client coordinates: c + (btnW/2, btnH/2). */
  function Center(c: Point): Point
  {
    Point(c.x + BtnW / 2, c.y + BtnH / 2)
  }

  /** The screen point the cursor aims at in cycle k, when the client area's
      top-left corner is at `origin` on the screen (platformClientToScreen). */
  function Target(origin: Point, k: nat): Point
  {
    var ctr := Center(Corner(k));
    Point(origin.x + ctr.x, origin.y + ctr.y)
  }

  // ── Effects ─────────────────────────────────────────────────────────────

  /** A call into the platform layer, or the start of the loop goroutine. */
  datatype Effect =
    | PreventSleep
    | AllowSleep
    | MoveButton(x: int, y: int)
    | ReinforceTopmost
    | ClientToScreen(x: int, y: int)
    | GetCursorPos
    | SetCursorPos(x: int, y: int)
    | Click
    | SetButtonActive(on: bool)
    | StartLoop
    | Quit

  /** The number of occurrences of `e` in `es`. */
  function Count(es: seq<Effect>, e: Effect): (n: nat)
    ensures n <= |es|
    ensures n == 0 <==> e !in es
    ensures n == |es| <==> forall i :: 0 <= i < |es| ==> es[i] == e
  {
    if es == [] then 0 else Count(es[..|es| - 1], e) + (if es[|es| - 1] == e then 1 else 0)
  }

  lemma {:induction false} CountAppend(a: seq<Effect>, b: seq<Effect>, e: Effect)
    ensures Count(a + b, e) == Count(a, e) + Count(b, e)
    decreases |b|
  {
    if b == [] {
      assert a + b == a;
    } else {
      assert (a + b)[..|a + b| - 1] == a + b[..|b| - 1];
      CountAppend(a, b[..|b| - 1], e);
    }
  }

  // ── Activation flag and clock ───────────────────────────────────────────

  /** active.Load() at time t, when the quit trigger stores false at quitAt. */
  predicate ActiveAt(quitAt: int, t: int)
  {
    t < quitAt
  }

  function Sum(s: seq<int>): int
  {
    if s == [] then 0 else Sum(s[..|s| - 1]) + s[|s| - 1]
  }

  /** Where sleepWithCancel(d), begun at `now`, returns: while time remains
      and the flag is set it sleeps 100 ms, or what remains when that is less. */
  function SleepEnd(now: int, d: int, quitAt: int): int
    decreases d
  {
    if d <= 0 || !ActiveAt(quitAt, now) then now
    else if d <= 100 then now + d
    else SleepEnd(now + 100, d - 100, quitAt)
  }

  /** A wait begun with the flag set ends at the first 100 ms checkpoint at
      or after the quit, or at the end of the wait, whichever comes first. */
  lemma {:induction false} SleepEndCheckpoint(now: int, d: int, quitAt: int)
    requires d >= 0 && ActiveAt(quitAt, now)
    ensures var first := now + 100 * ((quitAt - now + 99) / 100);
            SleepEnd(now, d, quitAt) == if first < now + d then first else now + d
    decreases d
  {
    if d > 100 && ActiveAt(quitAt, now + 100) {
      SleepEndCheckpoint(now + 100, d - 100, quitAt);
      assert (quitAt - now + 99) / 100 == (quitAt - (now + 100) + 99) / 100 + 1;
    }
  }

  /** sleepWithCancel(d) started at time `now`: sleeps in slices of at most
      100 ms, each cut short so as not to pass now+d, while the flag stays
      set. Returns the slices handed to time.Sleep and the time it returns. */
  method SleepWithCancel(now: int, d: int, quitAt: int) returns (slices: seq<int>, t: int)
    ensures t == now + Sum(slices)
    ensures forall i :: 0 <= i < |slices| ==> 0 < slices[i] <= 100
    ensures now <= t && (t <= now + d || t == now)
    ensures !ActiveAt(quitAt, now) || d <= 0 ==> slices == [] && t == now
    ensures d >= 0 && quitAt >= now + d ==> t == now + d
    ensures t < now + d ==> !ActiveAt(quitAt, t)
    ensures ActiveAt(quitAt, now) ==> t < quitAt + 100
    // it returns with the flag still set only after the full wait
    ensures d >= 0 && ActiveAt(quitAt, now) ==> (ActiveAt(quitAt, t) <==> ActiveAt(quitAt, now + d))
    ensures d >= 0 && ActiveAt(quitAt, t) ==> t == now + d
    ensures t == SleepEnd(now, d, quitAt)
  {
    var end := now + d;
    t, slices := now, [];
    while t < end && ActiveAt(quitAt, t)
      invariant now <= t && (t <= end || t == now)
      invariant t == now + Sum(slices)
      invariant forall i :: 0 <= i < |slices| ==> 0 < slices[i] <= 100
      invariant (!ActiveAt(quitAt, now) || d <= 0) ==> slices == [] && t == now
      invariant ActiveAt(quitAt, now) ==> t < quitAt + 100
      invariant SleepEnd(t, end - t, quitAt) == SleepEnd(now, d, quitAt)
      decreases end - t
    {
      var remaining := end - t;
      var s := if remaining > 100 then 100 else remaining;
      assert (slices + [s])[..|slices|] == slices;
      slices, t := slices + [s], t + s;
    }
  }

  // ── Random delay ────────────────────────────────────────────────────────

  /** A value rand.Intn(4001) can return. */
  type Roll = n: int | 0 <= n <= 4000

  /** randomDelay's duration in milliseconds: 1000 + rand.Intn(4001). */
  function RandomDelayMs(n: Roll): (ms: int)
    ensures 1000 <= ms <= 5000
  {
    1000 + n
  }

  /** Every duration of [1000, 5000] ms is one the delay can take. */
  lemma RandomDelayCoversRange(ms: int)
    requires 1000 <= ms <= 5000
    ensures exists n: Roll :: RandomDelayMs(n) == ms
  {
    var n: Roll := ms - 1000;
    assert RandomDelayMs(n) == ms;
  }

  // ── Bezier cursor move ──────────────────────────────────────────────────

  /** math.Round: to the nearest integer, halves away from zero. */
  function RoundHalfAway(v: real): (r: int)
    ensures -0.5 <= r as real - v <= 0.5
    ensures r as real - v == 0.5 ==> v > 0.0
    ensures v - r as real == 0.5 ==> v < 0.0
  {
    if v >= 0.0 then (v + 0.5).Floor else -((-v + 0.5).Floor)
  }

  /** A whole number rounds to itself. */
  lemma RoundWhole(n: int)
    ensures RoundHalfAway(n as real) == n
  {
  }

  /** The quadratic Bezier curve B(t) = (1-t)^2 p0 + 2(1-t)t p1 + t^2 p2, one coordinate. */
  function Bezier(p0: real, p1: real, p2: real, t: real): real
  {
    (1.0 - t) * (1.0 - t) * p0 + 2.0 * (1.0 - t) * t * p1 + t * t * p2
  }

  function Min3(a: real, b: real, c: real): real
  {
    if a <= b && a <= c then a else if b <= c then b else c
  }

  function Max3(a: real, b: real, c: real): real
  {
    if a >= b && a >= c then a else if b >= c then b else c
  }

  /** The curve starts at p0 and ends exactly at p2: at t = 1 the other terms vanish. */
  lemma BezierEndpoints(p0: real, p1: real, p2: real)
    ensures Bezier(p0, p1, p2, 0.0) == p0
    ensures Bezier(p0, p1, p2, 1.0) == p2
  {
  }

  lemma MulNonneg(a: real, b: real)
    requires a >= 0.0 && b >= 0.0
    ensures a * b >= 0.0
  {
  }

  lemma SquareNonneg(a: real)
    ensures a * a >= 0.0
  {
    if a >= 0.0 { MulNonneg(a, a); } else { MulNonneg(-a, -a); }
  }

  /** A convex combination of three values lies between their bounds. */
  lemma ConvexBounds(a: real, b: real, c: real, x: real, y: real, z: real, lo: real, hi: real)
    requires a >= 0.0 && b >= 0.0 && c >= 0.0 && a + b + c == 1.0
    requires lo <= x <= hi && lo <= y <= hi && lo <= z <= hi
    ensures lo <= a * x + b * y + c * z <= hi
  {
    MulNonneg(a, x - lo); MulNonneg(b, y - lo); MulNonneg(c, z - lo);
    MulNonneg(a, hi - x); MulNonneg(b, hi - y); MulNonneg(c, hi - z);
    assert a * lo + b * lo + c * lo == lo;
    assert a * hi + b * hi + c * hi == hi;
  }

  /** For t in [0, 1] the curve stays within the bounds of its three points. */
  lemma BezierInHull(p0: real, p1: real, p2: real, t: real)
    requires 0.0 <= t <= 1.0
    ensures Min3(p0, p1, p2) <= Bezier(p0, p1, p2, t) <= Max3(p0, p1, p2)
  {
    var a, b, c := (1.0 - t) * (1.0 - t), 2.0 * (1.0 - t) * t, t * t;
    MulNonneg(1.0 - t, 1.0 - t);
    MulNonneg(2.0 * (1.0 - t), t);
    MulNonneg(t, t);
    assert a + b + c == 1.0;
    ConvexBounds(a, b, c, p0, p1, p2, Min3(p0, p1, p2), Max3(p0, p1, p2));
  }

  /** A value (rand.Float64()*2 - 1) of the random bend, in [-1, 1). */
  type Bend = u: real | -1.0 <= u < 1.0

  /** A square is never negative, and is below 4 only for -1, 0 and 1. */
  lemma SmallSquare(a: int)
    ensures a * a >= 0 && (a * a < 4 <==> -1 <= a <= 1) && (a == 0 <==> a * a == 0)
  {
    if a >= 2 {
      assert a * a >= 2 * a;
    } else if a <= -2 {
      assert a * a >= -2 * a;
    }
  }

  /** dx*dx + dy*dy: the squared distance. For integers, sqrt of it is below 2
      exactly when it is below 4: the target is within one pixel in each axis. */
  function Dist2(from: Point, to: Point): (d: int)
    ensures d >= 0
    ensures d == 0 <==> from == to
    ensures d < 4 <==> -1 <= to.x - from.x <= 1 && -1 <= to.y - from.y <= 1
  {
    SmallSquare(to.x - from.x);
    SmallSquare(to.y - from.y);
    (to.x - from.x) * (to.x - from.x) + (to.y - from.y) * (to.y - from.y)
  }

  /** The control point: the segment's midpoint moved along the unit
      perpendicular (-dy, dx)/dist by the amplitude u*dist/3. The distance
      cancels, leaving the offset u*(-dy, dx)/3. */
  function ControlX(from: Point, to: Point, u: Bend): real
  {
    from.x as real + (to.x - from.x) as real / 2.0 - u * (to.y - from.y) as real / 3.0
  }

  function ControlY(from: Point, to: Point, u: Bend): real
  {
    from.y as real + (to.y - from.y) as real / 2.0 + u * (to.x - from.x) as real / 3.0
  }

  /** The control point sits on the perpendicular bisector of from→to, at most
      a third of the segment's length from its midpoint. */
  lemma ControlPointGeometry(from: Point, to: Point, u: Bend)
    ensures var ox, oy := ControlX(from, to, u) - (from.x as real + (to.x - from.x) as real / 2.0),
                          ControlY(from, to, u) - (from.y as real + (to.y - from.y) as real / 2.0);
            ox * (to.x - from.x) as real + oy * (to.y - from.y) as real == 0.0 &&
            9.0 * (ox * ox + oy * oy) <= Dist2(from, to) as real
  {
    var v: real := u;
    var dx, dy := (to.x - from.x) as real, (to.y - from.y) as real;
    var ox, oy := -v * dy / 3.0, v * dx / 3.0;
    assert ControlX(from, to, u) - (from.x as real + dx / 2.0) == ox;
    assert ControlY(from, to, u) - (from.y as real + dy / 2.0) == oy;
    assert 9.0 * (ox * ox + oy * oy) == v * v * (dx * dx + dy * dy);
    MulNonneg(1.0 - v, 1.0 + v);
    assert v * v <= 1.0;
    SquareNonneg(dx); SquareNonneg(dy);
    assert dx * dx + dy * dy >= 0.0;
    MulNonneg(1.0 - v * v, dx * dx + dy * dy);
    assert v * v * (dx * dx + dy * dy) <= dx * dx + dy * dy;
    assert Dist2(from, to) as real == dx * dx + dy * dy;
  }

  const Steps: nat := 25
  const StepDelay: nat := 4

  /** The i-th point the curve move sets: B(i/25) with each coordinate rounded. */
  function Sample(from: Point, to: Point, u: Bend, i: nat): Point
  {
    var t := i as real / Steps as real;
    Point(RoundHalfAway(Bezier(from.x as real, ControlX(from, to, u), to.x as real, t)),
          RoundHalfAway(Bezier(from.y as real, ControlY(from, to, u), to.y as real, t)))
  }

  /** The 25th sample is exactly the target. */
  lemma LastSampleIsTarget(from: Point, to: Point, u: Bend)
    ensures Sample(from, to, u, Steps) == to
  {
    BezierEndpoints(from.x as real, ControlX(from, to, u), to.x as real);
    BezierEndpoints(from.y as real, ControlY(from, to, u), to.y as real);
    RoundWhole(to.x);
    RoundWhole(to.y);
  }

  /** Every sample lies within half a pixel of the box spanned by the start,
      the control point and the target. */
  lemma SampleNearHull(from: Point, to: Point, u: Bend, i: nat)
    requires i <= Steps
    ensures var s := Sample(from, to, u, i);
            Min3(from.x as real, ControlX(from, to, u), to.x as real) - 0.5 <= s.x as real
              <= Max3(from.x as real, ControlX(from, to, u), to.x as real) + 0.5 &&
            Min3(from.y as real, ControlY(from, to, u), to.y as real) - 0.5 <= s.y as real
              <= Max3(from.y as real, ControlY(from, to, u), to.y as real) + 0.5
  {
    var t := i as real / Steps as real;
    BezierInHull(from.x as real, ControlX(from, to, u), to.x as real, t);
    BezierInHull(from.y as real, ControlY(from, to, u), to.y as real, t);
  }

  /** The points moveCursorAlongCurve sets: one jump onto a target less than
      two pixels away, otherwise the 25 rounded curve samples. */
  function CurvePath(from: Point, to: Point, u: Bend): seq<Point>
  {
    if Dist2(from, to) < 4 then [to] else seq(Steps, i requires 0 <= i < Steps => Sample(from, to, u, i + 1))
  }

  /** How long the move sleeps: nothing for the jump, 25 steps of 4 ms otherwise. */
  function CurveTime(from: Point, to: Point): nat
  {
    if Dist2(from, to) < 4 then 0 else StepDelay * Steps
  }

  /** moveCursorAlongCurve(to) from the cursor position `from` (what
      platformGetCursorPos returned), starting at time `now`. Returns the
      points passed to platformSetCursorPos, the time of each call, and the
      time it returns. */
  method MoveCursorAlongCurve(from: Point, to: Point, u: Bend, now: int)
    returns (path: seq<Point>, stamps: seq<int>, t: int)
    ensures Dist2(from, to) < 4 ==> path == [to] && stamps == [now] && t == now
    ensures Dist2(from, to) >= 4 ==>
              |path| == Steps && t == now + StepDelay * Steps &&
              (forall i :: 0 <= i < Steps ==> path[i] == Sample(from, to, u, i + 1))
    ensures |path| == |stamps| && path != [] && path[|path| - 1] == to
    ensures forall i :: 0 <= i < |stamps| ==> stamps[i] == now + StepDelay * i && stamps[i] <= t
    ensures path == CurvePath(from, to, u) && t == now + CurveTime(from, to)
  {
    if Dist2(from, to) < 4 {
      path, stamps, t := [to], [now], now;
      return;
    }
    path, stamps, t := [], [], now;
    var i := 1;
    while i <= Steps
      invariant 1 <= i <= Steps + 1
      invariant |path| == i - 1 && |stamps| == i - 1
      invariant forall k :: 0 <= k < i - 1 ==> path[k] == Sample(from, to, u, k + 1)
      invariant forall k :: 0 <= k < i - 1 ==> stamps[k] == now + StepDelay * k
      invariant t == now + StepDelay * (i - 1)
    {
      path, stamps := path + [Sample(from, to, u, i)], stamps + [t];
      t := t + StepDelay;
      i := i + 1;
    }
    LastSampleIsTarget(from, to, u);
  }

  // ── Alive loop ──────────────────────────────────────────────────────────

  /** How far one pass of the loop body got: the button placed (then the
      first re-check failed), the cursor moved (then the second failed), or
      the click made. */
  datatype Stage = Placed | Aimed | Clicked

  /** One pass of the loop body: its stage and the cursor path it drove. */
  datatype Cycle = Cycle(stage: Stage, path: seq<Point>)

  function CursorMoves(path: seq<Point>): (es: seq<Effect>)
    ensures |es| == |path|
  {
    seq(|path|, i requires 0 <= i < |path| => SetCursorPos(path[i].x, path[i].y))
  }

  /** The times of n cursor moves begun at `now`, 4 ms apart. */
  function MoveTimes(now: int, n: nat): (ts: seq<int>)
    ensures |ts| == n
  {
    seq(n, i requires 0 <= i < n => now + StepDelay * i)
  }

  /** The effects of the pass with index k, in order: the button placed at
      corner k%4 and kept topmost, then, past the first re-check, the cursor
      read and driven, then, past the second, the click. */
  function CycleEffects(k: nat, origin: Point, cy: Cycle): seq<Effect>
  {
    var c := Corner(k);
    var ctr := Center(c);
    [MoveButton(c.x, c.y), ReinforceTopmost]
    + (if cy.stage == Placed then [] else [ClientToScreen(ctr.x, ctr.y), GetCursorPos] + CursorMoves(cy.path))
    + (if cy.stage == Clicked then [Click] else [])
  }

  /** A pass always places the button first; it reads the cursor exactly
      when it got past the first re-check, and clicks exactly when it got
      past the second. */
  lemma PassEffects(k: nat, origin: Point, cy: Cycle)
    ensures var es := CycleEffects(k, origin, cy);
            |es| >= 2 && es[..2] == [MoveButton(Corner(k).x, Corner(k).y), ReinforceTopmost] &&
            (GetCursorPos in es <==> cy.stage != Placed) &&
            (Click in es <==> cy.stage == Clicked)
  {
  }

  /** The effects of passes 0, 1, ..., in order. */
  function CyclesEffects(origin: Point, cycles: seq<Cycle>): seq<Effect>
  {
    if cycles == [] then []
    else CyclesEffects(origin, cycles[..|cycles| - 1]) + CycleEffects(|cycles| - 1, origin, cycles[|cycles| - 1])
  }

  /** A pass that moved the cursor drove it (by one jump or 25 curve steps)
      onto the button centre of corner k. */
  predicate Reaches(origin: Point, k: nat, cy: Cycle)
  {
    cy.stage != Placed ==>
      (|cy.path| == 1 || |cy.path| == Steps) && cy.path[|cy.path| - 1] == Target(origin, k)
  }

  /** Every pass but the last clicked, and every pass reached its target. */
  predicate WellFormedRun(origin: Point, cycles: seq<Cycle>)
  {
    && (forall k :: 0 <= k < |cycles| - 1 ==> cycles[k].stage == Clicked)
    && (forall k :: 0 <= k < |cycles| ==> Reaches(origin, k, cycles[k]))
  }

  /** A run of clicked passes stays well formed when any pass that reaches its
      target is added, and stays a run of clicked passes when that pass clicked. */
  lemma RunExtend(origin: Point, cycles: seq<Cycle>, cy: Cycle)
    requires forall k :: 0 <= k < |cycles| ==> cycles[k].stage == Clicked
    requires forall k :: 0 <= k < |cycles| ==> Reaches(origin, k, cycles[k])
    requires Reaches(origin, |cycles|, cy)
    ensures WellFormedRun(origin, cycles + [cy])
    ensures forall k :: 0 <= k < |cycles + [cy]| ==> Reaches(origin, k, (cycles + [cy])[k])
    ensures cy.stage == Clicked ==> forall k :: 0 <= k < |cycles + [cy]| ==> (cycles + [cy])[k].stage == Clicked
  {
    var run := cycles + [cy];
    forall k | 0 <= k < |run| ensures Reaches(origin, k, run[k]) {
      if k < |cycles| { assert run[k] == cycles[k]; }
    }
  }

  lemma {:induction false} CyclesHoldNoLease(origin: Point, cycles: seq<Cycle>)
    ensures PreventSleep !in CyclesEffects(origin, cycles)
    ensures AllowSleep !in CyclesEffects(origin, cycles)
    decreases |cycles|
  {
    if cycles != [] {
      CyclesHoldNoLease(origin, cycles[..|cycles| - 1]);
    }
  }

  /** Between the opening PreventSleep and the closing AllowSleep, a run
      neither acquires nor releases the sleep lease. */
  lemma LeaseBracket(origin: Point, cycles: seq<Cycle>, effects: seq<Effect>)
    requires effects == [PreventSleep] + CyclesEffects(origin, cycles) + [AllowSleep]
    ensures forall i :: 0 < i < |effects| - 1 ==> effects[i] != PreventSleep && effects[i] != AllowSleep
  {
    var mid := CyclesEffects(origin, cycles);
    CyclesHoldNoLease(origin, cycles);
    forall i | 0 < i < |effects| - 1
      ensures effects[i] != PreventSleep && effects[i] != AllowSleep
    {
      assert effects[i] == mid[i - 1];
    }
  }

  /** Each time is no earlier than the one before it. */
  predicate Ascending(ts: seq<int>)
  {
    forall i :: 0 < i < |ts| ==> ts[i - 1] <= ts[i]
  }

  /** Every click in `es` was issued, at the matching time of `ts`, while the
      flag was still set. */
  predicate ClicksWhileActive(es: seq<Effect>, ts: seq<int>, quitAt: int)
    requires |es| == |ts|
  {
    forall i :: 0 <= i < |es| && es[i] == Click ==> ActiveAt(quitAt, ts[i])
  }

  lemma JoinTimed(es1: seq<Effect>, ts1: seq<int>, es2: seq<Effect>, ts2: seq<int>, quitAt: int)
    requires |es1| == |ts1| && |es2| == |ts2|
    requires Ascending(ts1) && Ascending(ts2)
    requires ts1 != [] && ts2 != [] ==> ts1[|ts1| - 1] <= ts2[0]
    requires ClicksWhileActive(es1, ts1, quitAt) && ClicksWhileActive(es2, ts2, quitAt)
    ensures Ascending(ts1 + ts2)
    ensures ClicksWhileActive(es1 + es2, ts1 + ts2, quitAt)
  {
    forall i | 0 < i < |ts1 + ts2|
      ensures (ts1 + ts2)[i - 1] <= (ts1 + ts2)[i]
    {
      if i == |ts1| { assert (ts1 + ts2)[i] == ts2[0]; }
    }
    forall i | 0 <= i < |es1 + es2| && (es1 + es2)[i] == Click
      ensures ActiveAt(quitAt, (ts1 + ts2)[i])
    {
      if i >= |es1| { assert (es1 + es2)[i] == es2[i - |es1|]; }
    }
  }

  /** The aiming part of a pass over corner idx, from time `now`: the button
      centre converted to screen coordinates, the cursor read, and the cursor
      driven from where it was read onto the centre. */
  method AimAt(idx: nat, now: int, quitAt: int, origin: Point, cursorAt: int -> Point, u: Bend)
    returns (es: seq<Effect>, ts: seq<int>, path: seq<Point>, t: int)
    ensures es == [ClientToScreen(Center(Corner(idx)).x, Center(Corner(idx)).y), GetCursorPos] + CursorMoves(path)
    ensures path == CurvePath(cursorAt(now), Target(origin, idx), u)
    ensures t == now + CurveTime(cursorAt(now), Target(origin, idx))
    ensures (|path| == 1 || |path| == Steps) && path[|path| - 1] == Target(origin, idx)
    ensures ts == [now, now] + MoveTimes(now, |path|)
    ensures |ts| == |es| && ts[0] == now && ts[|ts| - 1] <= t
    ensures Ascending(ts) && ClicksWhileActive(es, ts, quitAt)
  {
    var ctr := Center(Corner(idx));
    var target := Point(origin.x + ctr.x, origin.y + ctr.y);
    var from := cursorAt(now);
    var stamps;
    path, stamps, t := MoveCursorAlongCurve(from, target, u, now);
    es, ts := [ClientToScreen(ctr.x, ctr.y), GetCursorPos] + CursorMoves(path), [now, now] + stamps;
    assert forall i :: 2 <= i < |es| ==> es[i] == CursorMoves(path)[i - 2];
  }

  /** The waits after placing the button and after aiming. */
  const PlaceWait: int := 400
  const AimWait: int := 200

  /** When pass k, begun at time t with the flag set all along, clicks: after
      the 400 ms wait, the move from where the cursor then is, and the 200 ms
      wait. */
  function ClickTime(k: nat, t: int, origin: Point, cursorAt: int -> Point): int
  {
    var t1 := t + PlaceWait;
    t1 + CurveTime(cursorAt(t1), Target(origin, k)) + AimWait
  }

  /** The time of each effect of pass k begun at time t: the placing at t,
      the cursor read 400 ms later, the moves 4 ms apart from then on, and
      the click at its click time. */
  function CycleTimes(k: nat, t: int, origin: Point, cursorAt: int -> Point, cy: Cycle): seq<int>
  {
    var t1 := t + PlaceWait;
    [t, t]
    + (if cy.stage == Placed then [] else [t1, t1] + MoveTimes(t1, |cy.path|))
    + (if cy.stage == Clicked then [ClickTime(k, t, origin, cursorAt)] else [])
  }

  /** Each effect of a pass against its time: the placing at the start, the
      cursor read 400 ms in, move i 4i ms after that, the click at its click
      time. */
  lemma PassTimes(k: nat, t: int, origin: Point, cursorAt: int -> Point, cy: Cycle)
    ensures var es := CycleEffects(k, origin, cy);
            var ts := CycleTimes(k, t, origin, cursorAt, cy);
            && |ts| == |es| && ts[0] == t && ts[1] == t
            && (forall i :: 0 <= i < |es| && es[i] == GetCursorPos ==> ts[i] == t + PlaceWait)
            && (forall i :: 0 <= i < |es| && es[i] == Click ==> ts[i] == ClickTime(k, t, origin, cursorAt))
            && (cy.stage != Placed ==>
                  forall i :: 0 <= i < |cy.path| ==>
                    es[4 + i] == SetCursorPos(cy.path[i].x, cy.path[i].y) && ts[4 + i] == t + PlaceWait + StepDelay * i)
  {
  }

  /** The times of passes 0, 1, ..., begun at starts[0], starts[1], .... */
  function RunTimes(origin: Point, cursorAt: int -> Point, cycles: seq<Cycle>, starts: seq<int>): seq<int>
    requires |starts| == |cycles|
  {
    if cycles == [] then []
    else RunTimes(origin, cursorAt, cycles[..|cycles| - 1], starts[..|starts| - 1])
         + CycleTimes(|cycles| - 1, starts[|starts| - 1], origin, cursorAt, cycles[|cycles| - 1])
  }

  /** Pass k, begun at time t with the flag set and returning at `after`, with
      bend u and delay draw `roll`: it got past the first re-check exactly
      when the flag was still set 400 ms in, then drove the cursor from where
      it was read at that moment; it clicked exactly when the flag was still
      set at the click time; and after a click it waited out the random delay
      unless the quit cut it short. */
  predicate PassFits(k: nat, t: int, after: int, quitAt: int, origin: Point, cursorAt: int -> Point,
                     u: Bend, roll: Roll, cy: Cycle)
  {
    var click := ClickTime(k, t, origin, cursorAt);
    && ActiveAt(quitAt, t)
    && (cy.stage == Placed <==> !ActiveAt(quitAt, t + PlaceWait))
    && (cy.stage != Placed ==> cy.path == CurvePath(cursorAt(t + PlaceWait), Target(origin, k), u))
    && (cy.stage == Clicked <==> ActiveAt(quitAt, click))
    && (cy.stage == Clicked ==> click <= after <= click + RandomDelayMs(roll))
    && (cy.stage == Clicked && click + RandomDelayMs(roll) <= quitAt ==> after == click + RandomDelayMs(roll))
    && (cy.stage == Clicked && after < click + RandomDelayMs(roll) ==> !ActiveAt(quitAt, after))
    // each wait ends where sleepWithCancel returns, never past its own end
    && (cy.stage == Placed ==> after <= t + PlaceWait && after == SleepEnd(t, PlaceWait, quitAt))
    && (cy.stage == Aimed ==> after <= click && after == SleepEnd(click - AimWait, AimWait, quitAt))
    && (cy.stage == Clicked ==> after == SleepEnd(click, RandomDelayMs(roll), quitAt))
  }

  /** The rest of pass k, entered at `now` with the flag found set and
      returning at `after`: the cursor driven from where it was read at
      `now`; a click exactly when the flag is still set at the click time,
      after the move and the 200 ms wait; then the random delay. Each wait
      ends where sleepWithCancel returns, and `ts` stamps each effect. */
  predicate AimFits(k: nat, now: int, after: int, quitAt: int, origin: Point, cursorAt: int -> Point,
                    u: Bend, roll: Roll, cy: Cycle, ts: seq<int>)
  {
    var click := now + CurveTime(cursorAt(now), Target(origin, k)) + AimWait;
    && cy.stage != Placed && cy.path == CurvePath(cursorAt(now), Target(origin, k), u)
    && (cy.stage == Clicked <==> ActiveAt(quitAt, click))
    && (cy.stage == Clicked ==> click <= after <= click + RandomDelayMs(roll))
    && (cy.stage == Clicked && click + RandomDelayMs(roll) <= quitAt ==> after == click + RandomDelayMs(roll))
    && (cy.stage == Clicked && after < click + RandomDelayMs(roll) ==> !ActiveAt(quitAt, after))
    && (cy.stage == Aimed ==> after <= click && after == SleepEnd(click - AimWait, AimWait, quitAt))
    && (cy.stage == Clicked ==> after == SleepEnd(click, RandomDelayMs(roll), quitAt))
    && ts == [now, now] + MoveTimes(now, |cy.path|) + (if cy.stage == Clicked then [click] else [])
  }

  /** A pass that found the flag set 400 ms in and then went on as AimFits
      says fits the pass begun at t, with the times CycleTimes gives. */
  lemma FitsAfterAim(k: nat, t: int, after: int, quitAt: int, origin: Point, cursorAt: int -> Point,
                     u: Bend, roll: Roll, cy: Cycle, ts: seq<int>)
    requires ActiveAt(quitAt, t) && ActiveAt(quitAt, t + PlaceWait)
    requires AimFits(k, t + PlaceWait, after, quitAt, origin, cursorAt, u, roll, cy, ts)
    ensures PassFits(k, t, after, quitAt, origin, cursorAt, u, roll, cy)
    ensures [t, t] + ts == CycleTimes(k, t, origin, cursorAt, cy)
  {
  }

  /** The rest of a pass once the button has been placed and the flag found
      still set at time `now`: aim, wait 200 ms, and click if the flag is
      still set, then the random delay. */
  method AimAndClick(idx: nat, now: int, quitAt: int, origin: Point, cursorAt: int -> Point, u: Bend, roll: Roll)
    returns (es: seq<Effect>, ts: seq<int>, after: int, cy: Cycle)
    requires ActiveAt(quitAt, now)
    ensures cy.stage != Placed && cy.path == CurvePath(cursorAt(now), Target(origin, idx), u)
    ensures Reaches(origin, idx, cy)
    ensures es == [ClientToScreen(Center(Corner(idx)).x, Center(Corner(idx)).y), GetCursorPos] + CursorMoves(cy.path)
                  + (if cy.stage == Clicked then [Click] else [])
    ensures |ts| == |es| && ts[0] == now && ts[|ts| - 1] <= after
    ensures AimFits(idx, now, after, quitAt, origin, cursorAt, u, roll, cy, ts)
    ensures cy.stage == Clicked ==> ts[|ts| - 1] == now + CurveTime(cursorAt(now), Target(origin, idx)) + AimWait
    ensures Ascending(ts) && ClicksWhileActive(es, ts, quitAt)
    ensures after < quitAt + 100
    ensures cy.stage != Clicked ==> !ActiveAt(quitAt, after)
  {
    var path, t2;
    es, ts, path, t2 := AimAt(idx, now, quitAt, origin, cursorAt, u);
    var _, t3 := SleepWithCancel(t2, AimWait, quitAt);
    if !ActiveAt(quitAt, t3) {
      after, cy := t3, Cycle(Aimed, path);
      return;
    }
    JoinTimed(es, ts, [Click], [t3], quitAt);
    es, ts := es + [Click], ts + [t3];
    var _, t4 := SleepWithCancel(t3, RandomDelayMs(roll), quitAt);
    after, cy := t4, Cycle(Clicked, path);
  }

  /** One pass of aliveLoop's body, entered at time t (the loop's check of
      the flag having just passed) and ending at a re-check that fails or
      after the post-click delay. */
  method AlivePass(idx: nat, t: int, quitAt: int, origin: Point, cursorAt: int -> Point, u: Bend, roll: Roll)
    returns (es: seq<Effect>, ts: seq<int>, after: int, cy: Cycle)
    requires ActiveAt(quitAt, t)
    ensures es == CycleEffects(idx, origin, cy)
    ensures Reaches(origin, idx, cy)
    ensures PassFits(idx, t, after, quitAt, origin, cursorAt, u, roll, cy)
    ensures |ts| == |es| && ts != [] && ts[0] == t && ts[|ts| - 1] <= after
    // the click is the pass's last effect, made at its click time
    ensures cy.stage == Clicked ==> ts[|ts| - 1] == ClickTime(idx, t, origin, cursorAt)
    ensures ts == CycleTimes(idx, t, origin, cursorAt, cy)
    ensures Ascending(ts) && ClicksWhileActive(es, ts, quitAt)
    ensures after < quitAt + 100
    ensures cy.stage != Clicked ==> !ActiveAt(quitAt, after)
  {
    var c := Corner(idx);
    es, ts := [MoveButton(c.x, c.y), ReinforceTopmost], [t, t];
    var _, t1 := SleepWithCancel(t, PlaceWait, quitAt);
    if !ActiveAt(quitAt, t1) {
      after, cy := t1, Cycle(Placed, []);
      return;
    }
    var rest, stamps;
    rest, stamps, after, cy := AimAndClick(idx, t1, quitAt, origin, cursorAt, u, roll);
    FitsAfterAim(idx, t, after, quitAt, origin, cursorAt, u, roll, cy, stamps);
    JoinTimed(es, ts, rest, stamps, quitAt);
    es, ts := es + rest, ts + stamps;
  }

  /** Pass k of the run began at bounds[k] and returned at bounds[k+1], and
      fits the flag and its random draws. */
  predicate RunFits(quitAt: int, origin: Point, cursorAt: int -> Point, bends: nat -> Bend, rolls: nat -> Roll,
                    cycles: seq<Cycle>, bounds: seq<int>)
  {
    && |bounds| == |cycles| + 1
    && forall k :: 0 <= k < |cycles| ==>
         PassFits(k, bounds[k], bounds[k + 1], quitAt, origin, cursorAt, bends(k), rolls(k), cycles[k])
  }

  /** aliveLoop started at time `start`. `origin` is the client area's screen
      position, cursorAt(t) what platformGetCursorPos returns at t, bends(k)
      and rolls(k) the random draws of pass k. Returns the effects in order,
      the time of each, the time the loop returns, its passes, and the times
      at which each pass began and the last one returned. */
  method AliveLoop(start: int, quitAt: int, origin: Point, cursorAt: int -> Point,
                   bends: nat -> Bend, rolls: nat -> Roll)
    returns (effects: seq<Effect>, times: seq<int>, stop: int, ghost cycles: seq<Cycle>, ghost bounds: seq<int>)
    // the sleep lease: acquired first, released last (the defer), each once
    ensures effects == [PreventSleep] + CyclesEffects(origin, cycles) + [AllowSleep]
    ensures forall i :: 0 < i < |effects| - 1 ==> effects[i] != PreventSleep && effects[i] != AllowSleep
    ensures WellFormedRun(origin, cycles)
    // pass k begins where pass k-1 returned and goes as far as the flag allows
    ensures RunFits(quitAt, origin, cursorAt, bends, rolls, cycles, bounds)
    ensures bounds[0] == start && bounds[|bounds| - 1] == stop
    ensures |times| == |effects| && times[0] == start && times[|times| - 1] == stop
    // every effect at its time: the passes' own, between the lease calls
    ensures times == [start] + RunTimes(origin, cursorAt, cycles, bounds[..|cycles|]) + [stop]
    ensures Ascending(times)
    // a click only ever happens while the flag is set
    ensures ClicksWhileActive(effects, times, quitAt)
    // disarmed on entry: no pass at all; otherwise it returns within 100 ms of the disarm
    ensures !ActiveAt(quitAt, start) ==> cycles == [] && stop == start
    ensures ActiveAt(quitAt, start) ==> cycles != [] && quitAt <= stop < quitAt + 100
  {
    effects, times := [PreventSleep], [start];
    var t := start;
    var idx: nat := 0;
    cycles, bounds := [], [start];
    var stopped := false;
    while !stopped && ActiveAt(quitAt, t)
      invariant idx == |cycles|
      invariant Progress(quitAt, origin, cursorAt, bends, rolls, cycles, bounds, t, stopped)
      invariant bounds[0] == start
      invariant Traced(start, quitAt, origin, cycles, effects, times, t)
      invariant Timed(start, origin, cursorAt, cycles, bounds, times)
      invariant !ActiveAt(quitAt, start) ==> cycles == [] && t == start
      invariant ActiveAt(quitAt, start) ==> start <= t < quitAt + 100 && (t != start ==> cycles != [])
      decreases quitAt - t
    {
      var es, ts, after, cy := AlivePass(idx, t, quitAt, origin, cursorAt, bends(idx), rolls(idx));
      LoopStep(quitAt, origin, cursorAt, bends, rolls, cycles, bounds, t, cy, after);
      TraceStep(start, quitAt, origin, cycles, cy, effects, times, t, es, ts, after);
      TimedStep(start, origin, cursorAt, cycles, bounds, times, cy, ts, after);
      effects, times := effects + es, times + ts;
      cycles, bounds := cycles + [cy], bounds + [after];
      t := after;
      stopped := cy.stage != Clicked;
      idx := idx + 1;
    }
    JoinTimed(effects, times, [AllowSleep], [t], quitAt);
    effects, times := effects + [AllowSleep], times + [t];
    stop := t;
    LeaseBracket(origin, cycles, effects);
  }

  /** A run that fits stays fitting when a pass that fits, begun where the
      run returned, is added. */
  lemma FitsExtend(quitAt: int, origin: Point, cursorAt: int -> Point, bends: nat -> Bend, rolls: nat -> Roll,
                   cycles: seq<Cycle>, bounds: seq<int>, cy: Cycle, after: int)
    requires RunFits(quitAt, origin, cursorAt, bends, rolls, cycles, bounds)
    requires PassFits(|cycles|, bounds[|cycles|], after, quitAt, origin, cursorAt, bends(|cycles|), rolls(|cycles|), cy)
    ensures RunFits(quitAt, origin, cursorAt, bends, rolls, cycles + [cy], bounds + [after])
    ensures (bounds + [after])[0] == bounds[0] && (bounds + [after])[|bounds|] == after
  {
    var run, ends := cycles + [cy], bounds + [after];
    forall k | 0 <= k < |run|
      ensures PassFits(k, ends[k], ends[k + 1], quitAt, origin, cursorAt, bends(k), rolls(k), run[k])
    {
      if k < |cycles| {
        assert run[k] == cycles[k] && ends[k] == bounds[k] && ends[k + 1] == bounds[k + 1];
      }
    }
  }

  /** What the loop knows of the passes so far, having reached time t: each
      fits and reached its target, and either all clicked or the last one
      stopped the loop with the flag clear. */
  predicate Progress(quitAt: int, origin: Point, cursorAt: int -> Point, bends: nat -> Bend, rolls: nat -> Roll,
                     cycles: seq<Cycle>, bounds: seq<int>, t: int, stopped: bool)
  {
    && RunFits(quitAt, origin, cursorAt, bends, rolls, cycles, bounds)
    && bounds[|cycles|] == t
    && (forall k :: 0 <= k < |cycles| ==> Reaches(origin, k, cycles[k]))
    && (if stopped then !ActiveAt(quitAt, t) && WellFormedRun(origin, cycles)
        else forall k :: 0 <= k < |cycles| ==> cycles[k].stage == Clicked)
  }

  /** The loop's trace so far, at time t: the lease taken and the passes'
      effects, each stamped, in order, with clicks only while the flag is set. */
  predicate Traced(start: int, quitAt: int, origin: Point, cycles: seq<Cycle>,
                   effects: seq<Effect>, times: seq<int>, t: int)
  {
    && effects == [PreventSleep] + CyclesEffects(origin, cycles)
    && |times| == |effects| && times[0] == start && times[|times| - 1] <= t
    && Ascending(times) && ClicksWhileActive(effects, times, quitAt)
  }

  /** The loop's knowledge of its passes is kept by one more pass. */
  lemma LoopStep(quitAt: int, origin: Point, cursorAt: int -> Point, bends: nat -> Bend, rolls: nat -> Roll,
                 cycles: seq<Cycle>, bounds: seq<int>, t: int, cy: Cycle, after: int)
    requires Progress(quitAt, origin, cursorAt, bends, rolls, cycles, bounds, t, false)
    requires PassFits(|cycles|, t, after, quitAt, origin, cursorAt, bends(|cycles|), rolls(|cycles|), cy)
    requires cy.stage != Clicked ==> !ActiveAt(quitAt, after)
    requires Reaches(origin, |cycles|, cy)
    ensures Progress(quitAt, origin, cursorAt, bends, rolls, cycles + [cy], bounds + [after], after, cy.stage != Clicked)
    ensures (bounds + [after])[0] == bounds[0]
  {
    RunExtend(origin, cycles, cy);
    FitsExtend(quitAt, origin, cursorAt, bends, rolls, cycles, bounds, cy, after);
  }

  /** The loop's trace is kept by one more pass's effects. */
  lemma TraceStep(start: int, quitAt: int, origin: Point, cycles: seq<Cycle>, cy: Cycle,
                  effects: seq<Effect>, times: seq<int>, t: int, es: seq<Effect>, ts: seq<int>, after: int)
    requires Traced(start, quitAt, origin, cycles, effects, times, t)
    requires |ts| == |es| && ts != [] && ts[0] == t && ts[|ts| - 1] <= after
    requires es == CycleEffects(|cycles|, origin, cy)
    requires Ascending(ts) && ClicksWhileActive(es, ts, quitAt)
    ensures Traced(start, quitAt, origin, cycles + [cy], effects + es, times + ts, after)
  {
    CycleStep(origin, cycles, cy, effects, effects + es);
    JoinTimed(effects, times, es, ts, quitAt);
  }

  /** The loop's stamps so far: the lease call at the start, then each
      pass's effects at the times its start fixes. */
  predicate Timed(start: int, origin: Point, cursorAt: int -> Point, cycles: seq<Cycle>, bounds: seq<int>,
                  times: seq<int>)
  {
    |bounds| == |cycles| + 1 && times == [start] + RunTimes(origin, cursorAt, cycles, bounds[..|cycles|])
  }

  /** Appending one pass, begun where the run so far left off, extends the
      run's stamps by that pass's times. */
  lemma TimedStep(start: int, origin: Point, cursorAt: int -> Point, cycles: seq<Cycle>, bounds: seq<int>,
                  times: seq<int>, cy: Cycle, ts: seq<int>, after: int)
    requires Timed(start, origin, cursorAt, cycles, bounds, times)
    requires ts == CycleTimes(|cycles|, bounds[|cycles|], origin, cursorAt, cy)
    ensures Timed(start, origin, cursorAt, cycles + [cy], bounds + [after], times + ts)
  {
    var run, ends := cycles + [cy], bounds + [after];
    assert ends[..|run|] == bounds;
    assert run[..|cycles|] == cycles;
  }

  /** Appending one pass's effects extends the run by that pass. */
  lemma CycleStep(origin: Point, cycles: seq<Cycle>, cy: Cycle, before: seq<Effect>, after: seq<Effect>)
    requires before == [PreventSleep] + CyclesEffects(origin, cycles)
    requires after == before + CycleEffects(|cycles|, origin, cy)
    ensures after == [PreventSleep] + CyclesEffects(origin, cycles + [cy])
  {
  }

  // ── Handlers ────────────────────────────────────────────────────────────

  /** A callback the platform layer delivers: onButtonClicked or onHotkeyQuit. */
  datatype Trigger = ButtonClicked | HotkeyQuit

  /** A callback run with the flag at `active`: the flag afterwards and the
      effects it causes. */
  function React(active: bool, tr: Trigger): (r: (bool, seq<Effect>))
    ensures r.0 <==> tr == ButtonClicked
    ensures StartLoop in r.1 <==> tr == ButtonClicked && !active
    ensures Quit in r.1 <==> tr == HotkeyQuit
  {
    match tr
    case ButtonClicked => if active then (true, []) else (true, [SetButtonActive(true), StartLoop])
    case HotkeyQuit => (false, [Quit])
  }

  /** The flag and the effects after the callbacks `triggers`, in order, from
      the initial state (flag clear). */
  function Replay(triggers: seq<Trigger>): (bool, seq<Effect>)
  {
    if triggers == [] then (false, [])
    else
      var before := Replay(triggers[..|triggers| - 1]);
      var step := React(before.0, triggers[|triggers| - 1]);
      (step.0, before.1 + step.1)
  }

  /** A click while armed starts nothing: every alive loop but the current
      one was followed by a quit, and without a quit at most one loop is ever
      started, by the first click. The flag is set exactly when a click came
      after the last quit, so a quit always leaves it clear. */
  lemma {:induction false} OneLoopAtATime(triggers: seq<Trigger>)
    ensures Count(Replay(triggers).1, StartLoop) <=
            Count(Replay(triggers).1, Quit) + (if Replay(triggers).0 then 1 else 0)
    ensures HotkeyQuit !in triggers ==>
              Count(Replay(triggers).1, StartLoop) == (if ButtonClicked in triggers then 1 else 0) &&
              (Replay(triggers).0 <==> ButtonClicked in triggers)
    ensures triggers != [] && triggers[|triggers| - 1] == HotkeyQuit ==> !Replay(triggers).0
    decreases |triggers|
  {
    if triggers != [] {
      var init := triggers[..|triggers| - 1];
      var last := triggers[|triggers| - 1];
      assert triggers == init + [last];
      OneLoopAtATime(init);
      var before := Replay(init);
      var step := React(before.0, last);
      CountAppend(before.1, step.1, StartLoop);
      CountAppend(before.1, step.1, Quit);
      assert Count(step.1, StartLoop) == (if last == ButtonClicked && !before.0 then 1 else 0);
      assert Count(step.1, Quit) == (if last == HotkeyQuit then 1 else 0);
    }
  }

  /** The handlers of src/app.go over the shared flag; `effects` records the
      platform calls they make and the goroutines they start. */
  class App {
    var active: bool
    var effects: seq<Effect>

    /** The initial state: not armed, nothing done. */
    constructor ()
      ensures !active && effects == []
    {
      active, effects := false, [];
    }

    /** handleButtonClick: arms the flag, shows the button active and starts
        the loop, unless already armed. */
    method HandleButtonClick()
      modifies this
      ensures active
      ensures effects == old(effects) + (if old(active) then [] else [SetButtonActive(true), StartLoop])
      ensures (active, effects) == (React(old(active), ButtonClicked).0, old(effects) + React(old(active), ButtonClicked).1)
    {
      if !active {
        active := true;
        effects := effects + [SetButtonActive(true), StartLoop];
      }
    }

    /** handleQuit: clears the flag, then quits. */
    method HandleQuit()
      modifies this
      ensures !active && effects == old(effects) + [Quit]
      ensures (active, effects) == (React(old(active), HotkeyQuit).0, old(effects) + React(old(active), HotkeyQuit).1)
    {
      active := false;
      effects := effects + [Quit];
    }
  }

  /** The platform's message loop delivering `triggers`, in order, to a
      freshly initialised application. */
  method DeliverTriggers(triggers: seq<Trigger>) returns (active: bool, effects: seq<Effect>)
    ensures (active, effects) == Replay(triggers)
    ensures Count(effects, StartLoop) <= Count(effects, Quit) + 1
  {
    var app := new App();
    var i := 0;
    while i < |triggers|
      invariant 0 <= i <= |triggers|
      invariant (app.active, app.effects) == Replay(triggers[..i])
    {
      assert triggers[..i + 1][..i] == triggers[..i];
      if triggers[i] == ButtonClicked {
        app.HandleButtonClick();
      } else {
        app.HandleQuit();
      }
      i := i + 1;
    }
    assert triggers[..i] == triggers;
    active, effects := app.active, app.effects;
    OneLoopAtATime(triggers);
  }
}

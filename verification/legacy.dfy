/** The stand-alone Windows program of src/main.go, an earlier version of
    the tool with its own copies of the layout, a straight-line cursor move
    in 32-bit integers, a loop with fixed waits and no cancellation, a
    window procedure that arms and quits directly, and a programmatically
    drawn circle icon.

    As in the engine model, the program is sequential: Win32 calls are
    recorded as `Call`s, time is an integer clock in milliseconds, and the
    `active` flag, as the loop reads it, is clear from time `quitAt` on. */
module Legacy {
  import opened Win32
  import IconMask
  import Engine

  // ── Layout ──────────────────────────────────────────────────────────────

  const ClientW: int := 300
  const ClientH: int := 300
  const BtnW: int := 80
  const BtnH: int := 30
  const Pad: int := 10

  /** btnCorners of this program: top-left, top-right, bottom-right,
      bottom-left, as POINT values. */
  const BtnCorners: seq<Engine.Point> := [
    Engine.Point(Pad, Pad),
    Engine.Point(ClientW - BtnW - Pad, Pad),
    Engine.Point(ClientW - BtnW - Pad, ClientH - BtnH - Pad),
    Engine.Point(Pad, ClientH - BtnH - Pad)
  ]

  /** btnCorners[idx%4]. */
  function Corner(idx: nat): (c: Engine.Point)
    ensures c in BtnCorners
  {
    BtnCorners[idx % 4]
  }

  /** The copy in this program places the button exactly where the engine
      does, cycle by cycle. */
  lemma SameCornersAsEngine(idx: nat)
    ensures Corner(idx) == Engine.Corner(idx)
    ensures BtnCorners == Engine.BtnCorners
  {
  }

  // ── 32-bit arithmetic ───────────────────────────────────────────────────

  const Two31: int := 0x8000_0000
  const Two32: int := 0x1_0000_0000

  predicate IsInt32(v: int)
  {
    -Two31 <= v < Two31
  }

  /** The int32 that an int32 operation leaves for the exact value v: v
      reduced modulo 2^32 into [-2^31, 2^31). */
  function Wrap32(v: int): (r: int)
    ensures IsInt32(r) && (r - v) % Two32 == 0
    ensures IsInt32(v) ==> r == v
  {
    (v + Two31) % Two32 - Two31
  }

  // ── Straight-line cursor move ───────────────────────────────────────────

  const SmoothSteps: int := 20
  const SmoothDelay: int := 5

  /** a/steps in Go's integer division, which truncates toward zero (Dafny's
      `/` rounds toward negative infinity for a negative dividend). */
  function Quot(a: int): (q: int)
    ensures 0 <= a ==> 0 <= q * SmoothSteps <= a < q * SmoothSteps + SmoothSteps
    ensures a < 0 ==> q * SmoothSteps - SmoothSteps < a <= q * SmoothSteps <= 0
  {
    if a >= 0 then a / SmoothSteps else -((-a) / SmoothSteps)
  }

  /** Truncation is symmetric in the sign of the dividend, and for a negative
      dividend that is not a multiple of 20 it is one above floor division. */
  lemma QuotTruncates(a: int)
    ensures Quot(-a) == -Quot(a)
    ensures a < 0 && a % SmoothSteps != 0 ==> Quot(a) == a / SmoothSteps + 1
  {
  }

  /** from + (to-from)*i/steps for one coordinate, evaluated in int32 as Go
      does: each of the subtraction, the product and the sum wraps, and the
      division truncates. */
  function LinearStep(from: int, to: int, i: int): (x: int)
    ensures IsInt32(x)
  {
    Wrap32(from + Quot(Wrap32(Wrap32(to - from) * i)))
  }

  /** Coordinates close enough that twenty times their distance fits in an
      int32 (any two points on a real screen). */
  predicate Close(from: int, to: int)
  {
    IsInt32(from) && IsInt32(to) && -Two31 <= SmoothSteps * (to - from) < Two31
  }

  lemma MulBetween(d: int, i: int)
    requires 0 <= i <= SmoothSteps
    ensures d >= 0 ==> 0 <= d * i <= d * SmoothSteps
    ensures d < 0 ==> d * SmoothSteps <= d * i <= 0
  {
  }

  /** Between close points nothing wraps: step i is from plus the truncated
      fraction i/20 of the distance, and lies between the two ends. */
  lemma StepExact(from: int, to: int, i: int)
    requires Close(from, to) && 0 <= i <= SmoothSteps
    ensures LinearStep(from, to, i) == from + Quot((to - from) * i)
    ensures from <= to ==> from <= LinearStep(from, to, i) <= to
    ensures to <= from ==> to <= LinearStep(from, to, i) <= from
  {
    MulBetween(to - from, i);
  }

  /** The twentieth step lands exactly on the target. */
  lemma StepLast(from: int, to: int)
    requires Close(from, to)
    ensures LinearStep(from, to, SmoothSteps) == to
  {
    StepExact(from, to, SmoothSteps);
  }

  /** Truncating division by a positive constant keeps order. */
  lemma QuotMonotone(a: int, b: int)
    requires a <= b
    ensures Quot(a) <= Quot(b)
  {
  }

  /** Successive steps move monotonically toward the target. */
  lemma StepMonotone(from: int, to: int, i: int, j: int)
    requires Close(from, to) && 0 <= i <= j <= SmoothSteps
    ensures from <= to ==> LinearStep(from, to, i) <= LinearStep(from, to, j)
    ensures to <= from ==> LinearStep(from, to, j) <= LinearStep(from, to, i)
  {
    StepExact(from, to, i);
    StepExact(from, to, j);
    var d := to - from;
    if d >= 0 {
      MulBetween(d, j - i);
      assert d * i <= d * j by { assert d * j - d * i == d * (j - i); }
      QuotMonotone(d * i, d * j);
    } else {
      MulBetween(d, j - i);
      assert d * j <= d * i by { assert d * j - d * i == d * (j - i); }
      QuotMonotone(d * j, d * i);
    }
  }

  /** The calls moveCursorSmooth makes when GetCursorPos reports `from`:
      the read, then step i of 1..20 toward `to`. */
  function SmoothCalls(from: Engine.Point, to: Engine.Point): (calls: seq<Call>)
    ensures |calls| == SmoothSteps + 1
  {
    [GetCursorPos] +
    seq(SmoothSteps, i requires 0 <= i < SmoothSteps =>
      SetCursorPos(LinearStep(from.x, to.x, i + 1), LinearStep(from.y, to.y, i + 1)))
  }

  /** Between close points the last call puts the cursor exactly on the
      target, and no call moves it outside the rectangle they span. */
  lemma SmoothEndsOnTarget(from: Engine.Point, to: Engine.Point)
    requires Close(from.x, to.x) && Close(from.y, to.y)
    ensures SmoothCalls(from, to)[SmoothSteps] == SetCursorPos(to.x, to.y)
    ensures forall i :: 1 <= i <= SmoothSteps ==>
              SmoothCalls(from, to)[i].SetCursorPos? &&
              Between(from.x, SmoothCalls(from, to)[i].x, to.x) &&
              Between(from.y, SmoothCalls(from, to)[i].y, to.y)
  {
    StepLast(from.x, to.x);
    StepLast(from.y, to.y);
    forall i | 1 <= i <= SmoothSteps
      ensures Between(from.x, SmoothCalls(from, to)[i].x, to.x)
      ensures Between(from.y, SmoothCalls(from, to)[i].y, to.y)
    {
      StepExact(from.x, to.x, i);
      StepExact(from.y, to.y, i);
    }
  }

  predicate Between(a: int, v: int, b: int)
  {
    (a <= v <= b) || (b <= v <= a)
  }

  /** moveCursorSmooth(to) starting at time `now`, when GetCursorPos reports
      `from`: the cursor read, then twenty SetCursorPos calls 5 ms apart.
      Returns the calls and the time it returns. */
  method MoveCursorSmooth(from: Engine.Point, to: Engine.Point, now: int)
    returns (calls: seq<Call>, t: int)
    ensures calls == SmoothCalls(from, to)
    ensures t == now + SmoothDelay * SmoothSteps
  {
    calls, t := [GetCursorPos], now;
    var i := 1;
    while i <= SmoothSteps
      invariant 1 <= i <= SmoothSteps + 1
      invariant calls == SmoothCalls(from, to)[..i]
      invariant t == now + SmoothDelay * (i - 1)
    {
      calls := calls + [SetCursorPos(LinearStep(from.x, to.x, i), LinearStep(from.y, to.y, i))];
      t := t + SmoothDelay;
      i := i + 1;
    }
  }

  // ── Alive loop ──────────────────────────────────────────────────────────

  /** How far one pass of the loop body got, and where GetCursorPos found
      the cursor when it got that far. */
  datatype Pass = Placed | Aimed(from: Engine.Point) | Clicked(from: Engine.Point)

  /** The wait after placing the button, after the move, and after a click. */
  const PlaceWait: int := 400
  const AimWait: int := 200
  const ClickWait: int := 3000
  /** A clicked pass takes 400 + 20*5 + 200 + 3000 ms. */
  const Period: int := PlaceWait + SmoothDelay * SmoothSteps + AimWait + ClickWait

  /** The screen point pass k aims at, when the client area's top-left
      corner is at `origin` (ClientToScreen of the button centre). */
  function Target(origin: Engine.Point, k: nat): Engine.Point
  {
    Engine.Point(origin.x + Corner(k).x + BtnW / 2, origin.y + Corner(k).y + BtnH / 2)
  }

  /** The calls of pass k, in order. */
  function PassCalls(k: nat, origin: Engine.Point, p: Pass): seq<Call>
  {
    var c := Corner(k);
    [MoveButtonWindow(c.x, c.y, BtnW, BtnH), SetWindowPosTopmost]
    + (if p.Placed? then [] else [ClientToScreen(c.x + BtnW / 2, c.y + BtnH / 2)] + SmoothCalls(p.from, Target(origin, k)))
    + (if p.Clicked? then ClickCalls else [])
  }

  /** The calls of passes 0, 1, ..., in order. */
  function PassesCalls(origin: Engine.Point, passes: seq<Pass>): seq<Call>
  {
    if passes == [] then []
    else PassesCalls(origin, passes[..|passes| - 1]) + PassCalls(|passes| - 1, origin, passes[|passes| - 1])
  }

  /** Pass k, begun at time t with the flag set, got exactly as far as the
      two re-checks allowed, and read the cursor when it got past the first. */
  predicate PassFits(t: int, quitAt: int, cursorAt: int -> Engine.Point, p: Pass)
  {
    && Engine.ActiveAt(quitAt, t)
    && (p.Placed? <==> !Engine.ActiveAt(quitAt, t + PlaceWait))
    && (p.Clicked? <==> Engine.ActiveAt(quitAt, t + PlaceWait + SmoothDelay * SmoothSteps + AimWait))
    && (!p.Placed? ==> p.from == cursorAt(t + PlaceWait))
  }

  /** One pass of aliveLoop's body over corner idx, entered at time t just
      after the loop's check of the flag. */
  method AlivePass(idx: nat, t: int, quitAt: int, origin: Engine.Point, cursorAt: int -> Engine.Point)
    returns (calls: seq<Call>, after: int, p: Pass)
    requires Engine.ActiveAt(quitAt, t)
    ensures calls == PassCalls(idx, origin, p)
    ensures PassFits(t, quitAt, cursorAt, p)
    ensures p.Placed? ==> after == t + PlaceWait
    ensures p.Aimed? ==> after == t + PlaceWait + SmoothDelay * SmoothSteps + AimWait
    ensures p.Clicked? ==> after == t + Period
  {
    var c := Corner(idx);
    calls := [MoveButtonWindow(c.x, c.y, BtnW, BtnH), SetWindowPosTopmost];
    var t1 := t + PlaceWait;
    if !Engine.ActiveAt(quitAt, t1) {
      after, p := t1, Placed;
      return;
    }
    var from := cursorAt(t1);
    var moves, t2 := MoveCursorSmooth(from, Target(origin, idx), t1);
    calls := calls + [ClientToScreen(c.x + BtnW / 2, c.y + BtnH / 2)] + moves;
    var t3 := t2 + AimWait;
    if !Engine.ActiveAt(quitAt, t3) {
      after, p := t3, Aimed(from);
      return;
    }
    calls := calls + ClickCalls;
    after, p := t3 + ClickWait, Clicked(from);
  }

  /** How long a pass takes, by how far it got: 400 ms, 700 ms or a full period. */
  function PassLength(p: Pass): int
  {
    match p
    case Placed => PlaceWait
    case Aimed(_) => PlaceWait + SmoothDelay * SmoothSteps + AimWait
    case Clicked(_) => Period
  }

  /** Pass k of the run starts at start + k*Period and fits the flag. */
  predicate RunFits(start: int, quitAt: int, cursorAt: int -> Engine.Point, passes: seq<Pass>)
  {
    forall k :: 0 <= k < |passes| ==> PassFits(start + Period * k, quitAt, cursorAt, passes[k])
  }

  predicate AllClicked(passes: seq<Pass>)
  {
    forall k :: 0 <= k < |passes| ==> passes[k].Clicked?
  }

  predicate ClickedButLast(passes: seq<Pass>)
  {
    forall k :: 0 <= k < |passes| - 1 ==> passes[k].Clicked?
  }

  /** aliveLoop started at time `start`: `origin` is the client area's
      screen position and cursorAt(t) what GetCursorPos reports at t.
      Returns the calls in order, the time it returns, and its passes. */
  method AliveLoop(start: int, quitAt: int, origin: Engine.Point, cursorAt: int -> Engine.Point)
    returns (calls: seq<Call>, stop: int, ghost passes: seq<Pass>)
    ensures calls == [SetThreadExecutionState(PreventSleepFlags)] + PassesCalls(origin, passes)
    // pass k starts at start + k*Period and gets as far as the flag allows
    ensures forall k :: 0 <= k < |passes| ==> PassFits(start + Period * k, quitAt, cursorAt, passes[k])
    ensures forall k :: 0 <= k < |passes| - 1 ==> passes[k].Clicked?
    ensures !Engine.ActiveAt(quitAt, start) ==> passes == [] && stop == start
    // otherwise it notices the disarm within three seconds
    ensures Engine.ActiveAt(quitAt, start) ==> passes != [] && quitAt <= stop < quitAt + ClickWait
    // it returns right after its last pass: it goes on while the flag is set
    ensures passes != [] ==> stop == start + Period * (|passes| - 1) + PassLength(passes[|passes| - 1])
    // the sleep lease is taken once, at entry, and never given back here
    ensures forall i :: 0 < i < |calls| ==> !calls[i].SetThreadExecutionState?
  {
    calls := [SetThreadExecutionState(PreventSleepFlags)];
    var t := start;
    var idx: nat := 0;
    passes := [];
    var stopped := false;
    while !stopped && Engine.ActiveAt(quitAt, t)
      invariant idx == |passes|
      invariant calls == [SetThreadExecutionState(PreventSleepFlags)] + PassesCalls(origin, passes)
      invariant Progress(start, quitAt, cursorAt, passes, t, stopped)
      invariant !Engine.ActiveAt(quitAt, start) ==> passes == [] && t == start
      invariant Engine.ActiveAt(quitAt, start) && passes != [] ==> t < quitAt + ClickWait
      decreases quitAt - t
    {
      var more, after, p := AlivePass(idx, t, quitAt, origin, cursorAt);
      LoopStep(start, quitAt, origin, cursorAt, passes, t, p, after, calls, more);
      calls := calls + more;
      passes := passes + [p];
      t := after;
      stopped := !p.Clicked?;
      idx := idx + 1;
    }
    stop := t;
    if !stopped && passes != [] {
      NextPassStart(start, |passes| - 1);
    }
    PassesHoldLease(origin, passes);
  }

  /** Pass idx+1 starts one period after pass idx. */
  lemma NextPassStart(start: int, idx: nat)
    ensures start + Period * (idx + 1) == start + Period * idx + Period
  {
  }

  /** A run of clicked passes that fit their start times still fits, and
      still has only its last pass unclicked, once a pass that fits the next
      start time is added. */
  lemma FitsExtend(start: int, quitAt: int, cursorAt: int -> Engine.Point, passes: seq<Pass>, p: Pass)
    requires RunFits(start, quitAt, cursorAt, passes)
    requires AllClicked(passes)
    requires PassFits(start + Period * |passes|, quitAt, cursorAt, p)
    ensures RunFits(start, quitAt, cursorAt, passes + [p])
    ensures ClickedButLast(passes + [p])
    ensures p.Clicked? ==> AllClicked(passes + [p])
  {
    var run := passes + [p];
    forall k | 0 <= k < |run| ensures PassFits(start + Period * k, quitAt, cursorAt, run[k]) {
      if k < |passes| { assert run[k] == passes[k]; }
    }
  }

  /** What the loop knows of its passes, having reached time t: each fits
      its start time, and either all clicked and the next begins one period
      after the last, or the last one stopped the loop with the flag clear. */
  predicate Progress(start: int, quitAt: int, cursorAt: int -> Engine.Point, passes: seq<Pass>, t: int, stopped: bool)
  {
    && RunFits(start, quitAt, cursorAt, passes)
    && ClickedButLast(passes)
    && (if stopped then
          && passes != [] && !Engine.ActiveAt(quitAt, t) && t < quitAt + ClickWait
          && t == start + Period * (|passes| - 1) + PassLength(passes[|passes| - 1])
        else t == start + Period * |passes| && AllClicked(passes))
  }

  /** The loop's invariant is kept by one more pass. */
  lemma LoopStep(start: int, quitAt: int, origin: Engine.Point, cursorAt: int -> Engine.Point,
                 passes: seq<Pass>, t: int, p: Pass, after: int, calls: seq<Call>, more: seq<Call>)
    requires calls == [SetThreadExecutionState(PreventSleepFlags)] + PassesCalls(origin, passes)
    requires Progress(start, quitAt, cursorAt, passes, t, false)
    requires more == PassCalls(|passes|, origin, p)
    requires PassFits(t, quitAt, cursorAt, p)
    requires p.Placed? ==> after == t + PlaceWait
    requires p.Aimed? ==> after == t + PlaceWait + SmoothDelay * SmoothSteps + AimWait
    requires p.Clicked? ==> after == t + Period
    ensures calls + more == [SetThreadExecutionState(PreventSleepFlags)] + PassesCalls(origin, passes + [p])
    ensures Progress(start, quitAt, cursorAt, passes + [p], after, !p.Clicked?)
  {
    PassStep(origin, passes, p, calls);
    FitsExtend(start, quitAt, cursorAt, passes, p);
    NextPassStart(start, |passes|);
  }

  /** Appending one pass's calls extends the run by that pass. */
  lemma PassStep(origin: Engine.Point, passes: seq<Pass>, p: Pass, calls: seq<Call>)
    requires calls == [SetThreadExecutionState(PreventSleepFlags)] + PassesCalls(origin, passes)
    ensures calls + PassCalls(|passes|, origin, p) ==
            [SetThreadExecutionState(PreventSleepFlags)] + PassesCalls(origin, passes + [p])
  {
    assert (passes + [p])[..|passes|] == passes;
  }

  /** No pass touches the sleep lease, so after the loop's opening
      SetThreadExecutionState no call changes it. */
  lemma {:induction false} PassesHoldLease(origin: Engine.Point, passes: seq<Pass>)
    ensures forall i :: 0 <= i < |PassesCalls(origin, passes)| ==> !PassesCalls(origin, passes)[i].SetThreadExecutionState?
    ensures forall i :: 0 < i < |[SetThreadExecutionState(PreventSleepFlags)] + PassesCalls(origin, passes)| ==>
              !([SetThreadExecutionState(PreventSleepFlags)] + PassesCalls(origin, passes))[i].SetThreadExecutionState?
    decreases |passes|
  {
    if passes != [] {
      var init := passes[..|passes| - 1];
      PassesHoldLease(origin, init);
      var a, b := PassesCalls(origin, init), PassCalls(|passes| - 1, origin, passes[|passes| - 1]);
      assert forall i :: 0 <= i < |b| ==> !b[i].SetThreadExecutionState?;
      assert forall i :: 0 <= i < |a + b| ==> (a + b)[i] == (if i < |a| then a[i] else b[i - |a|]);
    }
  }

  /** A pass clicks (mouse-down then mouse-up, nothing else touching the
      mouse buttons) exactly when it got past both re-checks. */
  lemma PassClicks(k: nat, origin: Engine.Point, p: Pass)
    ensures p.Clicked? ==> PassCalls(k, origin, p)[|PassCalls(k, origin, p)| - 2..] == ClickCalls
    ensures forall i :: 0 <= i < |PassCalls(k, origin, p)| && PassCalls(k, origin, p)[i].MouseEvent? ==>
              p.Clicked? && i >= |PassCalls(k, origin, p)| - 2
  {
  }

  // ── Window procedure ────────────────────────────────────────────────────

  /** What wndProc does with a message of the given route when the flag is
      at `active`: the flag afterwards and the calls it makes. */
  function Handle(active: bool, route: Route): (bool, seq<Call>)
  {
    match route
    case EraseBackground => (active, [Paint])
    case DrawItem => (active, [Paint])
    case ButtonCommand =>
      if active then (active, []) else (true, [StoreActive(true), InvalidateButton, StartAliveLoop])
    case QuitHotkey => (false, [StoreActive(false), DestroyWindow])
    case Destroy => (false, DestroyCalls)
    case _ => (active, [])
  }

  /** Only the button's click notification arms, only when disarmed, and then
      it sets the flag, repaints the button and starts exactly one loop. */
  lemma ArmGuard(active: bool, msg: bv32, wParam: bv64)
    ensures StartAliveLoop in Handle(active, RouteOf(msg, wParam)).1 <==>
              !active && msg == WM_COMMAND && wParam & 0xFFFF_FFFF == 1
    ensures !active && msg == WM_COMMAND && wParam & 0xFFFF_FFFF == 1 ==>
              Handle(active, RouteOf(msg, wParam)) == (true, [StoreActive(true), InvalidateButton, StartAliveLoop])
    ensures active && msg == WM_COMMAND ==> Handle(active, RouteOf(msg, wParam)) == (true, [])
  {
    ButtonCommandBits(msg, wParam);
  }

  /** The quit hotkey clears the flag before destroying the window; any
      other hotkey changes nothing. WM_DESTROY clears the flag and releases
      the sleep lease. */
  lemma QuitAndDestroy(active: bool, wParam: bv64)
    ensures wParam == HK_QUIT ==> Handle(active, RouteOf(WM_HOTKEY, wParam)) == (false, [StoreActive(false), DestroyWindow])
    ensures wParam != HK_QUIT ==> Handle(active, RouteOf(WM_HOTKEY, wParam)) == (active, [])
    ensures Handle(active, RouteOf(WM_DESTROY, wParam)) == (false, DestroyCalls)
    ensures SetThreadExecutionState(AllowSleepFlags) in Handle(active, RouteOf(WM_DESTROY, wParam)).1
  {
    assert DestroyCalls[2] == SetThreadExecutionState(AllowSleepFlags);
  }

  /** The flag changes only on the arming click, the quit hotkey and
      WM_DESTROY, and a loop is started only by the arming click. */
  lemma FlagChanges(active: bool, route: Route)
    ensures Handle(active, route).0 != active ==> route in {ButtonCommand, QuitHotkey, Destroy}
    ensures StartAliveLoop in Handle(active, route).1 ==> route == ButtonCommand && !active
  {
  }

  /** The main window of src/main.go: the shared flag and the calls made so far. */
  class Window {
    var active: bool
    var calls: seq<Call>

    constructor ()
      ensures !active && calls == []
    {
      active, calls := false, [];
    }

    /** wndProc(hwnd, msg, wParam, lParam). */
    method WndProc(msg: bv32, wParam: bv64) returns (reply: Reply)
      modifies this
      ensures reply == ReplyOf(RouteOf(msg, wParam))
      ensures active == Handle(old(active), RouteOf(msg, wParam)).0
      ensures calls == old(calls) + Handle(old(active), RouteOf(msg, wParam)).1
    {
      if msg == WM_ERASEBKGND {
        calls := calls + [Paint];
        return Returned(1);
      } else if msg == WM_CTLCOLORBTN {
        return Returned(0);
      } else if msg == WM_DRAWITEM {
        calls := calls + [Paint];
        return Returned(1);
      } else if msg == WM_COMMAND {
        if HiWord(wParam) == BN_CLICKED && LoWord(wParam) == BTN_ID {
          if !active {
            active := true;
            calls := calls + [StoreActive(true), InvalidateButton, StartAliveLoop];
          }
        }
        return Returned(0);
      } else if msg == WM_HOTKEY {
        if wParam == HK_QUIT {
          active := false;
          calls := calls + [StoreActive(false), DestroyWindow];
        }
        return Returned(0);
      } else if msg == WM_DESTROY {
        active := false;
        calls := calls + DestroyCalls;
        return Returned(0);
      }
      return DefaultProcessing;
    }
  }

  // ── Circle icon ─────────────────────────────────────────────────────────

  function Square(n: int): int
  {
    n * n
  }

  function SquareR(r: real): real
  {
    r * r
  }

  /** (2x-31)^2 + (2y-31)^2, four times dx*dx + dy*dy for pixel (x, y),
      whose centre lies half a pixel past (x - 16, y - 16). */
  function Dist4(x: int, y: int): int
  {
    Square(2 * x - 31) + Square(2 * y - 31)
  }

  /** dx*dx + dy*dy of createAppIcon for pixel (x, y), computed exactly. */
  function RealDist(x: int, y: int): real
  {
    var dx: real := x as real - 16.0 + 0.5;
    var dy: real := y as real - 16.0 + 0.5;
    SquareR(dx) + SquareR(dy)
  }

  /** The square of half an integer, times four, is the integer's square. */
  lemma HalfSquare(a: int, d: real)
    requires d == a as real / 2.0
    ensures SquareR(d) * 4.0 == Square(a) as real
  {
    var r := a as real;
    assert SquareR(d) * 4.0 == r * r;
  }

  /** Four times the exact distance is the integer (2x-31)^2 + (2y-31)^2. */
  lemma RealDistTimesFour(x: int, y: int)
    ensures RealDist(x, y) * 4.0 == Dist4(x, y) as real
  {
    HalfSquare(2 * x - 31, x as real - 16.0 + 0.5);
    HalfSquare(2 * y - 31, y as real - 16.0 + 0.5);
  }

  /** The floating-point tests of createAppIcon, carried out exactly, agree
      with the integer ones: dist <= 14*14 and dist <= 3*3. */
  lemma CircleTestExact(x: int, y: int)
    ensures RealDist(x, y) * 4.0 == Dist4(x, y) as real
    ensures RealDist(x, y) <= 196.0 <==> Dist4(x, y) <= 784
    ensures RealDist(x, y) <= 9.0 <==> Dist4(x, y) <= 36
  {
    RealDistTimesFour(x, y);
  }

  /** Outside the circle of radius 14: the pixel is transparent. */
  predicate Outside(x: int, y: int)
  {
    Dist4(x, y) > 784
  }

  /** The four colour bytes (B, G, R, A) of pixel (x, y): white in the dot of
      radius 3, #0078D4 in the rest of the circle, zero outside. */
  function PixelBytes(x: int, y: int): (bytes: seq<bv8>)
    ensures |bytes| == 4
  {
    if Outside(x, y) then [0, 0, 0, 0]
    else if Dist4(x, y) <= 36 then [0xFF, 0xFF, 0xFF, 0xFF]
    else [0xD4, 0x78, 0x00, 0xFF]
  }

  /** With the distance computed exactly as createAppIcon's float test
      reads it, the dot of radius 3 is opaque white, the rest of the circle
      of radius 14 opaque #0078D4, everything else all zero; so a pixel's
      colour alpha is zero exactly when its mask bit marks it transparent. */
  lemma PixelColours(x: int, y: int)
    ensures RealDist(x, y) <= 9.0 ==> PixelBytes(x, y) == [0xFF, 0xFF, 0xFF, 0xFF]
    ensures 9.0 < RealDist(x, y) <= 196.0 ==> PixelBytes(x, y) == [0xD4, 0x78, 0x00, 0xFF]
    ensures RealDist(x, y) > 196.0 ==> PixelBytes(x, y) == [0, 0, 0, 0]
    ensures Outside(x, y) <==> PixelBytes(x, y)[3] == 0
  {
    CircleTestExact(x, y);
  }

  /** The colour bytes of pixel number q, in row-major order. */
  function PixelBytesAt(q: int): seq<bv8>
  {
    PixelBytes(q % IconMask.Size, q / IconMask.Size)
  }

  /** Which pixels are transparent, in row-major order. */
  ghost const Transparent: seq<bool> :=
    seq(IconMask.Pixels, q requires 0 <= q < IconMask.Pixels => Outside(q % IconMask.Size, q / IconMask.Size))

  /** The colour buffer once the first n pixels have been drawn: their
      bytes set, the rest still zero. */
  ghost predicate ColorDrawn(color: array<bv8>, n: int)
    reads color
  {
    && color.Length == 4 * IconMask.Pixels && 0 <= n <= IconMask.Pixels
    && forall i :: 0 <= i < color.Length ==> color[i] == (if i < 4 * n then PixelBytesAt(i / 4)[i % 4] else 0)
  }

  /** Pixel (x, y) inside the circle: its four colour bytes. */
  method PaintPixel(color: array<bv8>, x: nat, y: nat)
    requires x < IconMask.Size && y < IconMask.Size && !Outside(x, y)
    requires ColorDrawn(color, y * IconMask.Size + x)
    modifies color
    ensures ColorDrawn(color, y * IconMask.Size + x + 1)
  {
    var p := y * IconMask.Size + x;
    IconMask.PixelIndex(x, y);
    var off := p * 4;
    if Dist4(x, y) <= 3 * 3 * 4 {
      color[off], color[off + 1], color[off + 2], color[off + 3] := 0xFF, 0xFF, 0xFF, 0xFF;
    } else {
      color[off], color[off + 1], color[off + 2], color[off + 3] := 0xD4, 0x78, 0x00, 0xFF;
    }
    ColorStep(old(color[..]), color, p);
  }

  /** Writing pixel p's bytes, and nothing else, extends the drawn prefix. */
  lemma ColorStep(before: seq<bv8>, color: array<bv8>, p: int)
    requires 0 <= p < IconMask.Pixels && |before| == color.Length == 4 * IconMask.Pixels
    requires forall i :: 0 <= i < |before| ==> before[i] == (if i < 4 * p then PixelBytesAt(i / 4)[i % 4] else 0)
    requires forall i :: 0 <= i < |before| && !(4 * p <= i < 4 * p + 4) ==> color[i] == before[i]
    requires color[4 * p..4 * p + 4] == PixelBytesAt(p)
    ensures ColorDrawn(color, p + 1)
  {
    IconMask.OwnBytes(p);
    forall i | 0 <= i < color.Length
      ensures color[i] == (if i < 4 * (p + 1) then PixelBytesAt(i / 4)[i % 4] else 0)
    {
      if 4 * p <= i < 4 * p + 4 {
        assert color[i] == color[4 * p..4 * p + 4][i - 4 * p];
      }
    }
  }

  /** A pixel outside the circle leaves its colour bytes at zero. */
  lemma ColorOutsideStep(color: array<bv8>, x: nat, y: nat)
    requires x < IconMask.Size && y < IconMask.Size && Outside(x, y)
    requires ColorDrawn(color, y * IconMask.Size + x)
    ensures ColorDrawn(color, y * IconMask.Size + x + 1)
  {
    var p := y * IconMask.Size + x;
    IconMask.PixelIndex(x, y);
    IconMask.OwnBytes(p);
  }

  /** In the finished colour buffer each pixel has its own four bytes. */
  lemma ColorMeaning(color: array<bv8>)
    requires ColorDrawn(color, IconMask.Pixels)
    ensures forall q :: 0 <= q < IconMask.Pixels ==> color[4 * q..4 * q + 4] == PixelBytesAt(q)
  {
    forall q | 0 <= q < IconMask.Pixels ensures color[4 * q..4 * q + 4] == PixelBytesAt(q) {
      IconMask.OwnBytes(q);
    }
  }

  /** The body of createAppIcon's loops for pixel (x, y). */
  method DrawPixel(mask: array<bv8>, color: array<bv8>, x: nat, y: nat)
    requires x < IconMask.Size && y < IconMask.Size
    requires IconMask.MaskDrawn(mask, Transparent, y * IconMask.Size + x) && ColorDrawn(color, y * IconMask.Size + x)
    modifies mask, color
    ensures IconMask.MaskDrawn(mask, Transparent, y * IconMask.Size + x + 1) && ColorDrawn(color, y * IconMask.Size + x + 1)
  {
    ghost var before := mask[..];
    TransparentAt(x, y);
    if Dist4(x, y) <= 14 * 14 * 4 {
      PaintPixel(color, x, y);
    } else {
      IconMask.SetMaskBit(mask, x, y);
      ColorOutsideStep(color, x, y);
    }
    IconMask.MaskDrawnStep(Transparent, before, mask, x, y);
  }

  /** Pixel (x, y)'s entry in the transparency list is its circle test. */
  lemma TransparentAt(x: nat, y: nat)
    requires x < IconMask.Size && y < IconMask.Size
    ensures Transparent[IconMask.Pixel(x, y)] == Outside(x, y)
  {
    IconMask.PixelIndex(x, y);
  }

  /** In the finished mask, a pixel's bit is set exactly when it lies
      outside the circle. */
  lemma OutsideMask(mask: array<bv8>)
    requires IconMask.MaskDrawn(mask, Transparent, IconMask.Pixels)
    ensures forall x, y :: 0 <= x < IconMask.Size && 0 <= y < IconMask.Size ==>
              (mask[y * 4 + x / 8] & IconMask.BitFor(x % 8) != 0 <==> Outside(x, y))
  {
    IconMask.MaskMeaning(mask, Transparent);
    forall x, y | 0 <= x < IconMask.Size && 0 <= y < IconMask.Size
      ensures mask[y * 4 + x / 8] & IconMask.BitFor(x % 8) != 0 <==> Outside(x, y)
    {
      TransparentAt(x, y);
    }
  }

  /** createAppIcon's buffers: for every pixel, the mask bit 7-(x%8) of byte
      (y*32+x)/8 is set exactly when the pixel lies outside the circle, and
      its four colour bytes are as PixelBytes says (so zero outside). */
  method CreateAppIcon() returns (mask: array<bv8>, color: array<bv8>)
    ensures fresh(mask) && fresh(color)
    ensures mask.Length == IconMask.MaskLength && color.Length == 4 * IconMask.Pixels
    ensures forall x, y :: 0 <= x < IconMask.Size && 0 <= y < IconMask.Size ==>
              (mask[y * 4 + x / 8] & IconMask.BitFor(x % 8) != 0 <==> Outside(x, y))
    ensures forall q :: 0 <= q < IconMask.Pixels ==> color[4 * q..4 * q + 4] == PixelBytesAt(q)
  {
    mask := new bv8[IconMask.MaskLength](_ => 0);
    color := new bv8[4 * IconMask.Pixels](_ => 0);
    IconMask.MaskDrawnStart(mask, Transparent);
    var y := 0;
    while y < IconMask.Size
      invariant 0 <= y <= IconMask.Size
      invariant IconMask.MaskDrawn(mask, Transparent, y * IconMask.Size) && ColorDrawn(color, y * IconMask.Size)
    {
      var x := 0;
      while x < IconMask.Size
        invariant 0 <= x <= IconMask.Size
        invariant IconMask.MaskDrawn(mask, Transparent, y * IconMask.Size + x) && ColorDrawn(color, y * IconMask.Size + x)
      {
        DrawPixel(mask, color, x, y);
        x := x + 1;
      }
      y := y + 1;
    }
    OutsideMask(mask);
    ColorMeaning(color);
  }
}

# clicky: a Dafny model of the activity engine and its Windows layers

clicky keeps a desktop awake. Once armed by a click on its button, a loop does the following, cycle after cycle:

- it moves the button to the next of four corners of a 300x300 window;
- it moves the cursor onto the button and clicks it;
- it waits a random 1-5 s.

All the while it holds a "prevent sleep" request. A hotkey disarms it and closes the window.

This project models the core of three Go files:

- `engine.dfy` (module `Engine`) models `src/app.go`, the cross-platform engine. It covers:
  - the corner placement;
  - the arm guard and quit handler;
  - the cancellable wait, which polls the flag every 100 ms;
  - the random delay;
  - the quadratic Bézier cursor move, with its jump branch;
  - the alive loop, with the sleep lease released by `defer`.
- `legacy.dfy` (module `Legacy`) models `src/main.go`, the older stand-alone Windows program. It covers:
  - its own corner table;
  - the 20-step straight-line cursor move in 32-bit integers with Go's truncating division;
  - the fixed-wait alive loop, which never releases the lease itself;
  - the window procedure that arms, quits and destroys;
  - the rasterised circle icon.
- `platform_windows.dfy` (module `WinPlatform`) models `src/platform_windows.go`. It covers:
  - the Win32 calls behind each platform function;
  - the dispatch of `wndProc` to the engine's callbacks;
  - `createAppIcon`: nearest-neighbour scaling to 32x32, the RGBA to BGRA swizzle and the alpha mask.
- `win32.dfy` (module `Win32`) holds what the two Windows files share:
  - the message and flag constants;
  - `loword`, `hiword` and `rgb`;
  - the routing of a message to a branch of `wndProc`;
  - the `WM_DESTROY` sequence;
  - the `Call` log that both Windows models emit.
- `icon_mask.dfy` (module `IconMask`) specifies the 1-bit transparency mask that both icon builders fill. Pixels are numbered row-major, eight to a byte, and pixel `x%8` owns bit `7-(x%8)`. The module proves that setting one bit per transparent pixel yields, for every pixel, "bit set exactly when transparent".

The model is sequential:

- **Platform functions and Win32 calls** are recorded, in order, as `Engine.Effect` or `Win32.Call` values.
- **Time** is an integer clock in milliseconds, and `time.Sleep` advances it exactly.
- **The shared `active` flag**, as a running loop reads it, is an input `quitAt`. The flag reads true before that time and false from it on. Disarming is terminal in the source, because the window is destroyed.
- **Random draws** are parameters:
  - `Roll` is a value of `rand.Intn(4001)`;
  - `Bend` is a value of `rand.Float64()*2-1`.
- **The cursor position** the loop reads is an input `cursorAt(t)`.
- **The window's screen origin** is an input `origin`.

## Model

| member | source | states |
|---|---|---|
| Win32.LoWord | src/platform_windows.go:199 | loword is wParam modulo 2^16 |
| Win32.HiWord | src/platform_windows.go:200 | hiword is bits 16-31 of wParam, (wParam / 2^16) mod 2^16 |
| Win32.Rgb | src/platform_windows.go:202-204 | rgb(r,g,b) is r + 256*g + 65536*b |
| Win32.WordsRecombine | src/main.go:201-202 | hiword<<16 \| loword gives back the low 32 bits of wParam |
| Win32.WordsOfPacked | src/main.go:201-202 | packing two words and unpacking them with loword/hiword is a round trip, whatever the upper 32 bits hold |
| Win32.RgbChannels | src/main.go:204-206 | each channel is recovered from its own byte of rgb, and nothing is set above bit 23 |
| Win32.SleepFlagsMeaning | src/main.go:50-52 | the prevent flags are 0x80000003; both flag sets keep ES_CONTINUOUS; the allow flags clear the display and system requirements |
| Win32.RouteOf | src/platform_windows.go:290-355 | which branch of the switch a message takes. A WM_COMMAND takes the button branch only when hiword is BN_CLICKED and loword is BTN_ID, and a WM_HOTKEY takes the quit branch only for HK_QUIT. ButtonCommandBits and ReplyOf state its consequences |
| Win32.ButtonCommandBits | src/platform_windows.go:323-324 | a WM_COMMAND is the button's click exactly when the low 32 bits of wParam are 1 (BN_CLICKED=0, BTN_ID=1) |
| Win32.ReplyOf | src/platform_windows.go:290-355 | wndProc returns 1 for WM_ERASEBKGND and WM_DRAWITEM, 0 for the other handled messages, and DefWindowProc's result for anything else |
| Win32.DestroyReleasesOnce | src/main.go:332-341 | WM_DESTROY clears active first and posts quit last; its only SetThreadExecutionState call passes ES_CONTINUOUS alone |
| IconMask.BitFor | src/platform_windows.go:266-267 | 1 << (7 - k) is a single bit |
| IconMask.MaskStart | src/platform_windows.go:255 | a mask byte is zero before any pixel is processed, as make() leaves it |
| IconMask.MaskStep | src/platform_windows.go:264-268 | processing pixel 8*j+k sets bit k of byte j when the pixel is transparent and changes no other byte or bit |
| IconMask.MaskBitMeaning | src/platform_windows.go:264-268 | once all pixels are processed, pixel p's bit of byte p/8 is set exactly when p is transparent |
| IconMask.PixelIndex | src/main.go:256-257 | pixel (x,y) is number y*32+x, in byte y*4+x/8 at bit x%8 |
| IconMask.SetMaskBit | src/main.go:256-258 | maskBits[(y*32+x)/8] \|= 1<<(7-x%8) ORs that one bit into that one byte and leaves the other 127 bytes unchanged |
| IconMask.MaskDrawnStep | src/main.go:254-259 | setting a pixel's bit exactly when it is transparent extends the processed prefix of the mask by one pixel |
| IconMask.MaskMeaning | src/platform_windows.go:264-268 | in the finished mask, bit 7-(x%8) of byte y*4+x/8 is set exactly when pixel (x,y) is transparent |
| IconMask.MaskDrawnStart | src/main.go:227 | the all-zero mask is the mask with no pixel processed |
| Engine.Corner | src/app.go:36-50 | corner idx%4 keeps the 80x30 button inside the 300x300 client area with at least pad=10 on every side |
| Engine.CornerValues | src/app.go:45-50 | the corners are exactly (10,10), (210,10), (210,260), (10,260) |
| Engine.CornerPeriodic | src/app.go:142-144 | placements repeat every 4 cycles: two cycles use the same corner exactly when their indices agree mod 4 |
| Engine.CornersClockwise | src/app.go:45-50 | consecutive corners differ in exactly one coordinate, so the button walks the rectangle's edges |
| Engine.SleepWithCancel | src/app.go:75-85 | every slice is 1-100 ms and the slices sum to the time spent. The wait never passes now+d. It returns at once if the flag is clear or d <= 0. It reaches now+d when the flag stays set. It stops early only once the flag is clear, within 100 ms of the quit. It returns with the flag still set only after the full wait, and then the flag was still set at now+d. The return time is SleepEnd's |
| Engine.SleepEnd | src/app.go:75-85 | where the wait returns: after 100 ms slices, the last one cut to what remains, for as long as time remains and the flag is set. SleepEndCheckpoint gives its closed form |
| Engine.SleepEndCheckpoint | src/app.go:75-85 | a wait begun with the flag set returns at the first 100 ms checkpoint at or after the quit, or at now+d if that comes first |
| Engine.RandomDelayMs | src/app.go:88-91 | the delay is 1000+n ms, within [1000, 5000] |
| Engine.RandomDelayCoversRange | src/app.go:89 | every duration in [1000, 5000] ms is reachable by some draw |
| Engine.RoundHalfAway | src/app.go:131 | math.Round is within 1/2 of its argument, and ties go away from zero |
| Engine.RoundWhole | src/app.go:131 | math.Round leaves a whole number unchanged |
| Engine.BezierEndpoints | src/app.go:127-129 | B(0) is the start and B(1) the end |
| Engine.BezierInHull | src/app.go:123-129 | for t in [0,1], B(t) lies between the least and greatest of the three control values |
| Engine.ControlPointGeometry | src/app.go:107-118 | the control point lies on the perpendicular bisector of from→to, at most dist/3 from the midpoint |
| Engine.LastSampleIsTarget | src/app.go:123-131 | the 25th sample, at t = 1, is exactly (toX, toY) |
| Engine.SampleNearHull | src/app.go:123-131 | every rounded sample lies within 1/2 of the box spanned by start, control point and target |
| Engine.MoveCursorAlongCurve | src/app.go:95-134 | if dx²+dy² < 4 it makes one SetCursorPos(to) and takes no time. Otherwise it makes exactly 25 calls, at the rounded Bézier samples i/25, 4 ms apart, and the last one is at the target |
| Engine.CyclesHoldNoLease | src/app.go:143-174 | no cycle of the loop body asks to prevent or allow sleep |
| Engine.LeaseBracket | src/app.go:139-140 | between the opening prevent-sleep and the deferred allow-sleep, the trace holds neither |
| Engine.AimAt | src/app.go:158-161 | it converts the button centre corner+(40,15) to the screen and reads the cursor at `now`. From that position it drives the cursor along CurvePath: one jump when dx²+dy² < 4, otherwise the 25 samples. It returns after CurveTime (0 or 25*4 ms), and the last point is the target |
| Engine.AimAndClick | src/app.go:158-173 | once the flag is found set after the 400 ms wait: the cursor read at `now` is driven along CurvePath to the button centre, move i at now+4i. The pass clicks exactly when the flag is still set at now+CurveTime+200, and the click is made at that time. After it comes the 1000+roll ms delay. The pass returns at its end when the quit comes no earlier, and a pass that returns before its end has seen the flag clear. A pass stopped at the second re-check returns no later than its click time. Every return is where sleepWithCancel returns (SleepEnd). A pass that does not click ends with the flag clear |
| Engine.AlivePass | src/app.go:144-173 | one cycle, fixed by PassFits. The button goes to corner idx%4 and is kept topmost. The cycle gets past the 400 ms wait exactly when the flag is still set at t+400, and then moves the cursor from where it was read at t+400. It clicks exactly when the flag is still set at the click time t+400+CurveTime+200, and the click is its last effect, made at that time. After a click it returns within the 1000+roll ms delay, and exactly at its end if the quit comes no earlier. If it returns before the end, the flag is already clear. A cycle stopped at the first re-check returns by t+400, and one stopped at the second by its click time; every return is where sleepWithCancel returns (SleepEnd). Each effect is stamped as CycleTimes says. A cycle that did not click ends with the flag clear |
| Engine.AliveLoop | src/app.go:138-175 | the trace is prevent-sleep, then the cycles, then allow-sleep, with exactly one of each lease call, at the ends. Cycle k begins where cycle k-1 returned, uses corner k%4 and the draws bends(k) and rolls(k), and fits PassFits, so it clicks exactly when the flag is still set at its click time, and a cycle that returns early has seen the flag clear. Each cycle returns where its last sleepWithCancel returns (SleepEnd), and every effect is stamped at the time CycleTimes gives from the cycle's start. The number of cycles, their start and end times and the time of every effect are thus fixed by quitAt, the cursor and the draws. Every cycle but the last clicked. Each click happens while the flag is set, and times never decrease. With the flag clear at start there are no cycles; otherwise there is at least one, and the loop exits within 100 ms after the quit |
| Engine.CycleTimes | src/app.go:144-173 | the time of each effect of one cycle begun at t: the placing at t, the cursor read at t+400, the moves 4 ms apart from then on, the click at its click time. PassTimes pairs them with the effects |
| Engine.PassTimes | src/app.go:144-173 | effect by effect: MoveButton and ReinforceTopmost at t, GetCursorPos at t+400, SetCursorPos to path point i at t+400+4i, and the click at ClickTime |
| Engine.PassEffects | src/app.go:144-173 | a cycle's effects begin with MoveButton(corner k%4) and ReinforceTopmost. They read the cursor exactly when the cycle got past the first re-check, and click exactly when it got past the second |
| Engine.Dist2 | src/app.go:98-102 | dx²+dy² is never negative and is zero only for the same point. It is below 4, which for integers is dist < 2, exactly when the target is within one pixel in each axis |
| Engine.ControlX | src/app.go:107-118 | the control point's x: midX + perpX*amplitude with the distance cancelled, fromX + dx/2 - u*dy/3. Its geometry is stated by ControlPointGeometry |
| Engine.ControlY | src/app.go:107-118 | the control point's y: fromY + dy/2 + u*dx/3. Its geometry is stated by ControlPointGeometry |
| Engine.Sample | src/app.go:123-131 | point i of the move: B(i/25) in each coordinate, rounded by math.Round. LastSampleIsTarget and SampleNearHull state where it lies |
| Engine.CycleEffects | src/app.go:144-173 | the effects of one cycle in the order the loop body makes them. PassEffects and CyclesHoldNoLease state their shape |
| Engine.React | src/app.go:59-70 | a button click leaves the flag set and a quit leaves it clear. Only a click with the flag clear starts a loop, and only a quit calls platformQuit |
| Engine.Replay | src/app.go:54-70 | the flag and effects after a sequence of callbacks. OneLoopAtATime bounds the loops it starts |
| Engine.OneLoopAtATime | src/app.go:59-70 | over any sequence of clicks and quits, the loops started never exceed the quits plus one. With no quit, exactly one loop starts if there was a click, and the flag is set exactly then. A final quit leaves the flag clear |
| Engine.App.constructor | src/app.go:32 | the flag starts clear and nothing has happened |
| Engine.App.HandleButtonClick | src/app.go:59-65 | if inactive: set active, platformSetButtonActive(true), start one loop; if active already: nothing changes, nothing starts |
| Engine.App.HandleQuit | src/app.go:67-70 | leaves active false, then issues exactly one platformQuit |
| Engine.DeliverTriggers | src/app.go:54-70 | running the handlers for a sequence of triggers gives the replayed state, and loops started never exceed quits plus one |
| Legacy.Corner | src/main.go:350-355 | the corner used for index idx is one of the four entries of btnCorners |
| Legacy.SameCornersAsEngine | src/main.go:350-355 | the legacy corner table, and the corner of every index, equal the engine's |
| Legacy.Wrap32 | src/main.go:367-368 | an int32 result is congruent to the exact one mod 2^32 and equals it when that is in range |
| Legacy.Quot | src/main.go:367 | division by steps=20 truncates toward zero, for both signs |
| Legacy.QuotTruncates | src/main.go:367 | truncating division is odd, Quot(-a) = -Quot(a), and for a negative dividend that is not a multiple of 20 it is one above floor division |
| Legacy.LinearStep | src/main.go:367-368 | the coordinate of step i, from + (to-from)*i/20 in int32 arithmetic, is always an int32. StepExact, StepLast and StepMonotone state its values |
| Legacy.StepExact | src/main.go:367-368 | without overflow, step i is from + (to-from)*i/20 with truncation, and lies between from and to |
| Legacy.StepLast | src/main.go:366-368 | step 20 is exactly the target |
| Legacy.QuotMonotone | src/main.go:367 | truncating division by 20 is monotone |
| Legacy.StepMonotone | src/main.go:366-368 | the steps move monotonically toward the target in each axis |
| Legacy.SmoothCalls | src/main.go:359-372 | the move's calls: GetCursorPos, then 20 SetCursorPos calls at steps 1 to 20. SmoothEndsOnTarget states where they go |
| Legacy.SmoothEndsOnTarget | src/main.go:366-371 | the 20th call is at (toX, toY), and every intermediate coordinate lies between from and to |
| Legacy.MoveCursorSmooth | src/main.go:359-372 | the loop issues exactly those calls and takes 20*5 ms |
| Legacy.AlivePass | src/main.go:383-413 | one pass of the loop body: button to corner idx%4, topmost, 400 ms, aim, 200 ms, click only if the flag is still set, 3 s. It returns the pass's calls and the time it ends |
| Legacy.AliveLoop | src/main.go:376-415 | prevent-sleep is the first call and no later call touches the execution state, so the loop never releases it. Pass k starts at start+3700k, and every pass but the last clicked. It stops only with the flag clear, within 3 s after the quit. It returns right after its last pass, at start+3700(n-1) plus 400, 700 or 3700 ms by how far that pass got, so the loop goes on while the flag is set |
| Legacy.PassCalls | src/main.go:383-410 | the calls of one pass in the order the loop body makes them. PassClicks and PassesHoldLease state their shape |
| Legacy.PassesHoldLease | src/main.go:383-414 | no pass calls SetThreadExecutionState |
| Legacy.PassClicks | src/main.go:404-410 | a completed pass ends with left-down then left-up, and only a completed pass sends mouse events |
| Legacy.Handle | src/main.go:281-346 | the new flag and the calls of each branch of wndProc. ArmGuard, QuitAndDestroy and FlagChanges state what they are |
| Legacy.ArmGuard | src/main.go:315-323 | a loop starts exactly for BN_CLICKED from BTN_ID while inactive; then active is set, the button invalidated and one loop started; while active, a WM_COMMAND changes nothing |
| Legacy.QuitAndDestroy | src/main.go:325-341 | WM_HOTKEY with HK_QUIT clears active before destroying the window, while other ids change nothing. WM_DESTROY clears active and releases sleep with ES_CONTINUOUS |
| Legacy.FlagChanges | src/main.go:281-346 | only the button command, the quit hotkey and WM_DESTROY change the flag, and only an inactive button command starts a loop |
| Legacy.Window.WndProc | src/main.go:281-346 | the reply, the new flag and the calls are those of the message's branch |
| Legacy.CircleTestExact | src/main.go:234-241 | the float tests dist <= 14*14 and dist <= 3*3, carried out exactly, are (2x-31)²+(2y-31)² <= 784 and <= 36 |
| Legacy.PixelBytes | src/main.go:239-259 | a pixel's four colour bytes, always four. PixelColours states their values |
| Legacy.PixelColours | src/main.go:239-259 | within radius 3 the pixel is FF FF FF FF and in the rest of the circle D4 78 00 FF; outside it is zero, so the alpha is zero exactly when the pixel is transparent |
| Legacy.ColorStep | src/main.go:237-253 | writing one pixel's four bytes extends the drawn prefix of the colour buffer |
| Legacy.PaintPixel | src/main.go:239-253 | an in-circle pixel gets its own four colour bytes |
| Legacy.ColorOutsideStep | src/main.go:254-259 | a pixel outside the circle leaves its colour bytes at zero |
| Legacy.ColorMeaning | src/main.go:228-261 | in the finished buffer every pixel's four bytes are its colour |
| Legacy.DrawPixel | src/main.go:234-259 | one iteration keeps both buffers drawn up to the next pixel |
| Legacy.TransparentAt | src/main.go:239 | a pixel is transparent exactly when it fails the radius-14 test |
| Legacy.OutsideMask | src/main.go:254-259 | in the finished mask, pixel (x,y)'s bit is set exactly when it lies outside the circle |
| Legacy.CreateAppIcon | src/main.go:224-261 | 128 mask and 4096 colour bytes. A pixel's mask bit is set exactly when the pixel is outside radius 14, and its four colour bytes are as PixelColours says |
| WinPlatform.Realize | src/platform_windows.go:453-496 | the Win32 calls each platform function makes, at least one. PlatformCalls states the ones that matter |
| WinPlatform.PlatformCalls | src/platform_windows.go:463-474 | platformClick is left-down then left-up. PreventSleep passes ES_CONTINUOUS\|ES_DISPLAY_REQUIRED\|ES_SYSTEM_REQUIRED and AllowSleep ES_CONTINUOUS alone. No other platform function touches the execution state |
| WinPlatform.RealizeAppend | src/platform_windows.go:453-496 | the calls of two effect traces in a row are the calls of each, in order |
| WinPlatform.RealizeHoldsLease | src/platform_windows.go:453-496 | effects without a lease call make no SetThreadExecutionState call |
| WinPlatform.Bracket | src/platform_windows.go:468-474 | bracketing such effects gives exactly two execution-state calls, prevent first and allow last |
| WinPlatform.LoopLease | src/app.go:139-140 | on Windows, a run of aliveLoop acquires the lease with the prevent flags first, releases it with ES_CONTINUOUS last, and calls SetThreadExecutionState nowhere else |
| WinPlatform.Dispatch | src/platform_windows.go:290-355 | the calls of each branch of wndProc, with the callbacks set or not. CallbacksOnlyFor and DestroyBranch state what they are |
| WinPlatform.CallbacksOnlyFor | src/platform_windows.go:323-337 | onButtonClicked runs exactly for BN_CLICKED/BTN_ID with the callback set. onHotkeyQuit runs exactly for HK_QUIT with its callback set. A message other than WM_DESTROY makes at most one call |
| WinPlatform.DestroyBranch | src/platform_windows.go:339-348 | WM_DESTROY sets active false, releases sleep with ES_CONTINUOUS, posts quit last and returns 0 |
| WinPlatform.Window.WndProc | src/platform_windows.go:290-355 | the reply and the calls are those of the message's branch; the callbacks stay registered |
| WinPlatform.At | src/platform_windows.go:248 | src.At(x, y) of a decoded image: its pixel, and transparent black outside its bounds |
| WinPlatform.ScaleIndex | src/platform_windows.go:246-247 | the source offset x*srcW/32 for destination offset x. ScaleIndexInRange states its range |
| WinPlatform.Source | src/platform_windows.go:246-248 | the pixel the icon shows at (x, y): the source pixel at Min + (x*srcW/32, y*srcH/32) |
| WinPlatform.ScaleIndexInRange | src/platform_windows.go:244-250 | for 0 <= x < 32 and srcW > 0, x*srcW/32 lies in [0, srcW); for srcW = 32 it is x itself |
| WinPlatform.CopyIsSource | src/platform_windows.go:235-236 | for a 32x32 source, draw.Draw's copy is the nearest-neighbour image |
| WinPlatform.Scale | src/platform_windows.go:242-251 | the scaling loop sets pixel (x,y) to src.At(Min.X + x*srcW/32, Min.Y + y*srcH/32) |
| WinPlatform.Resize | src/platform_windows.go:233-251 | whichever branch runs, pixel (x,y) of dst is the source pixel it is scaled from |
| WinPlatform.SwizzleStep | src/platform_windows.go:256-263 | writing one pixel's four bytes extends the converted prefix |
| WinPlatform.Bgra | src/platform_windows.go:260-263 | a pixel's four bytes in the colour bitmap, B, G, R, A from pix[2], pix[1], pix[0], pix[3] |
| WinPlatform.SwizzlePixel | src/platform_windows.go:258-261 | colorBits[off..off+3] = B, G, R, A of the pixel |
| WinPlatform.ConvertPixel | src/platform_windows.go:256-268 | one iteration keeps both bitmaps converted up to the next pixel |
| WinPlatform.Converted | src/platform_windows.go:254-270 | in the finished bitmaps each pixel has its own four bytes, and its mask bit is set exactly when its alpha is zero |
| WinPlatform.Convert | src/platform_windows.go:254-270 | 128 mask bytes and 4096 colour bytes. colorBits[(y*32+x)*4..+4] holds B,G,R,A of pixel (x,y), and the mask bit is set exactly when the alpha is zero |
| WinPlatform.CreateAppIcon | src/platform_windows.go:227-286 | a decode failure gives no icon (handle 0) and no bitmaps. Otherwise each pixel's colour and mask come from the source pixel it is scaled from |

## Left out

- Concurrency is left out: `go aliveLoop()` and the cross-thread `atomic.Bool`. The flag is an input read at each checkpoint. `handleButtonClick` is a load and then a store, not a compare-and-swap, so the model claims nothing about two simultaneous clicks.
- Real time and randomness are left out: `time.Now`, `time.Sleep` and `rand` become the integer clock and the parameters described above.
- The cursor the user moves is represented only by `cursorAt(t)`.
- Engine.MoveCursorAlongCurve: intermediate points are computed in exact rationals, not float64. The square root cancels out of the control point. Float64 rounding could shift an intermediate sample by one pixel. The branch test dist < 2 and the final point are exact in both.
- Engine.AliveLoop: an infinite run, in which the flag is never cleared, is not modelled. Every finite prefix of one is a run with a later `quitAt`.
- The legacy move lemmas (Legacy.StepExact, Legacy.StepLast, Legacy.StepMonotone and Legacy.SmoothEndsOnTarget) hold under `Close`, which says |to-from|*20 fits in int32. The as-written calls, `Legacy.SmoothCalls` with `Wrap32`, are modelled for all inputs. For coordinates that far apart the Go code wraps as modelled, and these lemmas say nothing.
- The truncation of int32 coordinates to `uintptr` in `SetCursorPos` is not modelled.
- `png.Decode`, the colour-model conversion of `dst.Set` and the internals of `draw.Draw` are library code. The decode result is an input `Option<Image>` whose pixels are image.RGBA values. `dst.Pix` with stride 128 is modelled as one `Rgba` per pixel.
- The handles returned by `CreateBitmap` and `CreateIconIndirect`, and the `DeleteObject` calls of `createAppIcon`, are left out, as are the same calls of `src/main.go`.
- Window and GUI setup is left out: window-class creation, `platformRun`, the message pumps, the font and brushes, and the owner-draw painting, which is only a `Paint` call.
- `DestroyWindow` delivers WM_DESTROY synchronously; the model treats that as a separate message.
- The macOS layer is not part of this model: `src/platform_macos.go` and `src/objc_darwin.h`.

## Notes

- Neither `aliveLoop` clears `active` when it ends on its own; only `handleQuit` (or, in `src/main.go`, the WM_HOTKEY branch) and WM_DESTROY clear it. The model follows the code.

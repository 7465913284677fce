/** The Windows platform layer of src/platform_windows.go, apart from window
    creation and painting: how each platform function of the engine turns
    into Win32 calls, how wndProc hands messages to the engine's callbacks,
    and how the embedded PNG becomes the 32x32 icon's colour and mask
    buffers. */
module WinPlatform {
  import opened Win32
  import IconMask
  import Engine

  // ── Platform functions ──────────────────────────────────────────────────

  /** The Win32 calls one platform function makes. */
  function Realize(e: Engine.Effect): (calls: seq<Call>)
    ensures |calls| >= 1
  {
    match e
    case PreventSleep => [SetThreadExecutionState(PreventSleepFlags)]
    case AllowSleep => [SetThreadExecutionState(AllowSleepFlags)]
    case MoveButton(x, y) => [MoveButtonWindow(x, y, Engine.BtnW, Engine.BtnH)]
    case ReinforceTopmost => [SetWindowPosTopmost]
    case ClientToScreen(x, y) => [ClientToScreen(x, y)]
    case GetCursorPos => [GetCursorPos]
    case SetCursorPos(x, y) => [SetCursorPos(x, y)]
    case Click => ClickCalls
    case SetButtonActive(_) => [InvalidateButton]
    case StartLoop => [StartAliveLoop]
    case Quit => [DestroyWindow]
  }

  /** The Win32 calls of a sequence of platform functions, in order. */
  function RealizeAll(es: seq<Engine.Effect>): seq<Call>
  {
    if es == [] then [] else Realize(es[0]) + RealizeAll(es[1..])
  }

  /** A click is a button-down then a button-up; keeping awake asks for the
      display and the system, releasing keeps ES_CONTINUOUS alone; and only
      these two touch the execution state. */
  lemma PlatformCalls(e: Engine.Effect)
    ensures Realize(Engine.Click) == [MouseEvent(MOUSEEVENTF_LEFTDOWN), MouseEvent(MOUSEEVENTF_LEFTUP)]
    ensures Realize(Engine.PreventSleep) == [SetThreadExecutionState(ES_CONTINUOUS | ES_DISPLAY_REQUIRED | ES_SYSTEM_REQUIRED)]
    ensures Realize(Engine.AllowSleep) == [SetThreadExecutionState(ES_CONTINUOUS)]
    ensures (exists i :: 0 <= i < |Realize(e)| && Realize(e)[i].SetThreadExecutionState?) <==>
              e == Engine.PreventSleep || e == Engine.AllowSleep
  {
    if e == Engine.PreventSleep || e == Engine.AllowSleep {
      assert Realize(e)[0].SetThreadExecutionState?;
    }
  }

  lemma {:induction false} RealizeAppend(a: seq<Engine.Effect>, b: seq<Engine.Effect>)
    ensures RealizeAll(a + b) == RealizeAll(a) + RealizeAll(b)
    decreases |a|
  {
    if a == [] {
      assert a + b == b;
    } else {
      assert (a + b)[1..] == a[1..] + b;
      RealizeAppend(a[1..], b);
    }
  }

  /** Effects that neither take nor release the sleep lease make no
      SetThreadExecutionState call. */
  lemma {:induction false} RealizeHoldsLease(es: seq<Engine.Effect>)
    requires Engine.PreventSleep !in es && Engine.AllowSleep !in es
    ensures forall i :: 0 <= i < |RealizeAll(es)| ==> !RealizeAll(es)[i].SetThreadExecutionState?
    decreases |es|
  {
    if es != [] {
      var rest := es[1..];
      assert forall e :: e in rest ==> e in es;
      RealizeHoldsLease(rest);
      PlatformCalls(es[0]);
      var h, r := Realize(es[0]), RealizeAll(rest);
      assert forall i :: 0 <= i < |h + r| ==> (h + r)[i] == (if i < |h| then h[i] else r[i - |h|]);
    }
  }

  lemma RealizeOne(e: Engine.Effect)
    ensures RealizeAll([e]) == Realize(e)
  {
    assert [e][1..] == [];
  }

  /** Bracketing effects that hold no lease between PreventSleep and
      AllowSleep gives a trace with exactly those two execution-state calls,
      at its ends. */
  lemma Bracket(mid: seq<Engine.Effect>, calls: seq<Call>)
    requires Engine.PreventSleep !in mid && Engine.AllowSleep !in mid
    requires calls == RealizeAll([Engine.PreventSleep] + mid + [Engine.AllowSleep])
    ensures calls[0] == SetThreadExecutionState(PreventSleepFlags)
    ensures calls[|calls| - 1] == SetThreadExecutionState(AllowSleepFlags)
    ensures forall i :: 0 < i < |calls| - 1 ==> !calls[i].SetThreadExecutionState?
  {
    RealizeHoldsLease(mid);
    RealizeAppend([Engine.PreventSleep], mid);
    RealizeAppend([Engine.PreventSleep] + mid, [Engine.AllowSleep]);
    RealizeOne(Engine.PreventSleep);
    RealizeOne(Engine.AllowSleep);
    var inner := RealizeAll(mid);
    assert calls == [SetThreadExecutionState(PreventSleepFlags)] + inner + [SetThreadExecutionState(AllowSleepFlags)];
    forall i | 0 < i < |calls| - 1 ensures !calls[i].SetThreadExecutionState? {
      assert calls[i] == inner[i - 1];
    }
  }

  /** On Windows, a run of aliveLoop calls SetThreadExecutionState exactly
      twice: first to keep the machine awake, last to let it sleep. */
  lemma LoopLease(origin: Engine.Point, cycles: seq<Engine.Cycle>, calls: seq<Call>)
    requires calls == RealizeAll([Engine.PreventSleep] + Engine.CyclesEffects(origin, cycles) + [Engine.AllowSleep])
    ensures calls[0] == SetThreadExecutionState(PreventSleepFlags)
    ensures calls[|calls| - 1] == SetThreadExecutionState(AllowSleepFlags)
    ensures forall i :: 0 < i < |calls| - 1 ==> !calls[i].SetThreadExecutionState?
  {
    Engine.CyclesHoldNoLease(origin, cycles);
    Bracket(Engine.CyclesEffects(origin, cycles), calls);
  }

  // ── Window procedure ────────────────────────────────────────────────────

  /** The calls wndProc makes for a message of the given route, when the
      callbacks onButtonClicked and onHotkeyQuit are or are not set. */
  function Dispatch(clickSet: bool, quitSet: bool, route: Route): seq<Call>
  {
    match route
    case EraseBackground => [Paint]
    case DrawItem => [Paint]
    case ButtonCommand => if clickSet then [ButtonClickedCallback] else []
    case QuitHotkey => if quitSet then [HotkeyQuitCallback] else []
    case Destroy => DestroyCalls
    case _ => []
  }

  /** onButtonClicked runs exactly for the button's click notification with
      the callback set, and onHotkeyQuit exactly for the quit hotkey with
      its callback set; each at most once per message. */
  lemma CallbacksOnlyFor(clickSet: bool, quitSet: bool, msg: bv32, wParam: bv64)
    ensures ButtonClickedCallback in Dispatch(clickSet, quitSet, RouteOf(msg, wParam)) <==>
              clickSet && msg == WM_COMMAND && wParam & 0xFFFF_FFFF == 1
    ensures HotkeyQuitCallback in Dispatch(clickSet, quitSet, RouteOf(msg, wParam)) <==>
              quitSet && msg == WM_HOTKEY && wParam == HK_QUIT
    ensures |Dispatch(clickSet, quitSet, RouteOf(msg, wParam))| <= 1 || msg == WM_DESTROY
  {
    ButtonCommandBits(msg, wParam);
  }

  /** WM_DESTROY clears the flag first, releases the sleep lease once and
      posts the quit message last; wndProc returns 0 for it. */
  lemma DestroyBranch(clickSet: bool, quitSet: bool, wParam: bv64)
    ensures Dispatch(clickSet, quitSet, RouteOf(WM_DESTROY, wParam)) == DestroyCalls
    ensures ReplyOf(RouteOf(WM_DESTROY, wParam)) == Returned(0)
    ensures DestroyCalls[0] == StoreActive(false) && DestroyCalls[|DestroyCalls| - 1] == PostQuitMessage(0)
    ensures forall i :: 0 <= i < |DestroyCalls| && DestroyCalls[i].SetThreadExecutionState? ==>
              DestroyCalls[i].flags == AllowSleepFlags
  {
    DestroyReleasesOnce();
  }

  /** The main window: whether initApp has set the two callbacks, and the
      calls made so far. */
  class Window {
    var clickSet: bool
    var quitSet: bool
    var calls: seq<Call>

    constructor (clickSet: bool, quitSet: bool)
      ensures this.clickSet == clickSet && this.quitSet == quitSet && calls == []
    {
      this.clickSet, this.quitSet, calls := clickSet, quitSet, [];
    }

    /** wndProc(hwnd, msg, wParam, lParam). */
    method WndProc(msg: bv32, wParam: bv64) returns (reply: Reply)
      modifies this
      ensures reply == ReplyOf(RouteOf(msg, wParam))
      ensures calls == old(calls) + Dispatch(clickSet, quitSet, RouteOf(msg, wParam))
      ensures clickSet == old(clickSet) && quitSet == old(quitSet)
    {
      if msg == WM_ERASEBKGND {
        calls := calls + [Paint];
        return Returned(1);
      } else if msg == WM_CTLCOLORBTN {
        return Returned(0);
      } else if msg == WM_DRAWITEM {
        calls := calls + [Paint];
        return Returned(1);
      } else if msg == WM_COMMAND {
        if HiWord(wParam) == BN_CLICKED && LoWord(wParam) == BTN_ID {
          if clickSet {
            calls := calls + [ButtonClickedCallback];
          }
        }
        return Returned(0);
      } else if msg == WM_HOTKEY {
        if wParam == HK_QUIT {
          if quitSet {
            calls := calls + [HotkeyQuitCallback];
          }
        }
        return Returned(0);
      } else if msg == WM_DESTROY {
        calls := calls + DestroyCalls;
        return Returned(0);
      }
      return DefaultProcessing;
    }
  }

  // ── Icon ────────────────────────────────────────────────────────────────

  /** One pixel as image.RGBA stores it: R, G, B, A. */
  datatype Rgba = Rgba(r: bv8, g: bv8, b: bv8, a: bv8)

  /** A decoded image: its bounds' minimum corner, its size, and its pixels
      row by row. */
  datatype Image = Image(minX: int, minY: int, w: nat, h: nat, pixels: seq<Rgba>)

  /** img.At(x, y): the pixel, or transparent black outside the bounds. */
  function At(img: Image, x: int, y: int): (c: Rgba)
    ensures !(img.minX <= x < img.minX + img.w && img.minY <= y < img.minY + img.h) ==> c == Rgba(0, 0, 0, 0)
  {
    var i := (y - img.minY) * img.w + (x - img.minX);
    if img.minX <= x < img.minX + img.w && img.minY <= y < img.minY + img.h && 0 <= i < |img.pixels|
    then img.pixels[i]
    else Rgba(0, 0, 0, 0)
  }

  /** x*n/32: the source offset nearest-neighbour scaling takes for
      destination offset x along a side of length n. */
  function ScaleIndex(x: nat, n: nat): nat
  {
    x * n / IconMask.Size
  }

  /** Every destination offset maps inside the source side, and a side that
      is already 32 long maps onto itself. */
  lemma ScaleIndexInRange(x: nat, n: nat)
    requires x < IconMask.Size
    ensures n > 0 ==> ScaleIndex(x, n) < n
    ensures n == IconMask.Size ==> ScaleIndex(x, n) == x
  {
    if n > 0 {
      assert x * n < IconMask.Size * n;
    }
  }

  /** The pixel the icon shows at (x, y). */
  function Source(img: Image, x: nat, y: nat): Rgba
  {
    At(img, img.minX + ScaleIndex(x, img.w), img.minY + ScaleIndex(y, img.h))
  }

  /** When the source is already 32x32, the copy draw.Draw makes of it is
      the image the icon shows. */
  lemma CopyIsSource(img: Image)
    requires img.w == IconMask.Size && img.h == IconMask.Size
    ensures forall x, y :: 0 <= x < IconMask.Size && 0 <= y < IconMask.Size ==>
              At(img, img.minX + IconMask.Pixel(x, y) % IconMask.Size, img.minY + IconMask.Pixel(x, y) / IconMask.Size)
              == Source(img, x, y)
  {
    forall x, y | 0 <= x < IconMask.Size && 0 <= y < IconMask.Size
      ensures At(img, img.minX + IconMask.Pixel(x, y) % IconMask.Size, img.minY + IconMask.Pixel(x, y) / IconMask.Size)
              == Source(img, x, y)
    {
      IconMask.PixelIndex(x, y);
      ScaleIndexInRange(x, img.w);
      ScaleIndexInRange(y, img.h);
    }
  }

  /** The nearest-neighbour loop: a fresh 32x32 image whose pixel (x, y) is
      the source's pixel (x*w/32, y*h/32). */
  method Scale(img: Image) returns (dst: array<Rgba>)
    ensures fresh(dst) && dst.Length == IconMask.Pixels
    ensures forall x, y :: 0 <= x < IconMask.Size && 0 <= y < IconMask.Size ==>
              dst[IconMask.Pixel(x, y)] == Source(img, x, y)
  {
    dst := new Rgba[IconMask.Pixels](_ => Rgba(0, 0, 0, 0));
    var y := 0;
    while y < IconMask.Size
      invariant 0 <= y <= IconMask.Size
      invariant forall yy, xx :: 0 <= yy < y && 0 <= xx < IconMask.Size ==>
                  dst[IconMask.Pixel(xx, yy)] == Source(img, xx, yy)
    {
      var x := 0;
      while x < IconMask.Size
        invariant 0 <= x <= IconMask.Size
        invariant forall yy, xx :: 0 <= yy < y && 0 <= xx < IconMask.Size ==>
                    dst[IconMask.Pixel(xx, yy)] == Source(img, xx, yy)
        invariant forall xx :: 0 <= xx < x ==> dst[IconMask.Pixel(xx, y)] == Source(img, xx, y)
      {
        var srcX := img.minX + x * img.w / IconMask.Size;
        var srcY := img.minY + y * img.h / IconMask.Size;
        dst[IconMask.Pixel(x, y)] := At(img, srcX, srcY);
        x := x + 1;
      }
      y := y + 1;
    }
  }

  /** The 32x32 RGBA image dst: draw.Draw's copy of the source's top-left
      corner, replaced by a nearest-neighbour scaling unless the source is
      32x32. Either way pixel (x, y) is Source(img, x, y). */
  method Resize(img: Image) returns (dst: array<Rgba>)
    ensures fresh(dst) && dst.Length == IconMask.Pixels
    ensures forall x, y :: 0 <= x < IconMask.Size && 0 <= y < IconMask.Size ==>
              dst[IconMask.Pixel(x, y)] == Source(img, x, y)
  {
    dst := new Rgba[IconMask.Pixels](i requires 0 <= i < IconMask.Pixels =>
      At(img, img.minX + i % IconMask.Size, img.minY + i / IconMask.Size));
    if img.w != IconMask.Size || img.h != IconMask.Size {
      dst := Scale(img);
    } else {
      CopyIsSource(img);
    }
  }

  /** The four bytes a pixel gets in the 32-bit colour bitmap: B, G, R, A. */
  function Bgra(c: Rgba): (bytes: seq<bv8>)
    ensures |bytes| == 4
  {
    [c.b, c.g, c.r, c.a]
  }

  /** Which pixels of the resized image are fully transparent. */
  ghost function Clear(pix: seq<Rgba>): (t: seq<bool>)
    ensures |t| == |pix| && forall i :: 0 <= i < |pix| ==> (t[i] <==> pix[i].a == 0)
  {
    seq(|pix|, i requires 0 <= i < |pix| => pix[i].a == 0)
  }

  /** The colour bitmap once the first n pixels of `pix` have been
      converted; the rest is still zero. */
  ghost predicate Swizzled(color: array<bv8>, pix: seq<Rgba>, n: int)
    reads color
  {
    && color.Length == 4 * IconMask.Pixels && |pix| == IconMask.Pixels && 0 <= n <= IconMask.Pixels
    && forall i :: 0 <= i < color.Length ==> color[i] == (if i < 4 * n then Bgra(pix[i / 4])[i % 4] else 0)
  }

  /** Writing pixel p's four bytes, and nothing else, extends the converted
      prefix by one pixel. */
  lemma SwizzleStep(before: seq<bv8>, color: array<bv8>, pix: seq<Rgba>, p: int)
    requires 0 <= p < IconMask.Pixels == |pix| && |before| == color.Length == 4 * IconMask.Pixels
    requires forall i :: 0 <= i < |before| ==> before[i] == (if i < 4 * p then Bgra(pix[i / 4])[i % 4] else 0)
    requires forall i :: 0 <= i < |before| && !(4 * p <= i < 4 * p + 4) ==> color[i] == before[i]
    requires color[4 * p..4 * p + 4] == Bgra(pix[p])
    ensures Swizzled(color, pix, p + 1)
  {
    IconMask.OwnBytes(p);
    forall i | 0 <= i < color.Length
      ensures color[i] == (if i < 4 * (p + 1) then Bgra(pix[i / 4])[i % 4] else 0)
    {
      if 4 * p <= i < 4 * p + 4 {
        assert color[i] == color[4 * p..4 * p + 4][i - 4 * p];
      }
    }
  }

  /** Pixel p's four colour bytes: B, G, R, A. */
  method SwizzlePixel(color: array<bv8>, c: Rgba, ghost pix: seq<Rgba>, p: nat)
    requires p < IconMask.Pixels && Swizzled(color, pix, p) && pix[p] == c
    modifies color
    ensures Swizzled(color, pix, p + 1)
  {
    var off := p * 4;
    color[off], color[off + 1], color[off + 2], color[off + 3] := c.b, c.g, c.r, c.a;
    SwizzleStep(old(color[..]), color, pix, p);
  }

  /** The body of the conversion loops for pixel (x, y): copy B, G, R, A
      into the colour bitmap and, when alpha is zero, set the pixel's mask
      bit. */
  method ConvertPixel(dst: array<Rgba>, mask: array<bv8>, color: array<bv8>, ghost pix: seq<Rgba>, ghost t: seq<bool>, x: nat, y: nat)
    requires x < IconMask.Size && y < IconMask.Size && dst[..] == pix && t == Clear(pix)
    requires IconMask.MaskDrawn(mask, t, y * IconMask.Size + x)
    requires Swizzled(color, pix, y * IconMask.Size + x)
    modifies mask, color
    ensures IconMask.MaskDrawn(mask, t, y * IconMask.Size + x + 1)
    ensures Swizzled(color, pix, y * IconMask.Size + x + 1)
  {
    ghost var before := mask[..];
    var c := dst[y * IconMask.Size + x];
    SwizzlePixel(color, c, pix, y * IconMask.Size + x);
    if c.a == 0 {
      IconMask.SetMaskBit(mask, x, y);
    }
    IconMask.MaskDrawnStep(t, before, mask, x, y);
  }

  /** In the finished bitmaps, pixel (x, y) has its own four bytes, and its
      mask bit is set exactly when its alpha is zero. */
  lemma Converted(mask: array<bv8>, color: array<bv8>, pix: seq<Rgba>)
    requires IconMask.MaskDrawn(mask, Clear(pix), IconMask.Pixels) && Swizzled(color, pix, IconMask.Pixels)
    ensures forall x, y :: 0 <= x < IconMask.Size && 0 <= y < IconMask.Size ==>
              (mask[y * 4 + x / 8] & IconMask.BitFor(x % 8) != 0 <==> pix[IconMask.Pixel(x, y)].a == 0)
    ensures forall x, y :: 0 <= x < IconMask.Size && 0 <= y < IconMask.Size ==>
              color[4 * IconMask.Pixel(x, y)..4 * IconMask.Pixel(x, y) + 4] == Bgra(pix[IconMask.Pixel(x, y)])
  {
    IconMask.MaskMeaning(mask, Clear(pix));
    forall x, y | 0 <= x < IconMask.Size && 0 <= y < IconMask.Size
      ensures mask[y * 4 + x / 8] & IconMask.BitFor(x % 8) != 0 <==> pix[IconMask.Pixel(x, y)].a == 0
    {
      IconMask.PixelIndex(x, y);
    }
    forall x, y | 0 <= x < IconMask.Size && 0 <= y < IconMask.Size
      ensures color[4 * IconMask.Pixel(x, y)..4 * IconMask.Pixel(x, y) + 4] == Bgra(pix[IconMask.Pixel(x, y)])
    {
      IconMask.PixelIndex(x, y);
      PixelOfConverted(color, pix, IconMask.Pixel(x, y));
    }
  }

  /** In the finished colour bitmap, bytes 4p to 4p+3 are pixel p's B, G, R, A. */
  lemma PixelOfConverted(color: array<bv8>, pix: seq<Rgba>, p: int)
    requires Swizzled(color, pix, IconMask.Pixels) && 0 <= p < IconMask.Pixels
    ensures color[4 * p..4 * p + 4] == Bgra(pix[p])
  {
    IconMask.OwnBytes(p);
    var bytes := color[4 * p..4 * p + 4];
    assert bytes[0] == color[4 * p] && bytes[1] == color[4 * p + 1];
    assert bytes[2] == color[4 * p + 2] && bytes[3] == color[4 * p + 3];
  }

  /** The conversion loops over the 32x32 image: the colour bitmap holds each
      pixel's B, G, R, A and the mask marks exactly the pixels whose alpha is
      zero. */
  method Convert(dst: array<Rgba>) returns (mask: array<bv8>, color: array<bv8>)
    requires dst.Length == IconMask.Pixels
    ensures fresh(mask) && fresh(color)
    ensures mask.Length == IconMask.MaskLength && color.Length == 4 * IconMask.Pixels
    ensures forall x, y :: 0 <= x < IconMask.Size && 0 <= y < IconMask.Size ==>
              (mask[y * 4 + x / 8] & IconMask.BitFor(x % 8) != 0 <==> dst[IconMask.Pixel(x, y)].a == 0)
    ensures forall x, y :: 0 <= x < IconMask.Size && 0 <= y < IconMask.Size ==>
              color[4 * IconMask.Pixel(x, y)..4 * IconMask.Pixel(x, y) + 4] == Bgra(dst[IconMask.Pixel(x, y)])
  {
    mask := new bv8[IconMask.MaskLength](_ => 0);
    color := new bv8[4 * IconMask.Pixels](_ => 0);
    ghost var pix := dst[..];
    ghost var t := Clear(pix);
    IconMask.MaskDrawnStart(mask, t);
    var y := 0;
    while y < IconMask.Size
      invariant 0 <= y <= IconMask.Size
      invariant IconMask.MaskDrawn(mask, t, y * IconMask.Size)
      invariant Swizzled(color, pix, y * IconMask.Size)
      modifies mask, color
    {
      var x := 0;
      while x < IconMask.Size
        invariant 0 <= x <= IconMask.Size
        invariant IconMask.MaskDrawn(mask, t, y * IconMask.Size + x)
        invariant Swizzled(color, pix, y * IconMask.Size + x)
        modifies mask, color
      {
        ConvertPixel(dst, mask, color, pix, t, x, y);
        x := x + 1;
      }
      assert (y + 1) * IconMask.Size == y * IconMask.Size + IconMask.Size;
      y := y + 1;
    }
    Converted(mask, color, pix);
  }

  /** The two bitmaps CreateIconIndirect is given: the 1-bit AND mask and
      the 32-bit colour image. */
  datatype IconBits = IconBits(mask: array<bv8>, color: array<bv8>)

  /** createAppIcon, given what png.Decode returned for the embedded PNG:
      no icon (handle 0) when decoding failed; otherwise, for every pixel of
      the 32x32 icon, its colour bytes are the B, G, R, A of the source
      pixel it is scaled from, and its mask bit is set exactly when that
      pixel's alpha is zero. */
  method CreateAppIcon(decoded: Option<Image>) returns (icon: Option<IconBits>)
    ensures icon.Some? <==> decoded.Some?
    ensures icon.Some? ==>
              && fresh(icon.value.mask) && fresh(icon.value.color)
              && icon.value.mask.Length == IconMask.MaskLength
              && icon.value.color.Length == 4 * IconMask.Pixels
    ensures icon.Some? ==> forall x, y :: 0 <= x < IconMask.Size && 0 <= y < IconMask.Size ==>
              (icon.value.mask[y * 4 + x / 8] & IconMask.BitFor(x % 8) != 0 <==> Source(decoded.value, x, y).a == 0)
    ensures icon.Some? ==> forall x, y :: 0 <= x < IconMask.Size && 0 <= y < IconMask.Size ==>
              icon.value.color[4 * IconMask.Pixel(x, y)..4 * IconMask.Pixel(x, y) + 4] == Bgra(Source(decoded.value, x, y))
  {
    if decoded.None? {
      return None;
    }
    var dst := Resize(decoded.value);
    var mask, color := Convert(dst);
    icon := Some(IconBits(mask, color));
  }
}

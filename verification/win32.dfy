/** Win32 vocabulary shared by the stand-alone Windows program (src/main.go)
    and the Windows platform layer (src/platform_windows.go): the message and
    flag constants both files declare, the rgb/loword/hiword bit helpers, the
    routing of a window message to a branch of wndProc, and the log of calls
    that a model of either file emits. */
module Win32 {

  datatype Option<T> = None | Some(value: T)

  // Window messages (a uint32 in wndProc's signature)
  const WM_DESTROY: bv32 := 0x0002
  const WM_ERASEBKGND: bv32 := 0x0014
  const WM_DRAWITEM: bv32 := 0x002B
  const WM_COMMAND: bv32 := 0x0111
  const WM_CTLCOLORBTN: bv32 := 0x0135
  const WM_HOTKEY: bv32 := 0x0312

  const BN_CLICKED: bv16 := 0
  const BTN_ID: bv16 := 1
  const HK_QUIT: bv64 := 1

  const MOUSEEVENTF_LEFTDOWN: bv32 := 0x0002
  const MOUSEEVENTF_LEFTUP: bv32 := 0x0004

  const ES_CONTINUOUS: bv32 := 0x8000_0000
  const ES_DISPLAY_REQUIRED: bv32 := 0x0000_0002
  const ES_SYSTEM_REQUIRED: bv32 := 0x0000_0001

  /** The flags passed to SetThreadExecutionState to keep the machine awake. */
  const PreventSleepFlags: bv32 := ES_CONTINUOUS | ES_DISPLAY_REQUIRED | ES_SYSTEM_REQUIRED
  /** The flags passed to SetThreadExecutionState to let it sleep again. */
  const AllowSleepFlags: bv32 := ES_CONTINUOUS

  // ── Bit helpers ─────────────────────────────────────────────────────────

  /** uint16(l): the low 16 bits of a 64-bit uintptr. */
  function LoWord(l: bv64): (w: bv16)
    ensures w as bv64 == l % 0x1_0000
  {
    (l & 0xFFFF) as bv16
  }

  /** uint16(l >> 16): bits 16 to 31 of a 64-bit uintptr. */
  function HiWord(l: bv64): (w: bv16)
    ensures w as bv64 == (l / 0x1_0000) % 0x1_0000
  {
    ((l >> 16) & 0xFFFF) as bv16
  }

  /** A COLORREF: red in bits 0-7, green in bits 8-15, blue in bits 16-23. */
  function Rgb(r: bv8, g: bv8, b: bv8): (c: bv64)
    ensures c == (r as bv64) + 0x100 * (g as bv64) + 0x1_0000 * (b as bv64)
  {
    (r as bv64) | ((g as bv64) << 8) | ((b as bv64) << 16)
  }

  /** The low and high words together give back the low 32 bits of wParam. */
  lemma WordsRecombine(l: bv64)
    ensures ((HiWord(l) as bv64) << 16) | (LoWord(l) as bv64) == l & 0xFFFF_FFFF
  {
  }

  /** Packing two words (as the system does for WM_COMMAND) and unpacking them
      with loword/hiword is a round trip, whatever the upper 32 bits hold. */
  lemma WordsOfPacked(lo: bv16, hi: bv16, upper: bv64)
    ensures LoWord((upper << 32) | ((hi as bv64) << 16) | (lo as bv64)) == lo
    ensures HiWord((upper << 32) | ((hi as bv64) << 16) | (lo as bv64)) == hi
  {
  }

  /** Each channel of an rgb value is recovered from its own byte, and nothing
      is set above bit 23. */
  lemma RgbChannels(r: bv8, g: bv8, b: bv8)
    ensures Rgb(r, g, b) & 0xFF == r as bv64
    ensures (Rgb(r, g, b) >> 8) & 0xFF == g as bv64
    ensures (Rgb(r, g, b) >> 16) & 0xFF == b as bv64
    ensures Rgb(r, g, b) >> 24 == 0
  {
  }

  /** Keeping awake asks for the display and the system and stays in force
      (ES_CONTINUOUS); releasing keeps ES_CONTINUOUS alone, which clears both
      requirements. */
  lemma SleepFlagsMeaning()
    ensures PreventSleepFlags == 0x8000_0003
    ensures PreventSleepFlags & ES_CONTINUOUS != 0 && AllowSleepFlags & ES_CONTINUOUS != 0
    ensures AllowSleepFlags & (ES_DISPLAY_REQUIRED | ES_SYSTEM_REQUIRED) == 0
  {
  }

  // ── Message routing ─────────────────────────────────────────────────────

  /** The branch of wndProc a message takes (the switch and its inner tests). */
  datatype Route =
    | EraseBackground
    | ColorButton
    | DrawItem
    | ButtonCommand      // WM_COMMAND with BN_CLICKED from the button BTN_ID
    | OtherCommand       // any other WM_COMMAND
    | QuitHotkey         // WM_HOTKEY with id HK_QUIT
    | OtherHotkey        // any other WM_HOTKEY
    | Destroy
    | Unhandled          // passed on to DefWindowProc

  function RouteOf(msg: bv32, wParam: bv64): Route
  {
    if msg == WM_ERASEBKGND then EraseBackground
    else if msg == WM_CTLCOLORBTN then ColorButton
    else if msg == WM_DRAWITEM then DrawItem
    else if msg == WM_COMMAND then
      (if HiWord(wParam) == BN_CLICKED && LoWord(wParam) == BTN_ID then ButtonCommand else OtherCommand)
    else if msg == WM_HOTKEY then
      (if wParam == HK_QUIT then QuitHotkey else OtherHotkey)
    else if msg == WM_DESTROY then Destroy
    else Unhandled
  }

  /** A WM_COMMAND counts as the button's click exactly when the low 32 bits of
      wParam are 1 (notification code 0, control id 1); bits 32-63 are ignored. */
  lemma ButtonCommandBits(msg: bv32, wParam: bv64)
    ensures RouteOf(msg, wParam) == ButtonCommand <==> msg == WM_COMMAND && wParam & 0xFFFF_FFFF == 1
  {
    WordsRecombine(wParam);
  }

  /** What wndProc returns: a value of its own, or DefWindowProc's result. */
  datatype Reply = Returned(value: int) | DefaultProcessing

  function ReplyOf(route: Route): (r: Reply)
    ensures r.DefaultProcessing? <==> route == Unhandled
    ensures route in {EraseBackground, DrawItem} <==> r == Returned(1)
    ensures route !in {EraseBackground, DrawItem, Unhandled} <==> r == Returned(0)
  {
    match route
    case EraseBackground => Returned(1)
    case DrawItem => Returned(1)
    case Unhandled => DefaultProcessing
    case _ => Returned(0)
  }

  // ── Calls ───────────────────────────────────────────────────────────────

  datatype GdiObject = Font | BrushBg | BrushBlue | BrushGreen

  /** One observable step of a Windows build: a Win32 call, a store to the
      shared `active` flag, the start of an aliveLoop goroutine, or the call of
      a registered callback. */
  datatype Call =
    | StoreActive(on: bool)
    | StartAliveLoop
    | ButtonClickedCallback
    | HotkeyQuitCallback
    | SetThreadExecutionState(flags: bv32)
    | MouseEvent(flags: bv32)
    | SetCursorPos(x: int, y: int)
    | GetCursorPos
    | MoveButtonWindow(x: int, y: int, w: int, h: int)
    | SetWindowPosTopmost
    | ClientToScreen(x: int, y: int)
    | InvalidateButton
    | DestroyWindow
    | UnregisterHotKey(id: bv64)
    | DeleteObject(obj: GdiObject)
    | PostQuitMessage(code: int)
    | Paint                              // GDI drawing of WM_ERASEBKGND / WM_DRAWITEM

  /** The WM_DESTROY branch, common to both wndProcs: disarm, drop the hotkey,
      release the sleep lease, free the GDI objects, end the message loop. */
  const DestroyCalls: seq<Call> := [
    StoreActive(false),
    UnregisterHotKey(HK_QUIT),
    SetThreadExecutionState(AllowSleepFlags),
    DeleteObject(Font), DeleteObject(BrushBg), DeleteObject(BrushBlue), DeleteObject(BrushGreen),
    PostQuitMessage(0)
  ]

  /** A left click is a button-down immediately followed by a button-up. */
  const ClickCalls: seq<Call> := [MouseEvent(MOUSEEVENTF_LEFTDOWN), MouseEvent(MOUSEEVENTF_LEFTUP)]

  /** WM_DESTROY releases the sleep lease exactly once, only after `active` is
      cleared, and never acquires it. */
  lemma DestroyReleasesOnce()
    ensures DestroyCalls[0] == StoreActive(false) && DestroyCalls[|DestroyCalls| - 1] == PostQuitMessage(0)
    ensures forall i :: 0 <= i < |DestroyCalls| && DestroyCalls[i].SetThreadExecutionState? ==>
              i == 2 && DestroyCalls[i].flags == AllowSleepFlags
  {
  }
}

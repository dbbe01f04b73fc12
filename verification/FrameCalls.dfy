/**
 What one frame does to the controller pointers, case by case: the calls it adds and the
 state it leaves. Coordinates are those of the 960 by 544 screen, pointer 8 is the pad's
 and pointer 9 the rack's.
 */
module FrameCalls {
  import opened Words
  import opened Sequences
  import opened Pointers

  /** A button that was up in the frame before. */
  predicate Fresh(c: Controls, buttons: set<Button>, b: Button) {
    b in buttons && b !in c.previous
  }

  /** TRIANGLE switches the controls on and off. */
  predicate Active(c: Controls, buttons: set<Button>) {
    c.enabled != Fresh(c, buttons, Triangle)
  }

  predicate OnScreen(c: Controls) {
    && 1 <= c.focusX <= 958 && 1 <= c.focusY <= 542
    && 1 <= c.dragX <= 958 && 1 <= c.dragY <= 542
  }

  // The controls are off, or go off

  lemma {:induction false} DisabledFrame(c: Controls, buttons: set<Button>, ly: Byte, count: int)
    requires DownOnlyIfEnabled(c) && !c.enabled && !Fresh(c, buttons, Triangle)
    ensures ControlFrame(c, buttons, ly, count) == c.(previous := buttons)
  {
  }

  /** Both pointers are lifted where they are. */
  lemma {:induction false} SwitchingOff(c: Controls, buttons: set<Button>, ly: Byte, count: int)
    requires ControlsAgree(c) && c.enabled && Fresh(c, buttons, Triangle)
    ensures ControlFrame(c, buttons, ly, count)
         == c.(previous := buttons, enabled := false, grabbed := false, pending := false, rackActive := false, hold := [0, 0, 0, 0],
               trace := c.trace + (if c.grabbed || c.pending then [End(8, c.dragX, c.dragY)] else [])
                      + (if c.rackActive then [End(9, 32, c.rackY)] else []))
  {
  }

  // The stick

  /** How many rows the stick moves the rack: at least two beyond its dead zone. */
  function Rows(ly: Byte): int {
    if ly < 80 then -((128 - ly) / 24) else if ly > 176 then (ly - 128) / 24 else 0
  }

  predicate Swipes(c: Controls, ly: Byte, count: int) {
    (ly < 80 || ly > 176) && count == 0 && !c.grabbed
  }

  /** The row a swipe starts the frame from. */
  function RowBefore(c: Controls): int {
    if c.rackActive then c.rackY else 272
  }

  /** It starts again from the centre if it would leave the rail. */
  predicate Leaves(c: Controls, ly: Byte) {
    !(72 <= RowBefore(c) + Rows(ly) <= 472)
  }

  function RowAfter(c: Controls, ly: Byte, count: int): int {
    if !Swipes(c, ly, count) then c.rackY
    else Rows(ly) + if Leaves(c, ly) then 272 else RowBefore(c)
  }

  function StickCalls(c: Controls, ly: Byte, count: int): seq<Event> {
    if !Swipes(c, ly, count) then if c.rackActive then [End(9, 32, c.rackY)] else []
    else
      (if c.rackActive then [] else [Begin(9, 32, 272)])
      + (if Leaves(c, ly) then [End(9, 32, RowBefore(c)), Begin(9, 32, 272)] else [])
      + [Move(9, 32, RowAfter(c, ly, count))]
  }

  /** What comes before the pad in an active frame: a tap of the last frame is lifted, and the stick swipes the rack. */
  function Early(c: Controls, buttons: set<Button>, ly: Byte, count: int): Controls {
    c.(previous := buttons, enabled := true, pending := false,
       rackActive := Swipes(c, ly, count), rackY := RowAfter(c, ly, count),
       trace := c.trace + (if c.pending then [End(8, c.dragX, c.dragY)] else []) + StickCalls(c, ly, count))
  }

  lemma {:induction false} RowsAreDelta(ly: Byte)
    ensures RackDelta(ly) == Rows(ly) && -5 <= Rows(ly) <= 5 && (Rows(ly) != 0 <==> ly < 80 || ly > 176)
  {
  }

  lemma {:induction false} StickMoves(c: Controls, ly: Byte, count: int)
    requires 72 <= c.rackY <= 472
    ensures RackSwipe(c, ly, count)
         == c.(rackActive := Swipes(c, ly, count), rackY := RowAfter(c, ly, count), trace := c.trace + StickCalls(c, ly, count))
  {
    RowsAreDelta(ly);
  }

  lemma {:induction false} ActiveFrame(c: Controls, buttons: set<Button>, ly: Byte, count: int)
    requires ControlsAgree(c) && DownOnlyIfEnabled(c) && Active(c, buttons)
    ensures var e, pressed := Early(c, buttons, ly, count), buttons - c.previous;
      ControlFrame(c, buttons, ly, count)
      == if Start in pressed || Select in pressed then Tap(e, pressed) else Drag(CrossPressed(e, pressed), buttons, pressed)
  {
    var lifted := c.(previous := buttons, enabled := true, pending := false,
                     trace := c.trace + if c.pending then [End(8, c.dragX, c.dragY)] else []);
    assert c.trace + [] == c.trace;
    assert Toggle(ReleaseTap(c).(previous := buttons), buttons - c.previous) == lifted;
    StickMoves(lifted, ly, count);
    assert StickCalls(lifted, ly, count) == StickCalls(c, ly, count) && RowAfter(lifted, ly, count) == RowAfter(c, ly, count);
    assert RackSwipe(lifted, ly, count) == Early(c, buttons, ly, count);
  }

  // Taps

  /** START taps play or stop; a drag is dropped first. */
  lemma {:induction false} StartFrame(c: Controls, buttons: set<Button>, ly: Byte, count: int)
    requires ControlsAgree(c) && DownOnlyIfEnabled(c) && Active(c, buttons) && Fresh(c, buttons, Start)
    ensures var e, x := Early(c, buttons, ly, count), if c.playing then 798 else 700;
      ControlFrame(c, buttons, ly, count)
      == e.(dragX := x, dragY := 519, grabbed := false, pending := true, playing := !c.playing,
            trace := e.trace + (if c.grabbed then [End(8, c.dragX, c.dragY)] else []) + [Begin(8, x, 519)])
  {
    ActiveFrame(c, buttons, ly, count);
  }

  /** SELECT taps the machine management button, and the focus goes to the first machine. */
  lemma {:induction false} SelectFrame(c: Controls, buttons: set<Button>, ly: Byte, count: int)
    requires ControlsAgree(c) && DownOnlyIfEnabled(c) && Active(c, buttons)
    requires Fresh(c, buttons, Select) && !Fresh(c, buttons, Start)
    ensures var e := Early(c, buttons, ly, count);
      ControlFrame(c, buttons, ly, count)
      == e.(dragX := 31, dragY := 519, grabbed := false, pending := true, focusX := 145, focusY := 145,
            trace := e.trace + (if c.grabbed then [End(8, c.dragX, c.dragY)] else []) + [Begin(8, 31, 519)])
  {
    ActiveFrame(c, buttons, ly, count);
  }

  // Directions

  function Held(hold: Hold, buttons: set<Button>): Hold {
    [if DUp in buttons then hold[0] + 1 else 0, if DDown in buttons then hold[1] + 1 else 0,
     if DLeft in buttons then hold[2] + 1 else 0, if DRight in buttons then hold[3] + 1 else 0]
  }

  /** A direction moves the focus when it is pressed, and held on, every fourth frame from the sixteenth. */
  predicate Goes(c: Controls, buttons: set<Button>, d: Button, held: nat) {
    Fresh(c, buttons, d) || (held >= 16 && held % 4 == 0)
  }

  /** A coordinate goes down, then up, by a step, and stops at 1 and at most. */
  function Towards(v: int, down: bool, up: bool, step: int, most: int): int {
    var w := if !down then v else if v - step < 1 then 1 else v - step;
    if !up then w else if w + step > most then most else w + step
  }

  /** Three pixels for each direction held. */
  function Dragged(c: Controls, buttons: set<Button>): Controls {
    c.(hold := Held(c.hold, buttons),
       dragX := Towards(c.dragX, DLeft in buttons, DRight in buttons, 3, 958),
       dragY := Towards(c.dragY, DUp in buttons, DDown in buttons, 3, 542))
  }

  /** Twenty-four pixels for each direction that goes, by what was held before the frame. */
  function Focused(c: Controls, buttons: set<Button>, before: Controls): Controls {
    var hold := Held(c.hold, buttons);
    c.(hold := hold,
       focusX := Towards(c.focusX, Goes(before, buttons, DLeft, hold[2]), Goes(before, buttons, DRight, hold[3]), 24, 958),
       focusY := Towards(c.focusY, Goes(before, buttons, DUp, hold[0]), Goes(before, buttons, DDown, hold[1]), 24, 542))
  }

  /** One direction: its hold count, and the drag or the focus a step further. */
  function Went(c: Controls, d: nat, held: nat, goes: bool, dx: int, dy: int): Controls
    requires d < 4
  {
    var e := c.(hold := c.hold[d := held]);
    if !goes then e
    else if c.grabbed then
      e.(dragX := Towards(c.dragX, dx < 0, dx > 0, 3, 958), dragY := Towards(c.dragY, dy < 0, dy > 0, 3, 542))
    else
      e.(focusX := Towards(c.focusX, dx < 0, dx > 0, 24, 958), focusY := Towards(c.focusY, dy < 0, dy > 0, 24, 542))
  }

  predicate Steps(c: Controls, buttons: set<Button>, pressed: set<Button>, b: Button, held: nat) {
    if c.grabbed then b in buttons else b in pressed || (held >= 16 && held % 4 == 0)
  }

  lemma {:induction false} DirectIs(c: Controls, buttons: set<Button>, pressed: set<Button>, d: nat, b: Button, dx: int, dy: int)
    requires d < 4 && OnScreen(c) && pressed <= buttons
    requires (b, dx, dy) == [(DUp, 0, -1), (DDown, 0, 1), (DLeft, -1, 0), (DRight, 1, 0)][d]
    ensures var held := if b in buttons then c.hold[d] + 1 else 0;
      var e := Went(c, d, held, Steps(c, buttons, pressed, b, held), dx, dy);
      Direct(c, buttons, pressed, d) == e && OnScreen(e)
  {
    assert DIRECTIONS[d] == b && DIRECTION_X[d] == dx && DIRECTION_Y[d] == dy;
  }

  lemma {:induction false} Vertically(c: Controls, up: bool, down: bool, h0: nat, h1: nat)
    ensures var d, hold := Went(Went(c, 0, h0, up, 0, -1), 1, h1, down, 0, 1), c.hold[0 := h0][1 := h1];
      && (c.grabbed ==> d == c.(hold := hold, dragY := Towards(c.dragY, up, down, 3, 542)))
      && (!c.grabbed ==> d == c.(hold := hold, focusY := Towards(c.focusY, up, down, 24, 542)))
  {
  }

  lemma {:induction false} Horizontally(c: Controls, left: bool, right: bool, h2: nat, h3: nat)
    ensures var d, hold := Went(Went(c, 2, h2, left, -1, 0), 3, h3, right, 1, 0), c.hold[2 := h2][3 := h3];
      && (c.grabbed ==> d == c.(hold := hold, dragX := Towards(c.dragX, left, right, 3, 958)))
      && (!c.grabbed ==> d == c.(hold := hold, focusX := Towards(c.focusX, left, right, 24, 958)))
  {
  }

  lemma {:induction false} Unrolled(c: Controls, buttons: set<Button>, pressed: set<Button>)
    ensures var half := Direct(Direct(c, buttons, pressed, 0), buttons, pressed, 1);
      DirectAll(c, buttons, pressed, 4) == Direct(Direct(half, buttons, pressed, 2), buttons, pressed, 3)
  {
    assert DirectAll(c, buttons, pressed, 1) == Direct(DirectAll(c, buttons, pressed, 0), buttons, pressed, 0);
    assert DirectAll(c, buttons, pressed, 2) == Direct(DirectAll(c, buttons, pressed, 1), buttons, pressed, 1);
    assert DirectAll(c, buttons, pressed, 3) == Direct(DirectAll(c, buttons, pressed, 2), buttons, pressed, 2);
  }

  lemma {:induction false} UpAndDown(c: Controls, buttons: set<Button>, pressed: set<Button>)
    requires OnScreen(c) && pressed <= buttons
    ensures var h, d := Held(c.hold, buttons), Direct(Direct(c, buttons, pressed, 0), buttons, pressed, 1);
      && OnScreen(d)
      && d == Went(Went(c, 0, h[0], Steps(c, buttons, pressed, DUp, h[0]), 0, -1),
                   1, h[1], Steps(c, buttons, pressed, DDown, h[1]), 0, 1)
  {
    DirectIs(c, buttons, pressed, 0, DUp, 0, -1);
    DirectIs(Direct(c, buttons, pressed, 0), buttons, pressed, 1, DDown, 0, 1);
  }

  lemma {:induction false} LeftAndRight(c: Controls, buttons: set<Button>, pressed: set<Button>, h2: nat, h3: nat)
    requires OnScreen(c) && pressed <= buttons
    requires h2 == (if DLeft in buttons then c.hold[2] + 1 else 0) && h3 == (if DRight in buttons then c.hold[3] + 1 else 0)
    ensures Direct(Direct(c, buttons, pressed, 2), buttons, pressed, 3)
         == Went(Went(c, 2, h2, Steps(c, buttons, pressed, DLeft, h2), -1, 0), 3, h3, Steps(c, buttons, pressed, DRight, h3), 1, 0)
  {
    DirectIs(c, buttons, pressed, 2, DLeft, -1, 0);
    DirectIs(Direct(c, buttons, pressed, 2), buttons, pressed, 3, DRight, 1, 0);
  }

  lemma {:induction false} HalfKeeps(c: Controls, h0: nat, h1: nat, up: bool, down: bool)
    ensures var half := Went(Went(c, 0, h0, up, 0, -1), 1, h1, down, 0, 1);
      half.grabbed == c.grabbed && half.hold[2] == c.hold[2] && half.hold[3] == c.hold[3]
  {
  }

  /** What the four directions make of the controls: their hold counts, and a drag or the focus moved. */
  function MovedBy(c: Controls, hold: Hold, up: bool, down: bool, left: bool, right: bool): Controls {
    if c.grabbed then
      c.(hold := hold, dragX := Towards(c.dragX, left, right, 3, 958), dragY := Towards(c.dragY, up, down, 3, 542))
    else
      c.(hold := hold, focusX := Towards(c.focusX, left, right, 24, 958), focusY := Towards(c.focusY, up, down, 24, 542))
  }

  lemma {:induction false} BothWays(c: Controls, h: Hold, up: bool, down: bool, left: bool, right: bool)
    ensures var half := Went(Went(c, 0, h[0], up, 0, -1), 1, h[1], down, 0, 1);
      Went(Went(half, 2, h[2], left, -1, 0), 3, h[3], right, 1, 0) == MovedBy(c, h, up, down, left, right)
  {
    var half := Went(Went(c, 0, h[0], up, 0, -1), 1, h[1], down, 0, 1);
    Vertically(c, up, down, h[0], h[1]);
    Horizontally(half, left, right, h[2], h[3]);
    AllHeld(c.hold, h);
  }

  lemma {:induction false} AllHeld(before: Hold, h: Hold)
    ensures before[0 := h[0]][1 := h[1]][2 := h[2]][3 := h[3]] == h
  {
  }

  lemma {:induction false} DirectionsMove(c: Controls, buttons: set<Button>, pressed: set<Button>)
    requires OnScreen(c) && pressed <= buttons
    ensures var h := Held(c.hold, buttons);
      DirectAll(c, buttons, pressed, 4)
      == MovedBy(c, h, Steps(c, buttons, pressed, DUp, h[0]), Steps(c, buttons, pressed, DDown, h[1]),
                 Steps(c, buttons, pressed, DLeft, h[2]), Steps(c, buttons, pressed, DRight, h[3]))
  {
    var h, half := Held(c.hold, buttons), Direct(Direct(c, buttons, pressed, 0), buttons, pressed, 1);
    var up, down := Steps(c, buttons, pressed, DUp, h[0]), Steps(c, buttons, pressed, DDown, h[1]);
    var left, right := Steps(c, buttons, pressed, DLeft, h[2]), Steps(c, buttons, pressed, DRight, h[3]);
    Unrolled(c, buttons, pressed);
    UpAndDown(c, buttons, pressed);
    HalfKeeps(c, h[0], h[1], up, down);
    LeftAndRight(half, buttons, pressed, h[2], h[3]);
    BothWays(c, h, up, down, left, right);
  }

  lemma {:induction false} Directions(c: Controls, buttons: set<Button>, before: Controls)
    requires OnScreen(c)
    ensures DirectAll(c, buttons, buttons - before.previous, 4)
         == if c.grabbed then Dragged(c, buttons) else Focused(c, buttons, before)
  {
    DirectionsMove(c, buttons, buttons - before.previous);
  }

  predicate AnyHeld(buttons: set<Button>) {
    DUp in buttons || DDown in buttons || DLeft in buttons || DRight in buttons
  }

  /** A held drag moves with the directions, and the pointer with it if any is held. */
  function DragOn(c: Controls, buttons: set<Button>): Controls {
    var d := Dragged(c, buttons);
    d.(trace := d.trace + if AnyHeld(buttons) then [Move(8, d.dragX, d.dragY)] else [])
  }

  lemma {:induction false} DragIs(c: Controls, buttons: set<Button>, before: Controls)
    requires OnScreen(c)
    ensures Drag(c, buttons, buttons - before.previous) == if c.grabbed then DragOn(c, buttons) else Focused(c, buttons, before)
  {
    Directions(c, buttons, before);
    assert c.trace + [] == c.trace;
  }

  // CROSS

  /** Neither START nor SELECT is pressed. */
  predicate NoTap(c: Controls, buttons: set<Button>) {
    !Fresh(c, buttons, Start) && !Fresh(c, buttons, Select)
  }

  /** CROSS takes hold at the focus; a direction held moves the drag in the same frame. */
  lemma {:induction false} GrabFrame(c: Controls, buttons: set<Button>, ly: Byte, count: int)
    requires ControlsAgree(c) && DownOnlyIfEnabled(c) && Active(c, buttons) && OnScreen(c) && NoTap(c, buttons)
    requires Fresh(c, buttons, Cross) && !c.grabbed
    ensures var e := Early(c, buttons, ly, count);
      ControlFrame(c, buttons, ly, count)
      == DragOn(e.(dragX := c.focusX, dragY := c.focusY, grabbed := true, trace := e.trace + [Begin(8, c.focusX, c.focusY)]),
                buttons)
  {
    var e := Early(c, buttons, ly, count);
    ActiveFrame(c, buttons, ly, count);
    DragIs(e.(dragX := c.focusX, dragY := c.focusY, grabbed := true, trace := e.trace + [Begin(8, c.focusX, c.focusY)]),
           buttons, c);
  }

  /** CROSS again lets go where the drag is; the directions move the focus. */
  lemma {:induction false} LetGoFrame(c: Controls, buttons: set<Button>, ly: Byte, count: int)
    requires ControlsAgree(c) && DownOnlyIfEnabled(c) && Active(c, buttons) && OnScreen(c) && NoTap(c, buttons)
    requires Fresh(c, buttons, Cross) && c.grabbed
    ensures var e := Early(c, buttons, ly, count);
      ControlFrame(c, buttons, ly, count)
      == Focused(e.(grabbed := false, trace := e.trace + [End(8, c.dragX, c.dragY)]), buttons, c)
  {
    var e := Early(c, buttons, ly, count);
    ActiveFrame(c, buttons, ly, count);
    DragIs(e.(grabbed := false, trace := e.trace + [End(8, c.dragX, c.dragY)]), buttons, c);
  }

  /** Otherwise the directions move what is held, or the focus. */
  lemma {:induction false} PlainFrame(c: Controls, buttons: set<Button>, ly: Byte, count: int)
    requires ControlsAgree(c) && DownOnlyIfEnabled(c) && Active(c, buttons) && OnScreen(c) && NoTap(c, buttons)
    requires !Fresh(c, buttons, Cross)
    ensures var e := Early(c, buttons, ly, count);
      ControlFrame(c, buttons, ly, count) == if c.grabbed then DragOn(e, buttons) else Focused(e, buttons, c)
  {
    ActiveFrame(c, buttons, ly, count);
    DragIs(Early(c, buttons, ly, count), buttons, c);
  }

  lemma {:induction false} MovesOnScreen(c: Controls, buttons: set<Button>, before: Controls)
    requires OnScreen(c)
    ensures OnScreen(DragOn(c, buttons)) && OnScreen(Focused(c, buttons, before))
  {
  }

  /** No pointer of the controller ever leaves the screen. */
  lemma {:induction false} FrameStaysOnScreen(c: Controls, buttons: set<Button>, ly: Byte, count: int)
    requires ControlsAgree(c) && DownOnlyIfEnabled(c) && OnScreen(c)
    ensures OnScreen(ControlFrame(c, buttons, ly, count))
  {
    var e := Early(c, buttons, ly, count);
    if !Active(c, buttons) {
      if c.enabled {
        SwitchingOff(c, buttons, ly, count);
      } else {
        DisabledFrame(c, buttons, ly, count);
      }
    } else if Fresh(c, buttons, Start) {
      StartFrame(c, buttons, ly, count);
    } else if Fresh(c, buttons, Select) {
      SelectFrame(c, buttons, ly, count);
    } else {
      UntappedStaysOnScreen(c, buttons, ly, count);
    }
  }

  lemma {:induction false} UntappedStaysOnScreen(c: Controls, buttons: set<Button>, ly: Byte, count: int)
    requires ControlsAgree(c) && DownOnlyIfEnabled(c) && Active(c, buttons) && OnScreen(c) && NoTap(c, buttons)
    ensures OnScreen(ControlFrame(c, buttons, ly, count))
  {
    var e := Early(c, buttons, ly, count);
    if !Fresh(c, buttons, Cross) {
      PlainFrame(c, buttons, ly, count);
      MovesOnScreen(e, buttons, c);
    } else if c.grabbed {
      LetGoFrame(c, buttons, ly, count);
      MovesOnScreen(e.(grabbed := false, trace := e.trace + [End(8, c.dragX, c.dragY)]), buttons, c);
    } else {
      GrabFrame(c, buttons, ly, count);
      MovesOnScreen(e.(dragX := c.focusX, dragY := c.focusY, grabbed := true, trace := e.trace + [Begin(8, c.focusX, c.focusY)]),
                    buttons, c);
    }
  }

  lemma {:induction false} RunStaysOnScreen(inputs: seq<Input>)
    ensures OnScreen(Run(inputs).controls)
    decreases |inputs|
  {
    if inputs != [] {
      var before, i := Run(inputs[..|inputs| - 1]), inputs[|inputs| - 1];
      RunStaysOnScreen(inputs[..|inputs| - 1]);
      EveryRunObeys(inputs[..|inputs| - 1], 0);
      var t := TouchFrame(Touches(before.slots, before.count, before.controls.trace), i.reports);
      FingersKeepTheirSlots(Touches(before.slots, before.count, before.controls.trace), i.reports);
      FrameStaysOnScreen(before.controls.(trace := t.trace), i.buttons, i.ly, t.count);
    }
  }

  // The touch panel

  /** A panel coordinate scaled down to the screen. */
  predicate Scaled(v: int, raw: int, screen: int, panel: int) {
    panel * v <= raw * screen < panel * (v + 1)
  }

  /** The finger has slot k. */
  predicate Has(slots: seq<Slot>, k: nat, id: Byte)
    requires k < |slots|
  {
    slots[k].active && slots[k].hardwareId == id
  }

  /** Slot k is the first that is free. */
  predicate FirstFree(slots: seq<Slot>, k: nat)
    requires k < |slots|
  {
    !slots[k].active && forall i | 0 <= i < k :: slots[i].active
  }

  /** A report moves its finger's pointer, else begins one in the first free slot, else is dropped. */
  lemma {:induction false} ReportCall(t: Touches, r: Report, k: nat, x: int, y: int)
    requires DistinctFingers(t.slots) && k < |t.slots| && r.x >= 0 && r.y >= 0
    requires Scaled(x, r.x, 960, 1919) && Scaled(y, r.y, 544, 1087)
    ensures Has(t.slots, k, r.id) ==>
      ApplyReport(t, r) == Touches(t.slots[k := Slot(true, true, r.id, x, y)], t.count, t.trace + [Move(k, x, y)])
    ensures (forall i | 0 <= i < |t.slots| :: !Has(t.slots, i, r.id)) && FirstFree(t.slots, k) ==>
      ApplyReport(t, r) == Touches(t.slots[k := Slot(true, true, r.id, x, y)], t.count + 1, t.trace + [Begin(k, x, y)])
    ensures (forall i | 0 <= i < |t.slots| :: t.slots[i].active && !Has(t.slots, i, r.id)) ==> ApplyReport(t, r) == t
  {
    var active, free := FindActive(t.slots, r.id), FindFree(t.slots);
    assert MapX(r.x) == x && MapY(r.y) == y;
    if Has(t.slots, k, r.id) {
      assert active == k;
    } else if active < |t.slots| {
      assert Has(t.slots, active, r.id);
    } else if FirstFree(t.slots, k) {
      assert free == k;
    }
  }

  /** The reports of a frame that are looked at. */
  function Looked(rs: seq<Report>): seq<Report> {
    if |rs| <= 8 then rs else rs[..8]
  }

  /** A finger that is reported has a slot afterwards, unless no slot that was free before is left. */
  lemma {:induction false} FingerGetsSlot(t: Touches, rs: seq<Report>, i: nat)
    requires TouchesAgree(t) && i < |Looked(rs)|
    ensures var slots := TouchFrame(t, rs).slots;
      && |slots| == 8
      && ((exists k | 0 <= k < 8 :: Has(slots, k, rs[i].id)) || forall k | 0 <= k < 8 :: t.slots[k].active || slots[k].active)
  {
    var cleared := t.(slots := ClearSeen(t.slots));
    ClearAgrees(t);
    ReportsAgree(cleared, Looked(rs));
    ReportsTake(cleared, Looked(rs), i);
    var u := ApplyReports(cleared, Looked(rs));
    ReleaseAgrees(u, 8);
    if k: nat :| k < 8 && Has(u.slots, k, rs[i].id) && u.slots[k].seen {
      assert Has(TouchFrame(t, rs).slots, k, rs[i].id);
    } else {
      ReportsAreShown(cleared, Looked(rs));
      forall k | 0 <= k < 8 ensures t.slots[k].active || TouchFrame(t, rs).slots[k].active {
        assert u.slots[k].active;
        assert TouchFrame(t, rs).slots[k] == Released(u.slots[k], true);
        assert ShownAt(cleared.slots[k], u.slots[k], Looked(rs));
      }
    }
  }

  lemma {:induction false} ReportsTake(t: Touches, rs: seq<Report>, i: nat)
    requires TouchesAgree(t) && i < |rs|
    ensures var slots := ApplyReports(t, rs).slots;
      && |slots| == 8
      && ((exists k | 0 <= k < 8 :: Has(slots, k, rs[i].id) && slots[k].seen) || forall k | 0 <= k < 8 :: slots[k].active)
    decreases |rs|
  {
    var n := |rs| - 1;
    ReportsAgree(t, rs[..n]);
    var u := ApplyReports(t, rs[..n]);
    if i < n {
      ReportsTake(t, rs[..n], i);
    }
    ReportTakes(u, rs[n]);
  }

  lemma {:induction false} ReportTakes(t: Touches, r: Report)
    requires TouchesAgree(t)
    ensures var slots := ApplyReport(t, r).slots;
      && |slots| == 8
      && ((exists k | 0 <= k < 8 :: Has(slots, k, r.id) && slots[k].seen) || forall k | 0 <= k < 8 :: slots[k].active)
      && forall k | 0 <= k < 8 && t.slots[k].active ::
           slots[k].active && slots[k].hardwareId == t.slots[k].hardwareId && (t.slots[k].seen ==> slots[k].seen)
  {
    var slot := SlotFor(t.slots, r.id);
    if slot < 8 {
      assert Has(ApplyReport(t, r).slots, slot, r.id);
    }
  }

  /** The finger was not reported. */
  predicate Gone(s: Slot, rs: seq<Report>) {
    s.active && forall i | 0 <= i < |rs| :: rs[i].id != s.hardwareId
  }

  function GoneEnds(slots: seq<Slot>, rs: seq<Report>): seq<seq<Event>> {
    seq(|slots|, k requires 0 <= k < |slots| => if Gone(slots[k], rs) then [End(k, slots[k].x, slots[k].y)] else [])
  }

  /** The ends a frame adds: one for each slot whose finger is gone, in order, where the finger last was. */
  function Ends(slots: seq<Slot>, rs: seq<Report>): seq<Event> {
    Flatten(GoneEnds(slots, rs))
  }

  lemma {:induction false} LastReportIff(rs: seq<Report>, id: Byte)
    ensures LastReport(rs, id) == [] <==> forall i | 0 <= i < |rs| :: rs[i].id != id
    decreases |rs|
  {
    if rs != [] {
      LastReportIff(rs[..|rs| - 1], id);
    }
  }

  function UnseenEnd(s: Slot, k: nat): seq<Event> {
    if s.active && !s.seen then [End(k, s.x, s.y)] else []
  }

  function UnseenEnds(slots: seq<Slot>, n: nat): seq<seq<Event>>
    requires n <= |slots|
  {
    seq(n, k requires 0 <= k < n => UnseenEnd(slots[k], k))
  }

  lemma {:induction false} OneMoreEnd(slots: seq<Slot>, n: nat)
    requires n < |slots|
    ensures Flatten(UnseenEnds(slots, n + 1)) == Flatten(UnseenEnds(slots, n)) + UnseenEnd(slots[n], n)
  {
    FlattenSnoc(UnseenEnds(slots, n), UnseenEnd(slots[n], n));
    assert UnseenEnds(slots, n + 1) == UnseenEnds(slots, n) + [UnseenEnd(slots[n], n)];
  }

  lemma {:induction false} ReleaseCalls(t: Touches, n: nat)
    requires n <= |t.slots|
    ensures ReleaseUnseen(t, n).trace == t.trace + Flatten(UnseenEnds(t.slots, n))
    ensures forall k | n <= k < |t.slots| :: ReleaseUnseen(t, n).slots[k] == t.slots[k]
  {
    if n > 0 {
      ReleaseCalls(t, n - 1);
      OneMoreEnd(t.slots, n - 1);
    }
  }

  /** After the calls of the reports come the ends of the fingers that are gone. */
  lemma {:induction false} TouchCalls(t: Touches, rs: seq<Report>)
    requires TouchesAgree(t)
    ensures TouchFrame(t, rs).trace
         == ApplyReports(t.(slots := ClearSeen(t.slots)), Looked(rs)).trace + Ends(t.slots, Looked(rs))
  {
    var cleared := t.(slots := ClearSeen(t.slots));
    var u := ApplyReports(cleared, Looked(rs));
    ClearAgrees(t);
    ReportsAreShown(cleared, Looked(rs));
    ReleaseCalls(u, 8);
    forall k | 0 <= k < 8
      ensures u.slots[k].active && !u.slots[k].seen <==> Gone(t.slots[k], Looked(rs))
      ensures Gone(t.slots[k], Looked(rs)) ==> u.slots[k].x == t.slots[k].x && u.slots[k].y == t.slots[k].y
    {
      SlotIsGone(t.slots[k], u.slots[k], Looked(rs));
    }
    assert UnseenEnds(u.slots, 8) == GoneEnds(t.slots, Looked(rs));
  }

  lemma {:induction false} SlotIsGone(s: Slot, u: Slot, rs: seq<Report>)
    requires ShownAt(s.(seen := false), u, rs)
    ensures u.active && !u.seen <==> Gone(s, rs)
    ensures Gone(s, rs) ==> u.x == s.x && u.y == s.y
  {
    LastReportIff(rs, s.hardwareId);
    LastReportIff(rs, u.hardwareId);
  }

  // A run

  /** With no finger on the panel the touch part of a frame does nothing. */
  lemma {:induction false} NoTouch(t: Touches)
    requires TouchesAgree(t) && forall k | 0 <= k < 8 :: !t.slots[k].active
    ensures var u := TouchFrame(t, []);
      u.trace == t.trace && u.count == t.count && |u.slots| == 8 && forall k | 0 <= k < 8 :: !u.slots[k].active
  {
    FingersKeepTheirSlots(t, []);
    assert forall k | 0 <= k < 8 :: !Shows(TouchFrame(t, []).slots[k], Clipped([]));
    NoneActive(t.slots);
    NoneActive(TouchFrame(t, []).slots);
    TouchCalls(t, []);
    NoEnds(GoneEnds(t.slots, []));
  }

  lemma {:induction false} NoEnds(parts: seq<seq<Event>>)
    requires forall k | 0 <= k < |parts| :: parts[k] == []
    ensures Flatten(parts) == []
  {
    if parts != [] {
      NoEnds(parts[1..]);
    }
  }

  lemma {:induction false} UntouchedFrame(s: State, buttons: set<Button>, ly: Byte)
    requires Invariant(s) && forall k | 0 <= k < 8 :: !s.slots[k].active
    ensures var next := Frame(s, Input([], buttons, ly));
      && next.controls == ControlFrame(s.controls, buttons, ly, 0)
      && |next.slots| == 8 && forall k | 0 <= k < 8 :: !next.slots[k].active
  {
    NoTouch(Touches(s.slots, s.count, s.controls.trace));
    NoneActive(s.slots);
  }

  /** On a run in which nobody touches the panel, the controls of a frame depend on buttons and stick alone. */
  lemma {:induction false} UntouchedRun(inputs: seq<Input>, buttons: set<Button>, ly: Byte)
    requires |Run(inputs).slots| == 8 && forall k | 0 <= k < 8 :: !Run(inputs).slots[k].active
    ensures var next := Run(inputs + [Input([], buttons, ly)]);
      && next.controls == ControlFrame(Run(inputs).controls, buttons, ly, 0)
      && |next.slots| == 8 && forall k | 0 <= k < 8 :: !next.slots[k].active
  {
    RunKeepsInvariant(inputs);
    UntouchedFrame(Run(inputs), buttons, ly);
    assert (inputs + [Input([], buttons, ly)])[..|inputs|] == inputs;
  }

  /** The initial controls, once TRIANGLE has switched them on. */
  function SwitchedOn(): Controls {
    Initial().controls.(previous := {Triangle}, enabled := true)
  }

  lemma {:induction false} SwitchesOn(buttons: set<Button>)
    requires buttons == {Triangle}
    ensures ControlFrame(Initial().controls, buttons, 128, 0) == SwitchedOn()
  {
    PlainFrame(Initial().controls, buttons, 128, 0);
    assert Held([0, 0, 0, 0], buttons) == [0, 0, 0, 0];
  }

  lemma {:induction false} CrossGrabs(c: Controls, buttons: set<Button>)
    requires c == SwitchedOn() && buttons == {Triangle, Cross}
    ensures ControlFrame(c, buttons, 128, 0).trace == [Begin(8, 480, 272)]
  {
    GrabFrame(c, buttons, 128, 0);
  }

  /** TRIANGLE, then CROSS: the pad's pointer goes down in the middle of the screen. */
  lemma {:induction false} FirstGrab(one: Input, two: Input)
    requires one == Input([], {Triangle}, 128) && two == Input([], {Triangle, Cross}, 128)
    ensures Run([one] + [two]).controls.trace == [Begin(8, 480, 272)]
  {
    UntouchedRun([], one.buttons, 128);
    assert [] + [one] == [one];
    SwitchesOn(one.buttons);
    UntouchedRun([one], two.buttons, 128);
    CrossGrabs(Run([one]).controls, two.buttons);
  }
}

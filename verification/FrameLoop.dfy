/** The frame loop over its own state: each method changes fields as the loop does, and equals a step of module Pointers. */
module FrameLoop {
  import opened Words
  import opened Pointers

  class Loop {
    const physicalTouches: array<Slot>
    var physicalTouchCount: int
    var previousButtons: set<Button>
    var directionHold: Hold
    var focusX: int
    var focusY: int
    var dragX: int
    var dragY: int
    var padGrabbed: bool
    var padTapPendingRelease: bool
    var rackSwipeActive: bool
    var rackSwipeY: int
    var controlsEnabled: bool
    var transportPlaying: bool
    /** The calls made to touch_begin, touch_move and touch_end. */
    var trace: seq<Event>

    ghost function TouchState(): Touches
      reads this, physicalTouches
    {
      Touches(physicalTouches[..], physicalTouchCount, trace)
    }

    ghost function ControlState(): Controls
      reads this
    {
      Controls(previousButtons, directionHold, focusX, focusY, dragX, dragY, padGrabbed, padTapPendingRelease,
               rackSwipeActive, rackSwipeY, controlsEnabled, transportPlaying, trace)
    }

    ghost function LoopState(): State
      reads this, physicalTouches
    {
      State(physicalTouches[..], physicalTouchCount, ControlState())
    }

    constructor ()
      ensures LoopState() == Initial() && fresh(physicalTouches)
    {
      physicalTouches := new Slot[SLOTS](_ => FREE);
      physicalTouchCount := 0;
      previousButtons, directionHold := {}, [0, 0, 0, 0];
      focusX, focusY, dragX, dragY := WIDTH / 2, HEIGHT / 2, WIDTH / 2, HEIGHT / 2;
      padGrabbed, padTapPendingRelease, rackSwipeActive := false, false, false;
      rackSwipeY, controlsEnabled, transportPlaying := RACK_CENTER_Y, false, false;
      trace := [];
    }

    method TouchBegin(id: nat, x: int, y: int)
      modifies this`trace
      ensures trace == old(trace) + [Begin(id, x, y)]
    {
      trace := trace + [Begin(id, x, y)];
    }

    method TouchMove(id: nat, x: int, y: int)
      modifies this`trace
      ensures trace == old(trace) + [Move(id, x, y)]
    {
      trace := trace + [Move(id, x, y)];
    }

    method TouchEnd(id: nat, x: int, y: int)
      modifies this`trace
      ensures trace == old(trace) + [End(id, x, y)]
    {
      trace := trace + [End(id, x, y)];
    }

    /** The slot of a finger: the one it has, else the first free one, else -1. */
    method ChooseSlot(id: Byte) returns (slot: int)
      ensures var chosen := SlotFor(physicalTouches[..], id);
        slot == if chosen < physicalTouches.Length then chosen else -1
    {
      slot := -1;
      var candidate := 0;
      while candidate < physicalTouches.Length && slot < 0
        invariant 0 <= candidate <= physicalTouches.Length && slot < physicalTouches.Length
        invariant slot < 0 ==> slot == -1
        invariant slot < 0 ==>
          forall i | 0 <= i < candidate :: !(physicalTouches[i].active && physicalTouches[i].hardwareId == id)
        invariant slot >= 0 ==> physicalTouches[slot].active && physicalTouches[slot].hardwareId == id
        invariant slot >= 0 ==>
          forall i | 0 <= i < slot :: !(physicalTouches[i].active && physicalTouches[i].hardwareId == id)
      {
        if physicalTouches[candidate].active && physicalTouches[candidate].hardwareId == id {
          slot := candidate;
        }
        candidate := candidate + 1;
      }
      if slot < 0 {
        candidate := 0;
        while candidate < physicalTouches.Length && slot < 0
          invariant 0 <= candidate <= physicalTouches.Length && slot < physicalTouches.Length
          invariant slot < 0 ==> slot == -1
          invariant slot < 0 ==> forall i | 0 <= i < candidate :: physicalTouches[i].active
          invariant slot >= 0 ==> !physicalTouches[slot].active && forall i | 0 <= i < slot :: physicalTouches[i].active
        {
          if !physicalTouches[candidate].active {
            slot := candidate;
          }
          candidate := candidate + 1;
        }
      }
    }

    method TakeReport(current: Report)
      requires physicalTouches.Length == SLOTS
      modifies physicalTouches, this`physicalTouchCount, this`trace
      ensures TouchState() == ApplyReport(old(TouchState()), current)
    {
      var slot := ChooseSlot(current.id);
      if slot < 0 {
        return;
      }
      var x := TruncDiv(current.x * WIDTH, 1919);
      var y := TruncDiv(current.y * HEIGHT, 1087);
      var was := physicalTouches[slot];
      physicalTouches[slot] := was.(seen := true, x := x, y := y);
      if !was.active {
        physicalTouches[slot] := physicalTouches[slot].(active := true, hardwareId := current.id);
        physicalTouchCount := physicalTouchCount + 1;
        TouchBegin(slot, x, y);
      } else {
        TouchMove(slot, x, y);
      }
    }

    method ReadTouches(reports: seq<Report>)
      requires physicalTouches.Length == SLOTS
      modifies physicalTouches, this`physicalTouchCount, this`trace
      ensures TouchState() == TouchFrame(old(TouchState()), reports)
    {
      ClearReports();
      ghost var cleared := TouchState();
      var n := if |reports| > SLOTS then SLOTS else |reports|;
      for report := 0 to n
        invariant TouchState() == ApplyReports(cleared, reports[..report])
      {
        TakeReport(reports[report]);
        assert reports[..report + 1][..report] == reports[..report];
      }
      assert reports[..n] == Clipped(reports);
      EndUnseen();
    }

    method ClearReports()
      requires physicalTouches.Length == SLOTS
      modifies physicalTouches
      ensures physicalTouches[..] == ClearSeen(old(physicalTouches[..]))
    {
      forall i | 0 <= i < SLOTS {
        physicalTouches[i] := physicalTouches[i].(seen := false);
      }
    }

    method EndUnseen()
      requires physicalTouches.Length == SLOTS
      modifies physicalTouches, this`physicalTouchCount, this`trace
      ensures TouchState() == ReleaseUnseen(old(TouchState()), SLOTS)
    {
      ghost var applied := TouchState();
      for slot := 0 to SLOTS
        invariant TouchState() == ReleaseUnseen(applied, slot)
      {
        if physicalTouches[slot].active && !physicalTouches[slot].seen {
          TouchEnd(slot, physicalTouches[slot].x, physicalTouches[slot].y);
          physicalTouches[slot] := physicalTouches[slot].(active := false);
          physicalTouchCount := physicalTouchCount - 1;
        }
      }
    }

    method EndDrag()
      modifies this`padGrabbed, this`trace
      ensures ControlState() == DropDrag(old(ControlState()))
    {
      if padGrabbed {
        TouchEnd(PAD, dragX, dragY);
        padGrabbed := false;
      }
    }

    method EndSwipe()
      modifies this`rackSwipeActive, this`trace
      ensures ControlState() == DropRack(old(ControlState()))
    {
      if rackSwipeActive {
        TouchEnd(RACK, RACK_X, rackSwipeY);
        rackSwipeActive := false;
      }
    }

    method ToggleControls(pressed: set<Button>)
      modifies this`controlsEnabled, this`padGrabbed, this`rackSwipeActive, this`directionHold, this`trace
      ensures ControlState() == Toggle(old(ControlState()), pressed)
    {
      if Triangle in pressed {
        controlsEnabled := !controlsEnabled;
        if !controlsEnabled {
          EndDrag();
          EndSwipe();
          directionHold := [0, 0, 0, 0];
        }
      }
    }

    method SwipeRack(ly: Byte)
      modifies this`rackSwipeActive, this`rackSwipeY, this`trace
      ensures ControlState() == RackSwipe(old(ControlState()), ly, physicalTouchCount)
    {
      var rackDelta := 0;
      if ly < 80 {
        rackDelta := -2 - (80 - ly) / 24;
      } else if ly > 176 {
        rackDelta := 2 + (ly - 176) / 24;
      }
      if rackDelta != 0 && physicalTouchCount == 0 && !padGrabbed {
        if !rackSwipeActive {
          rackSwipeY := RACK_CENTER_Y;
          TouchBegin(RACK, RACK_X, rackSwipeY);
          rackSwipeActive := true;
        }
        var nextRackY := rackSwipeY + rackDelta;
        if nextRackY < RACK_MIN_Y || nextRackY > RACK_MAX_Y {
          TouchEnd(RACK, RACK_X, rackSwipeY);
          rackSwipeY := RACK_CENTER_Y;
          TouchBegin(RACK, RACK_X, rackSwipeY);
        }
        rackSwipeY := ClampInt(rackSwipeY + rackDelta, RACK_MIN_Y, RACK_MAX_Y);
        TouchMove(RACK, RACK_X, rackSwipeY);
      } else if rackSwipeActive {
        TouchEnd(RACK, RACK_X, rackSwipeY);
        rackSwipeActive := false;
      }
    }

    method TapButton(pressed: set<Button>)
      modifies this`padGrabbed, this`dragX, this`dragY, this`focusX, this`focusY,
               this`padTapPendingRelease, this`transportPlaying, this`trace
      ensures ControlState() == Tap(old(ControlState()), pressed)
    {
      EndDrag();
      if Start in pressed {
        dragX := if transportPlaying then TRANSPORT_STOP_X else TRANSPORT_PLAY_X;
        dragY := TRANSPORT_Y;
        TouchBegin(PAD, dragX, dragY);
        padTapPendingRelease := true;
        transportPlaying := !transportPlaying;
      } else {
        dragX, dragY := MANAGEMENT_X, MANAGEMENT_Y;
        TouchBegin(PAD, dragX, dragY);
        padTapPendingRelease := true;
        focusX, focusY := 145, 145;
      }
    }

    method PressCross(pressed: set<Button>)
      modifies this`padGrabbed, this`dragX, this`dragY, this`trace
      ensures ControlState() == CrossPressed(old(ControlState()), pressed)
    {
      if Cross in pressed {
        if padGrabbed {
          EndDrag();
        } else if !padTapPendingRelease {
          dragX, dragY := focusX, focusY;
          TouchBegin(PAD, dragX, dragY);
          padGrabbed := true;
        }
      }
    }

    /** One turn of the loop over the directions. */
    method MoveDirection(buttons: set<Button>, pressed: set<Button>, direction: nat) returns (dragMoved: bool)
      requires direction < 4
      modifies this`directionHold, this`focusX, this`focusY, this`dragX, this`dragY
      ensures ControlState() == Direct(old(ControlState()), buttons, pressed, direction)
      ensures dragMoved <==> padGrabbed && DIRECTIONS[direction] in buttons
    {
      if DIRECTIONS[direction] in buttons {
        directionHold := directionHold[direction := directionHold[direction] + 1];
      } else {
        directionHold := directionHold[direction := 0];
      }
      dragMoved := false;
      if padGrabbed && DIRECTIONS[direction] in buttons {
        dragX := ClampInt(dragX + DIRECTION_X[direction] * 3, 1, WIDTH - 2);
        dragY := ClampInt(dragY + DIRECTION_Y[direction] * 3, 1, HEIGHT - 2);
        dragMoved := true;
      } else if !padGrabbed {
        var held := directionHold[direction];
        if DIRECTIONS[direction] in pressed || (held > 12 && (held - 12) % 4 == 0) {
          focusX := ClampInt(focusX + DIRECTION_X[direction] * 24, 1, WIDTH - 2);
          focusY := ClampInt(focusY + DIRECTION_Y[direction] * 24, 1, HEIGHT - 2);
        }
      }
    }

    method MoveDirections(buttons: set<Button>, pressed: set<Button>)
      modifies this`directionHold, this`focusX, this`focusY, this`dragX, this`dragY, this`trace
      ensures ControlState() == Drag(old(ControlState()), buttons, pressed)
    {
      var dragMoved := false;
      ghost var before := ControlState();
      for direction := 0 to 4
        invariant ControlState() == DirectAll(before, buttons, pressed, direction)
        invariant padGrabbed == before.grabbed
        invariant dragMoved <==> padGrabbed && exists d | 0 <= d < direction :: DIRECTIONS[d] in buttons
      {
        var moved := MoveDirection(buttons, pressed, direction);
        DirectAllKeeps(before, buttons, pressed, direction + 1);
        dragMoved := dragMoved || moved;
      }
      assert DIRECTIONS[0] == DUp && DIRECTIONS[1] == DDown && DIRECTIONS[2] == DLeft && DIRECTIONS[3] == DRight;
      if padGrabbed && dragMoved {
        TouchMove(PAD, dragX, dragY);
      }
    }

    /** The part of the frame that runs only while the controls are enabled. */
    method RunEnabled(buttons: set<Button>, pressed: set<Button>, ly: Byte)
      modifies this`directionHold, this`focusX, this`focusY, this`dragX, this`dragY, this`padGrabbed,
               this`padTapPendingRelease, this`rackSwipeActive, this`rackSwipeY, this`transportPlaying, this`trace
      ensures ControlState() == EnabledFrame(old(ControlState()), buttons, pressed, ly, physicalTouchCount)
    {
      SwipeRack(ly);
      if Start in pressed || Select in pressed {
        TapButton(pressed);
      } else {
        PressCross(pressed);
        MoveDirections(buttons, pressed);
      }
    }

    /** The part of the frame after the touch panel has been read. */
    method RunControls(buttons: set<Button>, ly: Byte)
      modifies this`previousButtons, this`directionHold, this`focusX, this`focusY, this`dragX, this`dragY, this`padGrabbed,
               this`padTapPendingRelease, this`rackSwipeActive, this`rackSwipeY, this`controlsEnabled,
               this`transportPlaying, this`trace
      ensures ControlState() == ControlFrame(old(ControlState()), buttons, ly, physicalTouchCount)
    {
      if padTapPendingRelease {
        TouchEnd(PAD, dragX, dragY);
        padTapPendingRelease := false;
      }
      var pressed := buttons - previousButtons;
      previousButtons := buttons;
      ToggleControls(pressed);
      if controlsEnabled {
        RunEnabled(buttons, pressed, ly);
      }
    }

    /** One frame, from the touch panel to the controls. */
    method RunFrame(i: Input)
      requires physicalTouches.Length == SLOTS
      modifies this, physicalTouches
      ensures LoopState() == Frame(old(LoopState()), i)
    {
      ReadTouches(i.reports);
      RunControls(i.buttons, i.ly);
    }
  }

  /** The loop on any sequence of frames makes exactly the calls of the run, so every pointer obeys the protocol. */
  method RunFrames(inputs: seq<Input>) returns (trace: seq<Event>)
    ensures trace == Run(inputs).controls.trace
    ensures forall id :: Obeys(trace, id)
  {
    var loop := new Loop();
    for n := 0 to |inputs|
      invariant fresh(loop) && fresh(loop.physicalTouches)
      invariant loop.LoopState() == Run(inputs[..n])
    {
      RunKeepsInvariant(inputs[..n]);
      loop.RunFrame(inputs[n]);
      assert inputs[..n + 1][..n] == inputs[..n];
    }
    assert inputs[..|inputs|] == inputs;
    trace := loop.trace;
    forall id ensures Obeys(trace, id) {
      EveryRunObeys(inputs, id);
    }
  }
}

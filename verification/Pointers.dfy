/**
 The input part of one frame of the render loop: eight touch slots and two synthetic
 controller pointers, which emit begin, move and end calls. A frame is a function from
 state to state, and the calls it emits are appended to a trace.
 */
module Pointers {
  import opened Words

  const SLOTS: nat := 8
  const PAD: nat := 8
  const RACK: nat := 9
  const WIDTH: int := 960
  const HEIGHT: int := 544
  const RACK_X: int := 32
  const RACK_CENTER_Y: int := HEIGHT / 2
  const RACK_MIN_Y: int := 72
  const RACK_MAX_Y: int := HEIGHT - 72
  const TRANSPORT_PLAY_X: int := 700
  const TRANSPORT_STOP_X: int := 798
  const TRANSPORT_Y: int := 519
  const MANAGEMENT_X: int := 31
  const MANAGEMENT_Y: int := 519

  // The protocol

  datatype Event =
    | Begin(id: nat, x: int, y: int)
    | Move(id: nat, x: int, y: int)
    | End(id: nat, x: int, y: int)

  datatype Pointer = Up | Down(x: int, y: int) | Broken

  /** One call, as the receiver sees pointer id: begin, then moves, then an end where the pointer last was. */
  function Advance(p: Pointer, e: Event, id: nat): Pointer {
    if e.id != id then p
    else match e
      case Begin(_, x, y) => if p.Up? then Down(x, y) else Broken
      case Move(_, x, y) => if p.Down? then Down(x, y) else Broken
      case End(_, x, y) => if p == Down(x, y) then Up else Broken
  }

  function Track(trace: seq<Event>, id: nat): Pointer
    decreases |trace|
  {
    if trace == [] then Up else Advance(Track(trace[..|trace| - 1], id), trace[|trace| - 1], id)
  }

  lemma Emit(trace: seq<Event>, e: Event)
    ensures forall id :: Track(trace + [e], id) == Advance(Track(trace, id), e, id)
  {
  }

  /** The last call about a pointer. */
  function LastCall(trace: seq<Event>, id: nat): seq<Event>
    decreases |trace|
  {
    if trace == [] then []
    else if trace[|trace| - 1].id == id then [trace[|trace| - 1]]
    else LastCall(trace[..|trace| - 1], id)
  }

  /** Every call fits the one before it about the same pointer; an end repeats its coordinates. */
  predicate Fits(last: seq<Event>, e: Event) {
    match e
    case Begin(_, _, _) => last == [] || last[0].End?
    case Move(_, _, _) => last != [] && !last[0].End?
    case End(_, x, y) => last != [] && !last[0].End? && last[0].x == x && last[0].y == y
  }

  ghost predicate Obeys(trace: seq<Event>, id: nat) {
    forall i | 0 <= i < |trace| && trace[i].id == id :: Fits(LastCall(trace[..i], id), trace[i])
  }

  /** Tracking a pointer breaks exactly when some call does not fit. */
  lemma {:induction false} TrackIsProtocol(trace: seq<Event>, id: nat)
    ensures Track(trace, id) != Broken <==> Obeys(trace, id)
    ensures Obeys(trace, id) ==>
      Track(trace, id) == (var last := LastCall(trace, id);
        if last == [] || last[0].End? then Up else Down(last[0].x, last[0].y))
    decreases |trace|
  {
    if trace != [] {
      var n := |trace| - 1;
      var before := trace[..n];
      TrackIsProtocol(before, id);
      assert forall i | 0 <= i < n :: trace[..i] == before[..i] && trace[i] == before[i];
      assert Obeys(trace, id) <==> Obeys(before, id) && (trace[n].id == id ==> Fits(LastCall(before, id), trace[n])) by {
        assert trace[..n] == before;
      }
    }
  }

  // Touch slots

  datatype Report = Report(id: Byte, x: int, y: int)
  datatype Slot = Slot(active: bool, seen: bool, hardwareId: Byte, x: int, y: int)
  datatype Touches = Touches(slots: seq<Slot>, count: int, trace: seq<Event>)

  function MapX(x: int): int { TruncDiv(x * WIDTH, 1919) }
  function MapY(y: int): int { TruncDiv(y * HEIGHT, 1087) }

  /** The first slot that is active for this finger, |slots| if none. */
  function FindActive(slots: seq<Slot>, id: Byte): (k: nat)
    ensures k <= |slots|
    ensures k < |slots| ==> slots[k].active && slots[k].hardwareId == id
    ensures forall i | 0 <= i < k :: !(slots[i].active && slots[i].hardwareId == id)
  {
    if slots == [] || (slots[0].active && slots[0].hardwareId == id) then 0
    else
      var k := FindActive(slots[1..], id);
      assert forall i | 1 <= i < k + 1 :: slots[i] == slots[1..][i - 1];
      1 + k
  }

  function FindFree(slots: seq<Slot>): (k: nat)
    ensures k <= |slots|
    ensures k < |slots| ==> !slots[k].active
    ensures forall i | 0 <= i < k :: slots[i].active
  {
    if slots == [] || !slots[0].active then 0
    else
      var k := FindFree(slots[1..]);
      assert forall i | 1 <= i < k + 1 :: slots[i] == slots[1..][i - 1];
      1 + k
  }

  function SlotFor(slots: seq<Slot>, id: Byte): nat {
    if FindActive(slots, id) < |slots| then FindActive(slots, id) else FindFree(slots)
  }

  function ApplyReport(t: Touches, r: Report): Touches {
    var slot, x, y := SlotFor(t.slots, r.id), MapX(r.x), MapY(r.y);
    if slot >= |t.slots| then t
    else if t.slots[slot].active then
      Touches(t.slots[slot := t.slots[slot].(seen := true, x := x, y := y)], t.count, t.trace + [Move(slot, x, y)])
    else
      Touches(t.slots[slot := Slot(true, true, r.id, x, y)], t.count + 1, t.trace + [Begin(slot, x, y)])
  }

  function ApplyReports(t: Touches, rs: seq<Report>): Touches
    decreases |rs|
  {
    if rs == [] then t else ApplyReport(ApplyReports(t, rs[..|rs| - 1]), rs[|rs| - 1])
  }

  function Released(s: Slot, due: bool): Slot {
    if due && s.active && !s.seen then s.(active := false) else s
  }

  /** End the unseen ones among the first n slots. */
  function ReleaseUnseen(t: Touches, n: nat): (r: Touches)
    requires n <= |t.slots|
    ensures |r.slots| == |t.slots|
  {
    if n == 0 then t
    else
      var u := ReleaseUnseen(t, n - 1);
      var s := u.slots[n - 1];
      if s.active && !s.seen then
        Touches(u.slots[n - 1 := s.(active := false)], u.count - 1, u.trace + [End(n - 1, s.x, s.y)])
      else u
  }

  function ClearSeen(slots: seq<Slot>): seq<Slot> {
    seq(|slots|, i requires 0 <= i < |slots| => slots[i].(seen := false))
  }

  function Clipped(rs: seq<Report>): seq<Report> {
    if |rs| > SLOTS then rs[..SLOTS] else rs
  }

  function TouchFrame(t: Touches, rs: seq<Report>): Touches {
    var u := ApplyReports(t.(slots := ClearSeen(t.slots)), Clipped(rs));
    ReleaseUnseen(u, |u.slots|)
  }

  function ActiveCount(slots: seq<Slot>): nat {
    if slots == [] then 0 else (if slots[0].active then 1 else 0) + ActiveCount(slots[1..])
  }

  lemma {:induction false} ActiveCountUpdate(slots: seq<Slot>, k: nat, s: Slot)
    requires k < |slots|
    ensures ActiveCount(slots[k := s])
         == ActiveCount(slots) - (if slots[k].active then 1 else 0) + (if s.active then 1 else 0)
  {
    if k > 0 {
      ActiveCountUpdate(slots[1..], k - 1, s);
      assert slots[k := s][1..] == slots[1..][k - 1 := s];
    }
  }

  ghost predicate DistinctFingers(slots: seq<Slot>) {
    forall i, j | 0 <= i < j < |slots| && slots[i].active && slots[j].active :: slots[i].hardwareId != slots[j].hardwareId
  }

  /** The count is right, no finger has two slots, and each slot's pointer is where the slot says. */
  ghost predicate TouchesAgree(t: Touches) {
    && |t.slots| == SLOTS
    && t.count == ActiveCount(t.slots)
    && DistinctFingers(t.slots)
    && forall k | 0 <= k < SLOTS ::
         Track(t.trace, k) == if t.slots[k].active then Down(t.slots[k].x, t.slots[k].y) else Up
  }

  lemma ReportAgrees(t: Touches, r: Report)
    requires TouchesAgree(t)
    ensures TouchesAgree(ApplyReport(t, r))
    ensures forall id | id >= SLOTS :: Track(ApplyReport(t, r).trace, id) == Track(t.trace, id)
  {
    var slot := SlotFor(t.slots, r.id);
    if slot < SLOTS {
      var u := ApplyReport(t, r);
      ActiveCountUpdate(t.slots, slot, u.slots[slot]);
      Emit(t.trace, u.trace[|t.trace|]);
    }
  }

  lemma {:induction false} ReportsAgree(t: Touches, rs: seq<Report>)
    requires TouchesAgree(t)
    ensures TouchesAgree(ApplyReports(t, rs))
    ensures forall id | id >= SLOTS :: Track(ApplyReports(t, rs).trace, id) == Track(t.trace, id)
    decreases |rs|
  {
    if rs != [] {
      ReportsAgree(t, rs[..|rs| - 1]);
      ReportAgrees(ApplyReports(t, rs[..|rs| - 1]), rs[|rs| - 1]);
    }
  }

  lemma {:induction false} ReleaseAgrees(t: Touches, n: nat)
    requires TouchesAgree(t) && n <= SLOTS
    ensures TouchesAgree(ReleaseUnseen(t, n))
    ensures forall id | id >= SLOTS :: Track(ReleaseUnseen(t, n).trace, id) == Track(t.trace, id)
    ensures forall k | 0 <= k < SLOTS :: ReleaseUnseen(t, n).slots[k] == Released(t.slots[k], k < n)
  {
    if n > 0 {
      ReleaseAgrees(t, n - 1);
      var u := ReleaseUnseen(t, n - 1);
      var s := u.slots[n - 1];
      if s.active && !s.seen {
        ActiveCountUpdate(u.slots, n - 1, s.(active := false));
        Emit(u.trace, End(n - 1, s.x, s.y));
      }
    }
  }

  lemma {:induction false} ActiveCountSame(a: seq<Slot>, b: seq<Slot>)
    requires |a| == |b| && forall i | 0 <= i < |a| :: a[i].active == b[i].active
    ensures ActiveCount(a) == ActiveCount(b)
  {
    if a != [] {
      ActiveCountSame(a[1..], b[1..]);
    }
  }

  lemma ClearAgrees(t: Touches)
    requires TouchesAgree(t)
    ensures TouchesAgree(t.(slots := ClearSeen(t.slots)))
  {
    ActiveCountSame(t.slots, ClearSeen(t.slots));
  }

  /** The last report about a finger. */
  function LastReport(rs: seq<Report>, id: Byte): seq<Report>
    decreases |rs|
  {
    if rs == [] then []
    else if rs[|rs| - 1].id == id then [rs[|rs| - 1]]
    else LastReport(rs[..|rs| - 1], id)
  }

  /** A slot shows the last report about its finger. */
  predicate Shows(s: Slot, rs: seq<Report>) {
    var last := LastReport(rs, s.hardwareId);
    last != [] && s.x == MapX(last[0].x) && s.y == MapY(last[0].y)
  }

  /** What reports made of a slot: it keeps its finger, and shows the last report about it or has had none. */
  ghost predicate ShownAt(before: Slot, s: Slot, rs: seq<Report>) {
    && (before.active ==> s.active && s.hardwareId == before.hardwareId)
    && (s.active && s.seen ==> Shows(s, rs))
    && (s.active && !s.seen ==> s == before && LastReport(rs, s.hardwareId) == [])
  }

  lemma {:induction false} ReportIsShown(t: Touches, r: Report, before: Slot, rs: seq<Report>, k: nat)
    requires TouchesAgree(t) && k < SLOTS && ShownAt(before, t.slots[k], rs)
    ensures |ApplyReport(t, r).slots| == SLOTS && ShownAt(before, ApplyReport(t, r).slots[k], rs + [r])
  {
    assert (rs + [r])[..|rs|] == rs;
    var slot := SlotFor(t.slots, r.id);
    if slot != k && t.slots[k].active {
      assert t.slots[k].hardwareId != r.id;
    }
  }

  lemma {:induction false} ReportsAreShown(t: Touches, rs: seq<Report>)
    requires TouchesAgree(t) && forall k | 0 <= k < SLOTS :: !t.slots[k].seen
    ensures TouchesAgree(ApplyReports(t, rs))
    ensures forall k | 0 <= k < SLOTS :: ShownAt(t.slots[k], ApplyReports(t, rs).slots[k], rs)
    decreases |rs|
  {
    if rs != [] {
      var before, r := rs[..|rs| - 1], rs[|rs| - 1];
      ReportsAreShown(t, before);
      ReportAgrees(ApplyReports(t, before), r);
      forall k | 0 <= k < SLOTS ensures ShownAt(t.slots[k], ApplyReports(t, rs).slots[k], rs) {
        ReportIsShown(ApplyReports(t, before), r, t.slots[k], before, k);
        assert rs == before + [r];
      }
    }
  }

  /**
   After a frame each active slot shows its finger's last report of that frame, and a
   slot that was active stays with its finger exactly when the finger was reported.
   */
  lemma FingersKeepTheirSlots(t: Touches, rs: seq<Report>)
    requires TouchesAgree(t)
    ensures TouchesAgree(TouchFrame(t, rs))
    ensures forall id | id >= SLOTS :: Track(TouchFrame(t, rs).trace, id) == Track(t.trace, id)
    ensures forall k | 0 <= k < SLOTS && TouchFrame(t, rs).slots[k].active ::
      Shows(TouchFrame(t, rs).slots[k], Clipped(rs))
    ensures forall k | 0 <= k < SLOTS && t.slots[k].active ::
      && TouchFrame(t, rs).slots[k].hardwareId == t.slots[k].hardwareId
      && (TouchFrame(t, rs).slots[k].active <==> LastReport(Clipped(rs), t.slots[k].hardwareId) != [])
  {
    ClearAgrees(t);
    var cleared := t.(slots := ClearSeen(t.slots));
    var u := ApplyReports(cleared, Clipped(rs));
    ReportsAreShown(cleared, Clipped(rs));
    ReportsAgree(cleared, Clipped(rs));
    ReleaseAgrees(u, SLOTS);
    var v := TouchFrame(t, rs);
    forall k | 0 <= k < SLOTS
      ensures v.slots[k].active ==> Shows(v.slots[k], Clipped(rs))
      ensures t.slots[k].active ==>
        && v.slots[k].hardwareId == t.slots[k].hardwareId
        && (v.slots[k].active <==> LastReport(Clipped(rs), t.slots[k].hardwareId) != [])
    {
      assert v.slots[k] == Released(u.slots[k], true);
      assert cleared.slots[k] == t.slots[k].(seen := false);
    }
  }

  // The controller pointers

  datatype Button = Triangle | Start | Select | Cross | DUp | DDown | DLeft | DRight

  type Hold = h: seq<nat> | |h| == 4 witness [0, 0, 0, 0]

  datatype Controls = Controls(
    previous: set<Button>, hold: Hold, focusX: int, focusY: int, dragX: int, dragY: int,
    grabbed: bool, pending: bool, rackActive: bool, rackY: int, enabled: bool, playing: bool,
    trace: seq<Event>)

  function ClampInt(value: int, minimum: int, maximum: int): int {
    if value < minimum then minimum else if value > maximum then maximum else value
  }

  function ReleaseTap(c: Controls): Controls {
    if c.pending then c.(pending := false, trace := c.trace + [End(PAD, c.dragX, c.dragY)]) else c
  }

  function DropDrag(c: Controls): Controls {
    if c.grabbed then c.(grabbed := false, trace := c.trace + [End(PAD, c.dragX, c.dragY)]) else c
  }

  function DropRack(c: Controls): Controls {
    if c.rackActive then c.(rackActive := false, trace := c.trace + [End(RACK, RACK_X, c.rackY)]) else c
  }

  function Toggle(c: Controls, pressed: set<Button>): Controls {
    if Triangle !in pressed then c
    else if !c.enabled then c.(enabled := true)
    else DropRack(DropDrag(c)).(enabled := false, hold := [0, 0, 0, 0])
  }

  function RackDelta(ly: Byte): int {
    if ly < 80 then -2 - (80 - ly) / 24
    else if ly > 176 then 2 + (ly - 176) / 24
    else 0
  }

  function RackBegin(c: Controls): Controls {
    if c.rackActive then c
    else c.(rackActive := true, rackY := RACK_CENTER_Y, trace := c.trace + [Begin(RACK, RACK_X, RACK_CENTER_Y)])
  }

  /** Lift and start again from the centre when the next position would leave the rail. */
  function RackReanchor(c: Controls, delta: int): Controls {
    if RACK_MIN_Y <= c.rackY + delta <= RACK_MAX_Y then c
    else c.(rackY := RACK_CENTER_Y,
            trace := c.trace + [End(RACK, RACK_X, c.rackY)] + [Begin(RACK, RACK_X, RACK_CENTER_Y)])
  }

  function RackMove(c: Controls, delta: int): Controls {
    var y := ClampInt(c.rackY + delta, RACK_MIN_Y, RACK_MAX_Y);
    c.(rackY := y, trace := c.trace + [Move(RACK, RACK_X, y)])
  }

  function RackSwipe(c: Controls, ly: Byte, count: int): Controls {
    var delta := RackDelta(ly);
    if delta != 0 && count == 0 && !c.grabbed then RackMove(RackReanchor(RackBegin(c), delta), delta)
    else DropRack(c)
  }

  /** START taps the transport, SELECT the machine management button; either first ends a drag. */
  function Tap(c: Controls, pressed: set<Button>): Controls {
    var d := DropDrag(c);
    if Start in pressed then
      var x := if d.playing then TRANSPORT_STOP_X else TRANSPORT_PLAY_X;
      d.(dragX := x, dragY := TRANSPORT_Y, pending := true, playing := !d.playing,
         trace := d.trace + [Begin(PAD, x, TRANSPORT_Y)])
    else
      d.(dragX := MANAGEMENT_X, dragY := MANAGEMENT_Y, pending := true, focusX := 145, focusY := 145,
         trace := d.trace + [Begin(PAD, MANAGEMENT_X, MANAGEMENT_Y)])
  }

  function CrossPressed(c: Controls, pressed: set<Button>): Controls {
    if Cross !in pressed then c
    else if c.grabbed then DropDrag(c)
    else if !c.pending then
      c.(dragX := c.focusX, dragY := c.focusY, grabbed := true, trace := c.trace + [Begin(PAD, c.focusX, c.focusY)])
    else c
  }

  const DIRECTIONS: seq<Button> := [DUp, DDown, DLeft, DRight]
  const DIRECTION_X: seq<int> := [0, 0, -1, 1]
  const DIRECTION_Y: seq<int> := [-1, 1, 0, 0]

  /** One direction: count how long it is held, then drag or move the focus. */
  function Direct(c: Controls, buttons: set<Button>, pressed: set<Button>, d: nat): Controls
    requires d < 4
  {
    var held := if DIRECTIONS[d] in buttons then c.hold[d] + 1 else 0;
    var e := c.(hold := c.hold[d := held]);
    if e.grabbed then
      if DIRECTIONS[d] in buttons then
        e.(dragX := ClampInt(e.dragX + DIRECTION_X[d] * 3, 1, WIDTH - 2),
           dragY := ClampInt(e.dragY + DIRECTION_Y[d] * 3, 1, HEIGHT - 2))
      else e
    else if DIRECTIONS[d] in pressed || (held > 12 && (held - 12) % 4 == 0) then
      e.(focusX := ClampInt(e.focusX + DIRECTION_X[d] * 24, 1, WIDTH - 2),
         focusY := ClampInt(e.focusY + DIRECTION_Y[d] * 24, 1, HEIGHT - 2))
    else e
  }

  function DirectAll(c: Controls, buttons: set<Button>, pressed: set<Button>, n: nat): Controls
    requires n <= 4
  {
    if n == 0 then c else Direct(DirectAll(c, buttons, pressed, n - 1), buttons, pressed, n - 1)
  }

  predicate Directed(buttons: set<Button>) {
    DUp in buttons || DDown in buttons || DLeft in buttons || DRight in buttons
  }

  function Drag(c: Controls, buttons: set<Button>, pressed: set<Button>): Controls
  {
    var d := DirectAll(c, buttons, pressed, 4);
    if d.grabbed && Directed(buttons) then
      d.(trace := d.trace + [Move(PAD, d.dragX, d.dragY)])
    else d
  }

  function EnabledFrame(c: Controls, buttons: set<Button>, pressed: set<Button>, ly: Byte, count: int): Controls
  {
    var e := RackSwipe(c, ly, count);
    if Start in pressed || Select in pressed then Tap(e, pressed)
    else Drag(CrossPressed(e, pressed), buttons, pressed)
  }

  function ControlFrame(c: Controls, buttons: set<Button>, ly: Byte, count: int): Controls
  {
    var pressed := buttons - c.previous;
    var d := Toggle(ReleaseTap(c).(previous := buttons), pressed);
    if d.enabled then EnabledFrame(d, buttons, pressed, ly, count) else d
  }

  /** Each synthetic pointer is where the state says, and never down while controls are disabled. */
  ghost predicate ControlsAgree(c: Controls) {
    && !(c.grabbed && c.pending)
    && RACK_MIN_Y <= c.rackY <= RACK_MAX_Y
    && Track(c.trace, PAD) == (if c.grabbed || c.pending then Down(c.dragX, c.dragY) else Up)
    && Track(c.trace, RACK) == (if c.rackActive then Down(RACK_X, c.rackY) else Up)
  }

  ghost predicate DownOnlyIfEnabled(c: Controls) {
    !c.enabled ==> !c.grabbed && !c.pending && !c.rackActive
  }

  ghost predicate OthersUntouched(before: seq<Event>, after: seq<Event>) {
    forall id | id != PAD && id != RACK :: Track(after, id) == Track(before, id)
  }

  lemma ReleaseTapAgrees(c: Controls)
    requires ControlsAgree(c)
    ensures ControlsAgree(ReleaseTap(c)) && !ReleaseTap(c).pending
    ensures OthersUntouched(c.trace, ReleaseTap(c).trace)
  {
  }

  lemma DropDragAgrees(c: Controls)
    requires ControlsAgree(c)
    ensures ControlsAgree(DropDrag(c)) && !DropDrag(c).grabbed
    ensures OthersUntouched(c.trace, DropDrag(c).trace)
  {
  }

  lemma DropRackAgrees(c: Controls)
    requires ControlsAgree(c)
    ensures ControlsAgree(DropRack(c)) && !DropRack(c).rackActive
    ensures OthersUntouched(c.trace, DropRack(c).trace)
  {
  }

  lemma ToggleAgrees(c: Controls, pressed: set<Button>)
    requires ControlsAgree(c) && DownOnlyIfEnabled(c) && !c.pending
    ensures ControlsAgree(Toggle(c, pressed)) && DownOnlyIfEnabled(Toggle(c, pressed)) && !Toggle(c, pressed).pending
    ensures OthersUntouched(c.trace, Toggle(c, pressed).trace)
  {
  }

  /** The stick moves at most five rows, so a swipe never reaches the clamp. */
  lemma RackStaysOnRail(c: Controls, ly: Byte)
    requires RACK_MIN_Y <= c.rackY <= RACK_MAX_Y
    ensures var d := RackReanchor(RackBegin(c), RackDelta(ly));
      && RACK_MIN_Y <= d.rackY + RackDelta(ly) <= RACK_MAX_Y
      && RackMove(d, RackDelta(ly)).rackY == d.rackY + RackDelta(ly)
  {
  }

  lemma RackBeginAgrees(c: Controls)
    requires ControlsAgree(c)
    ensures ControlsAgree(RackBegin(c)) && RackBegin(c).rackActive && SameButRack(c, RackBegin(c))
  {
  }

  lemma RackReanchorAgrees(c: Controls, delta: int)
    requires ControlsAgree(c) && c.rackActive
    ensures ControlsAgree(RackReanchor(c, delta)) && RackReanchor(c, delta).rackActive
    ensures SameButRack(c, RackReanchor(c, delta))
  {
  }

  lemma RackMoveAgrees(c: Controls, delta: int)
    requires ControlsAgree(c) && c.rackActive
    ensures ControlsAgree(RackMove(c, delta)) && SameButRack(c, RackMove(c, delta))
  {
  }

  ghost predicate SameButRack(c: Controls, d: Controls) {
    && d.(trace := c.trace, rackActive := c.rackActive, rackY := c.rackY) == c
    && OthersUntouched(c.trace, d.trace)
  }

  lemma RackSwipeAgrees(c: Controls, ly: Byte, count: int)
    requires ControlsAgree(c)
    ensures ControlsAgree(RackSwipe(c, ly, count)) && SameButRack(c, RackSwipe(c, ly, count))
    ensures RackSwipe(c, ly, count).rackActive ==> count == 0
  {
    var delta := RackDelta(ly);
    if delta != 0 && count == 0 && !c.grabbed {
      RackBeginAgrees(c);
      RackReanchorAgrees(RackBegin(c), delta);
      RackMoveAgrees(RackReanchor(RackBegin(c), delta), delta);
    } else {
      DropRackAgrees(c);
    }
  }

  lemma TapAgrees(c: Controls, pressed: set<Button>)
    requires ControlsAgree(c) && !c.pending
    ensures ControlsAgree(Tap(c, pressed))
    ensures OthersUntouched(c.trace, Tap(c, pressed).trace)
    ensures Tap(c, pressed).enabled == c.enabled && Tap(c, pressed).rackActive == c.rackActive
  {
    DropDragAgrees(c);
    var d := DropDrag(c);
    var x := if d.playing then TRANSPORT_STOP_X else TRANSPORT_PLAY_X;
    if Start in pressed {
      TapBegins(d, x, TRANSPORT_Y);
    } else {
      TapBegins(d, MANAGEMENT_X, MANAGEMENT_Y);
    }
  }

  lemma TapBegins(d: Controls, x: int, y: int)
    requires ControlsAgree(d) && !d.pending && !d.grabbed
    ensures var e := d.(dragX := x, dragY := y, pending := true, trace := d.trace + [Begin(PAD, x, y)]);
      ControlsAgree(e) && OthersUntouched(d.trace, e.trace)
  {
  }

  lemma CrossAgrees(c: Controls, pressed: set<Button>)
    requires ControlsAgree(c) && !c.pending
    ensures ControlsAgree(CrossPressed(c, pressed)) && !CrossPressed(c, pressed).pending
    ensures OthersUntouched(c.trace, CrossPressed(c, pressed).trace)
    ensures CrossPressed(c, pressed).enabled == c.enabled && CrossPressed(c, pressed).rackActive == c.rackActive
  {
  }

  /** The directions change no call, and move a drag only when one of them is held. */
  lemma {:induction false} DirectAllKeeps(c: Controls, buttons: set<Button>, pressed: set<Button>, n: nat)
    requires n <= 4
    ensures var d := DirectAll(c, buttons, pressed, n);
      && d.(hold := c.hold, focusX := c.focusX, focusY := c.focusY, dragX := c.dragX, dragY := c.dragY) == c
      && ((!c.grabbed || forall i | 0 <= i < n :: DIRECTIONS[i] !in buttons) ==> d.dragX == c.dragX && d.dragY == c.dragY)
  {
    if n > 0 {
      DirectAllKeeps(c, buttons, pressed, n - 1);
    }
  }

  lemma DragAgrees(c: Controls, buttons: set<Button>, pressed: set<Button>)
    requires ControlsAgree(c) && !c.pending
    ensures ControlsAgree(Drag(c, buttons, pressed)) && Drag(c, buttons, pressed).rackActive == c.rackActive
    ensures OthersUntouched(c.trace, Drag(c, buttons, pressed).trace)
    ensures Drag(c, buttons, pressed).enabled == c.enabled
  {
    var d := DirectAll(c, buttons, pressed, 4);
    DirectAllKeeps(c, buttons, pressed, 4);
    Emit(d.trace, Move(PAD, d.dragX, d.dragY));
  }

  /** One frame keeps the controls in agreement; a swipe left active means enabled controls and no touch. */
  lemma ControlFrameAgrees(c: Controls, buttons: set<Button>, ly: Byte, count: int)
    requires ControlsAgree(c) && DownOnlyIfEnabled(c)
    ensures ControlsAgree(ControlFrame(c, buttons, ly, count)) && DownOnlyIfEnabled(ControlFrame(c, buttons, ly, count))
    ensures ControlFrame(c, buttons, ly, count).rackActive ==> ControlFrame(c, buttons, ly, count).enabled && count == 0
    ensures OthersUntouched(c.trace, ControlFrame(c, buttons, ly, count).trace)
  {
    var pressed := buttons - c.previous;
    ReleaseTapAgrees(c);
    var a := ReleaseTap(c).(previous := buttons);
    ToggleAgrees(a, pressed);
    if Toggle(a, pressed).enabled {
      EnabledFrameAgrees(Toggle(a, pressed), buttons, pressed, ly, count);
    }
  }

  lemma EnabledFrameAgrees(c: Controls, buttons: set<Button>, pressed: set<Button>, ly: Byte, count: int)
    requires ControlsAgree(c) && c.enabled && !c.pending
    ensures var d := EnabledFrame(c, buttons, pressed, ly, count);
      && ControlsAgree(d) && d.enabled && (d.rackActive ==> count == 0) && OthersUntouched(c.trace, d.trace)
  {
    RackSwipeAgrees(c, ly, count);
    var e := RackSwipe(c, ly, count);
    if Start in pressed || Select in pressed {
      TapAgrees(e, pressed);
    } else {
      CrossAgrees(e, pressed);
      DragAgrees(CrossPressed(e, pressed), buttons, pressed);
    }
  }

  // Whole frames

  datatype Input = Input(reports: seq<Report>, buttons: set<Button>, ly: Byte)

  /** The touch slots and the controls share one trace. */
  datatype State = State(slots: seq<Slot>, count: int, controls: Controls)

  const FREE: Slot := Slot(false, false, 0, 0, 0)

  function Initial(): State {
    State([FREE, FREE, FREE, FREE, FREE, FREE, FREE, FREE], 0,
          Controls({}, [0, 0, 0, 0], WIDTH / 2, HEIGHT / 2, WIDTH / 2, HEIGHT / 2,
                   false, false, false, RACK_CENTER_Y, false, false, []))
  }

  function Frame(s: State, i: Input): State
  {
    var t := TouchFrame(Touches(s.slots, s.count, s.controls.trace), i.reports);
    State(t.slots, t.count, ControlFrame(s.controls.(trace := t.trace), i.buttons, i.ly, t.count))
  }

  /** What holds between frames. */
  ghost predicate Invariant(s: State) {
    && TouchesAgree(Touches(s.slots, s.count, s.controls.trace))
    && ControlsAgree(s.controls) && DownOnlyIfEnabled(s.controls)
    && (s.controls.rackActive ==> s.controls.enabled && s.count == 0)
  }

  lemma FrameKeepsInvariant(s: State, i: Input)
    requires Invariant(s)
    ensures Invariant(Frame(s, i))
    ensures forall id | id > RACK :: Track(Frame(s, i).controls.trace, id) == Track(s.controls.trace, id)
  {
    var touches := Touches(s.slots, s.count, s.controls.trace);
    FingersKeepTheirSlots(touches, i.reports);
    var t := TouchFrame(touches, i.reports);
    ControlFrameAgrees(s.controls.(trace := t.trace), i.buttons, i.ly, t.count);
  }

  /** The state after any sequence of frames. */
  function Run(inputs: seq<Input>): State
    decreases |inputs|
  {
    if inputs == [] then Initial()
    else Frame(Run(inputs[..|inputs| - 1]), inputs[|inputs| - 1])
  }

  /** Every run keeps the invariant, and every pointer id obeys the protocol on it. */
  lemma {:induction false} EveryRunObeys(inputs: seq<Input>, id: nat)
    ensures Invariant(Run(inputs))
    ensures Obeys(Run(inputs).controls.trace, id)
    decreases |inputs|
  {
    RunKeepsInvariant(inputs);
    if id <= RACK {
      NotBroken(Run(inputs), id);
    }
    TrackIsProtocol(Run(inputs).controls.trace, id);
  }

  lemma NotBroken(s: State, id: nat)
    requires Invariant(s) && id <= RACK
    ensures Track(s.controls.trace, id) != Broken
  {
  }

  lemma {:induction false} RunKeepsInvariant(inputs: seq<Input>)
    ensures Invariant(Run(inputs))
    ensures forall id | id > RACK :: Track(Run(inputs).controls.trace, id) == Up
    decreases |inputs|
  {
    if inputs == [] {
      assert Track([], PAD) == Up && Track([], RACK) == Up;
      NoneActive(Initial().slots);
    } else {
      RunKeepsInvariant(inputs[..|inputs| - 1]);
      FrameKeepsInvariant(Run(inputs[..|inputs| - 1]), inputs[|inputs| - 1]);
    }
  }

  lemma {:induction false} NoneActive(slots: seq<Slot>)
    requires forall k | 0 <= k < |slots| :: !slots[k].active
    ensures ActiveCount(slots) == 0
  {
    if slots != [] {
      NoneActive(slots[1..]);
    }
  }
}

/**
 The canvas-to-classifier bridge: the pixel buffer together with the pen flag,
 driven by three kinds of host event — mouse down, mouse up, and an animation
 frame that paints the cell under the pointer while the pen is down.
 */
module Bridge {
  import opened Grid
  import opened Image

  datatype Option<T> = None | Some(value: T)

  /** The script's module-level state: the image buffer and `is_pen_down`. */
  datatype State = State(image: seq<int>, penDown: bool)

  /** The mouse button the handlers react to: the primary button. */
  const PrimaryButton: int := 0

  predicate Valid(s: State) {
    ValidBuffer(s.image)
  }

  /** Start-up: a blank buffer and the pen up. */
  function Init(): (s: State)
    ensures Valid(s) && !s.penDown
    ensures forall k :: 0 <= k < Size ==> s.image[k] == 0
  {
    State(Blank(), false)
  }

  /**
   One animation frame with the pointer over grid column x, row y: paint the
   cell if the pen is down. The pen flag never changes here.
   */
  function Tick(s: State, x: int, y: int): (r: State)
    requires Valid(s)
    ensures Valid(r) && r.penDown == s.penDown
    ensures !s.penDown ==> r == s
    ensures s.penDown && !InGrid(y, x) ==> r == s
    ensures s.penDown && InGrid(y, x) ==> Painted(r.image, y, x)
    ensures forall k :: 0 <= k < Size && s.image[k] != r.image[k] ==>
      s.penDown && Covers(x, y, k)
  {
    if s.penDown then s.(image := Paint(s.image, x, y)) else s
  }

  /** Mouse down: the primary button puts the pen down; any other button is ignored. */
  function OnDown(s: State, button: int): (r: State)
    ensures r.image == s.image
    ensures button == PrimaryButton ==> r.penDown
    ensures button != PrimaryButton ==> r == s
  {
    if button == PrimaryButton then s.(penDown := true) else s
  }

  /** What a mouse-up leaves behind: the new state and, for the primary button, the captured image. */
  datatype UpResult = UpResult(state: State, gray: Option<seq<real>>)

  /**
   Mouse up: the primary button lifts the pen and captures the grayscale
   image for the classifier; any other button does nothing. The buffer is
   never changed.
   */
  function OnUp(s: State, button: int): (r: UpResult)
    requires Valid(s)
    ensures r.state.image == s.image
    ensures button == PrimaryButton ==> !r.state.penDown && r.gray.Some?
    ensures button == PrimaryButton ==> |r.gray.value| == Cells
    ensures button == PrimaryButton ==> forall i :: 0 <= i < Cells ==>
      r.gray.value[i] * 255.0 == s.image[RowColToIndex(i / Side, i % Side, Side, Channels)] as real
    ensures button == PrimaryButton ==> forall i :: 0 <= i < Cells ==> 0.0 <= r.gray.value[i] <= 1.0
    ensures button != PrimaryButton ==> r.state == s && r.gray == None
  {
    if button == PrimaryButton then
      var gray := Capture(s.image);
      assert forall i :: 0 <= i < Cells ==>
        gray[i] * 255.0 == s.image[RowColToIndex(i / Side, i % Side, Side, Channels)] as real;
      UpResult(s.(penDown := false), Some(gray))
    else
      UpResult(s, None)
  }

  /** A host event, with pointer positions already mapped to grid column and row. */
  datatype Event = Down(button: int) | Up(button: int) | Frame(x: int, y: int)

  /** The outcome of a run of events: the final state and every image captured, in order. */
  datatype Trace = Trace(state: State, captures: seq<seq<real>>)

  /** Feed events to the handlers one after another. */
  function Run(s: State, events: seq<Event>): (t: Trace)
    requires Valid(s)
    ensures Valid(t.state)
    ensures forall j :: 0 <= j < |t.captures| ==> |t.captures[j]| == Cells
    decreases |events|
  {
    if |events| == 0 then Trace(s, [])
    else
      match events[0]
      case Down(b) => Run(OnDown(s, b), events[1..])
      case Frame(x, y) => Run(Tick(s, x, y), events[1..])
      case Up(b) =>
        var rel := OnUp(s, b);
        var rest := Run(rel.state, events[1..]);
        if rel.gray.Some? then Trace(rest.state, [rel.gray.value] + rest.captures) else rest
  }

  /** Number of primary-button releases in a run of events. */
  function Releases(events: seq<Event>): nat {
    if |events| == 0 then 0
    else (if events[0] == Up(PrimaryButton) then 1 else 0) + Releases(events[1..])
  }

  /** A run captures exactly once per primary-button release. */
  lemma {:induction false} CapturesPerRelease(s: State, events: seq<Event>)
    requires Valid(s)
    ensures |Run(s, events).captures| == Releases(events)
    decreases |events|
  {
    if |events| > 0 {
      match events[0]
      case Down(b) => CapturesPerRelease(OnDown(s, b), events[1..]);
      case Frame(x, y) => CapturesPerRelease(Tick(s, x, y), events[1..]);
      case Up(b) => CapturesPerRelease(OnUp(s, b).state, events[1..]);
    }
  }

  /** One frame never darkens a byte and never changes a cell's fourth channel. */
  lemma TickNeverClears(s: State, x: int, y: int, row: int, col: int)
    requires Valid(s) && InGrid(row, col)
    ensures forall k :: 0 <= k < Size ==> s.image[k] <= Tick(s, x, y).image[k]
    ensures Tick(s, x, y).image[RowColToIndex(row, col, Side, Channels) + 3]
         == s.image[RowColToIndex(row, col, Side, Channels) + 3]
  {
    IndexSlotRoundTrip(row, col, 3);
  }

  /**
   The buffer is never cleared: over any run of events no byte gets darker,
   every painted cell stays painted, and no cell's fourth channel changes.
   */
  lemma {:induction false} RunNeverClears(s: State, events: seq<Event>, row: int, col: int)
    requires Valid(s) && InGrid(row, col)
    ensures forall k :: 0 <= k < Size ==> s.image[k] <= Run(s, events).state.image[k]
    ensures Painted(s.image, row, col) ==> Painted(Run(s, events).state.image, row, col)
    ensures Run(s, events).state.image[RowColToIndex(row, col, Side, Channels) + 3]
         == s.image[RowColToIndex(row, col, Side, Channels) + 3]
    decreases |events|
  {
    if |events| > 0 {
      match events[0]
      case Down(b) => RunNeverClears(OnDown(s, b), events[1..], row, col);
      case Frame(x, y) =>
        TickNeverClears(s, x, y, row, col);
        RunNeverClears(Tick(s, x, y), events[1..], row, col);
      case Up(b) => RunNeverClears(OnUp(s, b).state, events[1..], row, col);
    }
  }

  /** Frames with the pen up change nothing: moving the pointer without drawing leaves the buffer alone. */
  lemma {:induction false} PenUpFramesInert(s: State, events: seq<Event>)
    requires Valid(s) && !s.penDown
    requires forall j :: 0 <= j < |events| ==> events[j].Frame?
    ensures Run(s, events) == Trace(s, [])
    decreases |events|
  {
    if |events| > 0 {
      PenUpFramesInert(s, events[1..]);
    }
  }

  /**
   Press on cell (row 5, column 5), let one frame pass, release: exactly that
   cell reads full intensity in the captured image and every other cell reads 0.
   */
  lemma SingleStrokeScenario()
    ensures var t := Run(Init(), [Down(PrimaryButton), Frame(5, 5), Up(PrimaryButton)]);
      && |t.captures| == 1
      && !t.state.penDown
      && |t.captures[0]| == Cells
      && t.captures[0][5 * Side + 5] == 1.0
      && forall i :: 0 <= i < Cells && i != 5 * Side + 5 ==> t.captures[0][i] == 0.0
  {
    var s0 := Init();
    var s1 := OnDown(s0, PrimaryButton);
    var s2 := Tick(s1, 5, 5);
    var rel := OnUp(s2, PrimaryButton);
    var events := [Down(PrimaryButton), Frame(5, 5), Up(PrimaryButton)];
    assert events[1..] == [Frame(5, 5), Up(PrimaryButton)];
    assert events[1..][1..] == [Up(PrimaryButton)];
    assert Run(s0, events) == Run(s1, events[1..]);
    assert Run(s1, events[1..]) == Run(s2, [Up(PrimaryButton)]);
    assert Run(rel.state, []) == Trace(rel.state, []);
    var gray := rel.gray.value;
    forall i | 0 <= i < Cells
      ensures gray[i] == if i == 5 * Side + 5 then 1.0 else 0.0
    {
      RowMajorOffset(i);
      var k := RowColToIndex(i / Side, i % Side, Side, Channels);
      IndexSlotRoundTrip(i / Side, i % Side, 0);
      if i == 5 * Side + 5 {
        assert s2.image[k] == 255;
      } else {
        assert SlotOf(k).row != 5 || SlotOf(k).col != 5;
        assert s2.image[k] == 0;
      }
    }
  }
}

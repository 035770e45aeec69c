/** The game session around the colony: the menu, placing the colony,
    dragging out its launch velocity, simulating one day per frame, and the
    two terminal screens. Input events are an abstract sequence; the pixel
    distance from the colony to the star, which the source obtains from
    `math.hypot`, is supplied with each frame. */
module Session {
  import opened Orbit

  datatype Option<T> = None | Some(value: T)

  datatype Mode = Menu | Placing | Dragging | Simulating | GameOver | Win

  /** The input events the session reacts to; every other key and event kind is `Other`. */
  datatype Event =
    | MouseDown(x: int, y: int)
    | MouseMotion(x: int, y: int)
    | MouseUp(x: int, y: int)
    | KeyR
    | KeySpace
    | Other

  // One simulated day per successful tick, in seconds.
  const TIME_STEP: int := 86400
  const YEARS_TO_WIN: real := 10.0
  // 365.25 days of 86400 seconds.
  const SECONDS_PER_YEAR: real := 31557600.0
  // YEARS_TO_WIN simulated years, in seconds.
  const WIN_TIME: int := 315576000
  // Successful ticks it takes to reach WIN_TIME, and the clock after the last of them.
  const WIN_TICKS: int := 3653
  const WIN_ELAPSED: int := 315619200
  // Launch velocity per pixel of drag, opposite to the drag.
  const LAUNCH_FACTOR: real := 5.0

  /** The values of the session's fields (the star is always `SUN`). */
  datatype Session = Session(
    mode: Mode,
    colony: Option<ColonyState>,
    startPos: Option<Vec2>,
    currentPos: Option<Vec2>,
    elapsedTime: int,
    yearsSurvived: real)

  /** A frame of the main loop: the events polled, then one update with the
      colony's pre-move distance to the star. */
  datatype Frame = Frame(events: seq<Event>, d: real)

  /** The "Play" button on the menu screen, open on every side. */
  predicate OnPlayButton(x: int, y: int) {
    WIDTH / 2 - 100 < x < WIDTH / 2 + 100 && HEIGHT / 2 + 50 < y < HEIGHT / 2 + 100
  }

  function YearsSurvived(elapsed: int): (years: real)
    ensures years >= YEARS_TO_WIN <==> elapsed >= WIN_TIME
  {
    elapsed as real / SECONDS_PER_YEAR
  }

  /** What every reachable session satisfies. */
  ghost predicate Inv(s: Session) {
    && (s.colony.None? <==> s.mode == Menu || s.mode == Placing)
    && (s.colony.Some? ==> WellFormed(s.colony.value) && s.startPos.Some?)
    && (s.currentPos.Some? ==> s.mode == Dragging)
    && ClockInv(s.mode, s.elapsedTime, s.yearsSurvived)
  }

  /** The clock counts whole days, runs only once the colony is launched,
      and stops on the tick that reaches ten years. */
  ghost predicate ClockInv(mode: Mode, elapsed: int, years: real) {
    && 0 <= elapsed && elapsed % TIME_STEP == 0
    && years == YearsSurvived(elapsed)
    && (mode == Menu || mode == Placing || mode == Dragging ==> elapsed == 0)
    && (mode == Simulating || mode == GameOver ==> elapsed < WIN_TIME)
    && (mode == Win ==> elapsed == WIN_ELAPSED)
  }

  /** The only mode changes one event can cause. */
  predicate Edge(from: Mode, to: Mode) {
    || from == to
    || (from != Menu && to == Menu)
    || (from == Menu && to == Placing)
    || (from == Placing && to == Dragging)
    || (from == Dragging && to == Simulating)
  }

  predicate ResetKey(m: Mode, e: Event) {
    e == KeyR || (e == KeySpace && (m == GameOver || m == Win))
  }

  /** The session after a reset: the menu, no colony, the clock at zero. */
  function Fresh(): (s: Session)
    ensures Inv(s) && s.mode == Menu && s.colony == None && s.elapsedTime == 0
    ensures s.startPos == None && s.currentPos == None
  {
    Session(Menu, None, None, None, 0, 0.0)
  }

  /** Reaction to one input event. */
  function Step(s: Session, e: Event): (r: Session)
    requires Inv(s)
    ensures Inv(r)
    ensures Edge(s.mode, r.mode)
    // On the menu only a press on the button does anything, and only the mode changes.
    ensures s.mode == Menu ==>
      r.(mode := Menu) == s && (r.mode == Placing <==> e.MouseDown? && OnPlayButton(e.x, e.y))
    // Elsewhere R always resets and SPACE resets the two end screens; nothing else returns to the menu.
    ensures s.mode != Menu ==> (r.mode == Menu <==> ResetKey(s.mode, e))
    ensures s.mode != Menu && ResetKey(s.mode, e) ==> r == Fresh()
    // A press while placing creates a resting colony where the pointer is.
    ensures s.mode == Placing && e.MouseDown? ==>
      var at := Vec2(e.x as real, e.y as real);
      r == s.(startPos := Some(at), colony := Some(NewColony(at, Vec2(0.0, 0.0))), mode := Dragging)
    // Releasing while dragging launches it against the drag, five times as fast.
    ensures s.mode == Dragging && e.MouseUp? ==>
      var start := s.startPos.value;
      r == s.(colony := Some(s.colony.value.(vel := Vec2(-(e.x as real - start.x) * LAUNCH_FACTOR,
                                                         -(e.y as real - start.y) * LAUNCH_FACTOR))),
              mode := Simulating, currentPos := None)
    // Motion while dragging only records the pointer for the aiming line.
    ensures s.mode == Dragging && e.MouseMotion? ==>
      r == s.(currentPos := Some(Vec2(e.x as real, e.y as real)))
    // Placing waits for a press and dragging for motion or a release; other events change nothing.
    ensures (!ResetKey(s.mode, e) &&
             ((s.mode == Placing && !e.MouseDown?) || (s.mode == Dragging && !e.MouseMotion? && !e.MouseUp?)))
      ==> r == s
    // The simulation and the end screens ignore everything but the reset keys.
    ensures (s.mode == Simulating || s.mode == GameOver || s.mode == Win) && !ResetKey(s.mode, e) ==> r == s
  {
    if s.mode == Menu then
      if e.MouseDown? && OnPlayButton(e.x, e.y) then s.(mode := Placing) else s
    else
      var afterKey := if ResetKey(s.mode, e) then Fresh() else s;
      var afterPress :=
        if afterKey.mode == Placing && e.MouseDown? then
          var at := Vec2(e.x as real, e.y as real);
          afterKey.(startPos := Some(at), colony := Some(NewColony(at, Vec2(0.0, 0.0))), mode := Dragging)
        else afterKey;
      if afterPress.mode == Dragging && e.MouseMotion? then
        afterPress.(currentPos := Some(Vec2(e.x as real, e.y as real)))
      else if afterPress.mode == Dragging && e.MouseUp? then
        var start := afterPress.startPos.value;
        var dx, dy := e.x as real - start.x, e.y as real - start.y;
        afterPress.(colony := Some(afterPress.colony.value.(vel := Vec2(-dx * LAUNCH_FACTOR, -dy * LAUNCH_FACTOR))),
                    mode := Simulating, currentPos := None)
      else afterPress
  }

  /** The events of one poll, handled in order. */
  function Steps(s: Session, es: seq<Event>): (r: Session)
    requires Inv(s)
    ensures Inv(r)
    decreases |es|
  {
    if es == [] then s else Step(Steps(s, es[..|es| - 1]), es[|es| - 1])
  }

  /** A day of simulated time after a successful tick, unless the year count is reached. */
  lemma ClockStep(elapsed: int)
    requires 0 <= elapsed < WIN_TIME && elapsed % TIME_STEP == 0
    ensures var next := elapsed + TIME_STEP;
      next % TIME_STEP == 0 && (next >= WIN_TIME <==> next == WIN_ELAPSED)
  {
    var k := elapsed / TIME_STEP;
    assert elapsed == k * TIME_STEP;
    assert k < WIN_TICKS;
    assert WIN_ELAPSED == WIN_TICKS * TIME_STEP;
  }

  /** One frame's update: while simulating, tick the colony once. */
  function Advance(s: Session, d: real): (r: Session)
    requires Inv(s)
    ensures Inv(r)
    ensures s.mode != Simulating ==> r == s
    ensures s.mode == Simulating ==>
      r.colony.Some? && r.startPos == s.startPos &&
      TickOutcome(r.colony.value, r.mode != GameOver) == Tick(s.colony.value, SUN, TIME_STEP as real, d)
    // A failed tick ends the game without counting the day.
    ensures s.mode == Simulating && r.mode == GameOver ==> r.elapsedTime == s.elapsedTime
    // A successful tick counts one day, and the game is won exactly when ten years are reached.
    ensures s.mode == Simulating && r.mode != GameOver ==>
      r.elapsedTime == s.elapsedTime + TIME_STEP && (r.mode == Win <==> r.elapsedTime >= WIN_TIME) &&
      (r.mode == Win || r.mode == Simulating)
  {
    if s.mode != Simulating then s
    else
      var o := Tick(s.colony.value, SUN, TIME_STEP as real, d);
      if !o.alive then s.(colony := Some(o.next), mode := GameOver)
      else
        var elapsed := s.elapsedTime + TIME_STEP;
        var years := YearsSurvived(elapsed);
        ClockStep(s.elapsedTime);
        s.(colony := Some(o.next), elapsedTime := elapsed, yearsSurvived := years,
           mode := if years >= YEARS_TO_WIN then Win else Simulating)
  }

  /** The win comes on exactly the 3653rd successful tick of a run. */
  lemma WinOnTick3653(s: Session, d: real)
    requires Inv(s) && s.mode == Simulating
    ensures s.elapsedTime / TIME_STEP < WIN_TICKS
    ensures Advance(s, d).mode == Win <==>
      Advance(s, d).mode != GameOver && s.elapsedTime / TIME_STEP + 1 == WIN_TICKS
  {
    var k := s.elapsedTime / TIME_STEP;
    assert s.elapsedTime == k * TIME_STEP;
  }

  /** The main loop over a finite run of frames: poll the events, then update. */
  function Play(s: Session, frames: seq<Frame>): (r: Session)
    requires Inv(s)
    ensures Inv(r)
    decreases |frames|
  {
    if frames == [] then s
    else Play(Advance(Steps(s, frames[0].events), frames[0].d), frames[1..])
  }

  predicate NoResetKey(frames: seq<Frame>) {
    forall i, j :: 0 <= i < |frames| && 0 <= j < |frames[i].events| ==>
      frames[i].events[j] != KeyR && frames[i].events[j] != KeySpace
  }

  /** The end screens stay put, whatever the frames bring, until R or SPACE. */
  lemma {:induction false} EndScreensPersist(s: Session, frames: seq<Frame>)
    requires Inv(s) && (s.mode == GameOver || s.mode == Win) && NoResetKey(frames)
    ensures Play(s, frames) == s
    decreases |frames|
  {
    if frames != [] {
      EventsIgnored(s, frames[0].events);
      EndScreensPersist(s, frames[1..]);
    }
  }

  lemma {:induction false} EventsIgnored(s: Session, es: seq<Event>)
    requires Inv(s) && (s.mode == GameOver || s.mode == Win)
    requires forall j :: 0 <= j < |es| ==> es[j] != KeyR && es[j] != KeySpace
    ensures Steps(s, es) == s
    decreases |es|
  {
    if es != [] {
      EventsIgnored(s, es[..|es| - 1]);
    }
  }

  /** The session object of the game. */
  class Game {
    var star: Star
    var colony: Colony?
    var state: Mode
    var startPos: Option<Vec2>
    var currentPos: Option<Vec2>
    var elapsedTime: int
    var yearsSurvived: real

    ghost predicate Valid()
      reads this, colony
    {
      star == SUN && (colony != null ==> colony.Valid()) && Inv(Snapshot())
    }

    function Snapshot(): Session
      reads this, colony
    {
      Session(state, if colony == null then None else Some(colony.Snapshot()),
              startPos, currentPos, elapsedTime, yearsSurvived)
    }

    constructor ()
      ensures Valid() && Snapshot() == Fresh()
    {
      new;
      ResetGame();
    }

    method ResetGame()
      modifies this
      ensures Valid() && Snapshot() == Fresh()
    {
      star := SUN;
      colony := null;
      state := Menu;
      startPos := None;
      currentPos := None;
      elapsedTime := 0;
      yearsSurvived := 0.0;
    }

    /** The reaction to one polled event. */
    method HandleEvent(e: Event)
      requires Valid()
      modifies this, colony
      ensures Valid() && Snapshot() == Step(old(Snapshot()), e)
      ensures colony == old(colony) || colony == null || fresh(colony)
    {
      ghost var before := Snapshot();
      if state == Menu {
        if e.MouseDown? && OnPlayButton(e.x, e.y) {
          state := Placing;
        }
      } else {
        if e == KeyR || ((state == GameOver || state == Win) && e == KeySpace) {
          ResetGame();
        }
        ghost var afterKey := Snapshot();
        assert afterKey == if ResetKey(before.mode, e) then Fresh() else before;
        if state == Placing && e.MouseDown? {
          startPos := Some(Vec2(e.x as real, e.y as real));
          colony := new Colony(startPos.value);
          state := Dragging;
        }
        ghost var afterPress := Snapshot();
        assert Inv(afterPress);
        if state == Dragging {
          if e.MouseMotion? {
            currentPos := Some(Vec2(e.x as real, e.y as real));
          } else if e.MouseUp? {
            var dx, dy := e.x as real - startPos.value.x, e.y as real - startPos.value.y;
            colony.vel := Vec2(-dx * LAUNCH_FACTOR, -dy * LAUNCH_FACTOR);
            state := Simulating;
            currentPos := None;
          }
        }
      }
      assert Snapshot() == Step(before, e);
    }

    /** Handles the events of one poll in order. */
    method HandleEvents(events: seq<Event>)
      requires Valid()
      modifies this, colony
      ensures Valid() && Snapshot() == Steps(old(Snapshot()), events)
    {
      for i := 0 to |events|
        invariant Valid() && Snapshot() == Steps(old(Snapshot()), events[..i])
        invariant colony == old(colony) || colony == null || fresh(colony)
      {
        assert events[..i + 1][..i] == events[..i];
        HandleEvent(events[i]);
      }
      assert events[..|events|] == events;
    }

    /** One frame's update; `d` is the colony's pixel distance to the star. */
    method Update(d: real)
      requires Valid()
      requires state == Simulating ==> colony != null && IsDistance(star, colony.pos, d)
      modifies this, colony
      ensures Valid() && Snapshot() == Advance(old(Snapshot()), d) && colony == old(colony)
    {
      ghost var before := Snapshot();
      if state == Simulating {
        var alive := colony.Update(star, TIME_STEP as real, d);
        ghost var o := Tick(before.colony.value, SUN, TIME_STEP as real, d);
        assert colony.Snapshot() == o.next && alive == o.alive;
        if !alive {
          state := GameOver;
          assert Snapshot() == Advance(before, d);
          return;
        }
        ClockStep(elapsedTime);
        elapsedTime := elapsedTime + TIME_STEP;
        yearsSurvived := elapsedTime as real / SECONDS_PER_YEAR;
        if yearsSurvived >= YEARS_TO_WIN {
          state := Win;
        }
        assert Snapshot() == Advance(before, d);
      }
    }
  }
}

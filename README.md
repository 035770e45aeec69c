# Initial State: the colony tick and the game session

"Initial State" is a small orbital game. The player clicks a Play button,
places the EON-1 colony near a fixed star and drags to aim its launch. The
colony then falls under amplified Newtonian gravity, one simulated day per
frame. It is lost when it hits the star, drifts more than 50 pixels beyond
the 800×800 window, or lets its stability reach zero. Stability drops when
the colony is too close to the star or too far from it, and slowly recovers
in a habitable band. Surviving ten simulated years wins. R restarts at any
time except on the menu, and SPACE restarts from either end screen.

The project has two modules.

- `Orbit` (`orbit.dfy`) models the colony.
  - The pure function `Tick` specifies one call of the colony's update,
    covering the crash test, gravity and the semi-implicit Euler step, the 500-entry
    trail, the world bounds and the habitability rule. `Hold` repeats the
    habitability rule at a fixed distance; `Run` repeats the update.
  - The class `Colony` has the source's fields. Its `Update` method changes
    them in the same order as the source. It is proved to leave exactly
    the state `Tick` describes, and to keep the trail equal to the last
    500 positions of a ghost history.
- `Session` (`session.dfy`) models the game.
  - The pure functions `Step` (one input event), `Advance` (one frame's
    update) and `Play` (a finite run of frames) specify the state machine
    MENU → PLACING → DRAGGING → SIMULATING → GAME_OVER / WIN. The menu's
    Play button accepts clicks strictly inside 300 < x < 500, 450 < y < 500.
  - The class `Game` has the source's fields, including a `Colony?`. Its
    `ResetGame`, `HandleEvent`, `HandleEvents` and `Update` methods are
    proved to produce exactly the states the specification functions
    describe. Every reachable session satisfies `Inv`:
    - a colony exists exactly from DRAGGING on;
    - its stability stays within [0, 100] and its trail within 500 entries;
    - the clock counts whole days;
    - WIN is reached on the 3653rd successful tick.

Python floats are modelled as exact reals. The distance the source computes
with `math.hypot` is a parameter `d` tied to the positions by
`d ≥ 0 ∧ d² = dx² + dy²` (`IsDistance`). The gravity direction
(cos, sin) of `atan2(dy, dx)` is written as (dx/d, dy/d). This is exact
for d > 0, and the crash test guarantees d > 0 before gravity is computed.

## Model

| member | source | states |
|---|---|---|
| Orbit.NewColony | initial_state.py:58-67 | a new colony is at the given position with the given velocity, has an empty trail, stability 100 and temperature 0, and is well formed (trail ≤ 500, stability in [0,100], temperature in {-1,0,1}) |
| Orbit.Colony.constructor | initial_state.py:58-67 | the constructed object is valid, holds the fields of `NewColony` with velocity defaulting to (0,0), and has an empty position history |
| Orbit.CollisionOnSquares | initial_state.py:69-74 | the crash test on the hypot distance is equivalent to comparing the squared displacement with the squared sum of the radii, so no square root is needed |
| Orbit.SunCollision | initial_state.py:69-74 | for the game's star the crash happens exactly when dx²+dy² ≤ 625, that is within 25 pixels |
| Orbit.GravityPullsTowardStar | initial_state.py:75-78 | the acceleration is parallel to the displacement towards the star and never points away from it |
| Orbit.Colony.Step | initial_state.py:79-81 | the velocity is updated by the acceleration first, and the position then moves with the new velocity (semi-implicit Euler step `Move`) |
| Orbit.PushTrail | initial_state.py:82-84 | after the append the new position is the last entry and the 500 cap holds; a short trail just grows, and a full trail loses exactly its oldest entry with order kept |
| Orbit.PushTrailSlidesWindow | initial_state.py:82-84 | pushing onto the last 500 positions of a history gives the last 500 positions of the extended history, so the trail is always a sliding window |
| Orbit.DistanceMkm | initial_state.py:87 | the distance in millions of km is the pixel distance divided by 10 |
| Orbit.Clamp | initial_state.py:98 | the clamped stability lies in [0,100]: a value below 0 becomes 0, one above 100 becomes 100, and a value already in range is unchanged |
| Orbit.Habitability | initial_state.py:87-98 | temperature is 1 iff closer than 20 Mkm, -1 iff farther than 200 Mkm, and 0 otherwise; too close or too far subtracts the source's penalties (positive, and at most 0.5 when too close) and never raises stability; [20,100] Mkm gives min(100, s+0.01); (100,200] Mkm leaves stability unchanged; the result is always in [0,100] |
| Orbit.Colony.ApplyHabitability | initial_state.py:87-99 | the new stability, the temperature and the returned flag are exactly those of the habitability rule, and the flag is stability > 0 |
| Orbit.RecoveryBand | initial_state.py:88-97 | stability rises iff the distance is in [20,100] Mkm and stability is below 100, so the lower safe bound of 10 Mkm never has an effect |
| Orbit.DangerDecay | initial_state.py:88-90 | n ticks held at a distance under 20 Mkm leave max(0, s − n·0.5·(20−mkm)/20) |
| Orbit.GoldilocksRecovery | initial_state.py:94-97 | n ticks held in [20,100] Mkm leave min(100, s + n·0.01) |
| Orbit.Tick | initial_state.py:68-99 | a crash changes nothing and returns False. Otherwise: the new position is pushed onto the trail exactly as `PushTrail` does (earlier entries kept, the oldest dropped past 500); leaving the world returns False after the append with stability and temperature untouched; else stability and temperature follow the habitability rule on the pre-move distance, and the result is stability > 0. Well-formedness is preserved, and a True result means no crash and inside the world |
| Orbit.Colony.Update | initial_state.py:68-99 | the fields and the result after the call are exactly `Tick` of the fields before, the object stays valid, and the trail stays the last 500 positions of the history |
| Orbit.Run | initial_state.py:68-99 | repeated ticks from a well-formed colony stay well formed, and a colony still alive after at least one tick has positive stability |
| Orbit.DeathByStability | initial_state.py:98-99 | a tick that neither crashes nor escapes yet reports death has left stability at exactly 0 |
| Session.YearsSurvived | initial_state.py:154-155 | the year count reaches 10 exactly when the elapsed time reaches 315 576 000 seconds |
| Session.Fresh | initial_state.py:113-120 | a reset session is on the menu with no colony, no start or pointer position and the clock at 0, and satisfies the session invariant |
| Session.Game.ResetGame | initial_state.py:113-120 | the game's fields become the fresh session, and the object is valid |
| Session.Game.constructor | initial_state.py:106-112 | a new game starts as the fresh session |
| Session.Step | initial_state.py:126-147 | menu: only a click strictly inside 300<x<500, 450<y<500 leads to PLACING, and nothing else changes. Elsewhere: R, or SPACE on GAME_OVER/WIN, resets to the fresh session, and nothing else returns to the menu. A press while placing records the start, creates a resting colony at the click and enters DRAGGING, nothing else changing. Motion while dragging records only the pointer. A release while dragging sets only the velocity to −5·(release − start), clears the pointer and enters SIMULATING, keeping the start and the clock. All other events change nothing. The mode moves only along the allowed edges, and the invariant is preserved |
| Session.Game.HandleEvent | initial_state.py:126-147 | the game's fields after one event are exactly `Step` of the fields before; a colony is either the old one, none, or newly created |
| Session.Steps | initial_state.py:121-147 | handling a poll's events in order preserves the session invariant |
| Session.Game.HandleEvents | initial_state.py:121-147 | the game's fields after the loop over a poll's events are exactly `Steps` of the fields before |
| Session.ClockStep | initial_state.py:153-155 | a day added to a whole number of days below ten years stays a whole number of days, and reaches ten years only at 3653 days |
| Session.Advance | initial_state.py:148-156 | outside SIMULATING nothing changes. Otherwise the colony becomes `Tick`'s result: a failed tick gives GAME_OVER with the clock unchanged, and a successful one adds 86400 s and gives WIN exactly when ten years are reached (else it stays SIMULATING). The invariant is preserved |
| Session.Game.Update | initial_state.py:148-156 | the game's fields after the frame's update are exactly `Advance` of the fields before, on the same colony object |
| Session.WinOnTick3653 | initial_state.py:153-156 | while simulating fewer than 3653 days have passed, and the update wins exactly on a successful 3653rd tick |
| Session.Play | initial_state.py:214-219 | the main loop (poll the events, then update) preserves the session invariant over any finite run of frames |
| Session.EventsIgnored | initial_state.py:131-147 | on an end screen, a poll without R or SPACE leaves the session unchanged |
| Session.EndScreensPersist | initial_state.py:131-156 | GAME_OVER and WIN persist through any frames until R or SPACE is pressed |

## Left out

- Floating-point rounding: all arithmetic is on exact reals, so the model does not capture rounding in the gravity step, the year count or the stability update.
- `math.hypot`, `math.atan2`, `math.cos` and `math.sin` are not computed. The distance is a parameter tied to the displacement by its square, and the direction is the unit vector it defines. Nothing is proved about orbits, energy or escape.
- Drawing (`Star.draw`, `Colony.draw`, `Game.draw`), the window, fonts, the button's hover colour and the on-screen texts are left out. The displayed years, distance and stability are only read from the state.
- Event polling, `clock.tick`, and QUIT (which calls `pygame.quit` and `sys.exit`) are left out. Input is an abstract sequence of events. `Game.run`'s endless loop is modelled by `Play` over a finite sequence of frames.
- Session.Step: the pointer position used when placing, moving and releasing is the event's own position. The source reads `pygame.mouse.get_pos()` at that moment, which normally coincides with the position carried by the event.
- Session.Advance: the frame's pre-move distance `d` is supplied by the caller, and `Game.Update` requires it to be the colony's true distance to the star.
- The star is always the one the game builds (`SUN`). Its per-instance fields are the constants of `Star.__init__`.

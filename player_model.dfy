/** Value-level model of one frame of the player character's update in movement.py:
    the jump trigger, the horizontal step, the vertical physics step and the choice
    of the sprite and animation frame to draw. The class in player.dfy is proved
    against these functions. Screen coordinates: y grows downwards. */
module PlayerModel {

  // ---------------------------------------------------------------------------
  // Constants (movement.py:6-7, 17-19, 39-49, 69-71, 98, 110)
  // ---------------------------------------------------------------------------

  const SCREEN_WIDTH: int := 800
  const SCREEN_HEIGHT: int := 600
  const GROUND_LEVEL: int := SCREEN_HEIGHT - 100
  /** Exact rational 0.8; the source uses a binary float. */
  const GRAVITY: real := 0.8
  const JUMP_FORCE: real := -15.0
  const START_X: int := 50
  const PLAYER_SPEED: int := 5
  /** Ticks per frame of the run and idle animations. */
  const RUN_DIV: nat := 10
  const IDLE_DIV: nat := 20
  /** Lengths of the frame lists; the left-facing lists are flipped copies of the same length. */
  const IDLE_FRAMES: nat := 1
  const RUN_FRAMES: nat := 2

  // ---------------------------------------------------------------------------
  // Data model
  // ---------------------------------------------------------------------------

  datatype Key = Space | LeftArrow | RightArrow | OtherKey

  /** The events of one frame that matter here; QUIT and key releases are OtherEvent. */
  datatype Event = KeyDown(key: Key) | OtherEvent

  /** The inputs of one frame: the queued events and the keys held when polled. */
  datatype Input = Input(events: seq<Event>, leftHeld: bool, rightHeld: bool)

  /** The six module-level variables of the player (movement.py:69-75). */
  datatype PlayerState = PlayerState(
    x: int,
    y: real,
    velY: real,
    isJumping: bool,
    lastDirLeft: bool,
    animCount: nat)

  /** The logical image drawn: `left` is the mirrored variant, `index` the position in the frame list. */
  datatype Sprite =
    | JumpImage(left: bool)
    | FallImage(left: bool)
    | RunFrame(left: bool, index: nat)
    | IdleFrame(left: bool, index: nat)

  /** The sprite chosen by draw_window together with the state it leaves behind. */
  datatype Drawn = Drawn(sprite: Sprite, state: PlayerState)

  function Bottom(s: PlayerState, charHeight: int): (r: real) {
    s.y + charHeight as real
  }

  /** Standing on the ground line, not moving vertically, not airborne. */
  predicate AtRest(s: PlayerState, charHeight: int) {
    Bottom(s, charHeight) == GROUND_LEVEL as real && s.velY == 0.0 && !s.isJumping
  }

  /** The starting state (movement.py:69-75). */
  function Initial(charHeight: int): (s: PlayerState)
    ensures AtRest(s, charHeight) && s.x == START_X && !s.lastDirLeft && s.animCount == 0
  {
    PlayerState(START_X, (GROUND_LEVEL - charHeight) as real, 0.0, false, false, 0)
  }

  /** A sprite whose frame index is a valid position in its frame list. */
  predicate SpriteFits(sp: Sprite) {
    match sp
    case RunFrame(_, i) => i < RUN_FRAMES
    case IdleFrame(_, i) => i < IDLE_FRAMES
    case _ => true
  }

  function Max(a: int, b: int): (r: int) { if a < b then b else a }

  /** Largest x the character can reach: the guard `x < SCREEN_WIDTH - CHAR_WIDTH` lets one
      step of PLAYER_SPEED overshoot the edge by less than PLAYER_SPEED. */
  function XMax(charWidth: int): (r: int) {
    Max(START_X, SCREEN_WIDTH - charWidth + PLAYER_SPEED - 1)
  }

  predicate XInBounds(x: int, charWidth: int) {
    0 <= x && x % PLAYER_SPEED == 0 && x <= XMax(charWidth)
  }

  /** What holds between two frames. */
  predicate Inv(s: PlayerState, charWidth: int, charHeight: int) {
    && XInBounds(s.x, charWidth)
    && Bottom(s, charHeight) <= GROUND_LEVEL as real
    && (s.isJumping <==> Bottom(s, charHeight) < GROUND_LEVEL as real)
    && (!s.isJumping ==> s.velY == 0.0)
    && s.animCount <= Max(RUN_FRAMES * RUN_DIV, IDLE_FRAMES * IDLE_DIV)
  }

  // ---------------------------------------------------------------------------
  // 1. Jump trigger (movement.py:129-133)
  // ---------------------------------------------------------------------------

  /** A Space key-down: effective only from the ground. */
  function JumpIfGrounded(s: PlayerState): (r: PlayerState)
    ensures r == s.(velY := r.velY, isJumping := r.isJumping)
    ensures r.isJumping
    ensures r != s <==> !s.isJumping
    ensures r != s ==> r.velY == JUMP_FORCE
  {
    if !s.isJumping then s.(velY := JUMP_FORCE, isJumping := true) else s
  }

  function OnEvent(s: PlayerState, e: Event): (r: PlayerState) {
    if e == KeyDown(Space) then JumpIfGrounded(s) else s
  }

  /** The event loop of one frame, in queue order. */
  function AfterEvents(s: PlayerState, events: seq<Event>): (r: PlayerState)
    decreases |events|
  {
    if events == [] then s
    else OnEvent(AfterEvents(s, events[..|events| - 1]), events[|events| - 1])
  }

  predicate SpacePressed(events: seq<Event>) {
    KeyDown(Space) in events
  }

  /** However many events a frame queues, their effect is that of a single boolean
      "Space was pressed": at most one jump, and none when airborne. */
  lemma {:induction false} AfterEventsIsOneJump(s: PlayerState, events: seq<Event>)
    ensures AfterEvents(s, events) == if SpacePressed(events) then JumpIfGrounded(s) else s
    decreases |events|
  {
    if events != [] {
      var init, last := events[..|events| - 1], events[|events| - 1];
      assert events == init + [last];
      assert SpacePressed(events) <==> SpacePressed(init) || last == KeyDown(Space);
      AfterEventsIsOneJump(s, init);
    }
  }

  // ---------------------------------------------------------------------------
  // 2. Horizontal step (movement.py:137-147)
  // ---------------------------------------------------------------------------

  function HorizontalStep(s: PlayerState, charWidth: int, left: bool, right: bool): (r: PlayerState)
    ensures r == s.(x := r.x, lastDirLeft := r.lastDirLeft)
    // left wins when it can move (x > 0); at the left edge a held right key still moves right
    ensures r.x < s.x <==> left && s.x > 0
    ensures r.x > s.x <==> !(left && s.x > 0) && right && s.x < SCREEN_WIDTH - charWidth
    // a move is exactly one step, in the new facing direction
    ensures r.x != s.x ==> r.x == s.x + (if r.lastDirLeft then -PLAYER_SPEED else PLAYER_SPEED)
    // facing changes only with a move
    ensures r.x == s.x ==> r.lastDirLeft == s.lastDirLeft
  {
    if left && s.x > 0 then s.(x := s.x - PLAYER_SPEED, lastDirLeft := true)
    else if right && s.x < SCREEN_WIDTH - charWidth then s.(x := s.x + PLAYER_SPEED, lastDirLeft := false)
    else s
  }

  /** From x = 50 in steps of 5, x stays a non-negative multiple of the speed and
      overshoots the right guard by less than one step. */
  lemma HorizontalStepKeepsBounds(s: PlayerState, charWidth: int, left: bool, right: bool)
    requires XInBounds(s.x, charWidth)
    ensures XInBounds(HorizontalStep(s, charWidth, left, right).x, charWidth)
  {
  }

  // ---------------------------------------------------------------------------
  // 3. Vertical physics (movement.py:149-159)
  // ---------------------------------------------------------------------------

  /** Whether this frame's move reaches or passes the ground line. */
  predicate Lands(s: PlayerState, charHeight: int) {
    s.y + (s.velY + GRAVITY) + charHeight as real >= GROUND_LEVEL as real
  }

  function VerticalStep(s: PlayerState, charHeight: int): (r: PlayerState)
    ensures r == s.(y := r.y, velY := r.velY, isJumping := r.isJumping)
    // never ends a frame below the ground, and is airborne exactly when above it
    ensures Bottom(r, charHeight) <= GROUND_LEVEL as real
    ensures r.isJumping <==> Bottom(r, charHeight) < GROUND_LEVEL as real
    // landing snaps to the ground and stops
    ensures Lands(s, charHeight) ==> AtRest(r, charHeight)
    // otherwise gravity is applied first and the new velocity moves the character
    ensures !Lands(s, charHeight) ==> r.velY == s.velY + GRAVITY && r.y == s.y + r.velY
  {
    var v := s.velY + GRAVITY;
    var y := s.y + v;
    if y + charHeight as real >= GROUND_LEVEL as real then
      s.(y := (GROUND_LEVEL - charHeight) as real, velY := 0.0, isJumping := false)
    else
      s.(y := y, velY := v, isJumping := true)
  }

  /** Standing still on the ground is a fixed point of the physics step. */
  lemma RestIsFixedPoint(s: PlayerState, charHeight: int)
    requires AtRest(s, charHeight)
    ensures VerticalStep(s, charHeight) == s
  {
  }

  /** A jump from rest leaves the ground in the same frame, still moving up. */
  lemma JumpFromRestIsAirborne(s: PlayerState, charHeight: int)
    requires AtRest(s, charHeight)
    ensures var r := VerticalStep(JumpIfGrounded(s), charHeight);
      r.isJumping && r.velY == JUMP_FORCE + GRAVITY && r.velY < 0.0
  {
  }

  /** The physics step applied n times with no further input. */
  function Fly(s: PlayerState, charHeight: int, n: nat): (r: PlayerState) {
    if n == 0 then s else VerticalStep(Fly(s, charHeight, n - 1), charHeight)
  }

  /** Height offset (negative is up) and velocity k physics steps into a jump from rest. */
  function ArcY(k: nat): (r: real) {
    JUMP_FORCE * k as real + 0.4 * (k as real) * (k as real + 1.0)
  }

  function ArcVel(k: nat): (r: real) {
    JUMP_FORCE + GRAVITY * k as real
  }

  lemma ArcRecurrence(k: nat)
    ensures ArcY(k + 1) == ArcY(k) + ArcVel(k + 1)
  {
  }

  /** For 1 <= k <= 36 the character is above the ground: ArcY(k) = k * (0.4 k - 14.6) < 0. */
  lemma ArcAboveGround(k: nat)
    requires 1 <= k <= 36
    ensures ArcY(k) < 0.0
  {
    var K := k as real;
    MulNeg(K, 0.4 * K - 14.6);
    calc {
      ArcY(k);
      JUMP_FORCE * K + 0.4 * K * (K + 1.0);
      K * (0.4 * K - 14.6);
    <
      0.0;
    }
  }

  /** 133.2 - (-ArcY(k)) = 0.4 (k - 18)(k - 18.5), which is never negative for whole k. */
  lemma ArcHeightBound(k: nat)
    ensures -ArcY(k) <= 133.2
  {
  }

  /** The arc of a jump from rest under the physics step alone: after k physics steps
      (k <= 36) the character is still airborne with velocity JUMP_FORCE + k * GRAVITY,
      rising for the first 18 steps, and never more than 133.2 units above its starting
      height. JumpInFrames carries this over to whole frames. */
  lemma {:induction false} JumpArc(s: PlayerState, charHeight: int, k: nat)
    requires AtRest(s, charHeight)
    requires 1 <= k <= 36
    ensures var f := Fly(JumpIfGrounded(s), charHeight, k);
      && f == s.(y := s.y + ArcY(k), velY := ArcVel(k), isJumping := true)
      && (f.velY < 0.0 <==> k <= 18)
      && s.y - f.y <= 133.2
  {
    if k > 1 {
      JumpArc(s, charHeight, k - 1);
      ArcRecurrence(k - 1);
      ArcAboveGround(k);
    }
    ArcHeightBound(k);
  }

  /** Under the physics step alone the jump lands on step 37, back in exactly the state
      it started from. Whole frames also move x and the counter; see JumpInFrames. */
  lemma JumpReturnsToRest(s: PlayerState, charHeight: int)
    requires AtRest(s, charHeight)
    ensures Fly(JumpIfGrounded(s), charHeight, 37) == s
  {
    JumpArc(s, charHeight, 36);
  }

  lemma MulNeg(a: real, b: real)
    requires a > 0.0 && b < 0.0
    ensures a * b < 0.0
  {
  }

  // ---------------------------------------------------------------------------
  // 4. Sprite and frame selection (draw_window, movement.py:84-115)
  // ---------------------------------------------------------------------------

  /** The reset check before indexing: a counter past the end of the cycle restarts at 0. */
  function CycleCount(count: nat, frames: nat, div: nat): (r: nat)
    requires frames >= 1 && div >= 1
    ensures r < frames * div
    ensures r / div < frames
    ensures count < frames * div ==> r == count
    ensures count >= frames * div ==> r == 0
  {
    DivBelow(if count >= frames * div then 0 else count, frames, div);
    if count >= frames * div then 0 else count
  }

  lemma DivBelow(c: nat, frames: nat, div: nat)
    requires div >= 1 && c < frames * div
    ensures c / div < frames
  {
  }

  /** draw_window's choice of image; `moving` is "left or right held" when polled. */
  function ChooseSprite(s: PlayerState, moving: bool): (r: Drawn)
    ensures r.state == s.(animCount := r.state.animCount)
    ensures r.sprite.left == s.lastDirLeft
    // airborne: jump image while rising, fall image otherwise; counter untouched
    ensures s.isJumping ==> r.state == s
    ensures s.isJumping ==> (r.sprite.JumpImage? <==> s.velY < 0.0) && (r.sprite.FallImage? <==> s.velY >= 0.0)
    // grounded: a run or idle frame with a valid index, and the counter advances
    ensures !s.isJumping ==> SpriteFits(r.sprite) && (r.sprite.RunFrame? <==> moving) && (r.sprite.IdleFrame? <==> !moving)
    ensures !s.isJumping ==> 1 <= r.state.animCount <= (if moving then RUN_FRAMES * RUN_DIV else IDLE_FRAMES * IDLE_DIV)
    ensures !s.isJumping && moving && s.animCount < RUN_FRAMES * RUN_DIV ==>
      r.sprite.index == s.animCount / RUN_DIV && r.state.animCount == s.animCount + 1
    ensures !s.isJumping && !moving && s.animCount < IDLE_FRAMES * IDLE_DIV ==>
      r.sprite.index == s.animCount / IDLE_DIV && r.state.animCount == s.animCount + 1
    // grounded with the counter at or past the end of its cycle: restart at frame 0
    ensures !s.isJumping && moving && s.animCount >= RUN_FRAMES * RUN_DIV ==>
      r.sprite.index == 0 && r.state.animCount == 1
    ensures !s.isJumping && !moving && s.animCount >= IDLE_FRAMES * IDLE_DIV ==>
      r.sprite.index == 0 && r.state.animCount == 1
  {
    if s.isJumping then
      Drawn(if s.velY < 0.0 then JumpImage(s.lastDirLeft) else FallImage(s.lastDirLeft), s)
    else if moving then
      var c := CycleCount(s.animCount, RUN_FRAMES, RUN_DIV);
      Drawn(RunFrame(s.lastDirLeft, c / RUN_DIV), s.(animCount := c + 1))
    else
      var c := CycleCount(s.animCount, IDLE_FRAMES, IDLE_DIV);
      Drawn(IdleFrame(s.lastDirLeft, c / IDLE_DIV), s.(animCount := c + 1))
  }

  /** The counter after n grounded frames of one animation. */
  function Spin(count: nat, frames: nat, div: nat, n: nat): (r: nat)
    requires frames >= 1 && div >= 1
  {
    if n == 0 then count else CycleCount(Spin(count, frames, div, n - 1), frames, div) + 1
  }

  /** From a zero counter, the counter used for indexing in grounded frame n is
      n mod (frames * div): each frame is shown for div ticks and the list repeats. */
  lemma {:induction false} SpinIsPeriodic(frames: nat, div: nat, n: nat)
    requires frames >= 1 && div >= 1
    ensures CycleCount(Spin(0, frames, div, n), frames, div) == n % (frames * div)
  {
    if n > 0 {
      SpinIsPeriodic(frames, div, n - 1);
      ModSucc(n - 1, frames * div);
    }
  }

  function CycleFrames(moving: bool): (r: nat)
    ensures r >= 1
  {
    if moving then RUN_FRAMES else IDLE_FRAMES
  }

  function CycleDiv(moving: bool): (r: nat)
    ensures r >= 1
  {
    if moving then RUN_DIV else IDLE_DIV
  }

  /** On grounded frame n of one animation, started from a zero counter, draw_window
      shows frame (n mod (len * div)) / div and leaves the counter Spin(..., n + 1). */
  lemma GroundedFrameCycles(s: PlayerState, moving: bool, n: nat)
    requires !s.isJumping
    requires s.animCount == Spin(0, CycleFrames(moving), CycleDiv(moving), n)
    ensures var r := ChooseSprite(s, moving);
      && r.sprite.index == (n % (CycleFrames(moving) * CycleDiv(moving))) / CycleDiv(moving)
      && r.state.animCount == Spin(0, CycleFrames(moving), CycleDiv(moving), n + 1)
  {
    SpinIsPeriodic(CycleFrames(moving), CycleDiv(moving), n);
  }

  lemma ModSucc(m: nat, L: nat)
    requires L >= 1
    ensures (m + 1) % L == if m % L + 1 == L then 0 else m % L + 1
  {
    var q, r := m / L, m % L;
    if r + 1 == L {
      ModUnique(m + 1, q + 1, 0, L);
    } else {
      ModUnique(m + 1, q, r + 1, L);
    }
  }

  /** Euclidean remainders are unique. */
  lemma ModUnique(a: int, q: int, r: int, L: int)
    requires L >= 1 && 0 <= r < L && a == q * L + r
    ensures a % L == r
  {
    var d := q - a / L;
    assert d * L == a % L - r;
  }

  // ---------------------------------------------------------------------------
  // One iteration of the main loop (movement.py:121-161)
  // ---------------------------------------------------------------------------

  function Step(s: PlayerState, charWidth: int, charHeight: int, input: Input): (r: Drawn) {
    var s1 := AfterEvents(s, input.events);
    var s2 := HorizontalStep(s1, charWidth, input.leftHeld, input.rightHeld);
    var s3 := VerticalStep(s2, charHeight);
    ChooseSprite(s3, input.leftHeld || input.rightHeld)
  }

  /** A frame keeps the invariant and always draws a sprite with a valid frame index. */
  lemma StepKeepsInv(s: PlayerState, charWidth: int, charHeight: int, input: Input)
    requires Inv(s, charWidth, charHeight)
    ensures Inv(Step(s, charWidth, charHeight, input).state, charWidth, charHeight)
    ensures SpriteFits(Step(s, charWidth, charHeight, input).sprite)
  {
    AfterEventsIsOneJump(s, input.events);
    var s1 := AfterEvents(s, input.events);
    HorizontalStepKeepsBounds(s1, charWidth, input.leftHeld, input.rightHeld);
  }

  /** y, velocity and the airborne flag agree. */
  predicate SameHeight(a: PlayerState, b: PlayerState) {
    a.y == b.y && a.velY == b.velY && a.isJumping == b.isJumping
  }

  /** In an airborne frame, whatever the input, y, velocity and the airborne flag
      change only by the physics step: Space is ignored and the horizontal step and
      the sprite choice do not touch them. */
  lemma AirborneStepIsPhysics(s: PlayerState, charWidth: int, charHeight: int, input: Input)
    requires s.isJumping
    ensures SameHeight(Step(s, charWidth, charHeight, input).state, VerticalStep(s, charHeight))
  {
    AfterEventsIsOneJump(s, input.events);
  }

  /** The state after a sequence of frames. */
  function Run(s: PlayerState, charWidth: int, charHeight: int, inputs: seq<Input>): (r: PlayerState)
    decreases |inputs|
  {
    if inputs == [] then s
    else Step(Run(s, charWidth, charHeight, inputs[..|inputs| - 1]), charWidth, charHeight, inputs[|inputs| - 1]).state
  }

  /** Every state reachable from the start satisfies the invariant. */
  lemma {:induction false} RunKeepsInv(charWidth: int, charHeight: int, inputs: seq<Input>)
    ensures Inv(Run(Initial(charHeight), charWidth, charHeight, inputs), charWidth, charHeight)
    decreases |inputs|
  {
    if inputs != [] {
      var init := inputs[..|inputs| - 1];
      RunKeepsInv(charWidth, charHeight, init);
      StepKeepsInv(Run(Initial(charHeight), charWidth, charHeight, init), charWidth, charHeight, inputs[|inputs| - 1]);
    }
  }

  /** Frame by frame, a jump from rest follows the physics-only arc Fly in y,
      velocity and the airborne flag, whatever keys are held. */
  lemma {:induction false} RunTracksFly(s: PlayerState, charWidth: int, charHeight: int, inputs: seq<Input>)
    requires AtRest(s, charHeight)
    requires 1 <= |inputs| <= 37
    requires SpacePressed(inputs[0].events)
    ensures SameHeight(Run(s, charWidth, charHeight, inputs), Fly(JumpIfGrounded(s), charHeight, |inputs|))
    decreases |inputs|
  {
    var n := |inputs|;
    var init, last := inputs[..n - 1], inputs[n - 1];
    if n == 1 {
      AfterEventsIsOneJump(s, last.events);
    } else {
      assert init[0] == inputs[0];
      RunTracksFly(s, charWidth, charHeight, init);
      var p := Run(s, charWidth, charHeight, init);
      JumpArc(s, charHeight, n - 1);
      AirborneStepIsPhysics(p, charWidth, charHeight, last);
    }
  }

  /** A jump started by Space from rest, through the game's whole frames with any
      keys held afterwards: airborne for 36 frames with the closed-form height and
      velocity, back on the ground at rest in frame 37. */
  lemma JumpInFrames(s: PlayerState, charWidth: int, charHeight: int, inputs: seq<Input>)
    requires AtRest(s, charHeight)
    requires 1 <= |inputs| <= 37
    requires SpacePressed(inputs[0].events)
    ensures var f := Run(s, charWidth, charHeight, inputs);
      && (|inputs| <= 36 ==> f.isJumping && f.y == s.y + ArcY(|inputs|) && f.velY == ArcVel(|inputs|))
      && (|inputs| == 37 ==> f.y == s.y && f.velY == 0.0 && !f.isJumping)
  {
    RunTracksFly(s, charWidth, charHeight, inputs);
    if |inputs| <= 36 {
      JumpArc(s, charHeight, |inputs|);
    } else {
      JumpReturnsToRest(s, charHeight);
    }
  }
}

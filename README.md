# Player movement of a pygame platformer, modelled in Dafny

`movement.py` runs a single player character in a `while True` loop at 60 frames a
second. Each frame does four things in order:

1. It handles the queued key-down events. A Space press starts a jump, but only
   when the character is on the ground.
2. It moves the character one step left or right. The step stops at the screen
   edges. When both keys are held, left wins as long as x > 0; at the left edge
   the right key still moves the character right.
3. It applies gravity, moves the character vertically, and clamps it to the
   ground line.
4. It draws a sprite. In the air this is the jump or fall image. On the ground it
   is a run or idle animation frame, picked by a frame counter.

The project has two modules:

- `player_model.dfy` (module `PlayerModel`) holds the constants, the player state
  as a value, one pure function per step, and the lemmas about them.
- `player.dfy` (module `Game`) holds the class `Player`. Its fields are the six
  module-level variables of the script. Its methods `Jump`, `HandleEvents`,
  `MoveHorizontal`, `PhysicsStep`, `SelectFrame` and `Tick` update those fields
  step by step. Each method is proved to leave exactly the state that its
  `PlayerModel` function computes.

Vertical position and velocity are `real`, so `GRAVITY = 0.8` is an exact
rational. The horizontal position and the frame counter are integers.
`CHAR_WIDTH` and `CHAR_HEIGHT` are constructor parameters.

What is proved:

- Jump gating. A frame's event queue has the effect of one boolean "Space was
  pressed". It produces at most one jump, and no jump while airborne.
- Horizontal step. With both keys held, left wins when x > 0; at x = 0 the right
  key moves the character right and turns it to face right. A move is exactly `PLAYER_SPEED` in the new facing
  direction. Facing changes only when the character moves. From x = 50, x stays a
  non-negative multiple of 5 and at most `max(50, SCREEN_WIDTH - CHAR_WIDTH + 4)`.
- Vertical step. Gravity is applied before the move. The character never ends a
  frame below the ground line. It is airborne exactly when it is above that line.
  Landing snaps it to the ground and stops it. Rest on the ground is a fixed point.
- Jump arc. Under the physics step alone, a jump from rest stays airborne for 36
  steps and rises for the first 18 of them. It peaks 133.2 units above the start.
  On step 37 it lands with y, velocity and the airborne flag back where they
  started. The game's whole frames follow the same arc in y, velocity and the
  flag, whatever keys are held after the jump. The other fields do not return:
  x moves while a key is held, and the landing frame advances the frame counter.
- Animation. The frame index is always valid for its list. A counter at or past
  the end of its cycle restarts at frame 0. From a zero counter, grounded frame n
  shows frame (n mod (frames * ticks-per-frame)) / ticks-per-frame, so each frame
  is held for its ticks and the list repeats. In the air the counter is left alone.
- Whole frame. One frame keeps the between-frames invariant. So does every
  sequence of frames from the start.

`movement.py` has no coyote time, fall-speed cap, platforms or camera. Its jump
is gated only by `is_jumping`, and its only collision is with the flat ground line.

## Model

| member | source | states |
|---|---|---|
| `PlayerModel.Initial` | movement.py:69-75 | The start state stands at rest on the ground line at x = 50, facing right, with a zero frame counter. |
| `PlayerModel.JumpIfGrounded` | movement.py:130-133 | A Space press changes the state if and only if the character is on the ground. It then sets velocity to JUMP_FORCE and the airborne flag, and changes nothing else. |
| `PlayerModel.AfterEventsIsOneJump` | movement.py:124-133 | Running the event loop over any queue equals one grounded-only jump if the queue holds a Space key-down, and no change otherwise. |
| `PlayerModel.HorizontalStep` | movement.py:138-147 | x decreases iff left is held and x > 0. x increases iff that fails, right is held and x < SCREEN_WIDTH - CHAR_WIDTH. A move is exactly PLAYER_SPEED in the new facing. Facing is unchanged without a move. Nothing else changes. |
| `PlayerModel.HorizontalStepKeepsBounds` | movement.py:138-142 | The step keeps x non-negative, a multiple of PLAYER_SPEED and at most max(START_X, SCREEN_WIDTH - CHAR_WIDTH + PLAYER_SPEED - 1). |
| `PlayerModel.VerticalStep` | movement.py:150-159 | The bottom never ends below GROUND_LEVEL. The airborne flag is true iff the bottom is above it. If the moved bottom reaches the ground, the character is snapped there with zero velocity. Otherwise velocity gains GRAVITY first and y moves by the new velocity. Only y, velocity and the flag change. |
| `PlayerModel.RestIsFixedPoint` | movement.py:150-159 | Standing on the ground with zero velocity and no jump is left unchanged by the physics step. |
| `PlayerModel.JumpFromRestIsAirborne` | movement.py:131-159 | A jump from rest ends its first frame airborne with velocity JUMP_FORCE + GRAVITY < 0. |
| `PlayerModel.JumpArc` | movement.py:150-159 | For 1 <= k <= 36, k physics steps after a jump from rest the character is airborne. Its velocity is JUMP_FORCE + k * GRAVITY and its height has the closed form. It is rising iff k <= 18, and it is never more than 133.2 above its start. |
| `PlayerModel.JumpReturnsToRest` | movement.py:150-159 | After 37 physics steps with no other step in between, a jump from rest has landed in exactly the state it started from. |
| `PlayerModel.CycleCount` | movement.py:103-105 | After the reset check, the counter is below len(frames) * div, so counter // div indexes the list. A counter already in range is kept, and one at or past len(frames) * div restarts at 0. |
| `PlayerModel.ChooseSprite` | movement.py:85-115 | Airborne: the jump image iff velocity < 0, else the fall image, and the counter is untouched. Grounded: a run frame iff left or right is held, else an idle frame. The index is valid and the counter is between 1 and len * div. An in-range counter c shows frame c // div and becomes c + 1. A counter at or past len * div shows frame 0 and becomes 1. The facing follows last_dir_left. |
| `PlayerModel.GroundedFrameCycles` | movement.py:98-115 | On grounded frame n of one animation from a zero counter, draw_window shows frame (n mod (len * div)) // div and leaves the counter of frame n + 1. |
| `PlayerModel.SpinIsPeriodic` | movement.py:98-115 | From a zero counter, the counter used for indexing on grounded frame n is n mod (len * div). |
| `PlayerModel.StepKeepsInv` | movement.py:121-161 | One frame keeps the invariant and draws a sprite with a valid frame index. The invariant is: x in bounds, bottom not below ground, airborne iff above ground, zero velocity when grounded, counter at most 20. |
| `PlayerModel.AirborneStepIsPhysics` | movement.py:121-161 | In a frame that starts airborne, whatever the input, y, velocity and the airborne flag end as the physics step alone leaves them. |
| `PlayerModel.RunKeepsInv` | movement.py:69-161 | Every state reached from the start by any sequence of frames satisfies the invariant. |
| `PlayerModel.RunTracksFly` | movement.py:121-161 | For up to 37 whole frames after a Space press from rest, with any keys held, y, velocity and the airborne flag equal those of the physics-only arc. |
| `PlayerModel.JumpInFrames` | movement.py:121-161 | A jump from rest, through whole frames with any keys held, is airborne with the closed-form height and velocity for 36 frames and is back on the ground at rest in frame 37. |
| `Game.Player.constructor` | movement.py:69-75 | A new player holds the initial state and is valid. |
| `Game.Player.Jump` | movement.py:131-133 | The fields change exactly as JumpIfGrounded says. |
| `Game.Player.HandleEvents` | movement.py:124-133 | The loop over the event queue leaves AfterEvents of the old state. That is one grounded-only jump iff a Space key-down was queued. |
| `Game.Player.MoveHorizontal` | movement.py:138-147 | The fields change exactly as HorizontalStep says. |
| `Game.Player.PhysicsStep` | movement.py:150-159 | The fields change exactly as VerticalStep says. |
| `Game.Player.SelectFrame` | movement.py:85-115 | The returned sprite and the new counter are those of ChooseSprite. |
| `Game.Player.Tick` | movement.py:121-161 | Handles events, moves and applies physics, then selects a frame, in that order. Keeps the invariant, returns a sprite with a valid index, and agrees with Step. |

## Left out

- pygame initialisation, the window, the clock and the 60 FPS wait (movement.py:5-10, 122): I/O and timing.
- Image loading, scaling and flipping, and the exit on a missing file (movement.py:27-62): foreign library calls and file I/O. The model keeps only the list lengths (one idle frame and two run frames, the same for each facing). `CHAR_WIDTH` and `CHAR_HEIGHT` become constructor parameters.
- Event pumping and the QUIT event (movement.py:124-127): QUIT ends the process, which the model does not represent. Such an event is an `OtherEvent` with no effect. Key polling (movement.py:96, 135) becomes the `leftHeld` and `rightHeld` inputs. The model assumes both polls in one frame see the same keys.
- Drawing itself: fill, the ground rectangle, blit and display update (movement.py:81-82, 117-118). The model keeps only which logical sprite and frame index is chosen.
- IEEE float rounding: `GRAVITY` is the exact rational 0.8. The jump-arc figures (36 frames, 18 rising, 133.2 high) are exact-arithmetic results, not bit-exact Python floats.

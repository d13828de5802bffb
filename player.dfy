/** The player character as the main loop of movement.py updates it: the six
    module-level variables become the fields of a Player object, one iteration of
    the `while True` loop becomes Tick, and each step of the iteration is a method
    proved against its function in PlayerModel. */
module Game {
  import opened PlayerModel

  class Player {
    /** Sprite size, taken from the first idle frame (movement.py:65-66). */
    const charWidth: int
    const charHeight: int

    var x: int
    var y: real
    var velY: real
    var isJumping: bool
    var lastDirLeft: bool
    var animCount: nat

    function State(): (r: PlayerState)
      reads this
    {
      PlayerState(x, y, velY, isJumping, lastDirLeft, animCount)
    }

    ghost predicate Valid()
      reads this
    {
      Inv(State(), charWidth, charHeight)
    }

    /** The initial values of movement.py:69-75. */
    constructor (charWidth: int, charHeight: int)
      ensures this.charWidth == charWidth && this.charHeight == charHeight
      ensures State() == Initial(charHeight)
      ensures Valid()
    {
      this.charWidth := charWidth;
      this.charHeight := charHeight;
      x := START_X;
      y := (GROUND_LEVEL - charHeight) as real;
      velY := 0.0;
      isJumping := false;
      lastDirLeft := false;
      animCount := 0;
    }

    /** A Space key-down (movement.py:131-133). */
    method Jump()
      modifies this
      ensures State() == JumpIfGrounded(old(State()))
    {
      if !isJumping {
        velY := JUMP_FORCE;
        isJumping := true;
      }
    }

    /** The event loop of one frame (movement.py:124-133). */
    method HandleEvents(events: seq<Event>)
      modifies this
      ensures State() == AfterEvents(old(State()), events)
      ensures State() == if SpacePressed(events) then JumpIfGrounded(old(State())) else old(State())
    {
      for i := 0 to |events|
        invariant State() == AfterEvents(old(State()), events[..i])
      {
        assert events[..i + 1][..i] == events[..i];
        if events[i] == KeyDown(Space) {
          Jump();
        }
      }
      assert events[..|events|] == events;
      AfterEventsIsOneJump(old(State()), events);
    }

    /** The horizontal step with its edge guards (movement.py:137-147). */
    method MoveHorizontal(left: bool, right: bool)
      modifies this
      ensures State() == HorizontalStep(old(State()), charWidth, left, right)
    {
      if left && x > 0 {
        x := x - PLAYER_SPEED;
        lastDirLeft := true;
      } else if right && x < SCREEN_WIDTH - charWidth {
        x := x + PLAYER_SPEED;
        lastDirLeft := false;
      }
    }

    /** Gravity, the vertical move and the ground check (movement.py:149-159). */
    method PhysicsStep()
      modifies this
      ensures State() == VerticalStep(old(State()), charHeight)
    {
      velY := velY + GRAVITY;
      y := y + velY;
      if y + charHeight as real >= GROUND_LEVEL as real {
        y := (GROUND_LEVEL - charHeight) as real;
        isJumping := false;
        velY := 0.0;
      } else {
        isJumping := true;
      }
    }

    /** The sprite choice of draw_window, which also advances the animation counter
        (movement.py:84-115); `moving` is "left or right held". */
    method SelectFrame(moving: bool) returns (sprite: Sprite)
      modifies this
      ensures Drawn(sprite, State()) == ChooseSprite(old(State()), moving)
    {
      if isJumping {
        if velY < 0.0 {
          sprite := JumpImage(lastDirLeft);
        } else {
          sprite := FallImage(lastDirLeft);
        }
      } else if moving {
        if animCount >= RUN_FRAMES * RUN_DIV {
          animCount := 0;
        }
        sprite := RunFrame(lastDirLeft, animCount / RUN_DIV);
        animCount := animCount + 1;
      } else {
        if animCount >= IDLE_FRAMES * IDLE_DIV {
          animCount := 0;
        }
        sprite := IdleFrame(lastDirLeft, animCount / IDLE_DIV);
        animCount := animCount + 1;
      }
    }

    /** One iteration of the main loop (movement.py:121-161), clock and drawing aside. */
    method Tick(input: Input) returns (sprite: Sprite)
      requires Valid()
      modifies this
      ensures Valid()
      ensures SpriteFits(sprite)
      ensures Drawn(sprite, State()) == Step(old(State()), charWidth, charHeight, input)
    {
      HandleEvents(input.events);
      MoveHorizontal(input.leftHeld, input.rightHeld);
      PhysicsStep();
      sprite := SelectFrame(input.leftHeld || input.rightHeld);
      StepKeepsInv(old(State()), charWidth, charHeight, input);
    }
  }
}

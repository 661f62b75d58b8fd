/** `Game`: the driver that owns a 30 by 30 world and steps it once every 75
    accumulated milliseconds. */
module Games {
  import opened Coords
  import opened Screens
  import opened WorldModel
  import opened Worlds

  /** `TICK_MILLISECONDS`: the time that must accumulate before the world steps. */
  const TICK_MILLISECONDS: nat := 75

  /** The side of the square grid `Game::new` creates. */
  const GRID_SIDE: nat := 30

  class Game {
    const world: World
    var elapsedMilliseconds: nat

    ghost predicate Valid()
      reads this, world, world.screen.pixelBuffer
    {
      world.Valid() && elapsedMilliseconds < TICK_MILLISECONDS
    }

    /** `Game::new`: a fresh 30 by 30 world and no time accumulated. */
    constructor ()
      ensures Valid() && fresh(world) && fresh(world.screen) && fresh(world.screen.pixelBuffer)
      ensures world.screen.width == GRID_SIDE && world.screen.height == GRID_SIDE
      ensures elapsedMilliseconds == 0
      ensures world.State() == ResetState(Unpainted(GRID_SIDE, GRID_SIDE), GRID_SIDE, GRID_SIDE)
    {
      world := new World(GRID_SIDE, GRID_SIDE);
      elapsedMilliseconds := 0;
    }

    /** `tick`: add `delta` to the accumulator; once it reaches 75, empty it and step the
        world exactly once, however large `delta` is. `ok` is the world's step result. */
    method Tick(delta: nat, skip: nat) returns (ok: bool)
      requires Valid() && elapsedMilliseconds + delta <= U32_MAX
      requires skip < world.screen.pixelCount
      modifies this, world, world.screen.pixelBuffer
      ensures Valid()
      ensures old(elapsedMilliseconds) + delta < TICK_MILLISECONDS ==>
        && elapsedMilliseconds == old(elapsedMilliseconds) + delta
        && world.State() == old(world.State()) && ok
      ensures old(elapsedMilliseconds) + delta >= TICK_MILLISECONDS ==>
        && elapsedMilliseconds == 0
        && world.State() == Stepped(old(world.State()), world.screen.width, world.screen.height, skip)
        && ok == !FoodPanics(old(world.State()), world.screen.width, world.screen.height, skip)
    {
      ok := true;
      elapsedMilliseconds := elapsedMilliseconds + delta;
      if elapsedMilliseconds >= TICK_MILLISECONDS {
        elapsedMilliseconds := 0;
        ok := world.Tick(skip);
      }
    }

    /** `width`. */
    function Width(): (w: nat)
      reads this
      ensures w == world.screen.width
    {
      world.screen.width
    }

    /** `height`. */
    function Height(): (h: nat)
      reads this
      ensures h == world.screen.height
    {
      world.screen.height
    }

    /** `click`: forwards the coordinates to the world unchanged. */
    method Click(x: Int32, y: Int32)
      requires Valid()
      modifies world, world.screen.pixelBuffer
      ensures Valid() && elapsedMilliseconds == old(elapsedMilliseconds)
      ensures world.State() == Clicked(old(world.State()), world.screen.width, world.screen.height, x, y)
    {
      world.Click(x, y);
    }
  }
}

/** `World`: the screen, the heading, the body (tail first, head last) and the alive flag,
    updated in place. Every method is proved to leave the state that the matching
    function of `WorldModel` computes from the old state. */
module Worlds {
  import opened Options
  import opened Coords
  import opened Colors
  import opened Screens
  import opened WorldModel
  import opened WorldProperties

  class World {
    const screen: Screen
    var direction: Coord
    var snake: seq<Coord>
    var alive: bool

    /** The mutable part of the world as a value. */
    ghost function State(): WorldState
      reads this, screen.pixelBuffer
    {
      WorldState(direction, snake, alive, screen.pixelBuffer[..])
    }

    ghost predicate Valid()
      reads this, screen.pixelBuffer
    {
      screen.Valid() && Inv(State(), screen.width, screen.height)
    }

    /** `World::new`: a fresh screen, then the same steps as `reset_game`. */
    constructor (w: nat, h: nat)
      requires WorldDims(w, h)
      ensures Valid() && fresh(screen) && fresh(screen.pixelBuffer)
      ensures screen.width == w && screen.height == h
      ensures State() == ResetState(Unpainted(w, h), w, h)
    {
      screen := new Screen(w, h);
      direction := Coord(1, 0);
      snake := [];
      alive := true;
      new;
      screen.Clear();
      CreateInitialSnake();
      CreateInitialFood();
      assert snake == InitialSnake(h);
      assert screen.pixelBuffer[..] == ResetBuffer(Unpainted(w, h), w, h);
      assert State() == ResetState(Unpainted(w, h), w, h);
      ResetInv(Unpainted(w, h), w, h);
    }

    /** `tick`: one step of the game; `ok` is false on the step where the source panics
        because no Background cell is left for the food. */
    method Tick(skip: nat) returns (ok: bool)
      requires Valid() && skip < screen.pixelCount
      modifies this, screen.pixelBuffer
      ensures Valid()
      ensures State() == Stepped(old(State()), screen.width, screen.height, skip)
      ensures ok == !FoodPanics(old(State()), screen.width, screen.height, skip)
    {
      ok := true;
      if alive {
        ghost var s, w, h := State(), screen.width, screen.height;
        var newHead := GetNewHead();
        var newHeadPixel := screen.GetColorAt(newHead).value;
        assert newHeadPixel == Occupant(s, w, h);
        ExtendHeadTo(newHead);
        ghost var grown := Extended(s, w, h, newHead);
        assert State() == grown;
        PaintDecodable(s.buffer, w, h, newHead, Snake);
        StepPreservesInv(s, w, h, skip);
        match newHeadPixel
        case Food =>
          ok := CreateFood(skip);
          assert State() == WithFood(grown, w, h, skip);
        case Snake =>
          Die();
          assert State() == Died(grown, w, h);
        case _ =>
          ShortenTail();
          assert State() == Shortened(grown, w, h);
      }
    }

    /** `click`: turn while alive, reset while dead. */
    method Click(x: Int32, y: Int32)
      requires Valid()
      modifies this, screen.pixelBuffer
      ensures Valid()
      ensures State() == Clicked(old(State()), screen.width, screen.height, x, y)
    {
      ClickPreservesInv(State(), screen.width, screen.height, x, y);
      if alive {
        var head := Last(snake);
        direction := Turn(direction, head, x, y);
      } else {
        ResetGame();
      }
    }

    /** `reset_game`. */
    method ResetGame()
      requires screen.Valid() && WorldDims(screen.width, screen.height)
      modifies this, screen.pixelBuffer
      ensures Valid()
      ensures State() == ResetState(old(screen.pixelBuffer[..]), screen.width, screen.height)
    {
      ghost var w, h, buf := screen.width, screen.height, screen.pixelBuffer[..];
      direction := Coord(1, 0);
      snake := [];
      alive := true;
      screen.Clear();
      CreateInitialSnake();
      CreateInitialFood();
      assert snake == InitialSnake(h);
      assert screen.pixelBuffer[..] == ResetBuffer(buf, w, h);
      assert State() == ResetState(buf, w, h);
      ResetInv(buf, w, h);
    }

    /** `create_initial_snake`: paints and pushes `(x, h/2)` for `x` from 0 to 6. */
    method CreateInitialSnake()
      requires screen.Valid() && WorldDims(screen.width, screen.height)
      modifies this, screen.pixelBuffer
      ensures screen.Valid()
      ensures direction == old(direction) && alive == old(alive)
      ensures snake == old(snake) + InitialSnake(screen.height)
      ensures screen.pixelBuffer[..] ==
        PaintAll(old(screen.pixelBuffer[..]), screen.width, screen.height, InitialSnake(screen.height), Snake)
    {
      var startY := screen.height / 2;
      ghost var cells := InitialSnake(screen.height);
      assert AllInBounds(screen.width, screen.height, cells);
      for x := 0 to START_LEN
        invariant screen.Valid()
        invariant direction == old(direction) && alive == old(alive)
        invariant snake == old(snake) + cells[..x]
        invariant screen.pixelBuffer[..] ==
          PaintAll(old(screen.pixelBuffer[..]), screen.width, screen.height, cells[..x], Snake)
      {
        assert cells[..x + 1] == cells[..x] + [Coord(x, startY)];
        assert cells[..x + 1][..x] == cells[..x];
        screen.SetColorAt(Coord(x, startY), Snake);
        snake := snake + [Coord(x, startY)];
      }
      assert cells[..START_LEN] == cells;
    }

    /** `create_initial_food`: paints `(7, h/2 - 2)` Food. */
    method CreateInitialFood()
      requires screen.Valid() && WorldDims(screen.width, screen.height)
      modifies screen.pixelBuffer
      ensures screen.Valid()
      ensures screen.pixelBuffer[..] ==
        Paint(old(screen.pixelBuffer[..]), screen.width, screen.height, InitialFood(screen.height), Food)
    {
      var initialFoodY := screen.height / 2 - 2;
      screen.SetColorAt(Coord(START_LEN, initialFoodY), Food);
    }

    /** `get_new_head`. */
    function GetNewHead(): (c: Coord)
      requires Valid()
      reads this, screen.pixelBuffer
      ensures InBounds(screen.width, screen.height, c)
      ensures c == NextHead(State(), screen.width, screen.height)
    {
      WorldDimsBound(screen.width, screen.height);
      NewHead(Last(snake), direction, screen.width, screen.height)
    }

    /** `extend_head_to`: paint the cell Snake and push it on the back. */
    method ExtendHeadTo(newHead: Coord)
      requires screen.Valid() && InBounds(screen.width, screen.height, newHead)
      modifies this, screen.pixelBuffer
      ensures screen.Valid()
      ensures direction == old(direction) && alive == old(alive)
      ensures snake == old(snake) + [newHead]
      ensures screen.pixelBuffer[..] == Paint(old(screen.pixelBuffer[..]), screen.width, screen.height, newHead, Snake)
    {
      screen.SetColorAt(newHead, Snake);
      snake := snake + [newHead];
    }

    /** `shorten_tail`: pop the front and paint it Background. */
    method ShortenTail()
      requires screen.Valid() && |snake| > 0 && InBounds(screen.width, screen.height, snake[0])
      modifies this, screen.pixelBuffer
      ensures screen.Valid()
      ensures direction == old(direction) && alive == old(alive)
      ensures snake == old(snake)[1..]
      ensures screen.pixelBuffer[..] ==
        Paint(old(screen.pixelBuffer[..]), screen.width, screen.height, old(snake)[0], Background)
    {
      var tail := snake[0];
      snake := snake[1..];
      screen.SetColorAt(tail, Background);
    }

    /** `create_food`: paints `bg[skip % |bg|]` Food, where `bg` lists the Background
        cells in row-major order; `ok` is false, and nothing changes, when `bg` is empty. */
    method CreateFood(skip: nat) returns (ok: bool)
      requires screen.Valid() && skip < screen.pixelCount
      requires Decodable(screen.pixelBuffer[..], screen.width, screen.height)
      modifies screen.pixelBuffer
      ensures screen.Valid()
      ensures ok == FoodCell(old(State()), screen.width, screen.height, skip).Some?
      ensures State() == WithFood(old(State()), screen.width, screen.height, skip)
    {
      BackgroundCells(screen.pixelBuffer[..], screen.width, screen.height);
      var background := BackgroundIn(screen.IterPixels());
      match CycleNth(background, skip)
      case None =>
        ok := false;
      case Some(coord) =>
        screen.SetColorAt(coord, Food);
        ok := true;
    }

    /** `die`: the game stops and the border turns Fail. */
    method Die()
      requires screen.Valid()
      modifies this, screen.pixelBuffer
      ensures screen.Valid()
      ensures !alive && direction == old(direction) && snake == old(snake)
      ensures screen.pixelBuffer[..] == PaintedEdges(old(screen.pixelBuffer[..]), screen.width, screen.height, Fail)
    {
      alive := false;
      screen.SetColorAtEdges(Fail);
    }
  }
}

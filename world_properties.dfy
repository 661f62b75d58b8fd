/** What one `tick`, one `click` and a reset promise, stated on `WorldModel`'s values. */
module WorldProperties {
  import opened Options
  import opened Coords
  import opened Colors
  import opened Screens
  import opened WorldModel

  /** Painting a cell keeps the buffer padded and decodable. */
  lemma PaintKeeps(buf: seq<Byte>, w: nat, h: nat, c: Coord, k: Color)
    requires Sized(buf, w, h) && InBounds(w, h, c) && Padded(buf) && Decodable(buf, w, h)
    ensures Padded(Paint(buf, w, h, c, k)) && Decodable(Paint(buf, w, h, c, k), w, h)
  {
    PaintPadded(buf, w, h, c, k);
    PaintDecodable(buf, w, h, c, k);
  }

  /** While alive, a cell that does not read Snake is not part of the snake. */
  lemma OffSnake(s: WorldState, w: nat, h: nat, c: Coord)
    requires Inv(s, w, h) && s.alive && InBounds(w, h, c)
    requires ColorAt(s.buffer, w, h, c) != Some(Snake)
    ensures c !in s.snake
  {
  }

  /** After `extend_head_to`: the head reads Snake, the rest of the screen as before. */
  lemma ExtendedCells(s: WorldState, w: nat, h: nat, head: Coord)
    requires Inv(s, w, h) && InBounds(w, h, head)
    ensures var g := Extended(s, w, h, head);
      && Padded(g.buffer) && Decodable(g.buffer, w, h)
      && g.snake == s.snake + [head]
      && (forall i :: 0 <= i < |g.snake| ==> InBounds(w, h, g.snake[i]))
      && (forall c :: InBounds(w, h, c) ==>
            ColorAt(g.buffer, w, h, c) == if c == head then Some(Snake) else ColorAt(s.buffer, w, h, c))
  {
    var g := Extended(s, w, h, head);
    PaintKeeps(s.buffer, w, h, head, Snake);
    forall c | InBounds(w, h, c)
      ensures ColorAt(g.buffer, w, h, c) == if c == head then Some(Snake) else ColorAt(s.buffer, w, h, c)
    {
      PaintAt(s.buffer, w, h, head, Snake, c);
    }
  }

  /** Extending a live snake by a cell it does not occupy keeps its cells painted and distinct. */
  lemma ExtendedBody(s: WorldState, w: nat, h: nat, head: Coord)
    requires Inv(s, w, h) && s.alive && InBounds(w, h, head) && head !in s.snake
    ensures var g := Extended(s, w, h, head);
      && (forall i :: 0 <= i < |g.snake| ==> ColorAt(g.buffer, w, h, g.snake[i]) == Some(Snake))
      && (forall i, j :: 0 <= i < j < |g.snake| ==> g.snake[i] != g.snake[j])
  {
    var g := Extended(s, w, h, head);
    ExtendedCells(s, w, h, head);
    forall i | 0 <= i < |g.snake| ensures ColorAt(g.buffer, w, h, g.snake[i]) == Some(Snake) {
      if i < |s.snake| {
        assert g.snake[i] == s.snake[i];
      }
    }
    forall i, j | 0 <= i < j < |g.snake| ensures g.snake[i] != g.snake[j] {
      if j < |s.snake| {
        assert g.snake[i] == s.snake[i] && g.snake[j] == s.snake[j];
      } else {
        assert g.snake[i] == s.snake[i] && s.snake[i] in s.snake;
      }
    }
  }

  /** After `shorten_tail`: the old tail reads Background, the rest of the screen as before. */
  lemma ShortenedCells(g: WorldState, w: nat, h: nat)
    requires Sized(g.buffer, w, h) && Padded(g.buffer) && Decodable(g.buffer, w, h)
    requires |g.snake| > 0 && InBounds(w, h, g.snake[0])
    ensures var t := Shortened(g, w, h);
      && Padded(t.buffer) && Decodable(t.buffer, w, h)
      && t.snake == g.snake[1..]
      && (forall c :: InBounds(w, h, c) ==>
            ColorAt(t.buffer, w, h, c) == if c == g.snake[0] then Some(Background) else ColorAt(g.buffer, w, h, c))
  {
    var t := Shortened(g, w, h);
    PaintKeeps(g.buffer, w, h, g.snake[0], Background);
    forall c | InBounds(w, h, c)
      ensures ColorAt(t.buffer, w, h, c) == if c == g.snake[0] then Some(Background) else ColorAt(g.buffer, w, h, c)
    {
      PaintAt(g.buffer, w, h, g.snake[0], Background, c);
    }
  }

  /** Popping the tail of a snake whose cells are painted and distinct keeps them so. */
  lemma ShortenedBody(g: WorldState, w: nat, h: nat, t: WorldState)
    requires Sized(g.buffer, w, h) && Sized(t.buffer, w, h)
    requires |g.snake| > 0 && t.snake == g.snake[1..]
    requires forall i :: 0 <= i < |g.snake| ==> InBounds(w, h, g.snake[i])
    requires forall i :: 0 <= i < |g.snake| ==> ColorAt(g.buffer, w, h, g.snake[i]) == Some(Snake)
    requires forall i, j :: 0 <= i < j < |g.snake| ==> g.snake[i] != g.snake[j]
    requires forall c :: InBounds(w, h, c) ==>
      ColorAt(t.buffer, w, h, c) == if c == g.snake[0] then Some(Background) else ColorAt(g.buffer, w, h, c)
    ensures forall i :: 0 <= i < |t.snake| ==> InBounds(w, h, t.snake[i])
    ensures forall i :: 0 <= i < |t.snake| ==> ColorAt(t.buffer, w, h, t.snake[i]) == Some(Snake)
    ensures forall i, j :: 0 <= i < j < |t.snake| ==> t.snake[i] != t.snake[j]
  {
    forall i | 0 <= i < |t.snake| ensures InBounds(w, h, t.snake[i]) && ColorAt(t.buffer, w, h, t.snake[i]) == Some(Snake) {
      assert t.snake[i] == g.snake[i + 1] != g.snake[0];
    }
    forall i, j | 0 <= i < j < |t.snake| ensures t.snake[i] != t.snake[j] {
      assert t.snake[i] == g.snake[i + 1] && t.snake[j] == g.snake[j + 1];
    }
  }

  /** Background (or any colour but Food and Snake) ahead: the snake moves. The head is
      pushed and painted Snake, the old tail popped and repainted Background; the length
      is unchanged and nothing else on the screen changes. */
  lemma StepOntoBackground(s: WorldState, w: nat, h: nat, skip: nat)
    requires Inv(s, w, h) && s.alive
    requires Occupant(s, w, h) != Food && Occupant(s, w, h) != Snake
    ensures var head, t := NextHead(s, w, h), Stepped(s, w, h, skip);
      && t.alive && t.direction == s.direction
      && t.snake == s.snake[1..] + [head] && |t.snake| == |s.snake|
      && ColorAt(t.buffer, w, h, head) == Some(Snake)
      && ColorAt(t.buffer, w, h, s.snake[0]) == Some(Background)
      && (forall c :: InBounds(w, h, c) && c != head && c != s.snake[0] ==>
            ColorAt(t.buffer, w, h, c) == ColorAt(s.buffer, w, h, c))
      && Inv(t, w, h)
  {
    var head := NextHead(s, w, h);
    OffSnake(s, w, h, head);
    var g := Extended(s, w, h, head);
    ExtendedCells(s, w, h, head);
    ExtendedBody(s, w, h, head);
    var t := Shortened(g, w, h);
    assert Stepped(s, w, h, skip) == t;
    ShortenedCells(g, w, h);
    ShortenedBody(g, w, h, t);
    assert t.snake == s.snake[1..] + [head];
  }

  /** Food ahead: the snake grows by one, and when some cell is Background after the head
      is painted, the cell `bg[skip % |bg|]` of the row-major list `bg` of those cells
      becomes Food and no other cell changes; when none is, the source panics. */
  lemma StepOntoFood(s: WorldState, w: nat, h: nat, skip: nat)
    requires Inv(s, w, h) && s.alive && Occupant(s, w, h) == Food
    ensures var head, t := NextHead(s, w, h), Stepped(s, w, h, skip);
      var g := Extended(s, w, h, head);
      && t.alive && t.direction == s.direction
      && t.snake == s.snake + [head] && |t.snake| == |s.snake| + 1
      && ColorAt(g.buffer, w, h, head) == Some(Snake)
      && (forall c :: InBounds(w, h, c) && c != head ==> ColorAt(g.buffer, w, h, c) == ColorAt(s.buffer, w, h, c))
      && Decodable(g.buffer, w, h)
      && var bg := BackgroundIn(PixelsOf(g.buffer, w, h));
      && (forall c :: c in bg <==> InBounds(w, h, c) && ColorAt(g.buffer, w, h, c) == Some(Background))
      && (forall i, j :: 0 <= i < j < |bg| ==> CellNumber(w, bg[i]) < CellNumber(w, bg[j]))
      && (FoodPanics(s, w, h, skip) <==> |bg| == 0)
      && (|bg| == 0 ==> t == g)
      && (|bg| > 0 ==>
            var f := bg[skip % |bg|];
            && InBounds(w, h, f)
            && ColorAt(g.buffer, w, h, f) == Some(Background)
            && ColorAt(t.buffer, w, h, f) == Some(Food)
            && forall c :: InBounds(w, h, c) && c != f ==> ColorAt(t.buffer, w, h, c) == ColorAt(g.buffer, w, h, c))
      && Inv(t, w, h)
  {
    var head := NextHead(s, w, h);
    OffSnake(s, w, h, head);
    var g := Extended(s, w, h, head);
    ExtendedCells(s, w, h, head);
    ExtendedBody(s, w, h, head);
    var t := Stepped(s, w, h, skip);
    assert t == WithFood(g, w, h, skip);
    var bg := BackgroundIn(PixelsOf(g.buffer, w, h));
    BackgroundCells(g.buffer, w, h);
    BackgroundRowMajor(g.buffer, w, h);
    if |bg| > 0 {
      CycleNthIsModulo(bg, skip);
      var f := bg[skip % |bg|];
      assert f in bg;
      assert FoodCell(g, w, h, skip) == Some(f);
      assert t.buffer == Paint(g.buffer, w, h, f, Food);
      PaintKeeps(g.buffer, w, h, f, Food);
      forall c | InBounds(w, h, c)
        ensures ColorAt(t.buffer, w, h, c) == if c == f then Some(Food) else ColorAt(g.buffer, w, h, c)
      {
        PaintAt(g.buffer, w, h, f, Food, c);
      }
      forall i | 0 <= i < |t.snake| ensures ColorAt(t.buffer, w, h, t.snake[i]) == Some(Snake) {
        assert t.snake[i] == g.snake[i];
      }
    }
  }

  /** Snake ahead: the game ends. The snake is not shortened, every border cell turns
      Fail and every interior cell keeps the colour it had once the head was painted. */
  lemma StepOntoSnake(s: WorldState, w: nat, h: nat, skip: nat)
    requires Inv(s, w, h) && s.alive && Occupant(s, w, h) == Snake
    ensures var head, t := NextHead(s, w, h), Stepped(s, w, h, skip);
      var g := Extended(s, w, h, head);
      && !t.alive && t.direction == s.direction
      && t.snake == s.snake + [head] && |t.snake| == |s.snake| + 1
      && (forall c :: InBounds(w, h, c) ==>
            ColorAt(g.buffer, w, h, c) == if c == head then Some(Snake) else ColorAt(s.buffer, w, h, c))
      && (forall c :: InBounds(w, h, c) ==>
            ColorAt(t.buffer, w, h, c) == if IsEdge(w, h, c) then Some(Fail) else ColorAt(g.buffer, w, h, c))
      && Inv(t, w, h)
  {
    var head := NextHead(s, w, h);
    var g := Extended(s, w, h, head);
    ExtendedCells(s, w, h, head);
    var t := Died(g, w, h);
    assert Stepped(s, w, h, skip) == t;
    CoordsOfInBounds(w, h);
    PaintAllPadded(g.buffer, w, h, EdgeCoords(w, h, CoordsOf(w, h)), Fail);
    forall c | InBounds(w, h, c)
      ensures ColorAt(t.buffer, w, h, c) == if IsEdge(w, h, c) then Some(Fail) else ColorAt(g.buffer, w, h, c)
    {
      PaintedEdgesAt(g.buffer, w, h, Fail, c);
    }
  }

  /** Moving into the cell the tail still occupies is a collision: the colour is read
      before the tail is popped. */
  lemma StepIntoTail(s: WorldState, w: nat, h: nat)
    requires Inv(s, w, h) && s.alive && NextHead(s, w, h) == s.snake[0]
    ensures Occupant(s, w, h) == Snake
  {
  }

  /** A dead world does not move. */
  lemma StepWhenDead(s: WorldState, w: nat, h: nat, skip: nat)
    requires Inv(s, w, h) && !s.alive
    ensures Stepped(s, w, h, skip) == s
  {
  }

  /** `tick` keeps the world's invariant, whatever the occupant of the next cell. */
  lemma StepPreservesInv(s: WorldState, w: nat, h: nat, skip: nat)
    requires Inv(s, w, h)
    ensures Inv(Stepped(s, w, h, skip), w, h)
  {
    if s.alive {
      match Occupant(s, w, h)
      case Food => StepOntoFood(s, w, h, skip);
      case Snake => StepOntoSnake(s, w, h, skip);
      case _ => StepOntoBackground(s, w, h, skip);
    }
  }

  /** Eating the only food and placing a new one leaves exactly one Food cell, the new one. */
  lemma OneFoodAfterEating(s: WorldState, w: nat, h: nat, skip: nat, f: Coord)
    requires Inv(s, w, h) && s.alive && OnlyFoodAt(s.buffer, w, h, f)
    requires Occupant(s, w, h) == Food && !FoodPanics(s, w, h, skip)
    ensures exists g :: OnlyFoodAt(Stepped(s, w, h, skip).buffer, w, h, g)
  {
    var head, t := NextHead(s, w, h), Stepped(s, w, h, skip);
    StepOntoFood(s, w, h, skip);
    var g := Extended(s, w, h, head);
    var bg := BackgroundIn(PixelsOf(g.buffer, w, h));
    var food := bg[skip % |bg|];
    assert head == f;
    forall c | InBounds(w, h, c) ensures ColorAt(t.buffer, w, h, c) == Some(Food) <==> c == food {
      if c != food && c != head {
        assert ColorAt(t.buffer, w, h, c) == ColorAt(g.buffer, w, h, c) == ColorAt(s.buffer, w, h, c);
      }
    }
    assert OnlyFoodAt(t.buffer, w, h, food);
  }

  /** Moving onto a cell that is neither Food nor Snake leaves the only food where it was. */
  lemma OneFoodAfterMoving(s: WorldState, w: nat, h: nat, skip: nat, f: Coord)
    requires Inv(s, w, h) && s.alive && OnlyFoodAt(s.buffer, w, h, f)
    requires Occupant(s, w, h) != Food && Occupant(s, w, h) != Snake
    ensures OnlyFoodAt(Stepped(s, w, h, skip).buffer, w, h, f)
  {
    var head, t := NextHead(s, w, h), Stepped(s, w, h, skip);
    StepOntoBackground(s, w, h, skip);
    var tail := s.snake[0];
    assert ColorAt(s.buffer, w, h, tail) == Some(Snake);
    forall c | InBounds(w, h, c) ensures ColorAt(t.buffer, w, h, c) == Some(Food) <==> c == f {
      if c != head && c != tail {
        assert ColorAt(t.buffer, w, h, c) == ColorAt(s.buffer, w, h, c);
      }
    }
  }

  /** A tick that does not panic keeps exactly one Food cell while the game goes on: the
      food eaten is replaced by one new food, and moving elsewhere leaves the food alone. */
  lemma OneFoodKept(s: WorldState, w: nat, h: nat, skip: nat, f: Coord)
    requires Inv(s, w, h) && s.alive && OnlyFoodAt(s.buffer, w, h, f)
    requires !FoodPanics(s, w, h, skip)
    ensures Stepped(s, w, h, skip).alive ==> exists g :: OnlyFoodAt(Stepped(s, w, h, skip).buffer, w, h, g)
  {
    match Occupant(s, w, h)
    case Food => OneFoodAfterEating(s, w, h, skip, f);
    case Snake => StepOntoSnake(s, w, h, skip);
    case _ => OneFoodAfterMoving(s, w, h, skip, f);
  }

  /** The screen right after a reset: the initial snake reads Snake, the initial food
      Food, and every other cell Background, whatever the buffer held before. */
  lemma InitialCells(buf: seq<Byte>, w: nat, h: nat, c: Coord)
    requires WorldDims(w, h) && Sized(buf, w, h) && InBounds(w, h, c)
    ensures ColorAt(ResetBuffer(buf, w, h), w, h, c) ==
      if c in InitialSnake(h) then Some(Snake)
      else if c == InitialFood(h) then Some(Food)
      else Some(Background)
  {
    var snake := InitialSnake(h);
    assert AllInBounds(w, h, snake);
    var cleared := Cleared(buf, w, h);
    var painted := PaintAll(cleared, w, h, snake, Snake);
    assert InitialFood(h) !in snake;
    ClearedAt(buf, w, h, c);
    PaintAllAt(cleared, w, h, snake, Snake, c);
    PaintAt(painted, w, h, InitialFood(h), Food, c);
  }

  /** The initial snake lies on row `h/2`, tail `(0, h/2)` first, head `(6, h/2)` last. */
  lemma InitialSnakeCells(h: nat)
    requires h <= I32_MAX
    ensures InitialSnake(h) == [Coord(0, h / 2), Coord(1, h / 2), Coord(2, h / 2), Coord(3, h / 2),
                                Coord(4, h / 2), Coord(5, h / 2), Coord(6, h / 2)]
  {
  }

  /** A reset leaves a padded buffer padded. */
  lemma ResetPadded(buf: seq<Byte>, w: nat, h: nat)
    requires WorldDims(w, h) && Sized(buf, w, h) && Padded(buf)
    ensures Padded(ResetBuffer(buf, w, h))
  {
    var snake := InitialSnake(h);
    assert AllInBounds(w, h, snake);
    CoordsOfInBounds(w, h);
    PaintAllPadded(buf, w, h, CoordsOf(w, h), Background);
    var cleared := Cleared(buf, w, h);
    PaintAllPadded(cleared, w, h, snake, Snake);
    PaintPadded(PaintAll(cleared, w, h, snake, Snake), w, h, InitialFood(h), Food);
  }

  /** After a reset the only Food cell is `(7, h/2 - 2)`. */
  lemma ResetOneFood(buf: seq<Byte>, w: nat, h: nat)
    requires WorldDims(w, h) && Sized(buf, w, h)
    ensures OnlyFoodAt(ResetBuffer(buf, w, h), w, h, InitialFood(h))
  {
    forall c | InBounds(w, h, c)
      ensures ColorAt(ResetBuffer(buf, w, h), w, h, c) == Some(Food) <==> c == InitialFood(h)
    {
      InitialCells(buf, w, h, c);
      if c == InitialFood(h) {
        assert c !in InitialSnake(h);
      }
    }
  }

  /** `reset_game` establishes the invariant, heading right and alive. */
  lemma ResetInv(buf: seq<Byte>, w: nat, h: nat)
    requires WorldDims(w, h) && Sized(buf, w, h) && Padded(buf)
    ensures var t := ResetState(buf, w, h);
      t.direction == Coord(1, 0) && t.alive && Inv(t, w, h)
  {
    var t := ResetState(buf, w, h);
    ResetPadded(buf, w, h);
    forall c | InBounds(w, h, c) ensures ColorAt(t.buffer, w, h, c).Some? {
      InitialCells(buf, w, h, c);
    }
    forall i | 0 <= i < |t.snake| ensures InBounds(w, h, t.snake[i]) && ColorAt(t.buffer, w, h, t.snake[i]) == Some(Snake) {
      assert t.snake[i] in InitialSnake(h);
      InitialCells(buf, w, h, t.snake[i]);
    }
  }

  /** What a reset leaves does not depend on the buffer it started from: `World::new`
      and `reset_game` produce the same state. */
  lemma ResetForgetsBuffer(buf: seq<Byte>, w: nat, h: nat)
    requires WorldDims(w, h) && Sized(buf, w, h) && Padded(buf)
    ensures ResetState(buf, w, h) == ResetState(Unpainted(w, h), w, h)
  {
    var a, b := ResetBuffer(buf, w, h), ResetBuffer(Unpainted(w, h), w, h);
    ResetInv(buf, w, h);
    ResetInv(Unpainted(w, h), w, h);
    forall c | InBounds(w, h, c) ensures ColorAt(a, w, h, c).Some? && ColorAt(a, w, h, c) == ColorAt(b, w, h, c) {
      InitialCells(buf, w, h, c);
      InitialCells(Unpainted(w, h), w, h, c);
    }
    SameCellsSameBuffer(a, b, w, h);
  }

  /** A click while alive turns the heading by 90 degrees and touches nothing else. */
  lemma ClickWhileAlive(s: WorldState, w: nat, h: nat, x: Int32, y: Int32)
    requires Inv(s, w, h) && s.alive
    ensures var t := Clicked(s, w, h, x, y);
      && t.alive && t.snake == s.snake && t.buffer == s.buffer
      && IsUnit(t.direction)
      && t.direction.x * s.direction.x + t.direction.y * s.direction.y == 0
      && (s.direction.x == 0 ==> t.direction == Coord(if x < Last(s.snake).x then -1 else 1, 0))
      && (s.direction.x != 0 ==> t.direction == Coord(0, if y < Last(s.snake).y then -1 else 1))
  {
  }

  /** A click while dead is a full reset, whatever its coordinates. */
  lemma ClickWhileDead(s: WorldState, w: nat, h: nat, x: Int32, y: Int32)
    requires Inv(s, w, h) && !s.alive
    ensures Clicked(s, w, h, x, y) == ResetState(Unpainted(w, h), w, h)
  {
    ResetForgetsBuffer(s.buffer, w, h);
  }

  /** `click` keeps the world's invariant. */
  lemma ClickPreservesInv(s: WorldState, w: nat, h: nat, x: Int32, y: Int32)
    requires Inv(s, w, h)
    ensures Inv(Clicked(s, w, h, x, y), w, h)
  {
    if !s.alive {
      ResetInv(s.buffer, w, h);
    }
  }
}

/** The game state machine as values: a `WorldState` is what `World` holds besides the
    fixed screen dimensions, and each function below is one of `World`'s operations
    applied to it. The class `Worlds.World` is proved to follow these functions; the
    lemmas here state what the operations promise. */
module WorldModel {
  import opened Options
  import opened Arith
  import opened Coords
  import opened Colors
  import opened Screens

  /** `START_LEN`: the length of a fresh snake. */
  const START_LEN: nat := 7

  datatype WorldState = WorldState(direction: Coord, snake: seq<Coord>, alive: bool, buffer: seq<Byte>)

  /** Dimensions for which the initial food at `(7, h / 2 - 2)` is on the grid and the
      buffer size fits a `u32`. */
  predicate WorldDims(w: nat, h: nat) {
    START_LEN < w && 4 <= h && ScreenDims(w, h)
  }

  lemma WorldDimsBound(w: nat, h: nat)
    requires WorldDims(w, h)
    ensures w < 0x1000_0000 && h < 0x1000_0000
  {
    MulMonotone(4, h, w);
    MulMonotone(START_LEN + 1, w, h);
  }

  /** A heading: one step along exactly one axis. */
  predicate IsUnit(d: Coord) {
    (d.x == 0 && (d.y == 1 || d.y == -1)) || (d.y == 0 && (d.x == 1 || d.x == -1))
  }

  function Abs(n: int): nat {
    if n < 0 then -n else n
  }

  /** Rust's `%` on `i32`, for the positive divisors used here: it truncates, so the
      remainder takes the dividend's sign. */
  function TruncRem(a: int, b: int): (r: int)
    requires b > 0
    ensures Abs(r) < b
    ensures a >= 0 ==> r == a % b
    ensures a < 0 ==> r <= 0
  {
    if a >= 0 then a % b else -((-a) % b)
  }

  /** The remainder differs from the dividend by a multiple of the divisor. */
  lemma TruncRemDivides(a: int, b: int)
    requires b > 0
    ensures (a - TruncRem(a, b)) % b == 0
  {
    if a < 0 {
      var q := (-a) / b;
      assert -a == q * b + (-a) % b;
      DivModUnique(a - TruncRem(a, b), b, -q, 0);
    } else {
      DivModUnique(a - TruncRem(a, b), b, a / b, 0);
    }
  }

  /** Adding the dimension before reducing maps -1 to n - 1 and n to 0. */
  lemma WrapStep(a: int, n: int)
    requires 0 < n && -1 <= a <= n
    ensures (a + n) % n == if a < 0 then n - 1 else if a >= n then 0 else a
  {
    if a >= 0 {
      DivModUnique(a + n, n, if a == n then 2 else 1, if a == n then 0 else a);
    } else {
      DivModUnique(a + n, n, 0, a + n);
    }
  }

  /** `get_new_head`: one step along the heading, wrapped onto the grid on both axes. */
  function NewHead(head: Coord, dir: Coord, w: nat, h: nat): (r: Coord)
    requires 0 < w < 0x4000_0000 && 0 < h < 0x4000_0000
    requires InBounds(w, h, head) && IsUnit(dir)
    ensures InBounds(w, h, r)
    ensures r.x == (head.x + dir.x + w) % w && r.y == (head.y + dir.y + h) % h
    ensures r.x == if head.x + dir.x < 0 then w - 1 else if head.x + dir.x >= w then 0 else head.x + dir.x
    ensures r.y == if head.y + dir.y < 0 then h - 1 else if head.y + dir.y >= h then 0 else head.y + dir.y
  {
    StepFits(head, dir);
    var moved := Add(head, dir);
    var x := TruncRem(moved.x + w, w);
    var y := TruncRem(moved.y + h, h);
    WrapStep(moved.x, w);
    WrapStep(moved.y, h);
    Coord(x, y)
  }

  /** The new heading after a click while alive: a vertical heading turns towards the
      click's side of the head horizontally, a horizontal one turns vertically. */
  function Turn(dir: Coord, head: Coord, x: Int32, y: Int32): (r: Coord)
    ensures IsUnit(r)
    ensures dir.x == 0 ==> r.y == 0 && (r.x == -1 <==> x < head.x)
    ensures dir.x != 0 ==> r.x == 0 && (r.y == -1 <==> y < head.y)
    ensures IsUnit(dir) ==> r.x * dir.x + r.y * dir.y == 0
  {
    if dir.x == 0 then Coord(if x < head.x then -1 else 1, 0)
    else Coord(0, if y < head.y then -1 else 1)
  }

  function Last<T>(s: seq<T>): T
    requires |s| > 0
  {
    s[|s| - 1]
  }

  /** Cell `f` is the one and only cell of the screen that reads Food. */
  ghost predicate OnlyFoodAt(buf: seq<Byte>, w: nat, h: nat, f: Coord) {
    && Sized(buf, w, h) && InBounds(w, h, f)
    && forall c :: InBounds(w, h, c) ==> (ColorAt(buf, w, h, c) == Some(Food) <==> c == f)
  }

  /** The object invariant of `World`: what every operation relies on and restores. */
  ghost predicate Inv(s: WorldState, w: nat, h: nat) {
    && WorldDims(w, h)
    && Sized(s.buffer, w, h) && Padded(s.buffer) && Decodable(s.buffer, w, h)
    && IsUnit(s.direction)
    && |s.snake| > 0
    && (forall i :: 0 <= i < |s.snake| ==> InBounds(w, h, s.snake[i]))
    && (s.alive ==> forall i :: 0 <= i < |s.snake| ==> ColorAt(s.buffer, w, h, s.snake[i]) == Some(Snake))
    && (s.alive ==> forall i, j :: 0 <= i < j < |s.snake| ==> s.snake[i] != s.snake[j])
  }

  /** `extend_head_to`: paint the cell Snake and push it on the back. */
  ghost function Extended(s: WorldState, w: nat, h: nat, c: Coord): (t: WorldState)
    requires Sized(s.buffer, w, h) && InBounds(w, h, c)
    ensures Sized(t.buffer, w, h)
  {
    s.(snake := s.snake + [c], buffer := Paint(s.buffer, w, h, c, Snake))
  }

  /** `shorten_tail`: pop the front and paint it Background. */
  ghost function Shortened(s: WorldState, w: nat, h: nat): (t: WorldState)
    requires Sized(s.buffer, w, h) && |s.snake| > 0 && InBounds(w, h, s.snake[0])
    ensures Sized(t.buffer, w, h)
  {
    s.(snake := s.snake[1..], buffer := Paint(s.buffer, w, h, s.snake[0], Background))
  }

  /** `die`: the game stops and the border turns Fail. */
  ghost function Died(s: WorldState, w: nat, h: nat): (t: WorldState)
    requires Sized(s.buffer, w, h) && ScreenDims(w, h)
    ensures Sized(t.buffer, w, h)
  {
    s.(alive := false, buffer := PaintedEdges(s.buffer, w, h, Fail))
  }

  /** The `filter` and `map` of `create_food`: the coordinates whose colour is Background, in order. */
  function BackgroundIn(pixels: seq<(Color, Coord)>): (bg: seq<Coord>)
    ensures |bg| <= |pixels|
    ensures forall c :: c in bg <==> (Background, c) in pixels
  {
    if pixels == [] then []
    else (if pixels[0].0 == Background then [pixels[0].1] else []) + BackgroundIn(pixels[1..])
  }

  /** The filter works element by element: filtering a concatenation concatenates the
      filtered parts, so the order of `pixels` is kept. */
  lemma {:induction false} BackgroundInAppend(p: seq<(Color, Coord)>, q: seq<(Color, Coord)>)
    ensures BackgroundIn(p + q) == BackgroundIn(p) + BackgroundIn(q)
    decreases |p|
  {
    if p == [] {
      assert p + q == q;
    } else {
      assert (p + q)[1..] == p[1..] + q;
      BackgroundInAppend(p[1..], q);
    }
  }

  /** One pixel is kept exactly when its colour is Background. */
  lemma BackgroundInSingle(px: (Color, Coord))
    ensures BackgroundIn([px]) == if px.0 == Background then [px.1] else []
  {
    assert [px][1..] == [];
  }

  /** Collected from `iter_pixels`, the Background cells come in row-major order: their
      cell numbers strictly increase. */
  lemma BackgroundRowMajor(buf: seq<Byte>, w: nat, h: nat)
    requires Sized(buf, w, h) && ScreenDims(w, h) && Decodable(buf, w, h)
    ensures var bg := BackgroundIn(PixelsOf(buf, w, h));
      forall i, j :: 0 <= i < j < |bg| ==> CellNumber(w, bg[i]) < CellNumber(w, bg[j])
  {
    var pixels := PixelsOf(buf, w, h);
    var key := (c: Coord) => CellNumber(w, c);
    forall k | 0 <= k < |pixels| ensures key(pixels[k].1) == k {
      CoordsOfAt(w, h, k);
    }
    IncreasingKept(key, pixels);
    var bg := BackgroundIn(pixels);
    assert forall i, j :: 0 <= i < j < |bg| ==> key(bg[i]) < key(bg[j]);
  }

  /** The keys of `cs` strictly increase along the list. */
  ghost predicate Increasing(key: Coord -> int, cs: seq<Coord>) {
    forall i, j :: 0 <= i < j < |cs| ==> key(cs[i]) < key(cs[j])
  }

  /** Putting a smaller key in front keeps an increasing list increasing. */
  lemma ConsIncreasing(key: Coord -> int, c: Coord, cs: seq<Coord>)
    requires Increasing(key, cs) && forall d :: d in cs ==> key(c) < key(d)
    ensures Increasing(key, [c] + cs)
  {
    var r := [c] + cs;
    forall i, j | 0 <= i < j < |r| ensures key(r[i]) < key(r[j]) {
      assert r[j] == cs[j - 1] && cs[j - 1] in cs;
      if i > 0 {
        assert r[i] == cs[i - 1];
      }
    }
  }

  /** Filtering a list whose keys strictly increase keeps them increasing. */
  lemma {:induction false} IncreasingKept(key: Coord -> int, p: seq<(Color, Coord)>)
    requires forall i, j :: 0 <= i < j < |p| ==> key(p[i].1) < key(p[j].1)
    ensures Increasing(key, BackgroundIn(p))
    decreases |p|
  {
    if p != [] {
      var rest := BackgroundIn(p[1..]);
      IncreasingKept(key, p[1..]);
      if p[0].0 == Background {
        forall d | d in rest ensures key(p[0].1) < key(d) {
          var k :| 0 <= k < |p[1..]| && p[1..][k] == (Background, d);
          assert p[k + 1].1 == d;
        }
        ConsIncreasing(key, p[0].1, rest);
        assert BackgroundIn(p) == [p[0].1] + rest;
      } else {
        assert BackgroundIn(p) == rest;
      }
    }
  }

  /** `into_iter().cycle().skip(n).next()`: the element `n` steps into the endless
      repetition of `xs`; `None` when `xs` is empty. */
  function CycleNth<T>(xs: seq<T>, n: nat): (r: Option<T>)
    ensures r.Some? <==> |xs| > 0
    ensures r.Some? ==> r.value in xs
    decreases n
  {
    if |xs| == 0 then None
    else if n < |xs| then Some(xs[n])
    else CycleNth(xs, n - |xs|)
  }

  /** Cycling and skipping picks the element at `n` modulo the length. */
  lemma {:induction false} CycleNthIsModulo<T>(xs: seq<T>, n: nat)
    requires |xs| > 0
    ensures CycleNth(xs, n) == Some(xs[n % |xs|])
    decreases n
  {
    if n >= |xs| {
      CycleNthIsModulo(xs, n - |xs|);
      DivModUnique(n, |xs|, (n - |xs|) / |xs| + 1, (n - |xs|) % |xs|);
    } else {
      DivModUnique(n, |xs|, 0, n);
    }
  }

  /** The Background coordinates `create_food` collects are exactly the Background cells. */
  lemma BackgroundCells(buf: seq<Byte>, w: nat, h: nat)
    requires Sized(buf, w, h) && ScreenDims(w, h) && Decodable(buf, w, h)
    ensures forall c :: c in BackgroundIn(PixelsOf(buf, w, h)) <==> InBounds(w, h, c) && ColorAt(buf, w, h, c) == Some(Background)
  {
    var pixels := PixelsOf(buf, w, h);
    forall c ensures c in BackgroundIn(pixels) <==> InBounds(w, h, c) && ColorAt(buf, w, h, c) == Some(Background) {
      if (Background, c) in pixels {
        var i :| 0 <= i < |pixels| && pixels[i] == (Background, c);
        assert InBounds(w, h, pixels[i].1);
      }
      if InBounds(w, h, c) && ColorAt(buf, w, h, c) == Some(Background) {
        CoordsOfIndex(w, h, c);
        assert pixels[CellNumber(w, c)] == (Background, c);
      }
    }
  }

  /** `create_food`'s choice of cell: `None` when no cell is Background (the source panics). */
  ghost function FoodCell(s: WorldState, w: nat, h: nat, skip: nat): (r: Option<Coord>)
    requires Sized(s.buffer, w, h) && ScreenDims(w, h) && Decodable(s.buffer, w, h)
    ensures r.Some? ==> InBounds(w, h, r.value) && ColorAt(s.buffer, w, h, r.value) == Some(Background)
  {
    BackgroundCells(s.buffer, w, h);
    CycleNth(BackgroundIn(PixelsOf(s.buffer, w, h)), skip)
  }

  /** `create_food`: paint the chosen Background cell Food. */
  ghost function WithFood(s: WorldState, w: nat, h: nat, skip: nat): (t: WorldState)
    requires Sized(s.buffer, w, h) && ScreenDims(w, h) && Decodable(s.buffer, w, h)
    ensures Sized(t.buffer, w, h)
  {
    match FoodCell(s, w, h, skip)
    case None => s
    case Some(c) => s.(buffer := Paint(s.buffer, w, h, c, Food))
  }

  /** The cell the head moves to on the next tick. */
  ghost function NextHead(s: WorldState, w: nat, h: nat): (c: Coord)
    requires Inv(s, w, h)
    ensures InBounds(w, h, c)
  {
    WorldDimsBound(w, h);
    NewHead(Last(s.snake), s.direction, w, h)
  }

  /** The colour `tick` reads at the new head before anything is painted. */
  ghost function Occupant(s: WorldState, w: nat, h: nat): (k: Color)
    requires Inv(s, w, h)
    ensures ColorAt(s.buffer, w, h, NextHead(s, w, h)) == Some(k)
  {
    ColorAt(s.buffer, w, h, NextHead(s, w, h)).value
  }

  /** `tick`. */
  ghost function Stepped(s: WorldState, w: nat, h: nat, skip: nat): (t: WorldState)
    requires Inv(s, w, h)
    ensures !s.alive ==> t == s
    ensures t.direction == s.direction
    ensures s.alive ==> (t.alive <==> Occupant(s, w, h) != Snake)
    ensures s.alive ==> |t.snake| > 0 && Last(t.snake) == NextHead(s, w, h)
    ensures s.alive ==>
      |t.snake| == |s.snake| + (if Occupant(s, w, h) == Food || Occupant(s, w, h) == Snake then 1 else 0)
  {
    if !s.alive then s
    else
      var head := NextHead(s, w, h);
      var grown := Extended(s, w, h, head);
      PaintDecodable(s.buffer, w, h, head, Snake);
      match Occupant(s, w, h)
      case Food => WithFood(grown, w, h, skip)
      case Snake => Died(grown, w, h)
      case _ => Shortened(grown, w, h)
  }

  /** The tick on which the source panics: the head eats food and no Background cell is left. */
  ghost predicate FoodPanics(s: WorldState, w: nat, h: nat, skip: nat)
    requires Inv(s, w, h)
    ensures FoodPanics(s, w, h, skip) <==>
      && s.alive && Occupant(s, w, h) == Food
      && forall c :: InBounds(w, h, c) ==>
           ColorAt(Extended(s, w, h, NextHead(s, w, h)).buffer, w, h, c) != Some(Background)
  {
    s.alive && Occupant(s, w, h) == Food &&
    var grown := Extended(s, w, h, NextHead(s, w, h));
    PaintDecodable(s.buffer, w, h, NextHead(s, w, h), Snake);
    BackgroundCells(grown.buffer, w, h);
    FoodCell(grown, w, h, skip).None?
  }

  /** The cells of the initial snake, `(0, h/2)` to `(6, h/2)`, tail first. */
  function InitialSnake(h: nat): (r: seq<Coord>)
    requires h <= I32_MAX
    ensures |r| == START_LEN
  {
    seq(START_LEN, i requires 0 <= i < START_LEN => Coord(i, h / 2))
  }

  /** The initial food cell `(7, h/2 - 2)`. */
  function InitialFood(h: nat): (c: Coord)
    requires 4 <= h <= I32_MAX
    ensures c.x == START_LEN && 0 <= c.y < h / 2
  {
    Coord(START_LEN, h / 2 - 2)
  }

  /** `clear`, `create_initial_snake` and `create_initial_food`, in that order. */
  ghost function ResetBuffer(buf: seq<Byte>, w: nat, h: nat): (r: seq<Byte>)
    requires WorldDims(w, h) && Sized(buf, w, h)
    ensures Sized(r, w, h)
  {
    assert AllInBounds(w, h, InitialSnake(h));
    Paint(PaintAll(Cleared(buf, w, h), w, h, InitialSnake(h), Snake), w, h, InitialFood(h), Food)
  }

  /** `reset_game` (and `World::new` after allocating the screen). */
  ghost function ResetState(buf: seq<Byte>, w: nat, h: nat): (t: WorldState)
    requires WorldDims(w, h) && Sized(buf, w, h)
    ensures t.direction == Coord(1, 0) && t.alive && t.snake == InitialSnake(h)
    ensures Sized(t.buffer, w, h)
  {
    WorldState(Coord(1, 0), InitialSnake(h), true, ResetBuffer(buf, w, h))
  }

  /** `click`. */
  ghost function Clicked(s: WorldState, w: nat, h: nat, x: Int32, y: Int32): (t: WorldState)
    requires Inv(s, w, h)
    ensures t.alive && IsUnit(t.direction)
    ensures s.alive ==> t.snake == s.snake && t.buffer == s.buffer
    ensures !s.alive ==> t.direction == Coord(1, 0) && t.snake == InitialSnake(h)
  {
    if s.alive then s.(direction := Turn(s.direction, Last(s.snake), x, y))
    else ResetState(s.buffer, w, h)
  }
}

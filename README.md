# Snake game simulation, modelled in Dafny

This project models the simulation engine of a WebAssembly snake game.

- **Screen.** The game keeps a row-major RGBA pixel buffer of `width * height * 4` bytes. Every write goes through the index `(y * width + x) * 4` and touches three colour bytes. The fourth byte keeps its initial 255.
- **Colours.** Four colours are stored as RGB triples: Background black, Snake green, Food blue, Fail red. Reading any other triple is an error.
- **World.** The world holds a heading, a snake body (a double-ended queue, tail at the front, head at the back) and an alive flag.
- **Tick.** A `tick` works out the next head cell, wrapping around the edges. It reads the colour there before changing anything, then always paints and pushes the new head. What happens next depends on the colour it read:
  - Food: the snake grows and new food is placed on a Background cell chosen by a random skip.
  - Snake: the game ends and the border turns red.
  - Anything else: the tail is popped and repainted Background.
- **Click.** A click while alive turns the heading by 90 degrees. A click while dead resets the game.
- **Game.** The driver `Game` owns a 30 by 30 world. It adds up elapsed milliseconds and steps the world once the total reaches 75.

The model has three layers.

- **Pure functions on values.**
  - `Coords`, `Colors` and the first half of `Screens` model coordinates, colours and the byte buffer as `seq<Byte>`.
  - `WorldModel` models each world operation as a function on a `WorldState` value: `Stepped`, `Clicked`, `ResetState`, and the helpers `Extended`, `Shortened`, `Died` and `WithFood`.
- **Properties of those functions** (`WorldProperties`).
  - What each branch of `tick` does.
  - That `tick` and `click` preserve the world invariant `Inv`: the buffer is sized, padded and decodable; the heading is a unit step; and while alive the snake is non-empty, in bounds, painted Snake and free of repeats.
  - That a reset leaves exactly one Food cell, and that a tick which neither panics nor ends the game keeps exactly one.
  - That a reset does not depend on the buffer it starts from.
- **Classes that update state in place.**
  - `Screens.Screen` holds an `array<Byte>`; `Worlds.World` and `Games.Game` hold mutable fields.
  - Each method's postcondition says the new state equals the matching pure function applied to the old state, for example `pixelBuffer[..] == Paint(old(pixelBuffer[..]), ...)` or `State() == Stepped(old(State()), ...)`.
  - The properties proved about the functions therefore carry over to the methods.

Panics in the source are modelled explicitly:
- Decoding an unknown triple gives `None`.
- `create_food` finding no Background cell gives `ok == false` from `CreateFood`, `World.Tick` and `Game.Tick`. In that case the state is the one reached after the head was painted.
- The `expect` on the snake being non-empty never fires, because the world invariant keeps the snake non-empty.

## Model

| member | source | states |
|---|---|---|
| Coords.New | src/world/coord.rs:14-16 | the coordinate's fields are the arguments, unchanged |
| Coords.FromPair | src/world/coord.rs:33-37 | conversion from a pair keeps both fields and agrees with `Coord::new` |
| Coords.Add | src/world/coord.rs:24-29 | the sum is component-wise, and is defined only when both `i32` sums fit |
| Coords.AddCommutative | src/world/coord.rs:26-27 | addition is commutative, and when it fits one way it fits the other |
| Coords.AddIdentity | src/world/coord.rs:26-27 | `(0, 0)` is a left and right identity and never overflows |
| Coords.StepFits | src/world/coord.rs:26-27 | a non-negative point below `i32::MAX` plus a step in -1..1 never overflows and moves each component by at most one |
| Colors.ToRgb | src/world/color.rs:14-23 | every colour has a triple, and decoding that triple gives the colour back |
| Colors.FromRgb | src/world/color.rs:26-35 | decoding succeeds exactly on the four triples [0,0,0], [0,255,0], [0,0,255] and [255,0,0] |
| Colors.FromRgbInverse | src/world/color.rs:14-35 | `from_rgb(t) == c` if and only if `to_rgb(c) == t`, so the two conversions are mutually inverse on the four triples |
| Colors.ToRgbInjective | src/world/color.rs:17-20 | distinct colours have distinct triples |
| Colors.FromRgbFailsElsewhere | src/world/color.rs:33 | decoding fails exactly on the triples that are no colour's encoding |
| Colors.WhiteIsNoColor | src/world/color.rs:33 | the triple [255,255,255] decodes to nothing |
| Screens.Unpainted | src/world/screen.rs:26 | the initial buffer has `w * h * 4` bytes, every one 255, so it is padded |
| Screens.CellNumberInRange | src/world/screen.rs:65-67 | an in-bounds cell's number `y * w + x` lies in `[0, w * h)` and yields back `y` as the quotient and `x` as the remainder by `w` |
| Screens.IndexInRange | src/world/screen.rs:65-67 | an in-bounds cell's index is a multiple of 4 with room for the whole pixel in the buffer |
| Screens.IndexDisjoint | src/world/screen.rs:65-67 | distinct in-bounds cells have pixel ranges that do not overlap |
| Screens.RgbAt | src/world/screen.rs:57-61 | the three bytes read for a cell are `buf[i..i+3]` at its index `i`, which lies inside the buffer |
| Screens.ColorAt | src/world/screen.rs:54-63 | a cell reads colour `k` exactly when its three bytes are `to_rgb(k)` |
| Screens.Paint | src/world/screen.rs:36-41 | painting sets the cell's three bytes to `to_rgb(k)` and leaves every other byte, including the padding byte, unchanged |
| Screens.UnpaintedUndecodable | src/world/screen.rs:26 | every cell of a fresh screen reads as no colour |
| Screens.PaintAt | src/world/screen.rs:36-63 | after painting `c` with `k`, `c` reads `k` and every other in-bounds cell reads as before |
| Screens.PaintPadded | src/world/screen.rs:40 | painting keeps every fourth byte at 255 |
| Screens.PaintDecodable | src/world/screen.rs:36-41 | painting keeps every cell decodable |
| Screens.PaintAll | src/world/screen.rs:31-33 | painting a list of cells one after another keeps the buffer size |
| Screens.PaintAllAt | src/world/screen.rs:31-33 | after painting a list of cells with `k`, listed cells read `k` and the others read as before |
| Screens.PaintAllPadded | src/world/screen.rs:31-33 | painting a list of cells keeps the padding |
| Screens.PaintAllDecodable | src/world/screen.rs:31-33 | painting a list of cells keeps every cell decodable |
| Screens.Row | src/world/screen.rs:73 | one row of the enumeration has `w` coordinates |
| Screens.CoordsOf | src/world/screen.rs:69-74 | the enumeration has `w * h` coordinates, all in bounds |
| Screens.CoordsOfAt | src/world/screen.rs:69-74 | the `k`-th coordinate is `(k % w, k / w)` |
| Screens.CoordsOfRowMajor | src/world/screen.rs:69-74 | all coordinates at once: the `k`-th is `(k % w, k / w)` |
| Screens.CoordsOfIndex | src/world/screen.rs:69-74 | cell `c` sits at position `y * w + x` of the enumeration |
| Screens.CoordsOfInBounds | src/world/screen.rs:69-74 | every enumerated coordinate is in bounds |
| Screens.CoordsOfExactly | src/world/screen.rs:69-74 | the enumeration lists each in-bounds cell exactly once and nothing else |
| Screens.Cleared | src/world/screen.rs:30-34 | clearing keeps the buffer size |
| Screens.ClearedAt | src/world/screen.rs:30-34 | after clearing, every cell reads Background, whatever the buffer held |
| Screens.EdgeCoords | src/world/screen.rs:47-50 | the border filter keeps exactly the enumerated cells with `x == 0`, `y == 0`, `x == w - 1` or `y == h - 1` |
| Screens.EdgeCoordsStep | src/world/screen.rs:47-50 | filtering one more coordinate appends it exactly when it is on the border |
| Screens.PaintAllSnoc | src/world/screen.rs:51 | painting a list with one more cell is painting the list and then that cell |
| Screens.PaintedEdges | src/world/screen.rs:43-52 | painting the border keeps the buffer size |
| Screens.PaintedEdgesAt | src/world/screen.rs:43-52 | after painting the border with `k`, border cells read `k` and interior cells read as before |
| Screens.PixelsOf | src/world/screen.rs:76-79 | the `k`-th pixel is the `k`-th enumerated coordinate paired with the colour read there |
| Screens.SameCellsSameBuffer | src/world/screen.rs:11 | two padded buffers whose cells all read the same colour are equal byte for byte |
| Screens.Screen.constructor | src/world/screen.rs:19-28 | `pixel_count == w * h`, and the buffer has `w * h * 4` bytes, every one 255 |
| Screens.Screen.GetBufferIndexFor | src/world/screen.rs:65-67 | an in-bounds cell's index `(y * w + x) * 4` is a multiple of 4 with `i + 3` inside the buffer |
| Screens.Screen.GetColorAt | src/world/screen.rs:54-63 | the cell reads `k` exactly when bytes `i`, `i+1`, `i+2` are `to_rgb(k)` |
| Screens.Screen.IterCoords | src/world/screen.rs:69-74 | `pixel_count` coordinates in row-major order, the `k`-th being `(k % w, k / w)` |
| Screens.Screen.IterPixels | src/world/screen.rs:76-79 | each enumerated coordinate paired with `get_color_at` there |
| Screens.Screen.SetColorAt | src/world/screen.rs:36-41 | the buffer becomes `Paint` of the old one: the cell now reads `color`, every other cell reads as before, and the padding stays 255 |
| Screens.Screen.Clear | src/world/screen.rs:30-34 | afterwards every cell reads Background |
| Screens.Screen.SetColorAtEdges | src/world/screen.rs:43-52 | border cells now read `color` and interior cells read as before |
| WorldModel.WorldDimsBound | src/world/screen.rs:20-21 | dimensions whose buffer size fits a `u32` are each below 2^28 |
| WorldModel.TruncRem | src/world.rs:114-115 | Rust's `%`: the remainder is smaller than the divisor in magnitude, equals the mathematical remainder for a non-negative dividend, and is not positive for a negative one |
| WorldModel.TruncRemDivides | src/world.rs:114-115 | the dividend minus the remainder is a multiple of the divisor; with the sign and magnitude facts of `TruncRem` this fixes Rust's `%` exactly |
| WorldModel.WrapStep | src/world.rs:114-115 | `(a + n) % n` maps -1 to `n - 1`, `n` to 0 and leaves `0..n-1` unchanged |
| WorldModel.NewHead | src/world.rs:110-117 | the new head is in bounds and equals `((hx + dx + w) % w, (hy + dy + h) % h)`: -1 wraps to the far edge and `w` or `h` wraps to 0 |
| WorldModel.Turn | src/world.rs:70-75 | the result is a unit step perpendicular to a unit heading; from a vertical heading it points left exactly when the click is left of the head, from a horizontal heading it points up exactly when the click is above the head |
| WorldModel.Extended | src/world.rs:120-123 | extending the snake keeps the buffer size |
| WorldModel.Shortened | src/world.rs:126-129 | shortening the snake keeps the buffer size |
| WorldModel.Died | src/world.rs:152-155 | dying keeps the buffer size |
| WorldModel.BackgroundIn | src/world.rs:138-141 | the filter and map keep exactly the coordinates paired with Background |
| WorldModel.BackgroundInAppend | src/world.rs:138-141 | filtering a concatenation concatenates the filtered parts, so the filter keeps the order of the pixels |
| WorldModel.BackgroundInSingle | src/world.rs:139-140 | a single pixel is kept, as its coordinate, exactly when its colour is Background |
| WorldModel.ConsIncreasing | src/world.rs:138-141 | a smaller key put in front of an increasing list keeps it increasing |
| WorldModel.IncreasingKept | src/world.rs:138-141 | filtering a list whose keys strictly increase keeps them strictly increasing |
| WorldModel.BackgroundRowMajor | src/world.rs:136-141 | the Background coordinates collected from `iter_pixels` come in row-major order: their cell numbers `y * w + x` strictly increase |
| WorldModel.CycleNth | src/world.rs:142-145 | cycling and skipping yields an element of the list, and fails exactly when the list is empty |
| WorldModel.CycleNthIsModulo | src/world.rs:142-145 | skipping `n` into the cycle picks the element at `n` modulo the length of the list |
| WorldModel.BackgroundCells | src/world.rs:136-141 | the collected coordinates are exactly the in-bounds cells that read Background |
| WorldModel.FoodCell | src/world.rs:132-146 | the chosen food cell is in bounds and reads Background |
| WorldModel.WithFood | src/world.rs:132-149 | placing food keeps the buffer size |
| WorldModel.NextHead | src/world.rs:48 | the next head is in bounds |
| WorldModel.Occupant | src/world.rs:50 | the colour `tick` reads at the next head before painting anything; that read succeeds |
| WorldModel.InitialSnake | src/world.rs:94-100 | the initial snake has `START_LEN` cells |
| WorldModel.ResetBuffer | src/world.rs:88-90 | the buffer after a reset keeps its size |
| WorldModel.InitialFood | src/world.rs:104-106 | the initial food is in column `START_LEN` and on a row strictly above the snake's row `h/2`; `WorldProperties.ResetOneFood` shows it is the only Food cell after a reset |
| WorldModel.ResetState | src/world.rs:84-91 | heading `(1, 0)`, alive, the initial snake; its cells are given by `WorldProperties.InitialCells` and its invariant by `WorldProperties.ResetInv` |
| WorldModel.Stepped | src/world.rs:45-62 | a dead world is unchanged; the heading never changes; the snake stays alive exactly when the occupant is not Snake; the last body cell is the next head; the length grows by one on Food or Snake and is kept otherwise. The branch lemmas `WorldProperties.StepOnto*` give the screen |
| WorldModel.FoodPanics | src/world.rs:146 | the tick panics exactly when alive, the occupant is Food, and no cell reads Background once the head is painted |
| WorldModel.Clicked | src/world.rs:65-81 | the result is alive with a unit heading; while alive the snake and screen are kept; while dead the heading is `(1, 0)` and the snake is the initial one. `WorldProperties.ClickWhileAlive` and `ClickWhileDead` give the exact result |
| WorldProperties.ExtendedCells | src/world.rs:120-123 | after `extend_head_to`, the head reads Snake, the rest of the screen reads as before, and the body is the old body plus the head |
| WorldProperties.ExtendedBody | src/world.rs:120-123 | pushing a cell the snake does not occupy keeps the body painted Snake and free of repeats |
| WorldProperties.ShortenedCells | src/world.rs:126-129 | after `shorten_tail`, the old tail reads Background, the rest reads as before, and the body loses its front |
| WorldProperties.ShortenedBody | src/world.rs:126-129 | popping the tail keeps the remaining body in bounds, painted Snake and free of repeats |
| WorldProperties.StepOntoBackground | src/world.rs:45-62 | with any occupant but Food or Snake: still alive, the body becomes `old[1..] + [head]` of the same length, the head reads Snake, the old tail reads Background, every other cell is unchanged, and the invariant holds |
| WorldProperties.StepOntoFood | src/world.rs:45-62 | with a Food occupant: the body grows by exactly the head. The list `bg` holds exactly the cells that read Background once the head is painted, in row-major order. If it is non-empty, the cell at `skip` modulo its length was Background and now reads Food, and no other cell changes. The step panics exactly when `bg` is empty. The invariant holds |
| WorldProperties.StepOntoSnake | src/world.rs:45-62 | with a Snake occupant: the game ends, the body grows by the head (it is not shortened), every border cell reads Fail, every interior cell keeps its colour after the head was painted, and the invariant holds |
| WorldProperties.StepIntoTail | src/world.rs:50 | moving onto the current tail cell counts as hitting the snake, because the colour is read before the tail is popped |
| WorldProperties.StepWhenDead | src/world.rs:45-46 | a tick while dead changes nothing |
| WorldProperties.StepPreservesInv | src/world.rs:45-62 | every tick keeps the world invariant |
| WorldProperties.OneFoodAfterEating | src/world.rs:57 | eating the only food and placing a new one leaves exactly one Food cell |
| WorldProperties.OneFoodAfterMoving | src/world.rs:59 | moving onto a cell that is neither Food nor Snake leaves the only Food cell where it was |
| WorldProperties.OneFoodKept | src/world.rs:45-62 | a tick that does not panic and leaves the snake alive keeps exactly one Food cell on the screen |
| WorldProperties.InitialCells | src/world.rs:84-107 | after a reset, the initial snake cells read Snake, `(7, h/2 - 2)` reads Food and every other cell reads Background |
| WorldProperties.InitialSnakeCells | src/world.rs:94-100 | the initial snake is `(0, h/2), ..., (6, h/2)`, tail first |
| WorldProperties.ResetOneFood | src/world.rs:103-107 | after a reset, `(7, h/2 - 2)` is the one and only cell that reads Food |
| WorldProperties.ResetPadded | src/world.rs:88-90 | a reset keeps the padding |
| WorldProperties.ResetInv | src/world.rs:84-91 | a reset sets the heading to `(1, 0)`, makes the snake alive and establishes the invariant |
| WorldProperties.ResetForgetsBuffer | src/world.rs:29-42 | resetting from any padded buffer gives the same state as `World::new`, which starts from a fresh buffer |
| WorldProperties.ClickWhileAlive | src/world.rs:65-76 | a click while alive gives `(x < head.x ? -1 : 1, 0)` from a vertical heading and `(0, y < head.y ? -1 : 1)` from a horizontal one; the new heading is a perpendicular unit step, and the snake and screen are unchanged |
| WorldProperties.ClickWhileDead | src/world.rs:77-80 | a click while dead is a full reset, whatever its coordinates |
| WorldProperties.ClickPreservesInv | src/world.rs:65-81 | every click keeps the world invariant |
| Worlds.World.constructor | src/world.rs:29-42 | the new world is the reset state over a fresh `w` by `h` screen, and satisfies the invariant |
| Worlds.World.Tick | src/world.rs:45-62 | the new state is `Stepped` of the old one, the invariant is kept, and `ok` is false exactly on the step where food cannot be placed |
| Worlds.World.Click | src/world.rs:65-81 | the new state is `Clicked` of the old one, and the invariant is kept |
| Worlds.World.ResetGame | src/world.rs:84-91 | the new state is the reset state of the old buffer, and the invariant holds |
| Worlds.World.CreateInitialSnake | src/world.rs:94-100 | the loop pushes the initial snake onto the body and paints exactly those cells Snake |
| Worlds.World.CreateInitialFood | src/world.rs:103-107 | cell `(7, h/2 - 2)` is painted Food |
| Worlds.World.GetNewHead | src/world.rs:110-117 | the computed head is in bounds and is the model's next head |
| Worlds.World.ExtendHeadTo | src/world.rs:120-123 | the head is pushed on the back and its cell is painted Snake |
| Worlds.World.ShortenTail | src/world.rs:126-129 | the front is popped and its cell is painted Background |
| Worlds.World.CreateFood | src/world.rs:132-149 | the chosen Background cell is painted Food; `ok` is false, with nothing changed, exactly when there is no Background cell |
| Worlds.World.Die | src/world.rs:152-155 | the world is no longer alive and the border is painted Fail; the body and heading are unchanged |
| Games.Game.constructor | src/lib.rs:22-27 | a 30 by 30 world in its reset state, with nothing accumulated |
| Games.Game.Tick | src/lib.rs:30-38 | below 75 accumulated, the sum is stored and the world is unchanged. From 75 on, the accumulator becomes 0 and the world steps exactly once. The accumulator is always below 75 afterwards |
| Games.Game.Width | src/lib.rs:56-58 | the screen width |
| Games.Game.Height | src/lib.rs:61-63 | the screen height |
| Games.Game.Click | src/lib.rs:66-68 | the click reaches the world unchanged and the accumulator is untouched |

## Left out

- `Game::render` (src/lib.rs:41-53) is not part of this model. It hands the buffer to the browser's canvas through foreign calls.
- index.js is not part of this model. It covers the host's event loop, clock and floating-point scaling of click coordinates.
- The random number generator of `create_food` is not modelled. The random skip is a parameter `skip` with `skip < pixel_count`, passed to `Worlds.World.Tick`, `Worlds.World.CreateFood` and `Games.Game.Tick`.
- Rust iterator laziness in `iter_coords`, `iter_pixels` and the `cycle().skip().next()` chain is not modelled. These become sequences and the function `CycleNth`.
- Panics do not stop the model. A failed `from_rgb` is `None`. A failed food placement returns `ok == false` and leaves the state after the head was painted, where the source aborts.
- Screens.ScreenDims: `width * height * 4` must fit a `u32` and each dimension an `i32`. It is a precondition, not wrap-around arithmetic, because the game only uses 30 by 30.
- Coords.Add: `i32` overflow (a panic in a debug build, wrap-around in a release build) is excluded by the precondition `AddFits`. The one caller, `get_new_head`, never overflows (`Coords.StepFits`).
- WorldModel.TruncRem: models Rust's truncating `%` only for positive divisors, the only kind the source uses.
- Worlds.World.constructor: requires `width > 7` and `height >= 4`. The source writes the initial snake and food without bounds checks and only ever builds a 30 by 30 world.
- Screens.Screen.SetColorAt, Screens.Screen.GetColorAt, Screens.Screen.GetBufferIndexFor, Screens.ColorAt, Screens.RgbAt, Screens.Paint: require an in-bounds coordinate. The source (src/world/screen.rs:36-41, 54-67) does not check; every caller passes a wrapped or enumerated coordinate, and an out-of-range one would index the wrong cell or panic on the slice.
- Games.Game.Tick: requires `elapsed_milliseconds + delta` to fit a `u32`, instead of modelling the overflow of `+=`.

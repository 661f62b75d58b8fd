/** The pixel canvas: a row-major RGBA byte buffer, 4 bytes per cell, of which the
    first 3 carry the colour and the fourth keeps its initial 255. */
module Screens {
  import opened Options
  import opened Arith
  import opened Coords
  import opened Colors

  const BYTES_PER_PIXEL: nat := 4
  const U32_MAX: int := 0xFFFF_FFFF

  /** Dimensions for which `width * height * 4` does not overflow a `u32` and
      `width as i32`, `height as i32` are exact. */
  predicate ScreenDims(w: nat, h: nat) {
    w * h * BYTES_PER_PIXEL <= U32_MAX && w <= I32_MAX && h <= I32_MAX
  }

  predicate InBounds(w: nat, h: nat, c: Coord) {
    0 <= c.x < w && 0 <= c.y < h
  }

  predicate AllInBounds(w: nat, h: nat, cs: seq<Coord>) {
    forall c :: c in cs ==> InBounds(w, h, c)
  }

  /** A cell on the outer border, as `set_color_at_edges` filters them. */
  predicate IsEdge(w: nat, h: nat, c: Coord) {
    c.x == 0 || c.y == 0 || c.x == w - 1 || c.y == h - 1
  }

  /** A buffer of the length `Screen::new` allocates. */
  predicate Sized(buf: seq<Byte>, w: nat, h: nat) {
    |buf| == w * h * BYTES_PER_PIXEL
  }

  /** Every fourth byte still holds the 255 it was allocated with. */
  ghost predicate Padded(buf: seq<Byte>) {
    forall j :: 0 <= j < |buf| && j % BYTES_PER_PIXEL == 3 ==> buf[j] == 255
  }

  /** The buffer `Screen::new` allocates: `w * h * 4` bytes, all 255. */
  function Unpainted(w: nat, h: nat): (buf: seq<Byte>)
    ensures Sized(buf, w, h) && Padded(buf)
    ensures forall j :: 0 <= j < |buf| ==> buf[j] == 255
  {
    seq(w * h * BYTES_PER_PIXEL, _ => 255)
  }

  /** The row-major cell number of a coordinate. */
  function CellNumber(w: nat, c: Coord): int {
    c.y * w + c.x
  }

  /** `get_buffer_index_for`: `(y * width + x) * 4`. */
  function BufferIndex(w: nat, c: Coord): int {
    CellNumber(w, c) * BYTES_PER_PIXEL
  }

  /** An in-bounds cell's number is below `w * h` and determines the cell. */
  lemma CellNumberInRange(w: nat, h: nat, c: Coord)
    requires InBounds(w, h, c)
    ensures 0 <= CellNumber(w, c) < w * h
    ensures CellNumber(w, c) / w == c.y && CellNumber(w, c) % w == c.x
  {
    MulMonotone(c.y, h - 1, w);
    MulNonNegative(c.y, w);
    assert (h - 1) * w == w * h - w;
    DivModUnique(CellNumber(w, c), w, c.y, c.x);
  }

  /** For a cell on the grid, all 4 bytes of its pixel lie inside the buffer. */
  lemma IndexInRange(w: nat, h: nat, c: Coord)
    requires InBounds(w, h, c)
    ensures 0 <= BufferIndex(w, c) && BufferIndex(w, c) + BYTES_PER_PIXEL <= w * h * BYTES_PER_PIXEL
    ensures BufferIndex(w, c) % BYTES_PER_PIXEL == 0
  {
    CellNumberInRange(w, h, c);
    MulMonotone(CellNumber(w, c) + 1, w * h, BYTES_PER_PIXEL);
  }

  /** Distinct cells on the grid own disjoint 4-byte pixels. */
  lemma IndexDisjoint(w: nat, h: nat, c: Coord, d: Coord)
    requires InBounds(w, h, c) && InBounds(w, h, d) && c != d
    ensures BufferIndex(w, c) + BYTES_PER_PIXEL <= BufferIndex(w, d)
         || BufferIndex(w, d) + BYTES_PER_PIXEL <= BufferIndex(w, c)
  {
    CellNumberInRange(w, h, c);
    CellNumberInRange(w, h, d);
  }

  /** The 3 colour bytes of a cell. */
  function RgbAt(buf: seq<Byte>, w: nat, h: nat, c: Coord): (t: Rgb)
    requires Sized(buf, w, h) && InBounds(w, h, c)
    ensures 0 <= BufferIndex(w, c) && BufferIndex(w, c) + 3 < |buf|
    ensures t == buf[BufferIndex(w, c)..BufferIndex(w, c) + 3]
  {
    IndexInRange(w, h, c);
    buf[BufferIndex(w, c)..BufferIndex(w, c) + 3]
  }

  /** `get_color_at`: decode the 3 colour bytes of a cell; `None` where the source panics. */
  function ColorAt(buf: seq<Byte>, w: nat, h: nat, c: Coord): (r: Option<Color>)
    requires Sized(buf, w, h) && InBounds(w, h, c)
    ensures forall k: Color :: r == Some(k) <==> RgbAt(buf, w, h, c) == ToRgb(k)
  {
    FromRgbInverse(RgbAt(buf, w, h, c));
    FromRgb(RgbAt(buf, w, h, c))
  }

  /** Every cell of the grid decodes to one of the four colours. */
  ghost predicate Decodable(buf: seq<Byte>, w: nat, h: nat)
    requires Sized(buf, w, h)
  {
    forall c :: InBounds(w, h, c) ==> ColorAt(buf, w, h, c).Some?
  }

  /** `set_color_at`: the 3 colour bytes of a cell become the colour's encoding; no
      other byte changes, the cell's fourth byte included. */
  function Paint(buf: seq<Byte>, w: nat, h: nat, c: Coord, k: Color): (r: seq<Byte>)
    requires Sized(buf, w, h) && InBounds(w, h, c)
    ensures Sized(r, w, h)
    ensures RgbAt(r, w, h, c) == ToRgb(k)
    ensures forall j :: 0 <= j < |buf| && !(BufferIndex(w, c) <= j < BufferIndex(w, c) + 3) ==> r[j] == buf[j]
  {
    IndexInRange(w, h, c);
    var i := BufferIndex(w, c);
    var t := ToRgb(k);
    buf[i := t[0]][i + 1 := t[1]][i + 2 := t[2]]
  }

  /** A fresh buffer is all white, which is no colour: reading any cell before `clear` fails. */
  lemma UnpaintedUndecodable(w: nat, h: nat, c: Coord)
    requires InBounds(w, h, c)
    ensures ColorAt(Unpainted(w, h), w, h, c) == None
  {
    var buf := Unpainted(w, h);
    var i := BufferIndex(w, c);
    IndexInRange(w, h, c);
    var t := RgbAt(buf, w, h, c);
    assert t[0] == buf[i] && t[1] == buf[i + 1] && t[2] == buf[i + 2];
    assert t == [255, 255, 255];
    WhiteIsNoColor();
    FromRgbFailsElsewhere(t);
  }

  /** Reading back a painted cell gives the colour written; every other cell reads as before. */
  lemma PaintAt(buf: seq<Byte>, w: nat, h: nat, c: Coord, k: Color, d: Coord)
    requires Sized(buf, w, h) && InBounds(w, h, c) && InBounds(w, h, d)
    ensures ColorAt(Paint(buf, w, h, c, k), w, h, d) == if d == c then Some(k) else ColorAt(buf, w, h, d)
  {
    var r := Paint(buf, w, h, c, k);
    if d != c {
      IndexDisjoint(w, h, c, d);
      assert RgbAt(r, w, h, d) == RgbAt(buf, w, h, d);
    }
  }

  /** Painting keeps every pixel's fourth byte at 255. */
  lemma PaintPadded(buf: seq<Byte>, w: nat, h: nat, c: Coord, k: Color)
    requires Sized(buf, w, h) && InBounds(w, h, c) && Padded(buf)
    ensures Padded(Paint(buf, w, h, c, k))
  {
    IndexInRange(w, h, c);
  }

  /** Painting keeps every cell decodable. */
  lemma PaintDecodable(buf: seq<Byte>, w: nat, h: nat, c: Coord, k: Color)
    requires Sized(buf, w, h) && InBounds(w, h, c) && Decodable(buf, w, h)
    ensures Decodable(Paint(buf, w, h, c, k), w, h)
  {
    forall d | InBounds(w, h, d) ensures ColorAt(Paint(buf, w, h, c, k), w, h, d).Some? {
      PaintAt(buf, w, h, c, k, d);
    }
  }

  /** One `set_color_at` per coordinate of `cs`, in order. */
  function PaintAll(buf: seq<Byte>, w: nat, h: nat, cs: seq<Coord>, k: Color): (r: seq<Byte>)
    requires Sized(buf, w, h) && AllInBounds(w, h, cs)
    ensures Sized(r, w, h)
  {
    if cs == [] then buf
    else Paint(PaintAll(buf, w, h, cs[..|cs| - 1], k), w, h, cs[|cs| - 1], k)
  }

  /** After painting a list of cells, exactly the listed cells read the new colour. */
  lemma {:induction false} PaintAllAt(buf: seq<Byte>, w: nat, h: nat, cs: seq<Coord>, k: Color, d: Coord)
    requires Sized(buf, w, h) && AllInBounds(w, h, cs) && InBounds(w, h, d)
    ensures ColorAt(PaintAll(buf, w, h, cs, k), w, h, d) == if d in cs then Some(k) else ColorAt(buf, w, h, d)
    decreases |cs|
  {
    if cs != [] {
      var init, last := cs[..|cs| - 1], cs[|cs| - 1];
      assert cs == init + [last];
      PaintAllAt(buf, w, h, init, k, d);
      PaintAt(PaintAll(buf, w, h, init, k), w, h, last, k, d);
    }
  }

  lemma {:induction false} PaintAllPadded(buf: seq<Byte>, w: nat, h: nat, cs: seq<Coord>, k: Color)
    requires Sized(buf, w, h) && AllInBounds(w, h, cs) && Padded(buf)
    ensures Padded(PaintAll(buf, w, h, cs, k))
    decreases |cs|
  {
    if cs != [] {
      PaintAllPadded(buf, w, h, cs[..|cs| - 1], k);
      PaintPadded(PaintAll(buf, w, h, cs[..|cs| - 1], k), w, h, cs[|cs| - 1], k);
    }
  }

  lemma PaintAllDecodable(buf: seq<Byte>, w: nat, h: nat, cs: seq<Coord>, k: Color)
    requires Sized(buf, w, h) && AllInBounds(w, h, cs) && Decodable(buf, w, h)
    ensures Decodable(PaintAll(buf, w, h, cs, k), w, h)
  {
    forall d | InBounds(w, h, d) ensures ColorAt(PaintAll(buf, w, h, cs, k), w, h, d).Some? {
      PaintAllAt(buf, w, h, cs, k, d);
    }
  }

  /** Row `y` of `iter_coords`: `(0, y), (1, y), ..., (w - 1, y)`. */
  function Row(w: nat, y: Int32): (r: seq<Coord>)
    requires w <= I32_MAX + 1
    ensures |r| == w
  {
    seq(w, x requires 0 <= x < w => Coord(x, y))
  }

  /** `iter_coords`: rows `0 .. h` in order, each row left to right. */
  function CoordsOf(w: nat, h: nat): (r: seq<Coord>)
    requires w <= I32_MAX + 1 && h <= I32_MAX + 1
    ensures |r| == w * h
    ensures forall i :: 0 <= i < |r| ==> InBounds(w, h, r[i])
  {
    if h == 0 then [] else CoordsOf(w, h - 1) + Row(w, h - 1)
  }

  /** The k-th coordinate of `iter_coords` is `(k % w, k / w)`: row-major order. */
  lemma {:induction false} CoordsOfAt(w: nat, h: nat, k: int)
    requires w <= I32_MAX + 1 && h <= I32_MAX + 1
    requires 0 <= k < w * h
    ensures CoordsOf(w, h)[k].x == k % w && CoordsOf(w, h)[k].y == k / w
  {
    var prev := CoordsOf(w, h - 1);
    assert |prev| == w * (h - 1) == w * h - w;
    if k < |prev| {
      CoordsOfAt(w, h - 1, k);
    } else {
      var x := k - |prev|;
      assert CoordsOf(w, h)[k] == Row(w, h - 1)[x] == Coord(x, h - 1);
      DivModUnique(k, w, h - 1, x);
    }
  }

  /** The enumeration is row-major: the `k`-th coordinate is `(k % w, k / w)`. */
  lemma CoordsOfRowMajor(w: nat, h: nat)
    requires w <= I32_MAX + 1 && h <= I32_MAX + 1
    ensures forall k :: 0 <= k < w * h ==> CoordsOf(w, h)[k].x == k % w && CoordsOf(w, h)[k].y == k / w
  {
    forall k | 0 <= k < w * h ensures CoordsOf(w, h)[k].x == k % w && CoordsOf(w, h)[k].y == k / w {
      CoordsOfAt(w, h, k);
    }
  }

  /** Every cell of the grid appears in `iter_coords`, at the index of its cell number. */
  lemma CoordsOfIndex(w: nat, h: nat, c: Coord)
    requires w <= I32_MAX + 1 && h <= I32_MAX + 1 && InBounds(w, h, c)
    ensures 0 <= CellNumber(w, c) < |CoordsOf(w, h)| && CoordsOf(w, h)[CellNumber(w, c)] == c
  {
    CellNumberInRange(w, h, c);
    CoordsOfAt(w, h, CellNumber(w, c));
  }

  lemma CoordsOfInBounds(w: nat, h: nat)
    requires w <= I32_MAX + 1 && h <= I32_MAX + 1
    ensures AllInBounds(w, h, CoordsOf(w, h))
  {
  }

  /** `iter_coords` yields exactly the cells of the grid, each of them once. */
  lemma CoordsOfExactly(w: nat, h: nat)
    requires w <= I32_MAX + 1 && h <= I32_MAX + 1
    ensures |CoordsOf(w, h)| == w * h
    ensures forall c :: c in CoordsOf(w, h) <==> InBounds(w, h, c)
    ensures forall i, j :: 0 <= i < j < w * h ==> CoordsOf(w, h)[i] != CoordsOf(w, h)[j]
  {
    var cs := CoordsOf(w, h);
    forall c | InBounds(w, h, c) ensures c in cs {
      CoordsOfIndex(w, h, c);
    }
    forall i, j | 0 <= i < j < w * h ensures cs[i] != cs[j] {
      CoordsOfAt(w, h, i);
      CoordsOfAt(w, h, j);
      assert i == (i / w) * w + i % w;
      assert j == (j / w) * w + j % w;
    }
  }

  /** `clear`: every cell of the grid painted Background, in `iter_coords` order. */
  function Cleared(buf: seq<Byte>, w: nat, h: nat): (r: seq<Byte>)
    requires Sized(buf, w, h) && ScreenDims(w, h)
    ensures Sized(r, w, h)
  {
    CoordsOfInBounds(w, h);
    PaintAll(buf, w, h, CoordsOf(w, h), Background)
  }

  /** After `clear`, every cell reads Background. */
  lemma ClearedAt(buf: seq<Byte>, w: nat, h: nat, c: Coord)
    requires Sized(buf, w, h) && ScreenDims(w, h) && InBounds(w, h, c)
    ensures ColorAt(Cleared(buf, w, h), w, h, c) == Some(Background)
  {
    CoordsOfExactly(w, h);
    PaintAllAt(buf, w, h, CoordsOf(w, h), Background, c);
  }

  /** The border cells of `cs`, in order: the `filter` of `set_color_at_edges`. */
  function EdgeCoords(w: nat, h: nat, cs: seq<Coord>): (r: seq<Coord>)
    ensures forall c :: c in r <==> c in cs && IsEdge(w, h, c)
  {
    if cs == [] then []
    else
      var init, last := cs[..|cs| - 1], cs[|cs| - 1];
      assert cs == init + [last];
      EdgeCoords(w, h, init) + if IsEdge(w, h, last) then [last] else []
  }

  /** Filtering one more coordinate appends it when it is on the border. */
  lemma EdgeCoordsStep(w: nat, h: nat, cs: seq<Coord>, k: nat)
    requires k < |cs|
    ensures EdgeCoords(w, h, cs[..k + 1]) == EdgeCoords(w, h, cs[..k]) + if IsEdge(w, h, cs[k]) then [cs[k]] else []
  {
    assert cs[..k + 1][..k] == cs[..k];
  }

  /** Painting one more cell at the end of the list. */
  lemma PaintAllSnoc(buf: seq<Byte>, w: nat, h: nat, cs: seq<Coord>, c: Coord, k: Color)
    requires Sized(buf, w, h) && AllInBounds(w, h, cs) && InBounds(w, h, c)
    ensures AllInBounds(w, h, cs + [c])
    ensures PaintAll(buf, w, h, cs + [c], k) == Paint(PaintAll(buf, w, h, cs, k), w, h, c, k)
  {
    assert (cs + [c])[..|cs|] == cs;
  }

  /** `set_color_at_edges`: the border cells of `iter_coords`, painted in order. */
  function PaintedEdges(buf: seq<Byte>, w: nat, h: nat, k: Color): (r: seq<Byte>)
    requires Sized(buf, w, h) && ScreenDims(w, h)
    ensures Sized(r, w, h)
  {
    CoordsOfInBounds(w, h);
    PaintAll(buf, w, h, EdgeCoords(w, h, CoordsOf(w, h)), k)
  }

  /** `set_color_at_edges` paints exactly the border; interior cells are unchanged. */
  lemma PaintedEdgesAt(buf: seq<Byte>, w: nat, h: nat, k: Color, c: Coord)
    requires Sized(buf, w, h) && ScreenDims(w, h) && InBounds(w, h, c)
    ensures ColorAt(PaintedEdges(buf, w, h, k), w, h, c) == if IsEdge(w, h, c) then Some(k) else ColorAt(buf, w, h, c)
  {
    CoordsOfExactly(w, h);
    PaintAllAt(buf, w, h, EdgeCoords(w, h, CoordsOf(w, h)), k, c);
  }

  /** `iter_pixels`: every coordinate of `iter_coords` paired with the colour it reads. */
  function PixelsOf(buf: seq<Byte>, w: nat, h: nat): (r: seq<(Color, Coord)>)
    requires Sized(buf, w, h) && ScreenDims(w, h) && Decodable(buf, w, h)
    ensures |r| == w * h
    ensures forall i :: 0 <= i < |r| ==> r[i].1 == CoordsOf(w, h)[i]
    ensures forall i :: 0 <= i < |r| ==> InBounds(w, h, r[i].1) && ColorAt(buf, w, h, r[i].1) == Some(r[i].0)
  {
    var cs := CoordsOf(w, h);
    seq(|cs|, i requires 0 <= i < |cs| => (ColorAt(buf, w, h, cs[i]).value, cs[i]))
  }

  /** Two padded buffers whose cells all decode to the same colours are equal: the
      colours of the cells and the padding determine every byte. */
  lemma SameCellsSameBuffer(a: seq<Byte>, b: seq<Byte>, w: nat, h: nat)
    requires ScreenDims(w, h)
    requires Sized(a, w, h) && Sized(b, w, h) && Padded(a) && Padded(b)
    requires forall c :: InBounds(w, h, c) ==> ColorAt(a, w, h, c).Some? && ColorAt(a, w, h, c) == ColorAt(b, w, h, c)
    ensures a == b
  {
    forall j | 0 <= j < |a| ensures a[j] == b[j] {
      var n := j / BYTES_PER_PIXEL;
      assert j == n * BYTES_PER_PIXEL + j % BYTES_PER_PIXEL;
      if j % BYTES_PER_PIXEL != 3 {
        assert 0 <= n < w * h;
        RowBelowHeight(n, w, h);
        assert 0 <= n % w < w;
        var c := Coord(n % w, n / w);
        assert InBounds(w, h, c);
        assert n == (n / w) * w + n % w;
        assert BufferIndex(w, c) == n * BYTES_PER_PIXEL;
        var i := BufferIndex(w, c);
        var k := ColorAt(a, w, h, c).value;
        assert RgbAt(a, w, h, c) == ToRgb(k) == RgbAt(b, w, h, c);
        assert a[j] == RgbAt(a, w, h, c)[j - i];
      }
    }
  }

  /** The canvas. Its dimensions and the buffer object never change; the buffer's
      bytes do. */
  class Screen {
    const width: nat
    const height: nat
    const pixelCount: nat
    const pixelBuffer: array<Byte>

    ghost predicate Valid()
      reads pixelBuffer
    {
      && ScreenDims(width, height)
      && pixelCount == width * height
      && pixelBuffer.Length == pixelCount * BYTES_PER_PIXEL
      && Padded(pixelBuffer[..])
    }

    /** `Screen::new`: `w * h` pixels, every byte 255. */
    constructor (w: nat, h: nat)
      requires ScreenDims(w, h)
      ensures Valid() && fresh(pixelBuffer)
      ensures width == w && height == h && pixelCount == w * h
      ensures pixelBuffer[..] == Unpainted(w, h)
    {
      width, height := w, h;
      pixelCount := w * h;
      pixelBuffer := new Byte[w * h * BYTES_PER_PIXEL](_ => 255);
      new;
      assert pixelBuffer[..] == Unpainted(w, h);
    }

    /** `get_buffer_index_for`. */
    function GetBufferIndexFor(c: Coord): (i: int)
      requires Valid() && InBounds(width, height, c)
      reads pixelBuffer
      ensures 0 <= i && i + 3 < pixelBuffer.Length && i % BYTES_PER_PIXEL == 0
      ensures i == BufferIndex(width, c)
    {
      IndexInRange(width, height, c);
      BufferIndex(width, c)
    }

    /** `get_color_at`. */
    function GetColorAt(c: Coord): (r: Option<Color>)
      requires Valid() && InBounds(width, height, c)
      reads pixelBuffer
      ensures var i := GetBufferIndexFor(c);
        forall k: Color :: r == Some(k) <==> [pixelBuffer[i], pixelBuffer[i + 1], pixelBuffer[i + 2]] == ToRgb(k)
    {
      var i := GetBufferIndexFor(c);
      assert RgbAt(pixelBuffer[..], width, height, c) == [pixelBuffer[i], pixelBuffer[i + 1], pixelBuffer[i + 2]];
      ColorAt(pixelBuffer[..], width, height, c)
    }

    /** `iter_coords`. */
    function IterCoords(): (r: seq<Coord>)
      requires Valid()
      reads pixelBuffer
      ensures |r| == pixelCount
      ensures forall k :: 0 <= k < |r| ==> r[k].x == k % width && r[k].y == k / width
    {
      CoordsOfRowMajor(width, height);
      CoordsOf(width, height)
    }

    /** `iter_pixels`. */
    function IterPixels(): (r: seq<(Color, Coord)>)
      requires Valid() && Decodable(pixelBuffer[..], width, height)
      reads pixelBuffer
      ensures |r| == pixelCount
      ensures forall k :: 0 <= k < |r| ==> r[k].1 == IterCoords()[k] && GetColorAt(r[k].1) == Some(r[k].0)
    {
      PixelsOf(pixelBuffer[..], width, height)
    }

    /** `set_color_at`: writes the 3 colour bytes of one cell. */
    method SetColorAt(c: Coord, color: Color)
      requires Valid() && InBounds(width, height, c)
      modifies pixelBuffer
      ensures Valid()
      ensures pixelBuffer[..] == Paint(old(pixelBuffer[..]), width, height, c, color)
      ensures forall d :: InBounds(width, height, d) ==>
        GetColorAt(d) == if d == c then Some(color) else old(GetColorAt(d))
    {
      var i := GetBufferIndexFor(c);
      var rgb := ToRgb(color);
      pixelBuffer[i] := rgb[0];
      pixelBuffer[i + 1] := rgb[1];
      pixelBuffer[i + 2] := rgb[2];
      PaintPadded(old(pixelBuffer[..]), width, height, c, color);
      forall d | InBounds(width, height, d)
        ensures GetColorAt(d) == if d == c then Some(color) else old(GetColorAt(d))
      {
        PaintAt(old(pixelBuffer[..]), width, height, c, color, d);
      }
    }

    /** `clear`: paints every coordinate of `iter_coords` Background. */
    method Clear()
      requires Valid()
      modifies pixelBuffer
      ensures Valid()
      ensures pixelBuffer[..] == Cleared(old(pixelBuffer[..]), width, height)
      ensures forall c :: InBounds(width, height, c) ==> GetColorAt(c) == Some(Background)
    {
      var coords := IterCoords();
      CoordsOfInBounds(width, height);
      for k := 0 to |coords|
        invariant Valid()
        invariant pixelBuffer[..] == PaintAll(old(pixelBuffer[..]), width, height, coords[..k], Background)
      {
        assert coords[..k + 1][..k] == coords[..k];
        SetColorAt(coords[k], Background);
      }
      assert coords[..|coords|] == coords;
      forall c | InBounds(width, height, c) ensures GetColorAt(c) == Some(Background) {
        ClearedAt(old(pixelBuffer[..]), width, height, c);
      }
    }

    /** `set_color_at_edges`: paints the coordinates of `iter_coords` that lie on the border. */
    method SetColorAtEdges(color: Color)
      requires Valid()
      modifies pixelBuffer
      ensures Valid()
      ensures pixelBuffer[..] == PaintedEdges(old(pixelBuffer[..]), width, height, color)
      ensures forall c :: InBounds(width, height, c) ==>
        GetColorAt(c) == if IsEdge(width, height, c) then Some(color) else old(GetColorAt(c))
    {
      var coords := IterCoords();
      CoordsOfInBounds(width, height);
      for k := 0 to |coords|
        invariant Valid()
        invariant AllInBounds(width, height, EdgeCoords(width, height, coords[..k]))
        invariant pixelBuffer[..] == PaintAll(old(pixelBuffer[..]), width, height, EdgeCoords(width, height, coords[..k]), color)
      {
        var c := coords[k];
        EdgeCoordsStep(width, height, coords, k);
        ghost var done := EdgeCoords(width, height, coords[..k]);
        if IsEdge(width, height, c) {
          PaintAllSnoc(old(pixelBuffer[..]), width, height, done, c, color);
          SetColorAt(c, color);
        } else {
          assert EdgeCoords(width, height, coords[..k + 1]) == done + [] == done;
        }
      }
      assert coords[..|coords|] == coords;
      forall c | InBounds(width, height, c)
        ensures GetColorAt(c) == if IsEdge(width, height, c) then Some(color) else old(GetColorAt(c))
      {
        PaintedEdgesAt(old(pixelBuffer[..]), width, height, color, c);
      }
    }
  }
}

/** The four semantic pixel colours and their RGB encodings. */
module Colors {
  import opened Options

  /** A Rust `u8`. */
  type Byte = b: int | 0 <= b < 256

  /** `type Rgb = [u8; 3]`. */
  type Rgb = t: seq<Byte> | |t| == 3 witness [0, 0, 0]

  datatype Color = Background | Snake | Food | Fail

  /** `From<&Color> for Rgb`: total; decoding what it writes gives the colour back. */
  function ToRgb(c: Color): (t: Rgb)
    ensures FromRgb(t) == Some(c)
  {
    match c
    case Background => [0, 0, 0]
    case Snake => [0, 255, 0]
    case Food => [0, 0, 255]
    case Fail => [255, 0, 0]
  }

  /** `From<&Rgb> for Color`. The source panics on any other triple; that is `None` here. */
  function FromRgb(t: Rgb): (r: Option<Color>)
    ensures r.Some? <==> t in {[0, 0, 0], [0, 255, 0], [0, 0, 255], [255, 0, 0]}
  {
    if t == [0, 0, 0] then Some(Background)
    else if t == [0, 255, 0] then Some(Snake)
    else if t == [0, 0, 255] then Some(Food)
    else if t == [255, 0, 0] then Some(Fail)
    else None
  }

  /** The two conversions are inverse: a triple decodes to `c` exactly when it is `c`'s encoding. */
  lemma FromRgbInverse(t: Rgb)
    ensures forall c: Color :: FromRgb(t) == Some(c) <==> ToRgb(c) == t
  {
  }

  /** The four encodings are pairwise distinct. */
  lemma ToRgbInjective(a: Color, b: Color)
    ensures ToRgb(a) == ToRgb(b) ==> a == b
  {
  }

  /** Decoding fails exactly on the triples that are no colour's encoding. */
  lemma FromRgbFailsElsewhere(t: Rgb)
    ensures FromRgb(t).None? <==> forall c: Color :: ToRgb(c) != t
  {
    FromRgbInverse(t);
    if FromRgb(t).Some? {
      assert ToRgb(FromRgb(t).value) == t;
    }
  }

  /** The unpainted pixel, all bytes 255, is not a colour. */
  lemma WhiteIsNoColor()
    ensures FromRgb([255, 255, 255]) == None
  {
  }
}

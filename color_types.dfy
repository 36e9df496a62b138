/** The PNG colour types the extractor produces, the number of samples each
    carries per pixel, and the choice of colour type for one image. */
module ColorTypes {

  import opened Wrappers

  /** The four PNG colour types used (IHDR colour type field, section 11.2.2
      of the PNG specification, W3C Second Edition). */
  datatype ColorType = Grayscale | Rgb | GrayscaleAlpha | RgbAlpha
  {
    /** The numeric IHDR code of the colour type. */
    function Code(): (c: nat)
      ensures c in {0, 2, 4, 6}
    {
      match this
      case Grayscale => 0
      case Rgb => 2
      case GrayscaleAlpha => 4
      case RgbAlpha => 6
    }

    /** Samples (bytes, at 8 bits per sample) per pixel. */
    function Components(): (k: nat)
      ensures 1 <= k <= 4
    {
      match this
      case Rgb => 3
      case Grayscale => 1
      case RgbAlpha => 4
      case GrayscaleAlpha => 2
    }

    /** The `inputHasAlpha` flag handed to the encoder. */
    predicate HasAlpha()
      ensures HasAlpha() <==> Code() >= 4
    {
      this == RgbAlpha || this == GrayscaleAlpha
    }
  }

  /** The colour type with a given IHDR code, if it is one of the four.
      The program never maps a code back; this reading, with
      `FromCodeRoundTrip`, shows that a table keyed by the codes (as the
      components-per-pixel table is) has one entry per colour type. */
  function FromCode(code: int): (ct: Option<ColorType>)
    ensures ct.Some? <==> code in {0, 2, 4, 6}
    ensures ct.Some? ==> ct.value.Code() == code
  {
    if code == 0 then Some(Grayscale)
    else if code == 2 then Some(Rgb)
    else if code == 4 then Some(GrayscaleAlpha)
    else if code == 6 then Some(RgbAlpha)
    else None
  }

  /** The colour type of an image: gray or not, with an alpha layer or not. */
  function ChooseColorType(isGrayscale: bool, hasAlpha: bool): (ct: ColorType)
    ensures ct.HasAlpha() <==> hasAlpha
  {
    if isGrayscale && hasAlpha then GrayscaleAlpha
    else if !isGrayscale && hasAlpha then RgbAlpha
    else if isGrayscale then Grayscale
    else Rgb
  }

  /** The colour type code carries the two choices as PNG defines its bits:
      value 2 means colour is used and value 4 means an alpha channel is
      present; the samples per pixel are 3 for colour or 1 for gray, plus 1
      for alpha. */
  lemma ChosenCodeBits(isGrayscale: bool, hasAlpha: bool)
    ensures var c := ChooseColorType(isGrayscale, hasAlpha).Code();
      && ((c / 2) % 2 == 1 <==> !isGrayscale)
      && ((c / 4) % 2 == 1 <==> hasAlpha)
    ensures ChooseColorType(isGrayscale, hasAlpha).Components()
      == (if isGrayscale then 1 else 3) + (if hasAlpha then 1 else 0)
  {
  }

  /** Different inputs give different colour types, and every colour type is
      chosen by some input. */
  lemma ChooseColorTypeBijective(g1: bool, a1: bool, g2: bool, a2: bool, ct: ColorType)
    ensures ChooseColorType(g1, a1) == ChooseColorType(g2, a2) ==> g1 == g2 && a1 == a2
    ensures exists g: bool, a: bool :: ChooseColorType(g, a) == ct
  {
    match ct
    case Grayscale => assert ChooseColorType(true, false) == ct;
    case Rgb => assert ChooseColorType(false, false) == ct;
    case GrayscaleAlpha => assert ChooseColorType(true, true) == ct;
    case RgbAlpha => assert ChooseColorType(false, true) == ct;
  }

  /** Looking a colour type up by its code gives it back, so the codes are
      distinct keys. */
  lemma FromCodeRoundTrip(ct: ColorType)
    ensures FromCode(ct.Code()) == Some(ct)
  {
  }
}

/**
 * The choice made after trimming: which square-fit operation runs on the
 * image, and with which target size, upscaling flag and background. The
 * fit operations themselves (`to_square_contain`, `to_square_cover`) are
 * not part of this model; a FitCall records the call that is made.
 */
module FitMode {

  /** An 8-bit colour channel. */
  type Channel = x: int | 0 <= x < 256

  datatype Rgba = Rgba(red: Channel, green: Channel, blue: Channel, alpha: Channel)

  /** The call the pipeline makes to fit the trimmed image into a square. */
  datatype FitCall =
    | SquareContain(size: nat, allowUpscale: bool, background: Rgba)
    | SquareCover(size: nat, allowUpscale: bool)

  /** Side of the square the image is fitted into. */
  const TargetSize: nat := 600

  /** The two options of the framing-mode radio button. */
  const ContainOption: string := "Contain (padding)"
  const CoverOption: string := "Cover (recorte)"

  predicate IsWhite(c: Rgba) {
    c.red == 255 && c.green == 255 && c.blue == 255
  }

  /**
   * Dispatch on the framing mode: a label that starts with "Contain" pads
   * onto a white background, fully transparent when the transparency box
   * is ticked and fully opaque otherwise; any other label crops. Both calls
   * target a 600-pixel square and pass the upscaling flag through.
   */
  function SelectFit(mode: string, allowUpscale: bool, transparentBackground: bool): (call: FitCall)
    ensures call.size == TargetSize && call.allowUpscale == allowUpscale
    ensures call.SquareContain? <==> "Contain" <= mode
    ensures call.SquareContain? ==> IsWhite(call.background)
    ensures call.SquareContain? ==> (call.background.alpha == 0 <==> transparentBackground)
    ensures call.SquareContain? ==> (call.background.alpha == 255 <==> !transparentBackground)
  {
    if "Contain" <= mode then
      var alpha := if transparentBackground then 0 else 255;
      SquareContain(TargetSize, allowUpscale, Rgba(255, 255, 255, alpha))
    else
      SquareCover(TargetSize, allowUpscale)
  }

  /** Each radio option selects the operation it names, and the
      transparency box matters only to the padding one. */
  lemma RadioOptionsSelect(allowUpscale: bool, transparentBackground: bool)
    ensures SelectFit(ContainOption, allowUpscale, transparentBackground).SquareContain?
    ensures SelectFit(CoverOption, allowUpscale, transparentBackground)
         == SquareCover(TargetSize, allowUpscale)
  {
    assert "Contain" <= ContainOption;
    assert CoverOption[3] != "Contain"[3];
  }

  /** Whatever the mode label, the transparency flag cannot turn a crop
      into a pad or change a crop call. */
  lemma TransparencyOnlyAffectsContain(mode: string, allowUpscale: bool)
    ensures SelectFit(mode, allowUpscale, true).SquareCover?
         == SelectFit(mode, allowUpscale, false).SquareCover?
    ensures SelectFit(mode, allowUpscale, true).SquareCover?
        ==> SelectFit(mode, allowUpscale, true) == SelectFit(mode, allowUpscale, false)
  {
  }
}

/**
  Types shared by the Code 128 and Code 39 drawers of the ZPL viewer: the
  symbology the encoder is asked for, the label layout rule both drawers apply
  to the measured font height, and the parameters a drawer passes on to the
  encoder and to the canvas.
 */
module BarcodeTypes {

  datatype Option<T> = None | Some(value: T)

  /** The members of the encoder's symbology enumeration that the two drawers select. */
  datatype Symbology = Code128Auto | Code128A | Code128B | Code128C | Code39Extended

  /** Height of the human-readable line, and how far the symbol is moved down for it. */
  datatype LabelLayout = LabelLayout(labelHeight: int, labelHeightOffset: int)

  /**
    The layout both drawers compute from the font height they measured
    (already converted to an int by the drawer). A label that is not printed
    takes no room; the symbol is moved only when the label goes above it.
   */
  function Layout(printLine: bool, printAbove: bool, fontHeight: int): (r: LabelLayout)
    ensures !printLine ==> r == LabelLayout(0, 0)
    ensures printLine ==> r.labelHeight == fontHeight
    ensures r.labelHeightOffset == 0 || (printLine && printAbove && r.labelHeightOffset == fontHeight)
    ensures printAbove ==> r.labelHeightOffset == r.labelHeight
  {
    var labelHeight := if printLine then fontHeight else 0;
    LabelLayout(labelHeight, if printAbove then labelHeight else 0)
  }

  /**
    What one draw call hands on: to the encoder the symbology, the content,
    the alternate label, whether to include it, the bar width and the height
    of the encoded image; to DrawBarcode the field's original height and the
    label offset.
   */
  datatype Render = Render(
    symbology: Symbology,
    content: string,
    alternateLabel: string,
    includeLabel: bool,
    barWidth: int,
    encoderHeight: int,
    drawHeight: int,
    layout: LabelLayout)
}

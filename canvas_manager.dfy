/** Fitting the canvas into the window: the largest canvas with the
    configured aspect ratio that fits the window, given its size. */
module CanvasManager {

  datatype Size = Size(width: real, height: real)

  /** The width-derived size when its height fits the window, and the
      height-derived size otherwise. */
  function AdjustCanvasSize(windowWidth: real, windowHeight: real, aspectWidth: real, aspectHeight: real): Size
    requires aspectWidth != 0.0 && aspectHeight != 0.0
  {
    var canvasWidth := windowWidth;
    var canvasHeight := (canvasWidth / aspectWidth) * aspectHeight;
    if canvasHeight > windowHeight then
      Size((windowHeight / aspectHeight) * aspectWidth, windowHeight)
    else
      Size(canvasWidth, canvasHeight)
  }

  /** Both branches keep the configured aspect ratio:
      width / height == aspectWidth / aspectHeight, stated without division. */
  lemma CanvasKeepsAspectRatio(windowWidth: real, windowHeight: real, aspectWidth: real, aspectHeight: real)
    requires aspectWidth != 0.0 && aspectHeight != 0.0
    ensures var size := AdjustCanvasSize(windowWidth, windowHeight, aspectWidth, aspectHeight);
            size.width * aspectHeight == size.height * aspectWidth
  {
    var size := AdjustCanvasSize(windowWidth, windowHeight, aspectWidth, aspectHeight);
    if (windowWidth / aspectWidth) * aspectHeight > windowHeight {
      var q := windowHeight / aspectHeight;
      assert q * aspectHeight == windowHeight;
      assert size.width * aspectHeight == (q * aspectHeight) * aspectWidth;
    } else {
      var q := windowWidth / aspectWidth;
      assert q * aspectWidth == windowWidth;
      assert size.height * aspectWidth == (q * aspectWidth) * aspectHeight;
    }
  }

  /** For a positive aspect ratio the canvas fits the window, and one of
      its sides is exactly the window's: the width when the width-derived
      height fits, the height otherwise. */
  lemma CanvasFitsWindow(windowWidth: real, windowHeight: real, aspectWidth: real, aspectHeight: real)
    requires aspectWidth > 0.0 && aspectHeight > 0.0
    ensures var size := AdjustCanvasSize(windowWidth, windowHeight, aspectWidth, aspectHeight);
            && size.width <= windowWidth && size.height <= windowHeight
            && ((windowWidth / aspectWidth) * aspectHeight <= windowHeight ==> size.width == windowWidth)
            && ((windowWidth / aspectWidth) * aspectHeight > windowHeight ==> size.height == windowHeight)
  {
    var size := AdjustCanvasSize(windowWidth, windowHeight, aspectWidth, aspectHeight);
    var derived := (windowWidth / aspectWidth) * aspectHeight;
    if derived > windowHeight {
      // windowHeight / aspectHeight < windowWidth / aspectWidth, scaled by aspectWidth
      var a := windowWidth / aspectWidth;
      var b := windowHeight / aspectHeight;
      assert b * aspectHeight == windowHeight;
      assert a * aspectHeight > b * aspectHeight;
      assert a > b;
      assert size.width == b * aspectWidth;
      assert a * aspectWidth == windowWidth;
      assert b * aspectWidth < a * aspectWidth;
    }
  }
}

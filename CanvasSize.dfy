/**
 Sizing the viewer iframe to its content (`setCanvasMaxWidth`): the iframe
 becomes as wide as its widest canvas and as tall as its tallest one, plus
 a margin of 100 in each direction. While the iframe holds no canvas yet,
 nothing changes and the sizing is tried again later.
 */
module CanvasSize {

  /** A canvas's `width` and `height` attributes. */
  datatype Canvas = Canvas(width: nat, height: nat)

  /** What is added to the largest canvas dimensions. */
  const Margin: nat := 100

  /** `m` is the largest width in `canvases`, or 0 when there are none. */
  predicate IsMaxWidth(canvases: seq<Canvas>, m: nat) {
    && (forall i :: 0 <= i < |canvases| ==> canvases[i].width <= m)
    && (if |canvases| == 0 then m == 0 else exists i :: 0 <= i < |canvases| && canvases[i].width == m)
  }

  /** `m` is the largest height in `canvases`, or 0 when there are none. */
  predicate IsMaxHeight(canvases: seq<Canvas>, m: nat) {
    && (forall i :: 0 <= i < |canvases| ==> canvases[i].height <= m)
    && (if |canvases| == 0 then m == 0 else exists i :: 0 <= i < |canvases| && canvases[i].height == m)
  }

  /** The loop of `setCanvasMaxWidth`: both maxima, each starting from 0. */
  method MaxDimensions(canvases: seq<Canvas>) returns (maxWidth: nat, maxHeight: nat)
    ensures IsMaxWidth(canvases, maxWidth)
    ensures IsMaxHeight(canvases, maxHeight)
  {
    maxWidth := 0;
    maxHeight := 0;
    for i := 0 to |canvases|
      invariant forall j :: 0 <= j < i ==> canvases[j].width <= maxWidth
      invariant forall j :: 0 <= j < i ==> canvases[j].height <= maxHeight
      invariant maxWidth == 0 || exists j :: 0 <= j < i && canvases[j].width == maxWidth
      invariant maxHeight == 0 || exists j :: 0 <= j < i && canvases[j].height == maxHeight
    {
      var canvas := canvases[i];
      if canvas.width > maxWidth {
        maxWidth := canvas.width;
      }
      if canvas.height > maxHeight {
        maxHeight := canvas.height;
      }
    }
    if |canvases| > 0 && maxWidth == 0 {
      assert canvases[0].width == maxWidth;
    }
    if |canvases| > 0 && maxHeight == 0 {
      assert canvases[0].height == maxHeight;
    }
  }

  /** The viewer iframe's `width` and `height`. */
  class Iframe {
    var width: nat
    var height: nat

    constructor (w: nat, h: nat)
      ensures width == w && height == h
    {
      width := w;
      height := h;
    }

    /**
     `setCanvasMaxWidth` given the canvases the iframe's document holds.
     With none, the iframe is left alone and `retry` asks for another try;
     otherwise each dimension becomes the largest canvas dimension plus
     the margin.
     */
    method SetCanvasMaxWidth(canvases: seq<Canvas>) returns (retry: bool)
      modifies this
      ensures retry == (|canvases| == 0)
      ensures retry ==> width == old(width) && height == old(height)
      ensures !retry ==> width >= Margin && IsMaxWidth(canvases, width - Margin)
      ensures !retry ==> height >= Margin && IsMaxHeight(canvases, height - Margin)
    {
      if |canvases| == 0 {
        return true;
      }
      var maxWidth, maxHeight := MaxDimensions(canvases);
      height := maxHeight + Margin;
      width := maxWidth + Margin;
      retry := false;
    }
  }

  /**
   The two conditions pin each dimension down: there is only one largest
   width and one largest height, so the canvases determine the iframe size.
   */
  lemma MaxDimensionsUnique(canvases: seq<Canvas>, w1: nat, h1: nat, w2: nat, h2: nat)
    requires IsMaxWidth(canvases, w1) && IsMaxHeight(canvases, h1)
    requires IsMaxWidth(canvases, w2) && IsMaxHeight(canvases, h2)
    ensures w1 == w2 && h1 == h2
  {
  }
}

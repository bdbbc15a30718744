/**
 * The helpers of the thread review pane that differ from the diff pane's:
 * its alternating gap filler and the height of its wrapped content. The
 * range, mask and style-run helpers of this pane are the same code as the
 * diff pane's and are modelled once, in `ReviewDiffView`.
 */
module ReviewView {

  /** The filler character at column `i`: forward slashes on even columns, back slashes on odd ones. */
  function FillerChar(i: nat): char
  {
    if i % 2 == 0 then '╱' else '╲'
  }

  /** `hatched_filler` of this pane: pushes one character per column. */
  method AlternatingHatchedFiller(width: nat) returns (filler: string)
    ensures |filler| == width
    ensures forall i :: 0 <= i < width ==> filler[i] == FillerChar(i)
    ensures forall i :: 0 <= i < width ==> (filler[i] == '╱' <==> i % 2 == 0) && (filler[i] == '╲' <==> i % 2 == 1)
  {
    filler := [];
    for index := 0 to width
      invariant |filler| == index
      invariant forall i :: 0 <= i < index ==> filler[i] == FillerChar(i)
    {
      if index % 2 == 0 {
        filler := filler + ['╱'];
      } else {
        filler := filler + ['╲'];
      }
    }
  }

  /** The rows a line of display width `w` takes when wrapped at `width` columns (an empty line takes one). */
  function LineHeight(w: nat, width: nat): (h: nat)
    requires width > 0
    ensures w == 0 ==> h == 1
    ensures w > 0 ==> (h - 1) * width < w <= h * width
  {
    if w == 0 then 1
    else
      var q := (w - 1) / width;
      assert q * width <= w - 1 < (q + 1) * width;
      q + 1
  }

  /**
   * `wrapped_content_height`: the lines are given by their display widths;
   * no rows for a zero-width area, otherwise the sum of the lines' heights.
   */
  function WrappedContentHeight(lineWidths: seq<nat>, width: nat): (total: nat)
  {
    if width == 0 || |lineWidths| == 0 then 0
    else WrappedContentHeight(lineWidths[..|lineWidths| - 1], width) + LineHeight(lineWidths[|lineWidths| - 1], width)
  }

  /**
   * Every line takes at least one row, and the rows hold at least the
   * lines' total width; a zero-width area takes nothing.
   */
  lemma {:induction false} WrappedContentHeightBounds(lineWidths: seq<nat>, width: nat)
    ensures width == 0 ==> WrappedContentHeight(lineWidths, width) == 0
    ensures width > 0 ==> WrappedContentHeight(lineWidths, width) >= |lineWidths|
    ensures width > 0 ==> WrappedContentHeight(lineWidths, width) * width >= Sum(lineWidths)
  {
    if width > 0 && |lineWidths| > 0 {
      var init, w := lineWidths[..|lineWidths| - 1], lineWidths[|lineWidths| - 1];
      WrappedContentHeightBounds(init, width);
      var hInit, h := WrappedContentHeight(init, width), LineHeight(w, width);
      assert lineWidths == init + [w];
      SumSnoc(init, w);
      RowsHoldWidths(hInit, h, width, Sum(init), w);
    }
  }

  lemma RowsHoldWidths(hInit: nat, h: nat, width: nat, sInit: nat, w: nat)
    requires hInit * width >= sInit && h * width >= w
    ensures (hInit + h) * width >= sInit + w
  {
    assert (hInit + h) * width == hInit * width + h * width;
  }

  /** The height of a block of lines is the sum of the heights of its parts. */
  lemma {:induction false} WrappedContentHeightAppend(a: seq<nat>, b: seq<nat>, width: nat)
    ensures WrappedContentHeight(a + b, width) == WrappedContentHeight(a, width) + WrappedContentHeight(b, width)
    decreases |b|
  {
    if width > 0 && |b| > 0 {
      var init, w := b[..|b| - 1], b[|b| - 1];
      WrappedContentHeightAppend(a, init, width);
      assert (a + b)[..|a + b| - 1] == a + init;
    } else if width > 0 {
      assert a + b == a;
    }
  }

  /** The total of a list of widths. */
  function Sum(s: seq<nat>): nat
  {
    if |s| == 0 then 0 else Sum(s[..|s| - 1]) + s[|s| - 1]
  }

  lemma SumSnoc(s: seq<nat>, x: nat)
    ensures Sum(s + [x]) == Sum(s) + x
  {
    assert (s + [x])[..|s|] == s;
  }
}

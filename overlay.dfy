/** The front end's rendering of predictions: which predictions are drawn
    for a confidence threshold, their colours, labels and box geometry on
    the canvas, and the HTML summary listing every prediction. */
module Overlay {
  import opened Wrappers
  import Text
  import Canvas

  /** One row `[class, confidence, xmin, ymin, xmax, ymax]` of the model's
      reply; the box corners are fractions of the image size. */
  datatype Prediction = Prediction(classVal: int, confidence: real, xmin: real, ymin: real, xmax: real, ymax: real)

  const ColorArray: seq<string> := ["red", "green", "blue", "orange", "pink", "yellow", "purple", "cyan", "Chartreuse"]

  /** `colorArray[c]`: a colour for the nine first classes, `undefined`
      (None) for any other index. */
  function Palette(c: int): (r: Option<string>)
    ensures r.Some? <==> 0 <= c < 9
  {
    if 0 <= c < |ColorArray| then Some(ColorArray[c]) else None
  }

  /** The first nine classes are told apart by colour. */
  lemma PaletteDistinct(c: int, d: int)
    requires 0 <= c < 9 && 0 <= d < 9 && c != d
    ensures Palette(c).Some? && Palette(d).Some? && Palette(c).value != Palette(d).value
  {
  }

  /** The user named class `c`: the entry exists and is a non-empty string. */
  predicate HasLabel(classMap: seq<Option<string>>, c: int) {
    0 <= c < |classMap| && classMap[c].Some? && |classMap[c].value| > 0
  }

  /** `getPredictionLabel`: the user's name for the class, else `label:<c>`. */
  function PredictionLabel(classMap: seq<Option<string>>, c: int): (r: string)
    ensures HasLabel(classMap, c) ==> r == classMap[c].value
    ensures !HasLabel(classMap, c) ==> r == "label:" + Text.IntToString(c)
    ensures |r| >= 1
  {
    if HasLabel(classMap, c) then classMap[c].value else "label:" + Text.IntToString(c)
  }

  /** Unnamed classes get distinct labels. */
  lemma FallbackLabelsDistinct(classMap: seq<Option<string>>, c: int, d: int)
    requires !HasLabel(classMap, c) && !HasLabel(classMap, d)
    requires PredictionLabel(classMap, c) == PredictionLabel(classMap, d)
    ensures c == d
  {
    var lc, ld := PredictionLabel(classMap, c), PredictionLabel(classMap, d);
    assert Text.IntToString(c) == lc[6..] == ld[6..] == Text.IntToString(d);
    Text.IntToStringInjective(c, d);
  }

  /** The slider's percentage as a fraction. */
  function Threshold(slider: int): (t: real)
    ensures t * 100.0 == slider as real
  {
    slider as real / 100.0
  }

  /** A prediction is drawn when its confidence is strictly above the
      threshold; at the threshold it is not. */
  predicate IsDrawn(p: Prediction, threshold: real) {
    p.confidence > threshold
  }

  lemma DrawnAgainstSlider(p: Prediction, slider: int)
    ensures IsDrawn(p, Threshold(slider)) <==> p.confidence * 100.0 > slider as real
  {
  }

  /** Indices of the drawn predictions among the first `n`, in order. */
  function Drawn(preds: seq<Prediction>, threshold: real, n: nat): (r: seq<nat>)
    requires n <= |preds|
    ensures forall k :: 0 <= k < |r| ==> r[k] < n
  {
    if n == 0 then []
    else if IsDrawn(preds[n - 1], threshold) then Drawn(preds, threshold, n - 1) + [n - 1]
    else Drawn(preds, threshold, n - 1)
  }

  /** Exactly the predictions above the threshold are drawn. */
  lemma {:induction false} DrawnSpec(preds: seq<Prediction>, threshold: real, n: nat)
    requires n <= |preds|
    ensures forall k :: 0 <= k < |Drawn(preds, threshold, n)| ==> IsDrawn(preds[Drawn(preds, threshold, n)[k]], threshold)
    ensures forall i :: 0 <= i < n && IsDrawn(preds[i], threshold) ==> i in Drawn(preds, threshold, n)
  {
    if n > 0 {
      DrawnSpec(preds, threshold, n - 1);
    }
  }

  /** The drawn predictions are visited in their original order. */
  lemma {:induction false} DrawnIncreasing(preds: seq<Prediction>, threshold: real, n: nat)
    requires n <= |preds|
    ensures forall k, l :: 0 <= k < l < |Drawn(preds, threshold, n)| ==> Drawn(preds, threshold, n)[k] < Drawn(preds, threshold, n)[l]
  {
    if n > 0 {
      DrawnIncreasing(preds, threshold, n - 1);
    }
  }

  /** The box of a prediction in pixels: corner `(xmin * w, ymin * h)`,
      opposite corner `(xmax * w, ymax * h)`. */
  function Box(p: Prediction, width: real, height: real): (r: Canvas.Rect)
    ensures r.x == p.xmin * width && r.y == p.ymin * height
    ensures r.x + r.width == p.xmax * width && r.y + r.height == p.ymax * height
  {
    var x1 := p.xmin * width;
    var y1 := p.ymin * height;
    Canvas.Rect(x1, y1, p.xmax * width - x1, p.ymax * height - y1)
  }

  /** `${Math.round(c * 10000) / 100} %`: the confidence as a percentage
      with at most two decimals. */
  function ConfidenceText(c: real): (r: string) {
    Text.Hundredths(Text.Round(c * 10000.0)) + " %"
  }

  /** The text written beside box `i` (numbered from one). */
  function LabelText(i: nat, p: Prediction, classMap: seq<Option<string>>): (r: string) {
    "ID:" + Text.IntToString(i + 1) + "-" + PredictionLabel(classMap, p.classVal) + " - " + ConfidenceText(p.confidence)
  }

  /** Two confidences that print the same percentage round to the same
      number of hundredths of a percent. */
  lemma ConfidenceTextDeterminesRounding(c: real, d: real)
    requires ConfidenceText(c) == ConfidenceText(d)
    ensures Text.Round(c * 10000.0) == Text.Round(d * 10000.0)
  {
    var tc, td := Text.Hundredths(Text.Round(c * 10000.0)), Text.Hundredths(Text.Round(d * 10000.0));
    assert tc == ConfidenceText(c)[..|tc|];
    assert td == ConfidenceText(d)[..|td|];
    Text.HundredthsInjective(Text.Round(c * 10000.0), Text.Round(d * 10000.0));
  }

  // The canvas after the loop has seen the first `n` predictions.

  /** The current colour: each drawn prediction assigns its palette colour,
      and one outside the palette leaves the previous colour. */
  function ColorAfter(preds: seq<Prediction>, threshold: real, initial: string, n: nat): (r: string)
    requires n <= |preds|
  {
    if n == 0 then initial
    else
      var prev := ColorAfter(preds, threshold, initial, n - 1);
      if IsDrawn(preds[n - 1], threshold) then Palette(preds[n - 1].classVal).GetOr(prev) else prev
  }

  /** The current path: one box per drawn prediction. */
  function PathAfter(preds: seq<Prediction>, threshold: real, width: real, height: real, n: nat): (r: seq<Canvas.Rect>)
    requires n <= |preds|
  {
    if n == 0 then []
    else
      var prev := PathAfter(preds, threshold, width, height, n - 1);
      if IsDrawn(preds[n - 1], threshold) then prev + [Box(preds[n - 1], width, height)] else prev
  }

  /** The stroke a prediction would make once its box is added: the whole
      path so far, in the colour current then. */
  function StrokeOps(preds: seq<Prediction>, threshold: real, width: real, height: real): (r: seq<Canvas.StrokeOp>)
    ensures |r| == |preds|
    ensures forall i :: 0 <= i < |preds| ==>
      r[i] == Canvas.StrokeOp(PathAfter(preds, threshold, width, height, i + 1), ColorAfter(preds, threshold, Canvas.DefaultColor, i + 1))
  {
    seq(|preds|, i requires 0 <= i < |preds| =>
      Canvas.StrokeOp(PathAfter(preds, threshold, width, height, i + 1), ColorAfter(preds, threshold, Canvas.DefaultColor, i + 1)))
  }

  /** One stroke per drawn prediction, of the whole path so far. */
  function StrokesAfter(preds: seq<Prediction>, threshold: real, width: real, height: real, n: nat): (r: seq<Canvas.StrokeOp>)
    requires n <= |preds|
  {
    Selected(preds, threshold, StrokeOps(preds, threshold, width, height), n)
  }

  /** The label of prediction `i`: its text two pixels above the top-left
      corner of its box, in the colour current once it is drawn. */
  function LabelOp(preds: seq<Prediction>, threshold: real, width: real, height: real, classMap: seq<Option<string>>, i: nat): (r: Canvas.TextOp)
    requires i < |preds|
  {
    var b := Box(preds[i], width, height);
    Canvas.TextOp(LabelText(i, preds[i], classMap), b.x, b.y - 2.0, ColorAfter(preds, threshold, Canvas.DefaultColor, i + 1))
  }

  /** The label every prediction would get, drawn or not. */
  function Labels(preds: seq<Prediction>, threshold: real, width: real, height: real, classMap: seq<Option<string>>): (r: seq<Canvas.TextOp>)
    ensures |r| == |preds|
    ensures forall i :: 0 <= i < |preds| ==> r[i] == LabelOp(preds, threshold, width, height, classMap, i)
  {
    seq(|preds|, i requires 0 <= i < |preds| => LabelOp(preds, threshold, width, height, classMap, i))
  }

  /** The entries of `ops` that belong to drawn predictions among the first
      `n`, in order. */
  function Selected<T>(preds: seq<Prediction>, threshold: real, ops: seq<T>, n: nat): (r: seq<T>)
    requires n <= |preds| && |ops| == |preds|
  {
    if n == 0 then []
    else
      var prev := Selected(preds, threshold, ops, n - 1);
      if IsDrawn(preds[n - 1], threshold) then prev + [ops[n - 1]] else prev
  }

  /** One label per drawn prediction. */
  function TextsAfter(preds: seq<Prediction>, threshold: real, width: real, height: real, classMap: seq<Option<string>>, n: nat): (r: seq<Canvas.TextOp>)
    requires n <= |preds|
  {
    Selected(preds, threshold, Labels(preds, threshold, width, height, classMap), n)
  }

  /** The k-th selected entry is the one of the k-th drawn prediction. */
  lemma {:induction false} SelectedAtDrawn<T>(preds: seq<Prediction>, threshold: real, ops: seq<T>, n: nat)
    requires n <= |preds| && |ops| == |preds|
    ensures |Selected(preds, threshold, ops, n)| == |Drawn(preds, threshold, n)|
    ensures forall k :: 0 <= k < |Drawn(preds, threshold, n)| ==>
      Selected(preds, threshold, ops, n)[k] == ops[Drawn(preds, threshold, n)[k]]
  {
    if n > 0 {
      SelectedAtDrawn(preds, threshold, ops, n - 1);
      var sel, drawn := Selected(preds, threshold, ops, n - 1), Drawn(preds, threshold, n - 1);
      if IsDrawn(preds[n - 1], threshold) {
        var sel', drawn' := Selected(preds, threshold, ops, n), Drawn(preds, threshold, n);
        assert sel' == sel + [ops[n - 1]];
        assert drawn' == drawn + [n - 1];
        forall k | 0 <= k < |drawn'| ensures sel'[k] == ops[drawn'[k]] {
          if k < |drawn| {
            assert sel'[k] == sel[k] && drawn'[k] == drawn[k];
          }
        }
      } else {
        assert Selected(preds, threshold, ops, n) == sel;
        assert Drawn(preds, threshold, n) == drawn;
      }
    }
  }

  /** The path holds exactly the boxes of the drawn predictions, in order. */
  lemma {:induction false} PathIsDrawnBoxes(preds: seq<Prediction>, threshold: real, width: real, height: real, n: nat)
    requires n <= |preds|
    ensures |PathAfter(preds, threshold, width, height, n)| == |Drawn(preds, threshold, n)|
    ensures forall k :: 0 <= k < |Drawn(preds, threshold, n)| ==>
      PathAfter(preds, threshold, width, height, n)[k] == Box(preds[Drawn(preds, threshold, n)[k]], width, height)
  {
    if n > 0 {
      PathIsDrawnBoxes(preds, threshold, width, height, n - 1);
    }
  }

  /** A drawn prediction with a palette colour sets that colour; one
      outside the palette keeps the colour of the last one before it. */
  lemma ColorOfDrawn(preds: seq<Prediction>, threshold: real, initial: string, i: nat)
    requires i < |preds| && IsDrawn(preds[i], threshold)
    ensures Palette(preds[i].classVal).Some? ==>
      ColorAfter(preds, threshold, initial, i + 1) == Palette(preds[i].classVal).value
    ensures Palette(preds[i].classVal).None? ==>
      ColorAfter(preds, threshold, initial, i + 1) == ColorAfter(preds, threshold, initial, i)
  {
  }

  /** The k-th stroke outlines the first k + 1 boxes: every stroke
      re-outlines all the boxes before it. */
  lemma {:induction false} StrokesRestrokePath(preds: seq<Prediction>, threshold: real, width: real, height: real, n: nat)
    requires n <= |preds|
    ensures |StrokesAfter(preds, threshold, width, height, n)| == |PathAfter(preds, threshold, width, height, n)|
    ensures forall k :: 0 <= k < |StrokesAfter(preds, threshold, width, height, n)| ==>
      StrokesAfter(preds, threshold, width, height, n)[k].rects == PathAfter(preds, threshold, width, height, n)[..k + 1]
  {
    if n > 0 {
      StrokesRestrokePath(preds, threshold, width, height, n - 1);
      var strokes, prev := StrokesAfter(preds, threshold, width, height, n - 1), PathAfter(preds, threshold, width, height, n - 1);
      if IsDrawn(preds[n - 1], threshold) {
        var path := PathAfter(preds, threshold, width, height, n);
        assert path == prev + [Box(preds[n - 1], width, height)];
        forall k | 0 <= k < |strokes| ensures strokes[k].rects == path[..k + 1] {
          assert path[..k + 1] == prev[..k + 1];
        }
        assert path[..|prev| + 1] == path;
      }
    }
  }

  /** The k-th stroke is in the colour current when the k-th drawn box was
      added. */
  lemma StrokeColors(preds: seq<Prediction>, threshold: real, width: real, height: real, n: nat)
    requires n <= |preds|
    ensures |StrokesAfter(preds, threshold, width, height, n)| == |Drawn(preds, threshold, n)|
    ensures forall k :: 0 <= k < |Drawn(preds, threshold, n)| ==>
      StrokesAfter(preds, threshold, width, height, n)[k].color
        == ColorAfter(preds, threshold, Canvas.DefaultColor, Drawn(preds, threshold, n)[k] + 1)
  {
    SelectedAtDrawn(preds, threshold, StrokeOps(preds, threshold, width, height), n);
  }

  /** Once something is drawn, the latest stroke is in the current colour:
      a prediction that is skipped changes neither. */
  lemma {:induction false} LastStrokeColor(preds: seq<Prediction>, threshold: real, width: real, height: real, n: nat)
    requires n <= |preds| && |Drawn(preds, threshold, n)| > 0
    ensures var strokes := StrokesAfter(preds, threshold, width, height, n);
      |strokes| > 0 && strokes[|strokes| - 1].color == ColorAfter(preds, threshold, Canvas.DefaultColor, n)
  {
    var ops := StrokeOps(preds, threshold, width, height);
    SelectedAtDrawn(preds, threshold, ops, n);
    if !IsDrawn(preds[n - 1], threshold) {
      assert Drawn(preds, threshold, n) == Drawn(preds, threshold, n - 1);
      LastStrokeColor(preds, threshold, width, height, n - 1);
    }
  }

  /** The last stroke outlines every drawn box in the last colour. */
  lemma LastStrokeCoversAllBoxes(preds: seq<Prediction>, threshold: real, width: real, height: real)
    requires |Drawn(preds, threshold, |preds|)| > 0
    ensures var strokes := StrokesAfter(preds, threshold, width, height, |preds|);
      && |strokes| > 0
      && strokes[|strokes| - 1].rects == PathAfter(preds, threshold, width, height, |preds|)
      && strokes[|strokes| - 1].color == ColorAfter(preds, threshold, Canvas.DefaultColor, |preds|)
  {
    StrokesRestrokePath(preds, threshold, width, height, |preds|);
    LastStrokeColor(preds, threshold, width, height, |preds|);
    var path := PathAfter(preds, threshold, width, height, |preds|);
    assert path[..|path|] == path;
  }

  /** One label per drawn prediction, in order; each is numbered by the
      prediction's position among all predictions, not among those drawn. */
  lemma TextsAreLabels(preds: seq<Prediction>, threshold: real, width: real, height: real, classMap: seq<Option<string>>, n: nat)
    requires n <= |preds|
    ensures |TextsAfter(preds, threshold, width, height, classMap, n)| == |Drawn(preds, threshold, n)|
    ensures forall k :: 0 <= k < |Drawn(preds, threshold, n)| ==>
      TextsAfter(preds, threshold, width, height, classMap, n)[k]
        == LabelOp(preds, threshold, width, height, classMap, Drawn(preds, threshold, n)[k])
  {
    SelectedAtDrawn(preds, threshold, Labels(preds, threshold, width, height, classMap), n);
  }

  /** What the loop adds for a drawn prediction. */
  lemma DrawStep(preds: seq<Prediction>, threshold: real, width: real, height: real, classMap: seq<Option<string>>, i: nat)
    requires i < |preds| && IsDrawn(preds[i], threshold)
    ensures ColorAfter(preds, threshold, Canvas.DefaultColor, i + 1)
      == Palette(preds[i].classVal).GetOr(ColorAfter(preds, threshold, Canvas.DefaultColor, i))
    ensures PathAfter(preds, threshold, width, height, i + 1)
      == PathAfter(preds, threshold, width, height, i) + [Box(preds[i], width, height)]
    ensures StrokesAfter(preds, threshold, width, height, i + 1)
      == StrokesAfter(preds, threshold, width, height, i)
        + [Canvas.StrokeOp(PathAfter(preds, threshold, width, height, i + 1), ColorAfter(preds, threshold, Canvas.DefaultColor, i + 1))]
    ensures TextsAfter(preds, threshold, width, height, classMap, i + 1)
      == TextsAfter(preds, threshold, width, height, classMap, i) + [LabelOp(preds, threshold, width, height, classMap, i)]
  {
  }

  /** A prediction at or below the threshold changes nothing. */
  lemma SkipStep(preds: seq<Prediction>, threshold: real, width: real, height: real, classMap: seq<Option<string>>, i: nat)
    requires i < |preds| && !IsDrawn(preds[i], threshold)
    ensures ColorAfter(preds, threshold, Canvas.DefaultColor, i + 1) == ColorAfter(preds, threshold, Canvas.DefaultColor, i)
    ensures PathAfter(preds, threshold, width, height, i + 1) == PathAfter(preds, threshold, width, height, i)
    ensures StrokesAfter(preds, threshold, width, height, i + 1) == StrokesAfter(preds, threshold, width, height, i)
    ensures TextsAfter(preds, threshold, width, height, classMap, i + 1) == TextsAfter(preds, threshold, width, height, classMap, i)
  {
  }

  /** The canvas shows what the loop has drawn for the first `n`
      predictions. */
  predicate Shows(ctx: Canvas.Context2D, preds: seq<Prediction>, threshold: real, width: real, height: real, classMap: seq<Option<string>>, n: nat)
    requires n <= |preds|
    reads ctx
  {
    && ctx.path == PathAfter(preds, threshold, width, height, n)
    && ctx.strokes == StrokesAfter(preds, threshold, width, height, n)
    && ctx.texts == TextsAfter(preds, threshold, width, height, classMap, n)
    && ctx.strokeStyle == ColorAfter(preds, threshold, Canvas.DefaultColor, n)
    && ctx.fillStyle == ColorAfter(preds, threshold, Canvas.DefaultColor, n)
  }

  /** The body of the drawing loop for a prediction above the threshold:
      set the colours, add and stroke its box, write its label. */
  method DrawPrediction(ctx: Canvas.Context2D, preds: seq<Prediction>, threshold: real, width: real, height: real, classMap: seq<Option<string>>, i: nat)
    requires i < |preds| && IsDrawn(preds[i], threshold)
    requires Shows(ctx, preds, threshold, width, height, classMap, i)
    modifies ctx
    ensures Shows(ctx, preds, threshold, width, height, classMap, i + 1)
  {
    DrawStep(preds, threshold, width, height, classMap, i);
    var color := Palette(preds[i].classVal);
    ctx.SetStrokeStyle(color);
    var box := Box(preds[i], width, height);
    ctx.AddRect(box);
    ctx.Stroke();
    assert ctx.strokes == StrokesAfter(preds, threshold, width, height, i + 1);
    var labelText := LabelText(i, preds[i], classMap);
    ctx.SetFillStyle(color);
    ctx.FillText(labelText, box.x, box.y - 2.0);
    assert ctx.texts == TextsAfter(preds, threshold, width, height, classMap, i + 1);
  }

  /** `applyPredictionsToImage` on a fresh canvas of the image's size. */
  method ApplyPredictionsToImage(preds: seq<Prediction>, slider: int, width: real, height: real, classMap: seq<Option<string>>)
    returns (ctx: Canvas.Context2D)
    ensures fresh(ctx)
    ensures ctx.path == PathAfter(preds, Threshold(slider), width, height, |preds|)
    ensures ctx.strokes == StrokesAfter(preds, Threshold(slider), width, height, |preds|)
    ensures ctx.texts == TextsAfter(preds, Threshold(slider), width, height, classMap, |preds|)
    ensures ctx.strokeStyle == ColorAfter(preds, Threshold(slider), Canvas.DefaultColor, |preds|)
    ensures ctx.fillStyle == ColorAfter(preds, Threshold(slider), Canvas.DefaultColor, |preds|)
  {
    var threshold := Threshold(slider);
    ctx := new Canvas.Context2D();
    ctx.BeginPath();
    for i := 0 to |preds|
      invariant Shows(ctx, preds, threshold, width, height, classMap, i)
    {
      if preds[i].confidence > threshold {
        DrawPrediction(ctx, preds, threshold, width, height, classMap, i);
      } else {
        SkipStep(preds, threshold, width, height, classMap, i);
      }
    }
  }

  // The HTML summary of `getPredictionHtmlPrettyPrint`.

  /** The paragraph for prediction `i` (numbered from one), coloured like
      its box; a class outside the palette prints the colour `undefined`. */
  function PrettyEntry(i: nat, p: Prediction, classMap: seq<Option<string>>): (r: string) {
    "<p style=\"color: " + Palette(p.classVal).GetOr("undefined") + "\">" + Text.IntToString(i + 1) + " - "
      + PredictionLabel(classMap, p.classVal) + " - Confidence: " + ConfidenceText(p.confidence) + "</p>"
  }

  /** One paragraph per prediction, whatever its confidence. */
  function Entries(preds: seq<Prediction>, classMap: seq<Option<string>>): (r: seq<string>)
    ensures |r| == |preds|
    ensures forall i :: 0 <= i < |preds| ==> r[i] == PrettyEntry(i, preds[i], classMap)
  {
    seq(|preds|, i requires 0 <= i < |preds| => PrettyEntry(i, preds[i], classMap))
  }

  /** `parts.join("")`. */
  function Concat(parts: seq<string>): (r: string) {
    if parts == [] then "" else Concat(parts[..|parts| - 1]) + parts[|parts| - 1]
  }

  /** Each part of a concatenation sits right after the parts before it. */
  lemma {:induction false} ConcatParts(parts: seq<string>, k: nat)
    requires k < |parts|
    ensures |Concat(parts[..k])| + |parts[k]| <= |Concat(parts)|
    ensures Concat(parts)[|Concat(parts[..k])|..|Concat(parts[..k])| + |parts[k]|] == parts[k]
  {
    var init := parts[..|parts| - 1];
    if k == |parts| - 1 {
      assert parts[..k] == init;
    } else {
      ConcatParts(init, k);
      assert init[..k] == parts[..k];
      var lo, hi := |Concat(parts[..k])|, |Concat(parts[..k])| + |parts[k]|;
      assert Concat(parts)[lo..hi] == Concat(init)[lo..hi];
    }
  }

  /** `getPredictionHtmlPrettyPrint`: the paragraphs of all predictions, in
      order. */
  method PredictionHtml(preds: seq<Prediction>, classMap: seq<Option<string>>) returns (html: string)
    ensures html == Concat(Entries(preds, classMap))
  {
    var response: seq<string> := [];
    for i := 0 to |preds|
      invariant response == Entries(preds, classMap)[..i]
    {
      response := response + [PrettyEntry(i, preds[i], classMap)];
      assert Entries(preds, classMap)[..i + 1] == Entries(preds, classMap)[..i] + [Entries(preds, classMap)[i]];
    }
    assert response == Entries(preds, classMap);
    html := Concat(response);
  }
}

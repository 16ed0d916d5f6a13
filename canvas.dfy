/** The part of a browser 2D drawing context that the overlay uses: the
    current stroke and fill colours, the current path (a list of
    rectangles), and a record of every stroke and every text drawn. */
module Canvas {
  import opened Wrappers

  datatype Rect = Rect(x: real, y: real, width: real, height: real)

  /** One `stroke()`: every rectangle of the current path, in one colour. */
  datatype StrokeOp = StrokeOp(rects: seq<Rect>, color: string)

  /** One `fillText(text, x, y)` in the current fill colour. */
  datatype TextOp = TextOp(text: string, x: real, y: real, color: string)

  /** The initial stroke and fill colour of a 2D context. */
  const DefaultColor: string := "#000000"

  class Context2D {
    var strokeStyle: string
    var fillStyle: string
    var path: seq<Rect>
    var strokes: seq<StrokeOp>
    var texts: seq<TextOp>

    constructor ()
      ensures strokeStyle == DefaultColor && fillStyle == DefaultColor
      ensures path == [] && strokes == [] && texts == []
    {
      strokeStyle := DefaultColor;
      fillStyle := DefaultColor;
      path := [];
      strokes := [];
      texts := [];
    }

    /** Assigning a colour; a value that is not a colour (in the overlay,
        `undefined` from indexing past the palette) leaves it unchanged. */
    method SetStrokeStyle(color: Option<string>)
      modifies this
      ensures strokeStyle == color.GetOr(old(strokeStyle))
      ensures fillStyle == old(fillStyle) && path == old(path)
      ensures strokes == old(strokes) && texts == old(texts)
    {
      if color.Some? {
        strokeStyle := color.value;
      }
    }

    method SetFillStyle(color: Option<string>)
      modifies this
      ensures fillStyle == color.GetOr(old(fillStyle))
      ensures strokeStyle == old(strokeStyle) && path == old(path)
      ensures strokes == old(strokes) && texts == old(texts)
    {
      if color.Some? {
        fillStyle := color.value;
      }
    }

    method BeginPath()
      modifies this
      ensures path == []
      ensures strokeStyle == old(strokeStyle) && fillStyle == old(fillStyle)
      ensures strokes == old(strokes) && texts == old(texts)
    {
      path := [];
    }

    /** `rect(x, y, w, h)` adds a rectangle to the current path. */
    method AddRect(r: Rect)
      modifies this
      ensures path == old(path) + [r]
      ensures strokeStyle == old(strokeStyle) && fillStyle == old(fillStyle)
      ensures strokes == old(strokes) && texts == old(texts)
    {
      path := path + [r];
    }

    /** `stroke()` outlines the whole current path, not just its last shape. */
    method Stroke()
      modifies this
      ensures strokes == old(strokes) + [StrokeOp(path, strokeStyle)]
      ensures strokeStyle == old(strokeStyle) && fillStyle == old(fillStyle)
      ensures path == old(path) && texts == old(texts)
    {
      strokes := strokes + [StrokeOp(path, strokeStyle)];
    }

    method FillText(text: string, x: real, y: real)
      modifies this
      ensures texts == old(texts) + [TextOp(text, x, y, fillStyle)]
      ensures strokeStyle == old(strokeStyle) && fillStyle == old(fillStyle)
      ensures path == old(path) && strokes == old(strokes)
    {
      texts := texts + [TextOp(text, x, y, fillStyle)];
    }
  }
}

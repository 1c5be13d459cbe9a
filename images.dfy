/**
 * Images as the generator handles them (main.go, combineLayers).
 * An image is its bounds plus a paint term. The paint term records which
 * draw.Draw calls produced the pixels, with which operator, over which rectangle;
 * the per-pixel Porter-Duff arithmetic of image/draw stays uninterpreted.
 */
module Images {

  /** image.Point */
  datatype Point = Point(x: int, y: int)

  /** image.Rectangle: Min is inclusive, Max exclusive. */
  datatype Rect = Rect(min: Point, max: Point)

  /** The two compositing operators of image/draw that the generator uses. */
  datatype Op = Src | Over

  /** Pixel content of an image. */
  datatype Paint =
    | Blank                                          // the zeroed buffer of image.NewRGBA
    | Decoded(raster: nat)                           // pixels of a decoded PNG, opaque
    | Drawn(dst: Paint, r: Rect, src: Image, op: Op) // draw.Draw(dst, r, src, ZP, op)

  datatype Image = Image(bounds: Rect, paint: Paint)

  /** A selected layer: the file name and its decoded image. */
  datatype Layer = Layer(name: string, image: Image)

  /** One draw.Draw call applied to a canvas. */
  datatype DrawStep = DrawStep(op: Op, src: Image, r: Rect)

  /** The *image.RGBA buffer that combineLayers draws into in place. */
  class Canvas {
    const bounds: Rect
    var paint: Paint

    /** image.NewRGBA(r): a zeroed buffer with bounds r. */
    constructor (r: Rect)
      ensures bounds == r && paint == Blank
    {
      bounds := r;
      paint := Blank;
    }

    /** draw.Draw(canvas, r, src, image.Point{}, op) */
    method Draw(r: Rect, src: Image, op: Op)
      modifies this
      ensures paint == Drawn(old(paint), r, src, op)
    {
      paint := Drawn(paint, r, src, op);
    }

    function Snapshot(): (img: Image)
      reads this
    {
      Image(bounds, paint)
    }
  }

  /** The canvas after the first n layers of combineLayers have been drawn. */
  function Layered(layers: seq<Layer>, n: nat): Paint
    requires 1 <= n <= |layers|
  {
    var bounds := layers[0].image.bounds;
    if n == 1 then Drawn(Blank, bounds, layers[0].image, Src)
    else Drawn(Layered(layers, n - 1), bounds, layers[n - 1].image, Over)
  }

  /** The image combineLayers returns. */
  function Composite(layers: seq<Layer>): Image
    requires |layers| > 0
  {
    Image(layers[0].image.bounds, Layered(layers, |layers|))
  }

  /** The draw calls that built a paint term, bottom first. */
  function Draws(p: Paint): seq<DrawStep>
  {
    match p
    case Drawn(dst, r, src, op) => Draws(dst) + [DrawStep(op, src, r)]
    case _ => []
  }

  /** The buffer the draw calls of a paint term were applied to. */
  function Base(p: Paint): Paint
  {
    match p
    case Drawn(dst, _, _, _) => Base(dst)
    case _ => p
  }

  /**
   * combineLayers: a canvas with the first layer's bounds, the first layer copied
   * with Src, every later layer drawn with Over over the same rectangle.
   */
  method CombineLayers(layers: seq<Layer>) returns (combined: Image)
    requires |layers| > 0
    ensures combined == Composite(layers)
    ensures combined.bounds == layers[0].image.bounds
  {
    var bounds := layers[0].image.bounds;
    var canvas := new Canvas(bounds);
    canvas.Draw(bounds, layers[0].image, Src);
    for k := 1 to |layers|
      invariant canvas.bounds == bounds
      invariant canvas.paint == Layered(layers, k)
    {
      canvas.Draw(bounds, layers[k].image, Over);
    }
    combined := canvas.Snapshot();
  }

  lemma {:induction false} LayeredDraws(layers: seq<Layer>, n: nat)
    requires 1 <= n <= |layers|
    ensures Base(Layered(layers, n)) == Blank
    ensures |Draws(Layered(layers, n))| == n
    ensures forall k :: 0 <= k < n ==>
              Draws(Layered(layers, n))[k]
                == DrawStep(if k == 0 then Src else Over, layers[k].image, layers[0].image.bounds)
  {
    if n > 1 {
      LayeredDraws(layers, n - 1);
    }
  }

  /**
   * The composite is built on a zeroed canvas by exactly one draw per layer, in slice
   * order, Src for the first and Over for the rest, each over the first layer's bounds.
   */
  lemma CompositeDrawOrder(layers: seq<Layer>)
    requires |layers| > 0
    ensures Composite(layers).bounds == layers[0].image.bounds
    ensures Base(Composite(layers).paint) == Blank
    ensures |Draws(Composite(layers).paint)| == |layers|
    ensures forall k :: 0 <= k < |layers| ==>
              Draws(Composite(layers).paint)[k]
                == DrawStep(if k == 0 then Src else Over, layers[k].image, layers[0].image.bounds)
  {
    LayeredDraws(layers, |layers|);
  }

  lemma {:induction false} LayeredPrefix(layers: seq<Layer>, top: Layer, n: nat)
    requires 1 <= n <= |layers|
    ensures Layered(layers + [top], n) == Layered(layers, n)
  {
    assert (layers + [top])[0] == layers[0];
    if n > 1 {
      LayeredPrefix(layers, top, n - 1);
      assert (layers + [top])[n - 1] == layers[n - 1];
    }
  }

  /** Adding a layer on top draws it with Over onto the composite of the layers below. */
  lemma CompositeAppend(layers: seq<Layer>, top: Layer)
    requires |layers| > 0
    ensures Composite(layers + [top])
         == Image(layers[0].image.bounds,
                  Drawn(Composite(layers).paint, layers[0].image.bounds, top.image, Over))
  {
    LayeredPrefix(layers, top, |layers|);
  }
}

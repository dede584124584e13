/** The column rasteriser of isovoxel.cpp. For every screen pixel (x, y),
    fillColumn either paints that one pixel with the sky colour (its ground
    point lies off the tile) or paints rows y <= yp < y_end of column x with
    the column colour; render drives it over the whole frame, column by
    column, each column from the top row down.

    The floating-point front end of fillColumn (the ray/plane projection and
    the y_end computation) is not modelled: for each pixel it is supplied as
    a Probe. The height sample and the column colour are modelled. */
module Isovoxel {
  import opened Vectors
  import opened Images
  import opened Heightmap

  datatype Option<T> = None | Some(value: T)
  {
    function GetOr(default: T): T
    {
      match this
      case Some(v) => v
      case None => default
    }
  }

  /** c_sky_color. */
  const SKY: Vec3 := Splat(0.0)

  /** What the floating-point front end of fillColumn produces for one screen
      pixel: the ground point p = project(u, v) and the row y_end at which the
      projected top of the column lies. */
  datatype Probe = Probe(ground: Vec3, yEnd: int)

  /** The ground point is not outside [0, 4] on either ground axis. */
  predicate InTile(p: Vec3)
  {
    !(p.x < 0.0 || p.x > 4.0 || p.z < 0.0 || p.z > 4.0)
  }

  /** min(vec3(h), vec3(1)) with h = sampleHeightmap(p.x, p.z) * hmap_height. */
  function ColumnColour(exp: real -> real, p: Vec3): (c: Vec3)
    ensures c.x == c.y == c.z <= 1.0
  {
    Min(Splat(SampleHeightmap(exp, p.x, p.z) * HMAP_HEIGHT), Splat(1.0))
  }

  /** On the tile, an exponential that maps [-2, 0] into [0, 1] (as the real
      one does) makes the clamp inert: the colour is the grey level h itself,
      and h lies in [0, hmap_height]. */
  lemma ColumnColourIsHeight(exp: real -> real, p: Vec3)
    requires InTile(p)
    requires forall t :: -2.0 <= t <= 0.0 ==> 0.0 <= exp(t) <= 1.0
    ensures var h := SampleHeightmap(exp, p.x, p.z) * HMAP_HEIGHT;
      0.0 <= h <= HMAP_HEIGHT && ColumnColour(exp, p) == Splat(h)
  {
    TileArgumentRange(p.x, p.z);
  }

  /** The colour fillColumn(x, y) leaves at logical pixel (xx, yy), or None
      where it writes nothing. */
  function Stroke(x: int, y: int, height: int, probe: Probe, exp: real -> real, xx: int, yy: int): (r: Option<Vec3>)
    ensures xx != x ==> r == None
    ensures !InTile(probe.ground) ==> (r.Some? <==> xx == x && yy == y) && (r.Some? ==> r.value == SKY)
    ensures InTile(probe.ground) ==> (r.Some? <==> xx == x && y <= yy < probe.yEnd && 0 <= yy < height)
    ensures InTile(probe.ground) && r.Some? ==> r.value == ColumnColour(exp, probe.ground)
    ensures r.Some? ==> r.value.x == r.value.y == r.value.z <= 1.0
  {
    if !InTile(probe.ground) then
      if xx == x && yy == y then Some(SKY) else None
    else if xx == x && y <= yy < probe.yEnd && 0 <= yy < height then
      Some(ColumnColour(exp, probe.ground))
    else
      None
  }

  /** fillColumn(image, x, y, width, height). The width argument only feeds
      the projection, which the probe stands for. */
  method FillColumn(image: Image, x: int, y: int, height: int, probe: Probe, exp: real -> real)
    requires image.Valid()
    requires 0 <= x < image.width && 0 <= y < image.height && height <= image.height
    modifies image.pixels
    ensures forall xx: nat, yy: nat :: xx < image.width && yy < image.height ==>
      image.At(xx, yy) == Stroke(x, y, height, probe, exp, xx, yy).GetOr(old(image.At(xx, yy)))
  {
    var p := probe.ground;
    if p.x < 0.0 || p.x > 4.0 || p.z < 0.0 || p.z > 4.0 {
      image.SetPixel(x, y, SKY);
      return;
    }
    var h := SampleHeightmap(exp, p.x, p.z) * HMAP_HEIGHT;
    var colour := Min(Splat(h), Splat(1.0));
    var yp := y;
    while yp < probe.yEnd
      invariant y <= yp <= (if y <= probe.yEnd then probe.yEnd else y)
      invariant forall xx: nat, yy: nat :: xx < image.width && yy < image.height ==>
        image.At(xx, yy) == (if xx == x && y <= yy < yp && yy < height then colour else old(image.At(xx, yy)))
      decreases probe.yEnd - yp
    {
      if yp >= 0 && yp < height {
        image.SetPixel(x, yp, colour);
      }
      yp := yp + 1;
    }
  }

  // ---------------------------------------------------------------------
  // render

  /** The first n calls render makes in column x: rows height - 1, height - 2, ... */
  function ColumnCalls(x: int, height: int, n: nat): seq<(int, int)>
  {
    seq(n, k => (x, height - 1 - k))
  }

  /** Every call render makes for a width x height image, in order: columns
      left to right, each one from the top row down. */
  function CallOrder(width: nat, height: nat): seq<(int, int)>
  {
    if width == 0 then [] else CallOrder(width - 1, height) + ColumnCalls(width - 1, height, height)
  }

  /** Every pixel of the frame is visited, as call number x * height + (height - 1 - y). */
  lemma {:induction false} CallOrderAt(width: nat, height: nat, x: nat, y: nat)
    requires x < width && y < height
    ensures |CallOrder(width, height)| == width * height
    ensures CallOrder(width, height)[x * height + (height - 1 - y)] == (x, y)
  {
    CallOrderLength(width, height);
    CallOrderLength(width - 1, height);
    if x < width - 1 {
      CallOrderAt(width - 1, height, x, y);
      MulMonotone(x + 1, width - 1, height);
    }
  }

  lemma {:induction false} CallOrderLength(width: nat, height: nat)
    ensures |CallOrder(width, height)| == width * height
  {
    if width > 0 {
      CallOrderLength(width - 1, height);
    }
  }

  /** Every call is for a pixel of the frame, and its position is determined
      by that pixel: no pixel is visited twice. */
  lemma {:induction false} CallOrderEntry(width: nat, height: nat, i: nat)
    requires i < |CallOrder(width, height)|
    ensures 0 <= CallOrder(width, height)[i].0 < width && 0 <= CallOrder(width, height)[i].1 < height
    ensures i == CallOrder(width, height)[i].0 * height + (height - 1 - CallOrder(width, height)[i].1)
  {
    CallOrderLength(width - 1, height);
    if i < |CallOrder(width - 1, height)| {
      CallOrderEntry(width - 1, height, i);
    }
  }

  /** Logical pixel (x, yy) after render's first n calls in column x, given
      its value init before them. Only the probes of column x appear. */
  ghost function ColumnAfter(probes: (int, int) -> Probe, exp: real -> real, height: int, x: int, yy: int,
                             n: nat, init: Vec3): Vec3
  {
    if n == 0 then init
    else Stroke(x, height - n, height, probes(x, height - n), exp, x, yy)
           .GetOr(ColumnAfter(probes, exp, height, x, yy, n - 1, init))
  }

  /** render(image). The probes stand for the floating-point front end of
      fillColumn at every pixel; the ghost result records the calls made. */
  method Render(image: Image, probes: (int, int) -> Probe, exp: real -> real) returns (ghost calls: seq<(int, int)>)
    requires image.Valid()
    modifies image.pixels
    ensures calls == CallOrder(image.width, image.height)
    ensures forall xx: nat, yy: nat :: xx < image.width && yy < image.height ==>
      image.At(xx, yy) == ColumnAfter(probes, exp, image.height, xx, yy, image.height, old(image.At(xx, yy)))
  {
    var width: int := image.GetWidth();
    var height: int := image.GetHeight();
    calls := [];
    var x := 0;
    while x < width
      invariant 0 <= x <= width
      invariant calls == CallOrder(x, height)
      invariant forall xx: nat, yy: nat :: xx < width && yy < height ==>
        image.At(xx, yy) == (if xx < x then ColumnAfter(probes, exp, height, xx, yy, height, old(image.At(xx, yy)))
                             else old(image.At(xx, yy)))
    {
      var y := height - 1;
      while y >= 0
        invariant -1 <= y < height
        invariant calls == CallOrder(x, height) + ColumnCalls(x, height, height - 1 - y)
        invariant forall xx: nat, yy: nat :: xx < width && yy < height ==>
          image.At(xx, yy) == (if xx < x then ColumnAfter(probes, exp, height, xx, yy, height, old(image.At(xx, yy)))
                               else if xx == x then ColumnAfter(probes, exp, height, xx, yy, height - 1 - y, old(image.At(xx, yy)))
                               else old(image.At(xx, yy)))
      {
        FillColumn(image, x, y, height, probes(x, y), exp);
        assert ColumnCalls(x, height, height - y) == ColumnCalls(x, height, height - 1 - y) + [(x, y)];
        calls := calls + [(x, y)];
        y := y - 1;
      }
      x := x + 1;
    }
  }

  /** A pixel that no call of its column writes keeps its old value. */
  lemma {:induction false} ColumnUntouched(probes: (int, int) -> Probe, exp: real -> real, height: int, x: int, yy: int,
                                           n: nat, init: Vec3)
    requires forall j :: height - n <= j < height ==> Stroke(x, j, height, probes(x, j), exp, x, yy).None?
    ensures ColumnAfter(probes, exp, height, x, yy, n, init) == init
  {
    if n > 0 {
      ColumnUntouched(probes, exp, height, x, yy, n - 1, init);
    }
  }

  /** Render walks each column downwards, so of the calls that write a pixel
      the one for the lowest row is the last, and its colour is what stays. */
  lemma {:induction false} LowestWriterWins(probes: (int, int) -> Probe, exp: real -> real, height: int, x: int, yy: int,
                                            n: nat, init: Vec3, j: int)
    requires height - n <= j < height
    requires Stroke(x, j, height, probes(x, j), exp, x, yy).Some?
    requires forall i :: height - n <= i < j ==> Stroke(x, i, height, probes(x, i), exp, x, yy).None?
    ensures ColumnAfter(probes, exp, height, x, yy, n, init) == Stroke(x, j, height, probes(x, j), exp, x, yy).value
  {
    if height - n < j {
      LowestWriterWins(probes, exp, height, x, yy, n - 1, init, j);
    }
  }

  /** What column x holds after render is decided by the calls for column x
      alone: probes that agree on that column give the same pixels. */
  lemma {:induction false} ColumnOwnsItsPixels(p1: (int, int) -> Probe, p2: (int, int) -> Probe, exp: real -> real,
                                               height: int, x: int, yy: int, n: nat, init: Vec3)
    requires forall j :: height - n <= j < height ==> p1(x, j) == p2(x, j)
    ensures ColumnAfter(p1, exp, height, x, yy, n, init) == ColumnAfter(p2, exp, height, x, yy, n, init)
  {
    if n > 0 {
      ColumnOwnsItsPixels(p1, p2, exp, height, x, yy, n - 1, init);
    }
  }
}

/**
  The geometry of `captureFullPage` in snag/background.js: how many
  viewport-sized segments the page is captured in, where each capture
  scrolls to, and where the stitcher draws each captured image on the
  output canvas. Heights are whole CSS pixels, as `scrollHeight` and
  `innerHeight` report them.
*/
module FullPage {
  import opened Results

  /**
    The value of `Math.ceil(totalHeight / viewportHeight)` as the capture
    loop sees it: a finite count, or a bound the loop never reaches (a
    positive height over a zero viewport divides to `Infinity`).
  */
  datatype Segments = Finite(count: nat) | Unbounded

  /**
    `Math.ceil(page.totalHeight / page.viewportHeight)`. For a positive
    viewport this is the least number of viewports that covers the page.
    With a zero viewport, `0 / 0` is `NaN`, which no `i < NaN` satisfies,
    so nothing is captured; any other height over zero is `Infinity`.
  */
  function SegmentCount(total: nat, viewport: nat): (r: Segments)
    ensures viewport > 0 ==> r.Finite? && r.count * viewport >= total
    ensures viewport > 0 && r.count > 0 ==> (r.count - 1) * viewport < total
    ensures r == Finite(0) <==> total == 0
    ensures r == Unbounded <==> viewport == 0 && total > 0
  {
    if viewport == 0 then
      if total == 0 then Finite(0) else Unbounded
    else
      CeilDiv(total, viewport);
      Finite((total + viewport - 1) / viewport)
  }

  /** The rounded-up quotient is a multiple of `v` that reaches `t`, and one fewer does not. */
  lemma CeilDiv(t: nat, v: nat)
    requires v > 0
    ensures var q := (t + v - 1) / v;
      q * v >= t && (q > 0 ==> (q - 1) * v < t) && (q == 0 <==> t == 0)
  {
    var q, m := (t + v - 1) / v, (t + v - 1) % v;
    assert t + v - 1 == q * v + m && 0 <= m < v;
    assert (q - 1) * v == q * v - v;
  }

  lemma MulMono(a: nat, b: nat, v: nat)
    requires a <= b
    ensures a * v <= b * v
  {
    assert b * v - a * v == (b - a) * v;
  }

  /** The count is the least one whose viewports cover the page. */
  lemma SegmentCountLeast(total: nat, viewport: nat, m: nat)
    requires viewport > 0 && m * viewport >= total
    ensures SegmentCount(total, viewport).count <= m
  {
    var n := SegmentCount(total, viewport).count;
    if m < n {
      MulMono(m, n - 1, viewport);
    }
  }

  /** The scroll target of every iteration of the capture loop: `y = i * viewportHeight`. */
  function ScrollPositions(count: nat, viewport: nat): (ys: seq<nat>)
    ensures |ys| == count
    ensures count > 0 ==> ys[0] == 0
    ensures forall i :: 0 <= i < count - 1 ==> ys[i + 1] == ys[i] + viewport
  {
    seq(count, i requires 0 <= i < count => i * viewport)
  }

  /** Consecutive captures are a viewport apart, so with a positive viewport they scroll strictly downwards. */
  lemma PositionsIncreasing(count: nat, viewport: nat, i: nat, j: nat)
    requires viewport > 0 && i < j < count
    ensures ScrollPositions(count, viewport)[i] < ScrollPositions(count, viewport)[j]
  {
    MulMono(i + 1, j, viewport);
  }

  /** Every capture scrolls to a point inside the page. */
  lemma PositionsInside(total: nat, viewport: nat, i: nat)
    requires viewport > 0
    requires i < SegmentCount(total, viewport).count
    ensures ScrollPositions(SegmentCount(total, viewport).count, viewport)[i] < total
  {
    var n := SegmentCount(total, viewport).count;
    MulMono(i, n - 1, viewport);
  }

  /** The only viewport at a multiple of `v` that holds row `y` is number `y / v`. */
  lemma SegmentOfRow(v: nat, y: nat, i: nat)
    requires v > 0
    ensures (i * v <= y < i * v + v) <==> i == y / v
  {
    var k := y / v;
    assert y == k * v + y % v;
    if i < k {
      MulMono(i + 1, k, v);
    } else if k < i {
      MulMono(k + 1, i, v);
    }
  }

  /** Every row of the page falls inside the viewport of exactly one capture. */
  lemma PositionsCover(total: nat, viewport: nat, y: nat)
    requires viewport > 0 && y < total
    ensures var n := SegmentCount(total, viewport).count;
      var ys := ScrollPositions(n, viewport);
      && y / viewport < n
      && ys[y / viewport] <= y < ys[y / viewport] + viewport
      && forall i :: 0 <= i < n && ys[i] <= y < ys[i] + viewport ==> i == y / viewport
  {
    var n := SegmentCount(total, viewport).count;
    var k := y / viewport;
    SegmentOfRow(viewport, y, k);
    if n <= k {
      MulMono(n, k, viewport);
    }
    forall i | 0 <= i < n
      ensures ScrollPositions(n, viewport)[i] == i * viewport
      ensures i * viewport <= y < i * viewport + viewport ==> i == k
    {
      SegmentOfRow(viewport, y, i);
    }
  }

  /** A page of 2500 pixels in a 1000-pixel viewport is captured in three segments, at 0, 1000 and 2000. */
  lemma ExampleSegments()
    ensures SegmentCount(2500, 1000) == Finite(3)
    ensures ScrollPositions(3, 1000) == [0, 1000, 2000]
  {
  }

  // ----- Stitching -----

  /** A captured segment, as far as stitching uses it. */
  datatype Image = Image(width: nat, height: nat)

  /** Where `drawImage(img, 0, offsetY)` puts one segment. */
  datatype Placement = Placement(x: nat, y: nat)

  /** The stitched canvas: its size and one placement per segment, in capture order. */
  datatype Canvas = Canvas(width: nat, height: nat, placements: seq<Placement>)

  datatype StitchError = NoCaptures

  /** `images.reduce((sum, img) => sum + img.height, 0)`, folded from the left. */
  function SumHeights(images: seq<Image>): nat
    decreases |images|
  {
    if |images| == 0 then 0 else SumHeights(images[..|images| - 1]) + images[|images| - 1].height
  }

  /** The offsets of the segments in capture order: each one starts where the previous ends. */
  function Offsets(images: seq<Image>): (ys: seq<nat>)
    ensures |ys| == |images|
    ensures forall k :: 0 <= k < |images| ==> ys[k] == SumHeights(images[..k])
  {
    seq(|images|, k requires 0 <= k < |images| => SumHeights(images[..k]))
  }

  /**
    The stitching step of `captureFullPage`: fail on an empty list, size
    the canvas as the first segment's width by the sum of all heights, and
    draw each segment at `x = 0`, `y = offsetY`, advancing `offsetY` by
    the segment's height.
  */
  method Stitch(images: seq<Image>) returns (r: Result<Canvas, StitchError>)
    ensures |images| == 0 <==> r == Err(NoCaptures)
    ensures r.Ok? ==> r.value.width == images[0].width && r.value.height == SumHeights(images)
    ensures r.Ok? ==> |r.value.placements| == |images|
    ensures r.Ok? ==> forall k :: 0 <= k < |images| ==> r.value.placements[k] == Placement(0, Offsets(images)[k])
  {
    if |images| == 0 {
      return Err(NoCaptures);
    }
    var width := images[0].width;
    var height := 0;
    var k := 0;
    while k < |images|
      invariant 0 <= k <= |images|
      invariant height == SumHeights(images[..k])
    {
      assert images[..k + 1][..k] == images[..k];
      height := height + images[k].height;
      k := k + 1;
    }
    assert images[..k] == images;
    var placements: seq<Placement> := [];
    var offsetY := 0;
    k := 0;
    while k < |images|
      invariant 0 <= k <= |images|
      invariant offsetY == SumHeights(images[..k])
      invariant |placements| == k
      invariant forall j :: 0 <= j < k ==> placements[j] == Placement(0, SumHeights(images[..j]))
    {
      assert images[..k + 1][..k] == images[..k];
      placements := placements + [Placement(0, offsetY)];
      offsetY := offsetY + images[k].height;
      k := k + 1;
    }
    r := Ok(Canvas(width, height, placements));
  }

  /** Each segment starts where the one before it ends. */
  lemma OffsetsStep(images: seq<Image>, k: nat)
    requires k + 1 < |images|
    ensures Offsets(images)[k + 1] == Offsets(images)[k] + images[k].height
  {
    assert images[..k + 1][..k] == images[..k];
  }

  /** The running sum never decreases, so a longer prefix starts no higher. */
  lemma {:induction false} SumHeightsMono(images: seq<Image>, j: nat, k: nat)
    requires j <= k <= |images|
    ensures SumHeights(images[..j]) <= SumHeights(images[..k])
    decreases k - j
  {
    if j < k {
      SumHeightsMono(images, j, k - 1);
      assert images[..k][..k - 1] == images[..k - 1];
    }
  }

  /** Earlier segments end before later ones start: the segments never overlap on the canvas. */
  lemma OffsetsDisjoint(images: seq<Image>, j: nat, k: nat)
    requires j < k < |images|
    ensures Offsets(images)[j] + images[j].height <= Offsets(images)[k]
  {
    OffsetsStep(images, j);
    SumHeightsMono(images, j + 1, k);
  }

  /** The last segment ends exactly at the bottom of the canvas. */
  lemma OffsetsFill(images: seq<Image>)
    requires |images| > 0
    ensures var n := |images|; Offsets(images)[n - 1] + images[n - 1].height == SumHeights(images)
  {
    var n := |images|;
    assert images[..n] == images;
  }

  /** Captures of one viewport each stitch to a canvas `count * viewport` tall. */
  lemma {:induction false} UniformHeights(images: seq<Image>, viewport: nat)
    requires forall k :: 0 <= k < |images| ==> images[k].height == viewport
    ensures SumHeights(images) == |images| * viewport
    decreases |images|
  {
    if |images| > 0 {
      UniformHeights(images[..|images| - 1], viewport);
    }
  }
}

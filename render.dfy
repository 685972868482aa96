/** `cpu_ray_tracing`: dispatch of the workers over the partition, followed
    by the single-threaded post-pass over the buffer; and the corrected
    renderer that covers and clamps the whole image. */
module Render {
  import opened Pixels
  import opened Partitioner
  import opened Worker

  /** Both factors of a non-empty image are bounded by its size. */
  lemma FactorsBelowProduct(width: nat, height: nat)
    requires width >= 1 && height >= 1
    ensures width <= width * height && height <= width * height
  {
    MulMono(1, height, width);
    MulMono(1, width, height);
  }

  /** Pixel `i` after the three statements of the inner post-pass loop for
      row `j`. The x channel is scaled by `1 / width` and the z channel left
      unscaled, both read from pixel `i`; the y channel is read from pixel
      `j`, scaled by `1 / height`. Each is then clamped to [0, 1]. Writing the
      x channel first does not change what is read for y, since it is
      another channel. */
  function PostPixel(buf: seq<Float3>, i: nat, j: nat, width: nat, height: nat): (c: Float3)
    requires i < |buf| && j < |buf| && width > 0 && height > 0
    ensures InUnit(c)
  {
    Float3(Clamp(buf[i].x / width as real, 0.0, 1.0),
           Clamp(buf[j].y / height as real, 0.0, 1.0),
           Clamp(buf[i].z, 0.0, 1.0))
  }

  /** The buffer after the first `cols` iterations of the inner loop for row
      `j`: only pixels below `cols` are assigned, and each of them ends up
      clamped. */
  function RowPass(buf: seq<Float3>, j: nat, width: nat, height: nat, cols: nat): (r: seq<Float3>)
    requires j < height && cols <= width && |buf| >= width * height
    ensures |r| == |buf|
    ensures forall k :: cols <= k < |buf| ==> r[k] == buf[k]
    ensures forall k :: 0 <= k < cols ==> InUnit(r[k])
    decreases cols
  {
    if cols == 0 then buf
    else
      FactorsBelowProduct(width, height);
      var p := RowPass(buf, j, width, height, cols - 1);
      p[cols - 1 := PostPixel(p, cols - 1, j, width, height)]
  }

  /** The buffer after the first `rows` iterations of the outer loop, which
      visits rows `height - 1` down to `0`. Only the first row,
      `pixels[0 .. width)`, is ever assigned; after at least one row pass every
      channel of that row lies in [0, 1]. */
  function PostPass(buf: seq<Float3>, width: nat, height: nat, rows: nat): (r: seq<Float3>)
    requires rows <= height && |buf| >= width * height
    ensures |r| == |buf|
    ensures forall k :: width <= k < |buf| ==> r[k] == buf[k]
    ensures rows >= 1 ==> forall k :: 0 <= k < width ==> InUnit(r[k])
    decreases rows
  {
    if rows == 0 then buf
    else RowPass(PostPass(buf, width, height, rows - 1), height - rows, width, height, width)
  }

  /** The post-pass does not clamp the whole image: on a 1x2 image the second
      pixel keeps an out-of-range y channel. */
  lemma PostPassLeavesPixelUnclamped()
    ensures PostPass([Float3(0.0, 0.0, 0.0), Float3(0.0, 5.0, 0.0)], 1, 2, 2)[1] == Float3(0.0, 5.0, 0.0)
  {
  }

  /** The post-pass mixes pixels: on a 2x1 image the y channel of pixel 1 is
      taken from pixel 0 (row index 0), not from pixel 1. */
  lemma PostPassMixesPixels()
    ensures PostPass([Float3(0.0, 0.0, 0.0), Float3(0.0, 0.5, 0.0)], 2, 1, 1)[1].y == 0.0
  {
  }

  /** The post-pass of lines 101-110, in place on `pixels`. */
  method PostPassInPlace(pixels: array<Float3>, width: nat, height: nat)
    requires pixels.Length >= width * height
    modifies pixels
    ensures pixels[..] == PostPass(old(pixels[..]), width, height, height)
  {
    ghost var start := pixels[..];
    var j: int := height - 1;
    while j >= 0
      invariant -1 <= j <= height - 1
      invariant pixels[..] == PostPass(start, width, height, height - 1 - j)
    {
      ghost var before := pixels[..];
      assert before == PostPass(start, width, height, height - 1 - j);
      var i := 0;
      while i < width
        invariant 0 <= i <= width
        invariant pixels[..] == RowPass(before, j, width, height, i)
      {
        FactorsBelowProduct(width, height);
        ghost var cur := pixels[..];
        pixels[i] := pixels[i].(x := Clamp(pixels[i].x / width as real, 0.0, 1.0));
        pixels[i] := pixels[i].(y := Clamp(pixels[j].y / height as real, 0.0, 1.0));
        pixels[i] := pixels[i].(z := Clamp(pixels[i].z, 0.0, 1.0));
        assert pixels[..] == cur[i := PostPixel(cur, i, j, width, height)];
        i := i + 1;
      }
      j := j - 1;
    }
  }

  /** `cpu_ray_tracing` as written. The workers write the module-level buffer
      `globalPixels` (line 3, used at line 60), while the post-pass works on
      the `pixels` parameter, which shadows it; the two may or may not be the
      same array. Threads run sequentially in dispatch order; since any order
      gives the same buffer (`RunWorkersAnyOrder`), this loses nothing. */
  method CpuRayTracing(width: nat, height: nat, numThreads: int, globalPixels: array<Float3>,
                       pixels: array<Float3>, rayTrace: Shader) returns (r: array<Float3>)
    requires numThreads >= 1
    requires globalPixels.Length >= width * height && pixels.Length >= width * height
    modifies globalPixels, pixels
    ensures r == pixels
    ensures globalPixels != pixels ==>
      globalPixels[..] == RunWorkers(old(globalPixels[..]), Partition(width, height, numThreads), rayTrace) &&
      pixels[..] == PostPass(old(pixels[..]), width, height, height)
    ensures globalPixels == pixels ==>
      pixels[..] == PostPass(RunWorkers(old(pixels[..]), Partition(width, height, numThreads), rayTrace),
                             width, height, height)
  {
    ghost var parts := Partition(width, height, numThreads);
    ImageRangesFit(parts, width, height, globalPixels.Length);
    var threadData := new ThreadData[numThreads];
    var i := 0;
    while i < numThreads
      invariant 0 <= i <= numThreads
      invariant threadData[..i] == parts[..i]
      invariant globalPixels[..] == RunWorkers(old(globalPixels[..]), parts[..i], rayTrace)
      invariant globalPixels != pixels ==> pixels[..] == old(pixels[..])
    {
      var chunk := width * height / numThreads;
      threadData[i] := ThreadData(i * chunk, (i + 1) * chunk, width, height);
      assert threadData[i] == parts[i] && parts[i] in parts;
      RayTracing(threadData[i], globalPixels, rayTrace);
      assert parts[..i + 1][..i] == parts[..i];
      i := i + 1;
    }
    assert parts[..numThreads] == parts;
    PostPassInPlace(pixels, width, height);
    r := pixels;
  }

  /** Every pixel of the image clamped to [0, 1], in place. */
  method ClampImage(pixels: array<Float3>, total: nat)
    requires total <= pixels.Length
    modifies pixels
    ensures forall k :: 0 <= k < pixels.Length ==>
      pixels[k] == if k < total then ClampColor(old(pixels[k])) else old(pixels[k])
  {
    var k := 0;
    while k < total
      invariant 0 <= k <= total
      invariant forall m :: 0 <= m < pixels.Length ==>
        pixels[m] == if m < k then ClampColor(old(pixels[m])) else old(pixels[m])
    {
      pixels[k] := ClampColor(pixels[k]);
      k := k + 1;
    }
  }

  /** The dispatch loop over the corrected partition: one worker per range,
      run in dispatch order on the same buffer. */
  method DispatchCorrected(width: nat, height: nat, numThreads: int, pixels: array<Float3>, rayTrace: Shader)
    requires numThreads >= 1 && pixels.Length >= width * height
    modifies pixels
    ensures pixels[..] == RunWorkers(old(pixels[..]), CorrectedPartition(width, height, numThreads), rayTrace)
  {
    ghost var parts := CorrectedPartition(width, height, numThreads);
    ImageRangesFit(parts, width, height, pixels.Length);
    var i := 0;
    while i < numThreads
      invariant 0 <= i <= numThreads
      invariant pixels[..] == RunWorkers(old(pixels[..]), parts[..i], rayTrace)
    {
      var chunk := width * height / numThreads;
      var data := ThreadData(i * chunk, if i == numThreads - 1 then width * height else (i + 1) * chunk,
                             width, height);
      assert data == parts[i] && parts[i] in parts;
      RayTracing(data, pixels, rayTrace);
      assert parts[..i + 1][..i] == parts[..i];
      i := i + 1;
    }
    assert parts[..numThreads] == parts;
  }

  /** The corrected renderer: a worker count below one is refused before
      anything is written; otherwise the workers run over the corrected
      partition and every pixel of the image is clamped, so each holds its
      own clamped shaded colour. */
  method CpuRayTracingCorrected(width: nat, height: nat, numThreads: int, pixels: array<Float3>,
                                rayTrace: Shader) returns (ok: bool)
    requires pixels.Length >= width * height
    modifies pixels
    ensures ok <==> numThreads >= 1
    ensures !ok ==> pixels[..] == old(pixels[..])
    ensures ok ==> forall k :: 0 <= k < pixels.Length ==>
      pixels[k] == if k < width * height then ClampColor(ShadeAt(rayTrace, k, width, height)) else old(pixels[k])
    ensures ok ==> forall k :: 0 <= k < width * height ==> InUnit(pixels[k])
  {
    if numThreads < 1 {
      return false;
    }
    DispatchCorrected(width, height, numThreads, pixels, rayTrace);
    ghost var rendered := pixels[..];
    forall k | 0 <= k < pixels.Length
      ensures rendered[k] == if k < width * height then ShadeAt(rayTrace, k, width, height) else old(pixels[k])
    {
      RunCorrectedPartitionAt(old(pixels[..]), width, height, numThreads, rayTrace, k);
    }
    ClampImage(pixels, width * height);
    ok := true;
  }
}

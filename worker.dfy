/** The per-thread worker `ray_tracing` and what running several workers one
    after another does to the shared pixel buffer. The shading function
    `ray_trace` is a parameter: its floating-point numerics are not modelled. */
module Worker {
  import opened Pixels
  import opened Partitioner

  /** The shading function's shape: `(x, y, width, height)` to a colour. */
  type Shader = (int, int, int, int) -> Float3

  /** The range of `d` can be run on a buffer of `len` pixels without an
      out-of-bounds access or a division by zero. An empty or reversed range
      runs no iteration and so demands nothing. */
  predicate Fits(d: ThreadData, len: int)
  {
    d.start < d.end ==> 0 <= d.start && d.end <= len && d.width > 0
  }

  /** Every range of `rs` fits a buffer of `len` pixels and carries the grid
      size `width` by `height`. */
  predicate AllFit(rs: seq<ThreadData>, len: int, width: int, height: int)
  {
    forall d :: d in rs ==> Fits(d, len) && d.width == width && d.height == height
  }

  /** The colour the worker computes for flat index `k` of a `width` by
      `height` grid: the shade of the unique pixel `(x, y)` with
      `y * width + x == k`. */
  function ShadeAt(rayTrace: Shader, k: nat, width: nat, height: int): (c: Float3)
    requires width > 0
    ensures forall x: nat, y: nat :: x < width && FlatIndex(x, y, width) == k ==> c == rayTrace(x, y, width, height)
  {
    assert forall x: nat, y: nat :: x < width && FlatIndex(x, y, width) == k ==> PixelCoord(k, width) == (x, y) by {
      forall x: nat, y: nat | x < width && FlatIndex(x, y, width) == k {
        CoordRoundTrip(x, y, width);
      }
    }
    var (x, y) := PixelCoord(k, width);
    rayTrace(x, y, width, height)
  }

  /** The buffer after one worker has run over the range of `d`. */
  function Filled(buf: seq<Float3>, d: ThreadData, rayTrace: Shader): (r: seq<Float3>)
    requires Fits(d, |buf|)
    ensures |r| == |buf|
    ensures forall k :: 0 <= k < |buf| && !InRange(d, k) ==> r[k] == buf[k]
  {
    seq(|buf|, k requires 0 <= k < |buf| =>
      if InRange(d, k) then ShadeAt(rayTrace, k, d.width, d.height) else buf[k])
  }

  /** The buffer after the workers of `rs` have run one after another, in the
      order of `rs`. */
  function RunWorkers(buf: seq<Float3>, rs: seq<ThreadData>, rayTrace: Shader): (r: seq<Float3>)
    requires forall d :: d in rs ==> Fits(d, |buf|)
    ensures |r| == |buf|
    ensures forall k :: 0 <= k < |buf| && !Covered(rs, k) ==> r[k] == buf[k]
    decreases |rs|
  {
    if rs == [] then buf
    else
      var front := rs[..|rs| - 1];
      assert forall d :: d in front ==> d in rs;
      Filled(RunWorkers(buf, front, rayTrace), rs[|rs| - 1], rayTrace)
  }

  /** The worker `ray_tracing`: for each flat index of its range it decodes
      `(x, y)` and stores the shaded colour; no other pixel changes. */
  method RayTracing(data: ThreadData, pixels: array<Float3>, rayTrace: Shader)
    requires Fits(data, pixels.Length)
    modifies pixels
    ensures pixels[..] == Filled(old(pixels[..]), data, rayTrace)
  {
    var i := data.start;
    while i < data.end
      invariant data.start <= i
      invariant data.start < data.end ==> i <= data.end
      invariant data.start < data.end || i == data.start
      invariant forall k :: 0 <= k < pixels.Length ==>
        pixels[k] == if data.start <= k < i then ShadeAt(rayTrace, k, data.width, data.height) else old(pixels[k])
    {
      var x := i % data.width;
      var y := i / data.width;
      pixels[i] := rayTrace(x, y, data.width, data.height);
      i := i + 1;
    }
  }

  /** What any sequence of workers over one grid leaves in the buffer: pixel
      `k` holds its shaded colour when some range covers it, and its old
      value otherwise. Which worker wrote it, and in which order the workers
      ran, does not matter. */
  lemma {:induction false} RunWorkersAt(buf: seq<Float3>, rs: seq<ThreadData>, rayTrace: Shader,
                                        width: nat, height: int, k: int)
    requires AllFit(rs, |buf|, width, height)
    requires 0 <= k < |buf|
    ensures Covered(rs, k) ==> width > 0
    ensures RunWorkers(buf, rs, rayTrace)[k]
      == if Covered(rs, k) then ShadeAt(rayTrace, k, width, height) else buf[k]
  {
    if Covered(rs, k) {
      var d :| d in rs && InRange(d, k);
      assert Fits(d, |buf|);
    }
    if rs != [] {
      var front := rs[..|rs| - 1];
      var last := rs[|rs| - 1];
      assert forall d :: d in front ==> d in rs;
      assert rs == front + [last];
      RunWorkersAt(buf, front, rayTrace, width, height, k);
      assert Covered(rs, k) <==> Covered(front, k) || InRange(last, k);
    }
  }

  /** Running the same workers in any other order gives the same buffer. */
  lemma RunWorkersAnyOrder(buf: seq<Float3>, rs: seq<ThreadData>, rs': seq<ThreadData>,
                           rayTrace: Shader, width: nat, height: int)
    requires AllFit(rs, |buf|, width, height) && AllFit(rs', |buf|, width, height)
    requires multiset(rs) == multiset(rs')
    ensures RunWorkers(buf, rs, rayTrace) == RunWorkers(buf, rs', rayTrace)
  {
    forall k | 0 <= k < |buf|
      ensures RunWorkers(buf, rs, rayTrace)[k] == RunWorkers(buf, rs', rayTrace)[k]
    {
      RunWorkersAt(buf, rs, rayTrace, width, height, k);
      RunWorkersAt(buf, rs', rayTrace, width, height, k);
      assert forall d :: d in rs <==> d in multiset(rs);
      assert forall d :: d in rs' <==> d in multiset(rs');
      assert Covered(rs, k) <==> Covered(rs', k);
    }
  }

  /** Ranges of the image fit any buffer that holds the image. */
  lemma ImageRangesFit(rs: seq<ThreadData>, width: nat, height: nat, len: int)
    requires forall d :: d in rs ==> InImage(d, width, height)
    requires len >= width * height
    ensures AllFit(rs, len, width, height)
  {
  }

  /** After all workers of the partition have run, a pixel holds its shaded
      colour exactly when it lies below `numThreads * chunk`. */
  lemma RunPartitionAt(buf: seq<Float3>, width: nat, height: nat, numThreads: int,
                       rayTrace: Shader, k: int)
    requires numThreads >= 1 && |buf| >= width * height
    requires 0 <= k < |buf|
    ensures k < numThreads * (width * height / numThreads) ==> width > 0
    ensures RunWorkers(buf, Partition(width, height, numThreads), rayTrace)[k]
      == if k < numThreads * (width * height / numThreads) then ShadeAt(rayTrace, k, width, height) else buf[k]
  {
    var rs := Partition(width, height, numThreads);
    ImageRangesFit(rs, width, height, |buf|);
    PartitionCovers(width, height, numThreads, k);
    RunWorkersAt(buf, rs, rayTrace, width, height, k);
  }

  /** When `numThreads` divides `width * height`, rendering with
      `numThreads` workers gives the same buffer as rendering with one. */
  lemma {:induction false} DivisibleMatchesOneThread(buf: seq<Float3>, width: nat, height: nat,
                                  numThreads: int, rayTrace: Shader)
    requires numThreads >= 1 && |buf| >= width * height
    requires width * height % numThreads == 0
    ensures RunWorkers(buf, Partition(width, height, numThreads), rayTrace)
         == RunWorkers(buf, Partition(width, height, 1), rayTrace)
  {
    assert numThreads * (width * height / numThreads) == width * height;
    assert 1 * (width * height / 1) == width * height;
    forall k | 0 <= k < |buf|
      ensures RunWorkers(buf, Partition(width, height, numThreads), rayTrace)[k]
           == RunWorkers(buf, Partition(width, height, 1), rayTrace)[k]
    {
      RunPartitionAt(buf, width, height, numThreads, rayTrace, k);
      RunPartitionAt(buf, width, height, 1, rayTrace, k);
    }
  }

  /** A 64x64 image renders the same on eight workers as on one. */
  lemma EightThreadsMatchOne(buf: seq<Float3>, rayTrace: Shader)
    requires |buf| == 64 * 64
    ensures RunWorkers(buf, Partition(64, 64, 8), rayTrace) == RunWorkers(buf, Partition(64, 64, 1), rayTrace)
  {
    DivisibleMatchesOneThread(buf, 64, 64, 8, rayTrace);
  }

  /** With the corrected partition every pixel of the image holds its shaded
      colour, for any number of workers, and the rest of the buffer is
      untouched. */
  lemma RunCorrectedPartitionAt(buf: seq<Float3>, width: nat, height: nat, numThreads: int,
                                rayTrace: Shader, k: int)
    requires numThreads >= 1 && |buf| >= width * height
    requires 0 <= k < |buf|
    ensures k < width * height ==> width > 0
    ensures RunWorkers(buf, CorrectedPartition(width, height, numThreads), rayTrace)[k]
      == if k < width * height then ShadeAt(rayTrace, k, width, height) else buf[k]
  {
    var rs := CorrectedPartition(width, height, numThreads);
    ImageRangesFit(rs, width, height, |buf|);
    CorrectedPartitionCovers(width, height, numThreads, k);
    RunWorkersAt(buf, rs, rayTrace, width, height, k);
  }
}

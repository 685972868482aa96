/** The static work partitioner of `cpu_ray_tracing`: the flat pixel range
    `[0, width * height)` is cut into `numThreads` slices of
    `width * height / numThreads` pixels each. */
module Partitioner {
  import opened Pixels

  /** The source's `ThreadData`: a half-open range of flat pixel indices and
      the grid size needed to recover `(x, y)` from an index. */
  datatype ThreadData = ThreadData(start: int, end: int, width: int, height: int)

  /** Flat index `k` lies in the range of `d`. */
  predicate InRange(d: ThreadData, k: int)
  {
    d.start <= k < d.end
  }

  /** Some range of `rs` contains `k`: some worker writes pixel `k`. */
  predicate Covered(rs: seq<ThreadData>, k: int)
  {
    exists d :: d in rs && InRange(d, k)
  }

  /** `d` is a range of the `width` by `height` image: it lies inside
      `[0, width * height)`, is not reversed and carries the image's size. */
  predicate InImage(d: ThreadData, width: nat, height: nat)
  {
    0 <= d.start <= d.end <= width * height && d.width == width && d.height == height
  }

  /** The range of worker `i`, exactly as the dispatch loop computes it. */
  function Slice(i: int, width: nat, height: nat, numThreads: int): (d: ThreadData)
    requires numThreads >= 1
    ensures d.end == d.start + width * height / numThreads
    ensures d.width == width && d.height == height
  {
    var chunk := width * height / numThreads;
    ThreadData(i * chunk, (i + 1) * chunk, width, height)
  }

  /** Every range lies inside the image and is not reversed, so no worker
      indexes outside the buffer. */
  lemma SliceInImage(i: int, width: nat, height: nat, numThreads: int)
    requires 0 <= i < numThreads
    ensures InImage(Slice(i, width, height, numThreads), width, height)
  {
    var chunk := width * height / numThreads;
    MulMono(0, i, chunk);
    MulMono(i, i + 1, chunk);
    MulMono(i + 1, numThreads, chunk);
  }

  /** The ranges of all workers, in dispatch order. */
  function Partition(width: nat, height: nat, numThreads: int): (r: seq<ThreadData>)
    requires numThreads >= 1
    ensures |r| == numThreads
    ensures forall d :: d in r ==> InImage(d, width, height)
  {
    assert forall i :: 0 <= i < numThreads ==> InImage(Slice(i, width, height, numThreads), width, height) by {
      forall i | 0 <= i < numThreads {
        SliceInImage(i, width, height, numThreads);
      }
    }
    seq(numThreads, i requires 0 <= i < numThreads => Slice(i, width, height, numThreads))
  }

  /** Shape of the partition: it starts at 0, each range ends where the next
      one starts, each holds `width * height / numThreads` pixels, and the last
      one ends at `numThreads * chunk`, which falls short of the image size by
      exactly `width * height % numThreads`. */
  lemma PartitionShape(width: nat, height: nat, numThreads: int)
    requires numThreads >= 1
    ensures Partition(width, height, numThreads)[0].start == 0
    ensures forall i :: 0 <= i < numThreads - 1 ==>
      Partition(width, height, numThreads)[i].end == Partition(width, height, numThreads)[i + 1].start
    ensures forall i :: 0 <= i < numThreads ==>
      Partition(width, height, numThreads)[i].end - Partition(width, height, numThreads)[i].start
        == width * height / numThreads
    ensures Partition(width, height, numThreads)[numThreads - 1].end
      == numThreads * (width * height / numThreads)
      == width * height - width * height % numThreads
  {
    var r := Partition(width, height, numThreads);
    var chunk := width * height / numThreads;
    forall i | 0 <= i < numThreads
      ensures r[i].end - r[i].start == chunk
    {
      assert (i + 1) * chunk == i * chunk + chunk;
    }
  }

  /** With a 32-bit `width * height`, every start and end index also fits in
      a 32-bit `int`: the index arithmetic of the dispatch loop cannot overflow. */
  lemma PartitionNoOverflow(width: nat, height: nat, numThreads: int)
    requires numThreads >= 1 && width * height <= Int32Max
    ensures forall i :: 0 <= i < numThreads ==>
      0 <= Partition(width, height, numThreads)[i].start <= Int32Max &&
      0 <= Partition(width, height, numThreads)[i].end <= Int32Max
  {
    var r := Partition(width, height, numThreads);
    forall i | 0 <= i < numThreads
      ensures 0 <= r[i].start && r[i].end <= Int32Max
    {
      assert r[i] in r;
    }
  }

  /** Distinct workers never share a pixel: the ranges are pairwise disjoint. */
  lemma PartitionDisjoint(width: nat, height: nat, numThreads: int)
    requires numThreads >= 1
    ensures forall i, j, k ::
      (0 <= i < numThreads && 0 <= j < numThreads &&
       InRange(Partition(width, height, numThreads)[i], k) &&
       InRange(Partition(width, height, numThreads)[j], k)) ==> i == j
  {
    var r := Partition(width, height, numThreads);
    var chunk := width * height / numThreads;
    forall i, j, k | 0 <= i < numThreads && 0 <= j < numThreads && InRange(r[i], k) && InRange(r[j], k)
      ensures i == j
    {
      if i < j {
        MulMono(i + 1, j, chunk);
      } else if j < i {
        MulMono(j + 1, i, chunk);
      }
    }
  }

  /** A pixel is written by some worker exactly when it lies below
      `numThreads * chunk`. */
  lemma PartitionCovers(width: nat, height: nat, numThreads: int, k: int)
    requires numThreads >= 1
    ensures Covered(Partition(width, height, numThreads), k)
      <==> 0 <= k < numThreads * (width * height / numThreads)
  {
    var r := Partition(width, height, numThreads);
    var chunk := width * height / numThreads;
    if 0 <= k < numThreads * chunk {
      var i := k / chunk;
      assert i * chunk <= k < (i + 1) * chunk;
      if i >= numThreads {
        MulMono(numThreads, i, chunk);
        assert false;
      }
      assert r[i] in r && InRange(r[i], k);
    }
    if Covered(r, k) {
      var d :| d in r && InRange(d, k);
      var i :| 0 <= i < numThreads && r[i] == d;
      MulMono(0, i, chunk);
      MulMono(i + 1, numThreads, chunk);
    }
  }

  /** Every pixel of the image is written if and only if `numThreads` divides
      `width * height`; otherwise the last `width * height % numThreads` pixels
      are never written. */
  lemma PartitionExactIffDivisible(width: nat, height: nat, numThreads: int)
    requires numThreads >= 1
    ensures (forall k :: 0 <= k < width * height ==> Covered(Partition(width, height, numThreads), k))
      <==> width * height % numThreads == 0
    ensures forall k :: width * height - width * height % numThreads <= k < width * height ==>
      !Covered(Partition(width, height, numThreads), k)
  {
    var total := width * height;
    assert numThreads * (total / numThreads) == total - total % numThreads;
    forall k
      ensures Covered(Partition(width, height, numThreads), k) <==> 0 <= k < total - total % numThreads
    {
      PartitionCovers(width, height, numThreads, k);
    }
    if total % numThreads != 0 {
      assert !Covered(Partition(width, height, numThreads), total - 1);
    }
  }

  /** A concrete instance of the gap: a 3x1 image on two workers gets the
      ranges [0, 1) and [1, 2), and pixel 2 is never written. */
  lemma PartitionGapExample()
    ensures Partition(3, 1, 2) == [ThreadData(0, 1, 3, 1), ThreadData(1, 2, 3, 1)]
    ensures !Covered(Partition(3, 1, 2), 2)
  {
    PartitionCovers(3, 1, 2, 2);
  }

  /** The corrected range of worker `i`: as `Slice`, except that the last
      worker's range extends to the end of the image. */
  function CorrectedSlice(i: int, width: nat, height: nat, numThreads: int): (d: ThreadData)
    requires numThreads >= 1
    ensures i == numThreads - 1 ==> d.end == width * height
    ensures d.width == width && d.height == height
  {
    var chunk := width * height / numThreads;
    ThreadData(i * chunk, if i == numThreads - 1 then width * height else (i + 1) * chunk, width, height)
  }

  /** The corrected ranges stay inside the image and are not reversed. */
  lemma CorrectedSliceInImage(i: int, width: nat, height: nat, numThreads: int)
    requires 0 <= i < numThreads
    ensures InImage(CorrectedSlice(i, width, height, numThreads), width, height)
  {
    var chunk := width * height / numThreads;
    MulMono(0, i, chunk);
    MulMono(i, i + 1, chunk);
    MulMono(i + 1, numThreads, chunk);
  }

  /** The corrected ranges of all workers, in dispatch order. */
  function CorrectedPartition(width: nat, height: nat, numThreads: int): (r: seq<ThreadData>)
    requires numThreads >= 1
    ensures |r| == numThreads
    ensures forall d :: d in r ==> InImage(d, width, height)
    ensures r[0].start == 0
    ensures forall i :: 0 <= i < numThreads - 1 ==> r[i].end == r[i + 1].start
    ensures r[numThreads - 1].end == width * height
  {
    assert forall i :: 0 <= i < numThreads ==> InImage(CorrectedSlice(i, width, height, numThreads), width, height) by {
      forall i | 0 <= i < numThreads {
        CorrectedSliceInImage(i, width, height, numThreads);
      }
    }
    seq(numThreads, i requires 0 <= i < numThreads => CorrectedSlice(i, width, height, numThreads))
  }

  /** The corrected ranges cover every pixel of the image, and nothing else,
      whether or not `numThreads` divides `width * height`. */
  lemma CorrectedPartitionCovers(width: nat, height: nat, numThreads: int, k: int)
    requires numThreads >= 1
    ensures Covered(CorrectedPartition(width, height, numThreads), k) <==> 0 <= k < width * height
  {
    var r := CorrectedPartition(width, height, numThreads);
    if 0 <= k < width * height {
      var i := CorrectedOwner(width * height, numThreads, k);
      assert r[i] == CorrectedSlice(i, width, height, numThreads);
      assert r[i] in r && InRange(r[i], k);
    }
  }

  /** The worker whose corrected range holds index `k` of a `total`-pixel image. */
  lemma CorrectedOwner(total: nat, numThreads: int, k: int) returns (i: int)
    requires numThreads >= 1 && 0 <= k < total
    ensures 0 <= i < numThreads
    ensures i * (total / numThreads) <= k
    ensures k < (if i == numThreads - 1 then total else (i + 1) * (total / numThreads))
  {
    var chunk := total / numThreads;
    var last := numThreads - 1;
    if k < last * chunk {
      i := k / chunk;
      assert i * chunk <= k < (i + 1) * chunk;
      if i >= last {
        MulMono(last, i, chunk);
        assert false;
      }
    } else {
      i := last;
    }
  }

  /** Distinct corrected ranges never share a pixel. */
  lemma CorrectedPartitionDisjoint(width: nat, height: nat, numThreads: int)
    requires numThreads >= 1
    ensures forall i, j, k ::
      (0 <= i < numThreads && 0 <= j < numThreads &&
       InRange(CorrectedPartition(width, height, numThreads)[i], k) &&
       InRange(CorrectedPartition(width, height, numThreads)[j], k)) ==> i == j
  {
    var r := CorrectedPartition(width, height, numThreads);
    var chunk := width * height / numThreads;
    forall i, j, k | 0 <= i < numThreads && 0 <= j < numThreads && InRange(r[i], k) && InRange(r[j], k)
      ensures i == j
    {
      if i < j {
        MulMono(i + 1, j, chunk);
      } else if j < i {
        MulMono(j + 1, i, chunk);
      }
    }
  }
}

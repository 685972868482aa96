# CPU ray-tracing core, modelled in Dafny

This project models the CPU renderer of a small ray tracer. The renderer draws one sphere lit by one point light. The model covers four parts of `ray_tracing/src/cpu.c`:

- **Work partitioner.** The dispatch loop of `cpu_ray_tracing` cuts the flat pixel range `[0, width*height)` into `num_threads` slices. Each slice holds `width*height / num_threads` pixels and is described by a `ThreadData` record (`start`, `end`, `width`, `height`).
- **Worker.** `ray_tracing` visits every flat index `i` of its slice. It decodes `(x, y) = (i % width, i / width)` and stores `ray_trace(x, y, width, height)` into the shared buffer.
- **`clamp`.** It uses comparisons only. Float channels are modelled as exact reals.
- **Post-pass.** After the join, a nested loop over rows `j = height-1 .. 0` and columns `i = 0 .. width-1` scales and clamps the channels of `pixels[i]`.

The shading function `ray_trace` is a parameter of type `Shader = (int, int, int, int) -> Float3`, so its numerics are not modelled. The threads run one after another, in dispatch order. They write disjoint ranges, and the model proves that any order of the workers gives the same buffer.

Modules, one per component:

- `Pixels` (`pixels.dfy`): `Float3`, `Clamp` and the index-to-coordinate map.
- `Partitioner` (`partitioner.dfy`): `ThreadData`, the partition as written and the corrected partition.
- `Worker` (`worker.dfy`): the worker method and `RunWorkers`, the specification of several workers run in sequence.
- `Render` (`render.dfy`): the post-pass, `cpu_ray_tracing`, and a corrected renderer.

The renderer is meant to write every pixel exactly once, to leave every channel of the returned buffer in `[0, 1]`, and to refuse a thread count below one. The code does otherwise in three places, and the model follows the code:

- The partition leaves the last `width*height % num_threads` pixels unwritten.
- The post-pass clamps only the first row. The y channel of pixel `i` is read from pixel `j`, the row number; only when `i == j` is it the pixel's own.
- A thread count below one is not checked. It sizes the arrays `threads` and `thread_data` (lines 77-78), and a variable-length array of size zero or less is undefined behaviour in C. The division at line 84 sits inside the loop and never runs for such a count. `CpuRayTracing` therefore requires `numThreads >= 1`.

The first two are listed under "## Findings". `CorrectedPartition` and `CpuRayTracingCorrected` model the intended behaviour.

One detail of the source matters here: `cpu_ray_tracing`'s parameter `pixels` shadows the module-level buffer `pixels` (line 3). The workers write the module-level buffer (line 60), and the post-pass works on the parameter. `CpuRayTracing` therefore takes two arrays, `globalPixels` and `pixels`. Its contract covers both the case where they are the same array and the case where they are distinct.

## Model

| member | source | states |
|---|---|---|
| `Pixels.Clamp` | ray_tracing/src/cpu.c:65-72 | the result is `min`, `max` or `val`; with `min <= max` it lies in `[min, max]`; a `val` already in range is returned unchanged |
| `Pixels.ClampIsNearest` | ray_tracing/src/cpu.c:65-72 | the clamped value is the point of `[min, max]` closest to `val` |
| `Pixels.ClampIdempotent` | ray_tracing/src/cpu.c:65-72 | clamping twice gives the same value as clamping once |
| `Pixels.ClampMonotone` | ray_tracing/src/cpu.c:65-72 | clamping preserves the order of its inputs |
| `Pixels.ClampColor` | ray_tracing/src/cpu.c:105-107 | per-pixel clamp of the corrected post-pass: every channel lands in `[0, 1]`, and a colour already in range is unchanged |
| `Pixels.PixelCoord` | ray_tracing/src/cpu.c:58-59 | `x = i % width` is below `width`, and `y * width + x` rebuilds `i` |
| `Pixels.CoordInImage` | ray_tracing/src/cpu.c:58-59 | for `i < width*height` the decoded row `y` is below `height`, and re-encoding gives `i` |
| `Pixels.CoordRoundTrip` | ray_tracing/src/cpu.c:58-59 | decoding the flat index `y*width + x` (with `x < width`) gives back `(x, y)` |
| `Pixels.FlatIndexInImage` | ray_tracing/src/cpu.c:58-59 | every pixel `(x, y)` of the image has a flat index below `width*height` |
| `Partitioner.Slice` | ray_tracing/src/cpu.c:84-87 | the range of worker `i` spans exactly `width*height / num_threads` indices (its end is its start plus the chunk) and carries the image's width and height |
| `Partitioner.Partition` | ray_tracing/src/cpu.c:82-87 | `num_threads` ranges, each inside `[0, width*height)`, not reversed, and carrying the image's width and height |
| `Partitioner.SliceInImage` | ray_tracing/src/cpu.c:84-85 | range `i < num_threads` satisfies `0 <= start <= end <= width*height` |
| `Partitioner.PartitionShape` | ray_tracing/src/cpu.c:84-85 | the first range starts at 0; range `i` ends where range `i+1` starts; every range has `width*height / num_threads` pixels; the last ends at `num_threads * chunk == width*height - width*height % num_threads` |
| `Partitioner.PartitionNoOverflow` | ray_tracing/src/cpu.c:84-85 | if `width*height` fits a 32-bit `int`, every start and end index fits too |
| `Partitioner.PartitionDisjoint` | ray_tracing/src/cpu.c:84-85 | two workers whose ranges share an index are the same worker |
| `Partitioner.PartitionCovers` | ray_tracing/src/cpu.c:82-85 | index `k` is covered by some range if and only if `0 <= k < num_threads * (width*height / num_threads)` |
| `Partitioner.PartitionExactIffDivisible` | ray_tracing/src/cpu.c:82-85 | every pixel is covered if and only if `num_threads` divides `width*height`; the last `width*height % num_threads` pixels are never covered |
| `Partitioner.PartitionGapExample` | ray_tracing/src/cpu.c:84-85 | a 3x1 image on two workers gets ranges `[0,1)` and `[1,2)`, so pixel 2 is missed |
| `Partitioner.CorrectedSliceInImage` | ray_tracing/src/cpu.c:84-85 | each corrected range lies inside the image and is not reversed |
| `Partitioner.CorrectedSlice` | ray_tracing/src/cpu.c:84-87 | corrected range of worker `i`: the last worker's range ends at `width*height`; every range carries the image's width and height |
| `Partitioner.CorrectedPartition` | ray_tracing/src/cpu.c:82-87 | corrected partition: `num_threads` ranges, each inside the image and not reversed; the first starts at 0, each ends where the next starts, and the last ends at `width*height` |
| `Partitioner.CorrectedPartitionCovers` | ray_tracing/src/cpu.c:84-85 | the corrected ranges cover index `k` if and only if `0 <= k < width*height`, for every thread count |
| `Partitioner.CorrectedOwner` | ray_tracing/src/cpu.c:84-85 | every index `k` of the image has a worker `i < num_threads` whose corrected range holds it |
| `Partitioner.CorrectedPartitionDisjoint` | ray_tracing/src/cpu.c:84-85 | corrected ranges are pairwise disjoint |
| `Worker.ShadeAt` | ray_tracing/src/cpu.c:58-60 | the colour stored at flat index `k` is `ray_trace(x, y, width, height)` for every `(x, y)` with `x < width` and `y*width + x == k`, i.e. the unique pixel that `k` names |
| `Worker.Filled` | ray_tracing/src/cpu.c:56-61 | one worker's effect on the buffer: the length is kept and every index outside its range `[start, end)` keeps its value |
| `Worker.RunWorkers` | ray_tracing/src/cpu.c:82-94 | workers run one after another: the length is kept and an index that no range covers keeps its value |
| `Worker.RayTracing` | ray_tracing/src/cpu.c:53-63 | in place: every `k` of `[start, end)` holds `ray_trace(k % width, k / width, width, height)`, and every other element keeps its old value |
| `Worker.RunWorkersAt` | ray_tracing/src/cpu.c:82-94 | after any sequence of workers over one grid, pixel `k` holds its shaded colour if some range covers it, and its old value otherwise |
| `Worker.RunWorkersAnyOrder` | ray_tracing/src/cpu.c:82-94 | running the same workers in any permuted order gives the same buffer |
| `Worker.ImageRangesFit` | ray_tracing/src/cpu.c:84-87 | ranges of the image can be run on any buffer holding the image without an out-of-bounds access or a division by zero |
| `Worker.RunPartitionAt` | ray_tracing/src/cpu.c:82-94 | after the partition's workers run, pixel `k` is shaded exactly when `k < num_threads * chunk`, and untouched otherwise |
| `Worker.DivisibleMatchesOneThread` | ray_tracing/src/cpu.c:82-94 | when `num_threads` divides `width*height`, the buffer equals the one-thread buffer |
| `Worker.EightThreadsMatchOne` | ray_tracing/src/cpu.c:82-94 | a 64x64 image renders the same on eight workers as on one |
| `Worker.RunCorrectedPartitionAt` | ray_tracing/src/cpu.c:82-94 | with the corrected partition every image pixel is shaded and any pixel past the image is untouched |
| `Render.PostPixel` | ray_tracing/src/cpu.c:105-107 | the pixel written by one inner-loop iteration has every channel in `[0, 1]` |
| `Render.RowPass` | ray_tracing/src/cpu.c:103-109 | the first `cols` inner iterations for row `j` assign only below `cols`, and leave every channel of those pixels in `[0, 1]` |
| `Render.PostPass` | ray_tracing/src/cpu.c:101-110 | the nested post-pass assigns only to `pixels[0..width)`: every index `>= width` keeps its value; after at least one row pass every channel of the first row lies in `[0, 1]` |
| `Render.PostPassLeavesPixelUnclamped` | ray_tracing/src/cpu.c:101-107 | on a 1x2 image the second pixel can keep a y channel of 5 |
| `Render.PostPassMixesPixels` | ray_tracing/src/cpu.c:106 | on a 2x1 image the y channel of pixel 1 is taken from pixel 0 |
| `Render.PostPassInPlace` | ray_tracing/src/cpu.c:101-110 | in place: the loop leaves the buffer equal to `PostPass` of the old buffer over all `height` rows |
| `Render.CpuRayTracing` | ray_tracing/src/cpu.c:74-114 | returns `pixels`. For distinct arrays, the module-level buffer equals all partition workers run on its old contents, and `pixels` equals the post-pass of its old contents. For one shared array, the result is the post-pass of the workers' result |
| `Render.ClampImage` | ray_tracing/src/cpu.c:101-107 | corrected post-pass: each of the first `total` pixels is clamped; all other pixels keep their old value |
| `Render.DispatchCorrected` | ray_tracing/src/cpu.c:82-94 | in place: the dispatch loop over the corrected ranges leaves the buffer equal to `RunWorkers` of the old buffer over `CorrectedPartition` |
| `Render.CpuRayTracingCorrected` | ray_tracing/src/cpu.c:74-114 | a thread count below one is refused with the buffer unchanged. Otherwise every image pixel holds its own shaded colour clamped to `[0, 1]`, and pixels past the image are unchanged |

## Left out

- `ray_trace` (lines 5-51): ray-sphere intersection and Lambertian shading in single-precision floats with `sqrt`. It is an arbitrary total function parameter. Nothing about its colours (black on a miss, diffuse in `[0, 1]`) is modelled.
- Floating point: channels are exact reals. Rounding, NaN and infinities are not modelled. This includes the float division by `width` and `height` in the post-pass.
- Threads: `pthread_create` (line 88) and `pthread_join` (line 93) are replaced by sequential worker calls in dispatch order. Interleavings are not modelled. Each worker writes only its own range, and `RunWorkersAnyOrder` shows that the order does not matter.
- A failed `pthread_create` is not modelled. The source does not check its return value.
- Timing and printing: `clock` and `printf` (lines 80, 96-99, 108) have no effect on the buffer.
- Integer width: indices are unbounded integers. `width * height` overflowing a 32-bit `int` is undefined behaviour in the source. `PartitionNoOverflow` shows that no index overflows once `width * height` fits.
- Negative dimensions: `width` and `height` are natural numbers, since the renderer is meant for positive image sizes (the only caller passes 1920 by 1080). With a negative `width` C's truncating `%` and `/` would differ from the model's; that case is not modelled.
- The buffers must hold at least `width*height` pixels. The source does not allocate them itself, and no caller allocates them: the module-level `pixels` (line 3) is assigned neither in `cpu.c` nor in `ray_tracing/main.c` (the GPU backend has a local buffer of the same name), so as a zero-initialised global it is a null pointer and line 60 would write through it. `ray_tracing/main.c:9` calls `cpu_ray_tracing` through the three-parameter declaration of `cpu.h`, so the fourth argument is indeterminate. `CpuRayTracing` takes both buffers as valid arrays of sufficient length; the null and indeterminate pointers are not modelled.
- The GPU backend (`gpu.c`, `0227/main.c`), the file writer (`filewriter.c`) and the entry point (`ray_tracing/main.c`) are not part of this model. They are OpenCL plumbing, file I/O, and calls with fixed sizes.
- `cpu.h` declares `cpu_ray_tracing` with three parameters, while `cpu.c` defines it with four. The model follows the definition.
- `CpuRayTracingCorrected` clamps each channel without the post-pass's division by `width` and `height`. That scaling has no evident purpose.

## Findings

| source | as written | input that shows it | evidently intended | confidence | as-written member | corrected member |
|---|---|---|---|---|---|---|
| ray_tracing/src/cpu.c:84-85 | every range has `width*height / num_threads` pixels, so the last `width*height % num_threads` pixels are never written | `width = 3`, `height = 1`, `num_threads = 2`: ranges `[0,1)` and `[1,2)`; pixel 2 is never rendered | the last range ends at `width*height`, so every pixel is written exactly once | high; not executed | `Partitioner.PartitionGapExample` | `Partitioner.CorrectedPartitionCovers` |
| ray_tracing/src/cpu.c:101-107 | the post-pass indexes `pixels[i]` with `i < width`, so it only ever touches the first row; line 106 reads the y channel of `pixels[j]`, with `j` a row number | `width = 1`, `height = 2`, buffer `[(0,0,0), (0,5,0)]`: pixel 1 keeps y = 5, outside `[0, 1]` | every channel of every pixel is clamped to `[0, 1]`, each read from its own pixel | medium; not executed | `Render.PostPassLeavesPixelUnclamped` | `Render.CpuRayTracingCorrected` |

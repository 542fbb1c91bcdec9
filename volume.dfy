/**
 * The in-memory volume: a stack of equally sized 8-bit grey-level slices
 * (`std::vector<cv::Mat>` of `CV_8UC1` matrices), voxel coordinates (`Vec3`),
 * the bounding box of a volume and the raster (z, then y, then x) order in
 * which every analysis scans it.
 */
module Volume {

  /** One grey level (`uchar`). */
  type Byte = x: int | 0 <= x < 256

  datatype Option<T> = None | Some(value: T)

  /** A single-channel matrix: `rows` x `cols` cells, stored row by row. */
  datatype Mat = Mat(rows: nat, cols: nat, px: seq<seq<Byte>>)

  predicate Rectangular(m: Mat) {
    |m.px| == m.rows && forall y :: 0 <= y < |m.px| ==> |m.px[y]| == m.cols
  }

  /** A `cv::Mat` always holds exactly `rows` rows of `cols` cells. */
  type Slice = m: Mat | Rectangular(m) witness Mat(0, 0, [])

  /** `std::vector<cv::Mat>`: slice z is layer z of the volume. */
  type Vol = seq<Slice>

  /** A voxel coordinate (z, y, x). */
  datatype Vec3 = Vec3(z: int, y: int, x: int)

  /** Every slice has the size of slice 0. */
  predicate Uniform(vol: Vol) {
    forall z :: 0 <= z < |vol| ==> vol[z].rows == vol[0].rows && vol[z].cols == vol[0].cols
  }

  /** What the analyses other than is3DConnected assume of their input. */
  predicate Valid(vol: Vol) {
    |vol| >= 1 && Uniform(vol)
  }

  function Height(vol: Vol): nat
    requires |vol| >= 1
  {
    vol[0].rows
  }

  function Width(vol: Vol): nat
    requires |vol| >= 1
  {
    vol[0].cols
  }

  /** `isInside` of the analysis engine. */
  predicate IsInside(z: int, y: int, x: int, d: int, h: int, w: int) {
    z >= 0 && z < d && y >= 0 && y < h && x >= 0 && x < w
  }

  /** The voxel exists in the volume (measured against its own slice). */
  predicate InBox(vol: Vol, v: Vec3) {
    0 <= v.z < |vol| && 0 <= v.y < vol[v.z].rows && 0 <= v.x < vol[v.z].cols
  }

  function At(vol: Vol, v: Vec3): Byte
    requires InBox(vol, v)
  {
    vol[v.z].px[v.y][v.x]
  }

  /** All voxels of the volume. */
  ghost function Box(vol: Vol): set<Vec3> {
    set z, y, x | 0 <= z < |vol| && 0 <= y < vol[z].rows && 0 <= x < vol[z].cols :: Vec3(z, y, x)
  }

  lemma BoxMembership(vol: Vol, v: Vec3)
    ensures v in Box(vol) <==> InBox(vol, v)
  {
    if InBox(vol, v) {
      assert v == Vec3(v.z, v.y, v.x);
    }
  }

  lemma InBoxUniform(vol: Vol, v: Vec3)
    requires Valid(vol)
    ensures InBox(vol, v) <==> IsInside(v.z, v.y, v.x, |vol|, Height(vol), Width(vol))
  {
  }

  /** v comes strictly before (z, y, x) in raster order. */
  predicate Before(v: Vec3, z: int, y: int, x: int) {
    v.z < z || (v.z == z && (v.y < y || (v.y == y && v.x < x)))
  }

  /** The voxels a raster scan has passed when it stands at (z, y, x). */
  ghost function Prefix(vol: Vol, z: int, y: int, x: int): set<Vec3> {
    set v | v in Box(vol) && Before(v, z, y, x)
  }

  lemma PrefixStep(vol: Vol, z: int, y: int, x: int)
    requires InBox(vol, Vec3(z, y, x))
    ensures Prefix(vol, z, y, x + 1) == Prefix(vol, z, y, x) + {Vec3(z, y, x)}
    ensures Vec3(z, y, x) !in Prefix(vol, z, y, x)
    ensures |Prefix(vol, z, y, x + 1)| == |Prefix(vol, z, y, x)| + 1
  {
    BoxMembership(vol, Vec3(z, y, x));
    assert Prefix(vol, z, y, x + 1) == Prefix(vol, z, y, x) + {Vec3(z, y, x)};
  }

  lemma PrefixEndOfRow(vol: Vol, z: int, y: int)
    requires Valid(vol) && 0 <= z < |vol|
    ensures Prefix(vol, z, y, Width(vol)) == Prefix(vol, z, y + 1, 0)
  {
    forall v | v in Box(vol)
      ensures Before(v, z, y, Width(vol)) <==> Before(v, z, y + 1, 0)
    {
      BoxMembership(vol, v);
    }
  }

  lemma PrefixEndOfSlice(vol: Vol, z: int)
    requires Valid(vol)
    ensures Prefix(vol, z, Height(vol), 0) == Prefix(vol, z + 1, 0, 0)
  {
    forall v | v in Box(vol)
      ensures Before(v, z, Height(vol), 0) <==> Before(v, z + 1, 0, 0)
    {
      BoxMembership(vol, v);
    }
  }

  lemma PrefixStart(vol: Vol)
    ensures Prefix(vol, 0, 0, 0) == {}
  {
    forall v | v in Box(vol) ensures !Before(v, 0, 0, 0) {
      BoxMembership(vol, v);
    }
  }

  lemma PrefixAll(vol: Vol)
    ensures Prefix(vol, |vol|, 0, 0) == Box(vol)
  {
    forall v | v in Box(vol) ensures Before(v, |vol|, 0, 0) {
      BoxMembership(vol, v);
    }
  }

  lemma {:induction false} RowPrefixCount(vol: Vol, z: int, y: int, x: int)
    requires Valid(vol) && 0 <= z < |vol| && 0 <= y < Height(vol) && 0 <= x <= Width(vol)
    ensures |Prefix(vol, z, y, x)| == |Prefix(vol, z, y, 0)| + x
  {
    if x > 0 {
      RowPrefixCount(vol, z, y, x - 1);
      PrefixStep(vol, z, y, x - 1);
    }
  }

  lemma {:induction false} LayerPrefixCount(vol: Vol, z: int, y: int)
    requires Valid(vol) && 0 <= z < |vol| && 0 <= y <= Height(vol)
    ensures |Prefix(vol, z, y, 0)| == |Prefix(vol, z, 0, 0)| + y * Width(vol)
  {
    if y > 0 {
      LayerPrefixCount(vol, z, y - 1);
      RowPrefixCount(vol, z, y - 1, Width(vol));
      PrefixEndOfRow(vol, z, y - 1);
      assert (y - 1) * Width(vol) + Width(vol) == y * Width(vol);
    }
  }

  lemma {:induction false} PrefixCount(vol: Vol, z: int)
    requires Valid(vol) && 0 <= z <= |vol|
    ensures |Prefix(vol, z, 0, 0)| == z * (Height(vol) * Width(vol))
  {
    if z == 0 {
      PrefixStart(vol);
    } else {
      PrefixCount(vol, z - 1);
      LayerPrefixCount(vol, z - 1, Height(vol));
      PrefixEndOfSlice(vol, z - 1);
      assert (z - 1) * (Height(vol) * Width(vol)) + Height(vol) * Width(vol) == z * (Height(vol) * Width(vol));
    }
  }

  /** A volume of uniform slices holds depth x height x width voxels. */
  lemma BoxSize(vol: Vol)
    requires Valid(vol)
    ensures |Box(vol)| == |vol| * (Height(vol) * Width(vol))
  {
    PrefixCount(vol, |vol|);
    PrefixAll(vol);
  }

  /** Removing one more voxel of the box leaves fewer to visit. */
  lemma UnvisitedShrinks(vol: Vol, seen: set<Vec3>, n: Vec3)
    requires InBox(vol, n) && n !in seen
    ensures |Box(vol) - (seen + {n})| < |Box(vol) - seen|
    ensures |seen + {n}| == |seen| + 1
  {
    BoxMembership(vol, n);
    assert Box(vol) - (seen + {n}) == (Box(vol) - seen) - {n};
  }

  /** Appending `n` to a list adds just `n` to its members. */
  lemma AppendMembers(s: seq<Vec3>, n: Vec3)
    ensures forall v :: v in s + [n] <==> v in s || v == n
  {
    assert (s + [n])[|s|] == n;
    assert forall k :: 0 <= k < |s| ==> (s + [n])[k] == s[k];
  }

  /** Index of cell (y, x) in a row-major `H*W` row (`y*W + x`). */
  function Idx(y: int, x: int, w: int): int {
    y * w + x
  }

  lemma IdxBounds(y: int, x: int, h: int, w: int)
    requires 0 <= y < h && 0 <= x < w
    ensures 0 <= Idx(y, x, w) < h * w
  {
    assert y * w <= (h - 1) * w by {
      assert (h - 1) * w - y * w == (h - 1 - y) * w;
    }
    assert (h - 1) * w + w == h * w;
  }

  lemma MulGap(a: int, b: int, w: int)
    ensures a < b && 0 <= w ==> a * w + w <= b * w
  {
    if a < b && 0 <= w {
      var k := b - a - 1;
      assert k * w >= 0;
      assert b * w == (a + 1 + k) * w == a * w + w + k * w;
    }
  }

  lemma IdxInjective(y1: int, x1: int, y2: int, x2: int, w: int)
    requires 0 <= x1 < w && 0 <= x2 < w
    requires Idx(y1, x1, w) == Idx(y2, x2, w)
    ensures y1 == y2 && x1 == x2
  {
    MulGap(y1, y2, w);
    MulGap(y2, y1, w);
  }
}

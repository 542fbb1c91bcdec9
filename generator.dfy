/**
 * `VolumeGenerator`: synthetic test volumes of `depth` slices of
 * `height` x `width` cells, 255 on the body and 0 elsewhere — a sphere, a
 * cube inset by a margin, and a hollow sphere (a spherical shell).
 */
module Generator {
  import opened Volume
  import opened Connectivity

  /** C++ `a / d` on `int` for a positive `d`: the quotient truncated toward zero. */
  function Quot(a: int, d: int): (q: int)
    requires d > 0
    ensures a >= 0 ==> 0 <= a - d * q < d
    ensures a < 0 ==> -d < a - d * q <= 0
  {
    if a >= 0 then a / d else -((-a) / d)
  }

  function Min3(a: int, b: int, c: int): (m: int)
    ensures m <= a && m <= b && m <= c
    ensures m == a || m == b || m == c
  {
    if a <= b && a <= c then a else if b <= c then b else c
  }

  /** The three shapes the generator draws. */
  datatype Shape = Sphere | Cube | HollowSphere

  /** The shape selector of `generate`: the three shapes, or any other enumerator value. */
  datatype ShapeType = SphereType | CubeType | HollowSphereType | OtherType(code: int)

  class VolumeGenerator {
    const width: int
    const height: int
    const depth: int

    constructor(width: int, height: int, depth: int)
      ensures this.width == width && this.height == height && this.depth == depth
    {
      this.width := width;
      this.height := height;
      this.depth := depth;
    }

    /** Radius of the sphere, and outer radius of the hollow sphere: `min(w, h, d) / 2 - 1`. */
    function Radius(): int {
      Quot(Min3(width, height, depth), 2) - 1
    }

    /** Squared distance of cell (z, y, x) from the centre (`d/2`, `h/2`, `w/2`). */
    function Dist2(z: int, y: int, x: int): int {
      var dx, dy, dz := x - Quot(width, 2), y - Quot(height, 2), z - Quot(depth, 2);
      dx * dx + dy * dy + dz * dz
    }

    /** The inset of the cube on every axis: `width / 5`. */
    function Margin(): int {
      Quot(width, 5)
    }

    /** Whether cell (z, y, x) belongs to the body of `shape`. */
    predicate InShape(shape: Shape, z: int, y: int, x: int)
    {
      match shape
      case Sphere => Dist2(z, y, x) <= Radius() * Radius()
      case Cube =>
        var m := Margin();
        m <= z < depth - m && m <= y < height - m && m <= x < width - m
      case HollowSphere =>
        var rOuter := Radius();
        var rInner := Quot(rOuter, 2);
        Dist2(z, y, x) <= rOuter * rOuter && Dist2(z, y, x) >= rInner * rInner
    }

    function Cell(shape: Shape, z: int, y: int, x: int): Byte
    {
      if InShape(shape, z, y, x) then 255 else 0
    }

    /** Slice z, as far as it is written: rows before `y`, then cells before `x` of row `y`, are painted. */
    ghost predicate Painted(buf: array2<Byte>, shape: Shape, z: int, y: int, x: int)
      reads buf
    {
      forall y', x' :: 0 <= y' < buf.Length0 && 0 <= x' < buf.Length1 ==>
        buf[y', x'] == if y' < y || (y' == y && x' < x) then Cell(shape, z, y', x') else 0
    }

    /** `slices` are `depth` slices of `height` x `width` cells, each 255 exactly on the body of `shape`. */
    ghost predicate Depicts(slices: seq<Slice>, shape: Shape)
    {
      && |slices| == (if depth < 0 then 0 else depth)
      && (forall z :: 0 <= z < |slices| ==> slices[z].rows == height && slices[z].cols == width)
      && (forall z, y, x :: 0 <= z < |slices| && 0 <= y < height && 0 <= x < width ==>
            slices[z].px[y][x] == Cell(shape, z, y, x))
    }

    /** Once the last row is painted the whole slice is. */
    lemma PaintedAll(buf: array2<Byte>, shape: Shape, z: int)
      requires Painted(buf, shape, z, buf.Length0, 0)
      ensures forall y, x :: 0 <= y < buf.Length0 && 0 <= x < buf.Length1 ==> buf[y, x] == Cell(shape, z, y, x)
    {
    }

    /** A finished row moves the painting on to the next one. */
    lemma PaintedNextRow(buf: array2<Byte>, shape: Shape, z: int, y: int)
      requires Painted(buf, shape, z, y, buf.Length1)
      ensures Painted(buf, shape, z, y + 1, 0)
    {
    }

    /** The y and x loops of generateSphere for slice z, into a zeroed `height` x `width` buffer. */
    method SphereSlice(z: int, cx: int, cy: int, cz: int, r: int) returns (s: Slice)
      requires width >= 0 && height >= 0
      requires cx == Quot(width, 2) && cy == Quot(height, 2) && cz == Quot(depth, 2) && r == Radius()
      ensures s.rows == height && s.cols == width
      ensures forall y, x :: 0 <= y < height && 0 <= x < width ==> s.px[y][x] == Cell(Sphere, z, y, x)
    {
      var buf := new Byte[height, width]((_, _) => 0);
      for y := 0 to height
        invariant Painted(buf, Sphere, z, y, 0)
      {
        for x := 0 to width
          invariant Painted(buf, Sphere, z, y, x)
        {
          var dx, dy, dz := x - cx, y - cy, z - cz;
          if dx * dx + dy * dy + dz * dz <= r * r {
            buf[y, x] := 255;
          }
        }
        PaintedNextRow(buf, Sphere, z, y);
      }
      PaintedAll(buf, Sphere, z);
      s := Freeze(buf);
    }

    /** The y and x loops of generateHollowSphere for slice z. */
    method HollowSlice(z: int, cx: int, cy: int, cz: int, rOuter: int, rInner: int) returns (s: Slice)
      requires width >= 0 && height >= 0
      requires cx == Quot(width, 2) && cy == Quot(height, 2) && cz == Quot(depth, 2)
      requires rOuter == Radius() && rInner == Quot(rOuter, 2)
      ensures s.rows == height && s.cols == width
      ensures forall y, x :: 0 <= y < height && 0 <= x < width ==> s.px[y][x] == Cell(HollowSphere, z, y, x)
    {
      var buf := new Byte[height, width]((_, _) => 0);
      for y := 0 to height
        invariant Painted(buf, HollowSphere, z, y, 0)
      {
        for x := 0 to width
          invariant Painted(buf, HollowSphere, z, y, x)
        {
          var dx, dy, dz := x - cx, y - cy, z - cz;
          var dist2 := dx * dx + dy * dy + dz * dz;
          if dist2 <= rOuter * rOuter && dist2 >= rInner * rInner {
            buf[y, x] := 255;
          }
        }
        PaintedNextRow(buf, HollowSphere, z, y);
      }
      PaintedAll(buf, HollowSphere, z);
      s := Freeze(buf);
    }

    /** Slice z of generateCube: inside the z range, the y and x loops over the inset square. */
    method CubeSlice(z: int, margin: int) returns (s: Slice)
      requires width >= 0 && height >= 0 && margin == Margin()
      ensures s.rows == height && s.cols == width
      ensures forall y, x :: 0 <= y < height && 0 <= x < width ==> s.px[y][x] == Cell(Cube, z, y, x)
    {
      var buf := new Byte[height, width]((_, _) => 0);
      if z >= margin && z < depth - margin {
        var y := margin;
        while y < height - margin
          invariant margin <= y
          invariant Painted(buf, Cube, z, y, 0)
        {
          var x := margin;
          while x < width - margin
            invariant margin <= x
            invariant Painted(buf, Cube, z, y, x)
          {
            buf[y, x] := 255;
            x := x + 1;
          }
          assert Painted(buf, Cube, z, y, width);
          PaintedNextRow(buf, Cube, z, y);
          y := y + 1;
        }
        assert Painted(buf, Cube, z, height, 0);
      }
      PaintedAll(buf, Cube, z);
      s := Freeze(buf);
    }

    /** `generateSphere`. */
    method GenerateSphere() returns (slices: seq<Slice>)
      requires depth <= 0 || (width >= 0 && height >= 0)
      ensures Depicts(slices, Sphere)
    {
      slices := [];
      var cx, cy, cz := Quot(width, 2), Quot(height, 2), Quot(depth, 2);
      var r := Quot(Min3(width, height, depth), 2) - 1;
      var z := 0;
      while z < depth
        invariant 0 <= z <= (if depth < 0 then 0 else depth) && |slices| == z
        invariant forall z' :: 0 <= z' < z ==> slices[z'].rows == height && slices[z'].cols == width
        invariant forall z', y, x :: 0 <= z' < z && 0 <= y < height && 0 <= x < width ==>
                    slices[z'].px[y][x] == Cell(Sphere, z', y, x)
      {
        var slice := SphereSlice(z, cx, cy, cz, r);
        slices := slices + [slice];
        z := z + 1;
      }
    }

    /** `generateCube`. */
    method GenerateCube() returns (slices: seq<Slice>)
      requires depth <= 0 || (width >= 0 && height >= 0)
      ensures Depicts(slices, Cube)
    {
      slices := [];
      var margin := Quot(width, 5);
      var z := 0;
      while z < depth
        invariant 0 <= z <= (if depth < 0 then 0 else depth) && |slices| == z
        invariant forall z' :: 0 <= z' < z ==> slices[z'].rows == height && slices[z'].cols == width
        invariant forall z', y, x :: 0 <= z' < z && 0 <= y < height && 0 <= x < width ==>
                    slices[z'].px[y][x] == Cell(Cube, z', y, x)
      {
        var slice := CubeSlice(z, margin);
        slices := slices + [slice];
        z := z + 1;
      }
    }

    /** `generateHollowSphere`. */
    method GenerateHollowSphere() returns (slices: seq<Slice>)
      requires depth <= 0 || (width >= 0 && height >= 0)
      ensures Depicts(slices, HollowSphere)
    {
      slices := [];
      var cx, cy, cz := Quot(width, 2), Quot(height, 2), Quot(depth, 2);
      var rOuter := Quot(Min3(width, height, depth), 2) - 1;
      var rInner := Quot(rOuter, 2);
      var z := 0;
      while z < depth
        invariant 0 <= z <= (if depth < 0 then 0 else depth) && |slices| == z
        invariant forall z' :: 0 <= z' < z ==> slices[z'].rows == height && slices[z'].cols == width
        invariant forall z', y, x :: 0 <= z' < z && 0 <= y < height && 0 <= x < width ==>
                    slices[z'].px[y][x] == Cell(HollowSphere, z', y, x)
      {
        var slice := HollowSlice(z, cx, cy, cz, rOuter, rInner);
        slices := slices + [slice];
        z := z + 1;
      }
    }

    /** `generate`: the chosen shape, or no slices at all for any other selector value. */
    method Generate(shapeType: ShapeType) returns (slices: seq<Slice>)
      requires depth <= 0 || (width >= 0 && height >= 0)
      ensures shapeType == SphereType ==> Depicts(slices, Sphere)
      ensures shapeType == CubeType ==> Depicts(slices, Cube)
      ensures shapeType == HollowSphereType ==> Depicts(slices, HollowSphere)
      ensures shapeType.OtherType? ==> slices == []
    {
      match shapeType
      case SphereType => slices := GenerateSphere();
      case CubeType => slices := GenerateCube();
      case HollowSphereType => slices := GenerateHollowSphere();
      case OtherType(_) => slices := [];
    }

    /** Every body cell of the hollow sphere is a body cell of the sphere of the same size. */
    lemma HollowWithinSphere(sphere: seq<Slice>, hollow: seq<Slice>)
      requires Depicts(sphere, Sphere) && Depicts(hollow, HollowSphere)
      ensures |hollow| == |sphere|
      ensures forall z, y, x :: 0 <= z < |hollow| && 0 <= y < height && 0 <= x < width && hollow[z].px[y][x] == 255
                ==> sphere[z].px[y][x] == 255
    {
    }

    /** The slices of the cube outside its z range are entirely 0. */
    lemma CubeOuterSlicesEmpty(cube: seq<Slice>, z: int)
      requires Depicts(cube, Cube)
      requires 0 <= z < |cube| && (z < Margin() || z >= depth - Margin())
      ensures forall y, x :: 0 <= y < height && 0 <= x < width ==> cube[z].px[y][x] == 0
    {
    }

    /**
     * With every dimension at least 2 the sphere keeps off the three faces
     * through the origin: its body cells have z, y and x at least 1.
     */
    lemma SphereAvoidsLowFaces(z: int, y: int, x: int)
      requires Min3(width, height, depth) >= 2
      requires InShape(Sphere, z, y, x)
      ensures z >= 1 && y >= 1 && x >= 1
    {
      var r := Radius();
      var dx, dy, dz := x - Quot(width, 2), y - Quot(height, 2), z - Quot(depth, 2);
      SquareNonNegative(dx);
      SquareNonNegative(dy);
      SquareNonNegative(dz);
      SquareBound(dx, r);
      SquareBound(dy, r);
      SquareBound(dz, r);
      HalfMonotone(Min3(width, height, depth), width);
      HalfMonotone(Min3(width, height, depth), height);
      HalfMonotone(Min3(width, height, depth), depth);
    }

    /** For volumes at least 2 cells thick, the generated sphere has an empty layer 0, so is3DConnected rejects it. */
    lemma SphereDoesNotSpan(sphere: seq<Slice>)
      requires Min3(width, height, depth) >= 2 && Depicts(sphere, Sphere)
      ensures forall y, x :: 0 <= y < height && 0 <= x < width ==> sphere[0].px[y][x] == 0
      ensures !Spans(sphere, 255)
    {
      forall y, x | 0 <= y < height && 0 <= x < width ensures sphere[0].px[y][x] == 0 {
        if InShape(Sphere, 0, y, x) {
          SphereAvoidsLowFaces(0, y, x);
        }
      }
      SpansNeedsInput(sphere, 255);
    }

    /** The hollow sphere lies within the sphere, so its layer 0 is empty too. */
    lemma HollowSphereDoesNotSpan(hollow: seq<Slice>)
      requires Min3(width, height, depth) >= 2 && Depicts(hollow, HollowSphere)
      ensures !Spans(hollow, 255)
    {
      forall y, x | 0 <= y < height && 0 <= x < width ensures hollow[0].px[y][x] == 0 {
        if InShape(HollowSphere, 0, y, x) {
          SphereAvoidsLowFaces(0, y, x);
        }
      }
      SpansNeedsInput(hollow, 255);
    }

    /** From a width of 5 the cube's margin is at least 1, so its layer 0 is empty and is3DConnected rejects it. */
    lemma CubeDoesNotSpan(cube: seq<Slice>)
      requires width >= 5 && Depicts(cube, Cube)
      ensures !Spans(cube, 255)
    {
      if |cube| >= 1 {
        CubeOuterSlicesEmpty(cube, 0);
      }
      SpansNeedsInput(cube, 255);
    }
  }

  /** The buffer's cells as a `cv::Mat` value. */
  method Freeze(buf: array2<Byte>) returns (s: Slice)
    ensures s.rows == buf.Length0 && s.cols == buf.Length1
    ensures forall y, x :: 0 <= y < buf.Length0 && 0 <= x < buf.Length1 ==> s.px[y][x] == buf[y, x]
  {
    var px := seq(buf.Length0, y requires 0 <= y < buf.Length0 reads buf =>
                    seq(buf.Length1, x requires 0 <= x < buf.Length1 reads buf => buf[y, x]));
    s := Mat(buf.Length0, buf.Length1, px);
  }

  lemma SquareNonNegative(a: int)
    ensures a * a >= 0
  {
    if a < 0 {
      assert a * a == (-a) * (-a);
    }
  }

  /** A square at most r*r, for r >= 0, puts the root between -r and r. */
  lemma SquareBound(a: int, r: int)
    requires r >= 0 && a * a <= r * r
    ensures -r <= a <= r
  {
    assert a * a - r * r == (a - r) * (a + r);
  }

  lemma HalfMonotone(a: int, b: int)
    requires 0 <= a <= b
    ensures Quot(a, 2) <= Quot(b, 2)
  {
  }
}

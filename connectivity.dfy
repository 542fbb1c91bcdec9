/**
 * `is3DConnected`: does the body component holding the first body voxel of
 * layer 0 (in row-major order) reach every body voxel of the last layer by
 * face steps? A 6-connected breadth-first flood fill over a `visited` grid.
 */
module Connectivity {
  import opened Volume
  import opened Reach

  /**
   * The first cell at or after (y, x) in row-major order whose value is
   * `bodyValue`, scanning row y from column x and then every later row.
   */
  function FirstBodyFrom(s: Slice, bodyValue: Byte, y: nat, x: nat): Option<(nat, nat)>
    decreases s.rows - y, s.cols - x
  {
    if y >= s.rows then None
    else if x >= s.cols then FirstBodyFrom(s, bodyValue, y + 1, 0)
    else if s.px[y][x] == bodyValue then Some((y, x))
    else FirstBodyFrom(s, bodyValue, y, x + 1)
  }

  function FirstBody(s: Slice, bodyValue: Byte): Option<(nat, nat)> {
    FirstBodyFrom(s, bodyValue, 0, 0)
  }

  /** (y1, x1) comes before (y2, x2) in row-major order. */
  predicate RowMajorBefore(y1: int, x1: int, y2: int, x2: int) {
    y1 < y2 || (y1 == y2 && x1 < x2)
  }

  /** FirstBodyFrom finds the earliest body cell at or after (y, x), and None only when there is none. */
  lemma {:induction false} FirstBodyFromIsFirst(s: Slice, bodyValue: Byte, y: nat, x: nat)
    ensures match FirstBodyFrom(s, bodyValue, y, x)
      case Some(c) =>
        && c.0 < s.rows && c.1 < s.cols && s.px[c.0][c.1] == bodyValue
        && !RowMajorBefore(c.0, c.1, y, x)
        && forall y', x' ::
             0 <= y' < s.rows && 0 <= x' < s.cols && !RowMajorBefore(y', x', y, x) && RowMajorBefore(y', x', c.0, c.1)
             ==> s.px[y'][x'] != bodyValue
      case None =>
        forall y', x' :: 0 <= y' < s.rows && 0 <= x' < s.cols && !RowMajorBefore(y', x', y, x)
          ==> s.px[y'][x'] != bodyValue
    decreases s.rows - y, s.cols - x
  {
    if y >= s.rows {
    } else if x >= s.cols {
      FirstBodyFromIsFirst(s, bodyValue, y + 1, 0);
    } else if s.px[y][x] == bodyValue {
    } else {
      FirstBodyFromIsFirst(s, bodyValue, y, x + 1);
    }
  }

  /**
   * The result of `is3DConnected`: the volume is not empty, every slice has
   * the size of slice 0, layer 0 holds a body voxel, and every body voxel of
   * the last layer lies in the face component of the first body voxel of
   * layer 0.
   */
  ghost predicate Spans(vol: Vol, bodyValue: Byte) {
    && |vol| >= 1
    && Uniform(vol)
    && FirstBody(vol[0], bodyValue).Some?
    && var seed := FirstBody(vol[0], bodyValue).value;
       LastLayerReached(vol, bodyValue, Vec3(0, seed.0, seed.1))
  }

  /** Every body voxel of the last layer is face-reachable from `s`. */
  ghost predicate LastLayerReached(vol: Vol, bodyValue: Byte, s: Vec3)
    requires Valid(vol)
  {
    forall y, x :: 0 <= y < Height(vol) && 0 <= x < Width(vol) && vol[Last(vol)].px[y][x] == bodyValue
      ==> Reachable(BodyFaces(vol, bodyValue), s, Vec3(Last(vol), y, x))
  }

  /** Index of the last layer. */
  function Last(vol: Vol): nat
    requires |vol| >= 1
  {
    |vol| - 1
  }

  /** The three early `false` returns of is3DConnected. */
  lemma SpansNeedsInput(vol: Vol, bodyValue: Byte)
    ensures |vol| == 0 ==> !Spans(vol, bodyValue)
    ensures (exists z :: 0 <= z < |vol| && (vol[z].rows != vol[0].rows || vol[z].cols != vol[0].cols))
      ==> !Spans(vol, bodyValue)
    ensures |vol| >= 1 && (forall y, x :: 0 <= y < vol[0].rows && 0 <= x < vol[0].cols ==> vol[0].px[y][x] != bodyValue)
      ==> !Spans(vol, bodyValue)
  {
    if |vol| >= 1 {
      FirstBodyFromIsFirst(vol[0], bodyValue, 0, 0);
    }
  }

  /**
   * With a single layer, the answer is whether every body voxel of layer 0
   * lies in the face component of the first one.
   */
  lemma SingleLayerSpans(vol: Vol, bodyValue: Byte)
    requires |vol| == 1
    ensures Spans(vol, bodyValue) <==>
      && FirstBody(vol[0], bodyValue).Some?
      && forall v :: v in Box(vol) && At(vol, v) == bodyValue ==>
           v in Component(BodyFaces(vol, bodyValue), Vec3(0, FirstBody(vol[0], bodyValue).value.0, FirstBody(vol[0], bodyValue).value.1))
  {
    if FirstBody(vol[0], bodyValue).Some? {
      var seed := FirstBody(vol[0], bodyValue).value;
      var s := Vec3(0, seed.0, seed.1);
      if Spans(vol, bodyValue) {
        SingleLayerReachedAll(vol, bodyValue, s);
      }
      if forall v :: v in Box(vol) && At(vol, v) == bodyValue ==> v in Component(BodyFaces(vol, bodyValue), s) {
        SingleLayerAllReached(vol, bodyValue, s);
      }
    }
  }

  lemma SingleLayerReachedAll(vol: Vol, bodyValue: Byte, s: Vec3)
    requires |vol| == 1 && Uniform(vol) && LastLayerReached(vol, bodyValue, s)
    ensures forall v :: v in Box(vol) && At(vol, v) == bodyValue ==> v in Component(BodyFaces(vol, bodyValue), s)
  {
    forall v | v in Box(vol) && At(vol, v) == bodyValue ensures v in Component(BodyFaces(vol, bodyValue), s) {
      BoxMembership(vol, v);
      assert vol[Last(vol)].px[v.y][v.x] == bodyValue;
      assert v == Vec3(Last(vol), v.y, v.x);
    }
  }

  lemma SingleLayerAllReached(vol: Vol, bodyValue: Byte, s: Vec3)
    requires |vol| == 1 && Uniform(vol)
    requires forall v :: v in Box(vol) && At(vol, v) == bodyValue ==> v in Component(BodyFaces(vol, bodyValue), s)
    ensures LastLayerReached(vol, bodyValue, s)
  {
    forall y, x | 0 <= y < Height(vol) && 0 <= x < Width(vol) && vol[Last(vol)].px[y][x] == bodyValue
      ensures Reachable(BodyFaces(vol, bodyValue), s, Vec3(Last(vol), y, x))
    {
      BoxMembership(vol, Vec3(0, y, x));
      assert Vec3(0, y, x) in Component(BodyFaces(vol, bodyValue), s);
    }
  }

  /** The seed scan of is3DConnected: the first body cell of a slice, row by row. */
  method FindSeed(s: Slice, bodyValue: Byte) returns (found: bool, sy: nat, sx: nat)
    ensures found <==> FirstBody(s, bodyValue).Some?
    ensures found ==> FirstBody(s, bodyValue) == Some((sy, sx))
  {
    found, sy, sx := false, 0, 0;
    var y := 0;
    while y < s.rows && !found
      invariant y <= s.rows
      invariant !found ==> FirstBody(s, bodyValue) == FirstBodyFrom(s, bodyValue, y, 0)
      invariant found ==> FirstBody(s, bodyValue) == Some((sy, sx))
    {
      var x := 0;
      while x < s.cols && !found
        invariant x <= s.cols
        invariant !found ==> FirstBody(s, bodyValue) == FirstBodyFrom(s, bodyValue, y, x)
        invariant found ==> FirstBody(s, bodyValue) == Some((sy, sx))
      {
        if s.px[y][x] == bodyValue {
          sy, sx := y, x;
          found := true;
        }
        x := x + 1;
      }
      y := y + 1;
    }
  }

  /** The six face directions, in the order of the `dz`, `dy`, `dx` tables. */
  const Dz: seq<int> := [-1, 1, 0, 0, 0, 0]
  const Dy: seq<int> := [0, 0, -1, 1, 0, 0]
  const Dx: seq<int> := [0, 0, 0, 0, -1, 1]

  function Step(c: Vec3, i: nat): Vec3
    requires i < 6
  {
    Vec3(c.z + Dz[i], c.y + Dy[i], c.x + Dx[i])
  }

  /** Every face neighbour lies in one of the six directions. */
  lemma FaceNeighbourIsStep(c: Vec3, n: Vec3) returns (i: nat)
    requires Adjacent(Face, c, n)
    ensures i < 6 && n == Step(c, i)
  {
    if n.z == c.z - 1 { i := 0; }
    else if n.z == c.z + 1 { i := 1; }
    else if n.y == c.y - 1 { i := 2; }
    else if n.y == c.y + 1 { i := 3; }
    else if n.x == c.x - 1 { i := 4; }
    else { i := 5; }
  }

  lemma StepIsFaceNeighbour(c: Vec3, i: nat)
    requires i < 6
    ensures Adjacent(Face, c, Step(c, i))
  {
  }

  /** `visited` marks exactly the voxels of `seen`. */
  ghost predicate Marks(visited: array3<bool>, seen: set<Vec3>)
    reads visited
  {
    forall z, y, x :: 0 <= z < visited.Length0 && 0 <= y < visited.Length1 && 0 <= x < visited.Length2
      ==> (visited[z, y, x] <==> Vec3(z, y, x) in seen)
  }

  /**
   * The marks grew from (seen, q) to (seen', q'): new marks are body voxels
   * reached from the seed and queued, the queue keeps its old entries and
   * gains one entry per new mark, and the marks grew or nothing changed.
   */
  ghost predicate Grows(vol: Vol, g: Graph, seed: Vec3, seen: set<Vec3>, q: seq<Vec3>, seen': set<Vec3>, q': seq<Vec3>) {
    && seen <= seen' && Reached(g, seed, seen')
    && (forall v :: v in seen' ==> v in seen || v in q')
    && (forall v :: v in q' ==> v in q || v in seen')
    && (forall v :: v in q ==> v in q')
    && |q'| - |q| == |seen'| - |seen|
    && ((seen' == seen && q' == q) || |Box(vol) - seen'| < |Box(vol) - seen|)
  }

  lemma GrowsRefl(vol: Vol, g: Graph, seed: Vec3, seen: set<Vec3>, q: seq<Vec3>)
    requires Reached(g, seed, seen)
    ensures Grows(vol, g, seed, seen, q, seen, q)
  {
  }

  lemma GrowsTrans(vol: Vol, g: Graph, seed: Vec3, s0: set<Vec3>, q0: seq<Vec3>,
                   s1: set<Vec3>, q1: seq<Vec3>, s2: set<Vec3>, q2: seq<Vec3>)
    requires Grows(vol, g, seed, s0, q0, s1, q1) && Grows(vol, g, seed, s1, q1, s2, q2)
    ensures Grows(vol, g, seed, s0, q0, s2, q2)
  {
  }

  /** Marking and queuing a new body voxel next to a reached one is a growth step. */
  lemma AddGrows(vol: Vol, g: Graph, seed: Vec3, seen: set<Vec3>, q: seq<Vec3>, c: Vec3, n: Vec3)
    requires InBox(vol, n) && n !in seen && c in seen && Reached(g, seed, seen)
    requires Node(g, n) && Adjacent(g.conn, c, n)
    ensures Grows(vol, g, seed, seen, q, seen + {n}, q + [n])
  {
    ReachStep(g, seed, c, n);
    UnvisitedShrinks(vol, seen, n);
    AppendMembers(q, n);
    ReachedAdd(g, seed, seen, n);
  }

  /** Setting the mark of an unmarked voxel `n` adds it to the marked set. */
  method Mark(visited: array3<bool>, n: Vec3, ghost seen: set<Vec3>)
    requires 0 <= n.z < visited.Length0 && 0 <= n.y < visited.Length1 && 0 <= n.x < visited.Length2
    requires Marks(visited, seen)
    modifies visited
    ensures Marks(visited, seen + {n})
  {
    visited[n.z, n.y, n.x] := true;
  }

  /**
   * One pass of the direction loop of is3DConnected: the neighbour of `c`
   * in direction `i` is marked and queued when it is inside the volume,
   * unvisited and a body voxel; otherwise nothing changes.
   */
  method VisitNeighbour(vol: Vol, bodyValue: Byte, visited: array3<bool>, ghost seed: Vec3, c: Vec3, i: nat,
                        q: seq<Vec3>, ghost seen: set<Vec3>)
    returns (q': seq<Vec3>, ghost seen': set<Vec3>)
    requires Valid(vol) && i < 6
    requires visited.Length0 == |vol| && visited.Length1 == Height(vol) && visited.Length2 == Width(vol)
    requires Marks(visited, seen) && Reached(BodyFaces(vol, bodyValue), seed, seen) && c in seen
    modifies visited
    ensures Marks(visited, seen')
    ensures Grows(vol, BodyFaces(vol, bodyValue), seed, seen, q, seen', q')
    ensures Handled(BodyFaces(vol, bodyValue), c, i, seen')
    ensures (q' == q && seen' == seen) || (Step(c, i) !in seen && q' == q + [Step(c, i)] && seen' == seen + {Step(c, i)})
  {
    var g := BodyFaces(vol, bodyValue);
    q', seen' := q, seen;
    GrowsRefl(vol, g, seed, seen, q);
    var nz, ny, nx := c.z + Dz[i], c.y + Dy[i], c.x + Dx[i];
    var n := Vec3(nz, ny, nx);
    assert n == Step(c, i);
    if nz >= 0 && nz < visited.Length0 && ny >= 0 && ny < visited.Length1 && nx >= 0 && nx < visited.Length2 {
      assert InBox(vol, n);
      if !visited[nz, ny, nx] && vol[nz].px[ny][nx] == bodyValue {
        StepIsFaceNeighbour(c, i);
        AddGrows(vol, g, seed, seen, q, c, n);
        Mark(visited, n, seen);
        q', seen' := q + [n], seen + {n};
      }
    }
  }

  /**
   * The direction loop of is3DConnected for one dequeued voxel `c`: every
   * unvisited body neighbour of `c` is marked and queued, so that afterwards
   * all neighbours of `c` are marked.
   */
  method ExpandNode(vol: Vol, bodyValue: Byte, visited: array3<bool>, ghost seed: Vec3, c: Vec3,
                    q: seq<Vec3>, ghost seen: set<Vec3>)
    returns (q': seq<Vec3>, ghost seen': set<Vec3>)
    requires Valid(vol)
    requires visited.Length0 == |vol| && visited.Length1 == Height(vol) && visited.Length2 == Width(vol)
    requires Marks(visited, seen) && Reached(BodyFaces(vol, bodyValue), seed, seen) && c in seen
    modifies visited
    ensures Marks(visited, seen')
    ensures Grows(vol, BodyFaces(vol, bodyValue), seed, seen, q, seen', q')
    ensures ClosedAt(BodyFaces(vol, bodyValue), c, seen')
  {
    var g := BodyFaces(vol, bodyValue);
    q', seen' := q, seen;
    GrowsRefl(vol, g, seed, seen, q);
    for i := 0 to 6
      invariant Marks(visited, seen')
      invariant Grows(vol, g, seed, seen, q, seen', q')
      invariant forall k :: 0 <= k < i ==> Handled(g, c, k, seen')
    {
      ghost var s1, q1 := seen', q';
      q', seen' := VisitNeighbour(vol, bodyValue, visited, seed, c, i, q', seen');
      GrowsTrans(vol, g, seed, seen, q, s1, q1, seen', q');
      HandledGrow(g, c, i, s1, seen');
    }
    forall n | Node(g, n) && Adjacent(Face, c, n) ensures n in seen' {
      var k := FaceNeighbourIsStep(c, n);
      assert Handled(g, c, k, seen');
    }
  }

  /**
   * The breadth-first loop of is3DConnected: starting from a queue holding
   * only the seed (already marked), mark every body voxel face-reachable
   * from it. The loop dequeues `pops` voxels, one per voxel of the
   * component: none is queued twice.
   */
  method Flood(vol: Vol, bodyValue: Byte, visited: array3<bool>, seed: Vec3)
    returns (ghost seen: set<Vec3>, ghost pops: nat)
    requires Valid(vol)
    requires visited.Length0 == |vol| && visited.Length1 == Height(vol) && visited.Length2 == Width(vol)
    requires Node(BodyFaces(vol, bodyValue), seed)
    requires Marks(visited, {seed})
    modifies visited
    ensures seen == Component(BodyFaces(vol, bodyValue), seed)
    ensures Marks(visited, seen)
    ensures pops == |seen|
  {
    var g := BodyFaces(vol, bodyValue);
    var q := [seed];
    seen := {seed};
    pops := 0;
    ghost var done: set<Vec3> := {};
    ReachRefl(g, seed);
    while q != []
      invariant Marks(visited, seen) && Reached(g, seed, seen) && seed in seen
      invariant forall v :: v in seen ==> v in done || v in q
      invariant forall v :: v in q ==> v in seen
      invariant forall v :: v in done ==> ClosedAt(g, v, seen)
      invariant pops + |q| == |seen|
      decreases |Box(vol) - seen|, |q|
    {
      var c := q[0];
      q := q[1..];
      pops := pops + 1;
      ghost var seen0 := seen;
      assert forall v :: v in seen ==> v in done || v in q || v == c;
      assert forall v :: v in q ==> v in seen;
      q, seen := ExpandNode(vol, bodyValue, visited, seed, c, q, seen);
      ClosedGrow(g, done, c, seen0, seen);
      done := done + {c};
    }
    DrainedIsComponent(g, seed, seen, done);
  }

  /** Once the queue is empty, every marked voxel has been expanded: the marks are the seed's component. */
  lemma DrainedIsComponent(g: Graph, seed: Vec3, seen: set<Vec3>, done: set<Vec3>)
    requires Reached(g, seed, seen) && seed in seen
    requires forall v :: v in seen ==> v in done
    requires forall v :: v in done ==> ClosedAt(g, v, seen)
    ensures seen == Component(g, seed)
  {
    assert {} + seen == seen;
    FillIsComponent(g, {}, seen, seed);
  }

  /** The neighbour of `c` in direction `k` is handled: it is no body voxel or it is marked. */
  ghost predicate Handled(g: Graph, c: Vec3, k: nat, S: set<Vec3>)
    requires k < 6
  {
    Node(g, Step(c, k)) ==> Step(c, k) in S
  }

  lemma HandledGrow(g: Graph, c: Vec3, i: nat, S: set<Vec3>, S': set<Vec3>)
    requires i < 6 && S <= S'
    requires forall k :: 0 <= k < i ==> Handled(g, c, k, S)
    requires Handled(g, c, i, S')
    ensures forall k :: 0 <= k < i + 1 ==> Handled(g, c, k, S')
  {
    forall k | 0 <= k < i + 1 ensures Handled(g, c, k, S') {
      if k < i {
        assert Handled(g, c, k, S);
      }
    }
  }

  /** A voxel of the volume is marked exactly when the seed reaches it. */
  lemma MarkedIffReachable(vol: Vol, bodyValue: Byte, visited: array3<bool>, seed: Vec3, seen: set<Vec3>, v: Vec3)
    requires Valid(vol) && InBox(vol, v)
    requires visited.Length0 == |vol| && visited.Length1 == Height(vol) && visited.Length2 == Width(vol)
    requires Marks(visited, seen) && seen == Component(BodyFaces(vol, bodyValue), seed)
    ensures visited[v.z, v.y, v.x] <==> Reachable(BodyFaces(vol, bodyValue), seed, v)
  {
    BoxMembership(vol, v);
  }

  /**
   * The final scan of is3DConnected: with the seed's component marked, every
   * body voxel of the last layer must be marked.
   */
  method ScanLastLayer(volume: Vol, bodyValue: Byte, visited: array3<bool>, seed: Vec3, ghost seen: set<Vec3>)
    returns (connected: bool)
    requires Valid(volume)
    requires visited.Length0 == |volume| && visited.Length1 == Height(volume) && visited.Length2 == Width(volume)
    requires Marks(visited, seen) && seen == Component(BodyFaces(volume, bodyValue), seed)
    ensures connected == LastLayerReached(volume, bodyValue, seed)
  {
    for y := 0 to Height(volume)
      invariant forall y', x' :: 0 <= y' < y && 0 <= x' < Width(volume) && volume[Last(volume)].px[y'][x'] == bodyValue
                  ==> Reachable(BodyFaces(volume, bodyValue), seed, Vec3(Last(volume), y', x'))
    {
      var rowReached := ScanLastRow(volume, bodyValue, visited, seed, seen, y);
      if !rowReached {
        return false;
      }
    }
    return true;
  }

  /** Row y of the final scan: every body voxel of row y of the last layer is marked. */
  method ScanLastRow(volume: Vol, bodyValue: Byte, visited: array3<bool>, seed: Vec3, ghost seen: set<Vec3>, y: nat)
    returns (reached: bool)
    requires Valid(volume) && y < Height(volume)
    requires visited.Length0 == |volume| && visited.Length1 == Height(volume) && visited.Length2 == Width(volume)
    requires Marks(visited, seen) && seen == Component(BodyFaces(volume, bodyValue), seed)
    ensures reached <==> forall x :: 0 <= x < Width(volume) && volume[Last(volume)].px[y][x] == bodyValue
                           ==> Reachable(BodyFaces(volume, bodyValue), seed, Vec3(Last(volume), y, x))
  {
    var last := |volume| - 1;
    assert last == Last(volume);
    for x := 0 to Width(volume)
      invariant forall x' :: 0 <= x' < x && volume[Last(volume)].px[y][x'] == bodyValue
                  ==> Reachable(BodyFaces(volume, bodyValue), seed, Vec3(Last(volume), y, x'))
    {
      MarkedIffReachable(volume, bodyValue, visited, seed, seen, Vec3(last, y, x));
      if volume[last].px[y][x] == bodyValue && !visited[last, y, x] {
        return false;
      }
    }
    return true;
  }

  /** `is3DConnected`. */
  method Is3DConnected(volume: Vol, bodyValue: Byte) returns (connected: bool)
    ensures connected == Spans(volume, bodyValue)
  {
    SpansNeedsInput(volume, bodyValue);
    if |volume| == 0 {
      return false;
    }
    var Z, Y, X := |volume|, volume[0].rows, volume[0].cols;
    for z := 0 to Z
      invariant forall k :: 0 <= k < z ==> volume[k].rows == Y && volume[k].cols == X
    {
      if volume[z].rows != Y || volume[z].cols != X {
        return false;
      }
    }
    var visited := new bool[Z, Y, X]((_, _, _) => false);
    var found, sy, sx := FindSeed(volume[0], bodyValue);
    if !found {
      return false;
    }
    var seed := Vec3(0, sy, sx);
    FirstBodyFromIsFirst(volume[0], bodyValue, 0, 0);
    visited[0, sy, sx] := true;
    ghost var seen, pops := Flood(volume, bodyValue, visited, seed);
    connected := ScanLastLayer(volume, bodyValue, visited, seed, seen);
  }
}

/**
 * `computePorosityStats`: a raster scan over the volume that counts every
 * voxel, and from every unvisited void voxel (value other than the body
 * value) floods its void component under full (26-neighbour) adjacency,
 * adding the component's size to the empty count and counting it as a pore
 * when none of its voxels lies on the border of the volume.
 */
module Porosity {
  import opened Volume
  import opened Reach

  /** The void voxels of `vol`, joined by full adjacency. */
  function VoidFull(vol: Vol, bodyValue: Byte): Graph {
    Graph(vol, bodyValue, false, Full)
  }

  /** The voxel lies on one of the six faces of a `d` x `h` x `w` box. */
  predicate OnBorder(v: Vec3, d: int, h: int, w: int) {
    v.z == 0 || v.z == d - 1 || v.y == 0 || v.y == h - 1 || v.x == 0 || v.x == w - 1
  }

  /** Some voxel of `S` lies on the border. */
  ghost predicate AnyOnBorder(vol: Vol, S: set<Vec3>)
    requires |vol| >= 1
  {
    exists v :: v in S && OnBorder(v, |vol|, Height(vol), Width(vol))
  }

  /** No voxel of `c` lies on the border. */
  ghost predicate Enclosed(vol: Vol, c: set<Vec3>)
    requires |vol| >= 1
  {
    forall v :: v in c ==> !OnBorder(v, |vol|, Height(vol), Width(vol))
  }

  /** The void voxels of the volume. */
  ghost function Voids(vol: Vol, bodyValue: Byte): set<Vec3> {
    set v | v in Box(vol) && At(vol, v) != bodyValue
  }

  ghost function EnclosedOf(vol: Vol, comps: set<set<Vec3>>): set<set<Vec3>>
    requires |vol| >= 1
  {
    set c | c in comps && Enclosed(vol, c)
  }

  /** The pores: the void components that do not touch the border. */
  ghost function Pores(vol: Vol, bodyValue: Byte): set<set<Vec3>>
    requires |vol| >= 1
  {
    EnclosedOf(vol, Components(VoidFull(vol, bodyValue)))
  }

  /** What computePorosityStats counts: all voxels, void voxels, pores. */
  datatype PorosityStats = PorosityStats(emptyVoxels: nat, totalVoxels: nat, poreCount: nat)

  /** The `porosity` field: the share of void voxels, exactly. */
  function Porosity(stats: PorosityStats): (r: real)
    requires 0 < stats.totalVoxels && stats.emptyVoxels <= stats.totalVoxels
    ensures 0.0 <= r <= 1.0
  {
    stats.emptyVoxels as real / stats.totalVoxels as real
  }

  /** The `dz`/`dy` pairs and the `dx` offsets of the 26-neighbourhood template. */
  const Oz: seq<int> := [-1, -1, -1, 0, 0, 0, 1, 1, 1]
  const Oy: seq<int> := [-1, 0, 1, -1, 0, 1, -1, 0, 1]
  const Ox: seq<int> := [-1, 0, 1, -1, 0, 1, -1, 0, 1]

  function FullStep(c: Vec3, i: nat, j: nat): Vec3
    requires i < 9 && j < 3
  {
    Vec3(c.z + Oz[i], c.y + Oy[i], c.x + Ox[j])
  }

  /** The template reaches every full neighbour: i ranges over (dz, dy) pairs, j over dx. */
  lemma FullNeighbourIsStep(c: Vec3, n: Vec3) returns (i: nat, j: nat)
    requires Adjacent(Full, c, n)
    ensures i < 9 && j < 3 && n == FullStep(c, i, j)
  {
    var a := if n.z == c.z - 1 then 0 else if n.z == c.z then 1 else 2;
    var b := if n.y == c.y - 1 then 0 else if n.y == c.y then 1 else 2;
    i := 3 * a + b;
    j := if n.x == c.x - 1 then 0 else if n.x == c.x then 1 else 2;
  }

  /** Every template offset other than (0, 0, 0) is a full neighbour. */
  lemma FullStepIsNeighbour(c: Vec3, i: nat, j: nat)
    requires i < 9 && j < 3 && FullStep(c, i, j) != c
    ensures Adjacent(Full, c, FullStep(c, i, j))
  {
  }

  /** `visited` holds a non-zero mark exactly on the voxels of `seen`. */
  ghost predicate MarksInt(visited: array3<int>, seen: set<Vec3>)
    reads visited
  {
    forall z, y, x :: 0 <= z < visited.Length0 && 0 <= y < visited.Length1 && 0 <= x < visited.Length2
      ==> (visited[z, y, x] != 0 <==> Vec3(z, y, x) in seen)
  }

  predicate Fits(vol: Vol, visited: array3<int>)
    requires |vol| >= 1
  {
    visited.Length0 == |vol| && visited.Length1 == Height(vol) && visited.Length2 == Width(vol)
  }

  /** The template cell (i, j) around `c` is no void voxel or is marked. */
  ghost predicate HandledFull(g: Graph, c: Vec3, i: nat, j: nat, S: set<Vec3>)
    requires i < 9 && j < 3
  {
    Node(g, FullStep(c, i, j)) ==> FullStep(c, i, j) in S
  }

  /** Rows before i stay handled as the marks grow; row i, handled now, joins them. */
  lemma HandledRowsGrow(g: Graph, c: Vec3, i: nat, S: set<Vec3>, S': set<Vec3>)
    requires i < 9 && S <= S'
    requires forall i', j' :: 0 <= i' < i && 0 <= j' < 3 ==> HandledFull(g, c, i', j', S)
    requires forall j' :: 0 <= j' < 3 ==> HandledFull(g, c, i, j', S')
    ensures forall i', j' :: 0 <= i' < i + 1 && 0 <= j' < 3 ==> HandledFull(g, c, i', j', S')
  {
    forall i', j' | 0 <= i' < i + 1 && 0 <= j' < 3 ensures HandledFull(g, c, i', j', S') {
      if i' < i {
        assert HandledFull(g, c, i', j', S);
      }
    }
  }

  /** Cells before j of row i stay handled as the marks grow; cell j, handled now, joins them. */
  lemma HandledColsGrow(g: Graph, c: Vec3, i: nat, j: nat, S: set<Vec3>, S': set<Vec3>)
    requires i < 9 && j < 3 && S <= S'
    requires forall j' :: 0 <= j' < j ==> HandledFull(g, c, i, j', S)
    requires HandledFull(g, c, i, j, S')
    ensures forall j' :: 0 <= j' < j + 1 ==> HandledFull(g, c, i, j', S')
  {
    forall j' | 0 <= j' < j + 1 ensures HandledFull(g, c, i, j', S') {
      if j' < j {
        assert HandledFull(g, c, i, j', S);
      }
    }
  }

  lemma AnyOnBorderAdd(vol: Vol, S: set<Vec3>, n: Vec3)
    requires |vol| >= 1
    ensures AnyOnBorder(vol, S + {n}) <==> AnyOnBorder(vol, S) || OnBorder(n, |vol|, Height(vol), Width(vol))
  {
    if AnyOnBorder(vol, S + {n}) {
      var v :| v in S + {n} && OnBorder(v, |vol|, Height(vol), Width(vol));
      if v != n {
        assert v in S;
      }
    }
  }

  /**
   * The fill grew from (fill, q) to (fill', q'): new voxels are void voxels
   * reached from `start` and queued, the queue keeps its old entries and
   * gains one entry per new voxel, and the fill grew or nothing changed;
   * besides, the fill stays clear of the old marks `seen0` and `touches'`
   * tells whether it meets the border.
   */
  ghost predicate Grows(vol: Vol, g: Graph, start: Vec3, seen0: set<Vec3>, fill: set<Vec3>, q: seq<Vec3>,
                        fill': set<Vec3>, q': seq<Vec3>, touches': bool)
    requires |vol| >= 1
  {
    && fill <= fill' && Reached(g, start, fill')
    && (forall v :: v in fill' ==> v in fill || v in q')
    && (forall v :: v in q' ==> v in q || v in fill')
    && (forall v :: v in q ==> v in q')
    && |q'| - |q| == |fill'| - |fill|
    && ((fill' == fill && q' == q) || |Box(vol) - fill'| < |Box(vol) - fill|)
    && fill' !! seen0
    && (touches' <==> AnyOnBorder(vol, fill'))
  }

  lemma GrowsTrans(vol: Vol, g: Graph, start: Vec3, seen0: set<Vec3>, f0: set<Vec3>, q0: seq<Vec3>,
                   f1: set<Vec3>, q1: seq<Vec3>, t1: bool, f2: set<Vec3>, q2: seq<Vec3>, t2: bool)
    requires |vol| >= 1
    requires Grows(vol, g, start, seen0, f0, q0, f1, q1, t1)
    requires Grows(vol, g, start, seen0, f1, q1, f2, q2, t2)
    ensures Grows(vol, g, start, seen0, f0, q0, f2, q2, t2)
  {
  }

  /**
   * One cell (i, j) of the template around the dequeued voxel `c`: an
   * in-bounds, unvisited void neighbour is checked against the border,
   * marked and queued.
   */
  method VisitFull(vol: Vol, bodyValue: Byte, visited: array3<int>, ghost start: Vec3, ghost seen0: set<Vec3>,
                   c: Vec3, i: nat, j: nat, q: seq<Vec3>, ghost fill: set<Vec3>, touches: bool)
    returns (q': seq<Vec3>, ghost fill': set<Vec3>, touches': bool)
    requires Valid(vol) && Fits(vol, visited) && i < 9 && j < 3
    requires MarksInt(visited, seen0 + fill) && fill !! seen0 && c in fill
    requires Reached(VoidFull(vol, bodyValue), start, fill)
    requires touches <==> AnyOnBorder(vol, fill)
    modifies visited
    ensures MarksInt(visited, seen0 + fill')
    ensures Grows(vol, VoidFull(vol, bodyValue), start, seen0, fill, q, fill', q', touches')
    ensures HandledFull(VoidFull(vol, bodyValue), c, i, j, seen0 + fill')
  {
    var g := VoidFull(vol, bodyValue);
    var depth, height, width := visited.Length0, visited.Length1, visited.Length2;
    q', fill', touches' := q, fill, touches;
    GrowsRefl(vol, g, start, seen0, fill, q, touches);
    var nz, ny, nx := c.z + Oz[i], c.y + Oy[i], c.x + Ox[j];
    var n := Vec3(nz, ny, nx);
    assert n == FullStep(c, i, j);
    if 0 <= nz < depth && 0 <= ny < height && 0 <= nx < width {
      assert InBox(vol, n);
      if visited[nz, ny, nx] == 0 && vol[nz].px[ny][nx] != bodyValue {
        assert n != c;
        FullStepIsNeighbour(c, i, j);
        ReachStep(g, start, c, n);
        if nz == 0 || nz == depth - 1 || ny == 0 || ny == height - 1 || nx == 0 || nx == width - 1 {
          touches' := true;
        }
        Mark(visited, n, seen0 + fill);
        q' := q + [n];
        fill' := fill + {n};
        assert seen0 + fill' == seen0 + fill + {n};
        AddGrows(vol, g, start, seen0, fill, q, n, touches, touches');
      }
    }
  }

  /** Setting the mark of an unmarked voxel `n` adds it to the marked set. */
  method Mark(visited: array3<int>, n: Vec3, ghost seen: set<Vec3>)
    requires 0 <= n.z < visited.Length0 && 0 <= n.y < visited.Length1 && 0 <= n.x < visited.Length2
    requires MarksInt(visited, seen)
    modifies visited
    ensures MarksInt(visited, seen + {n})
  {
    visited[n.z, n.y, n.x] := 1;
  }

  lemma GrowsRefl(vol: Vol, g: Graph, start: Vec3, seen0: set<Vec3>, fill: set<Vec3>, q: seq<Vec3>, touches: bool)
    requires |vol| >= 1 && fill !! seen0 && Reached(g, start, fill)
    requires touches <==> AnyOnBorder(vol, fill)
    ensures Grows(vol, g, start, seen0, fill, q, fill, q, touches)
  {
  }

  /** Queuing a new reachable void voxel `n` is a growth step of the fill. */
  lemma AddGrows(vol: Vol, g: Graph, start: Vec3, seen0: set<Vec3>, fill: set<Vec3>, q: seq<Vec3>, n: Vec3,
                 touches: bool, touches': bool)
    requires |vol| >= 1 && InBox(vol, n) && n !in seen0 + fill && fill !! seen0
    requires Reached(g, start, fill) && Node(g, n) && Reachable(g, start, n)
    requires touches <==> AnyOnBorder(vol, fill)
    requires touches' <==> touches || OnBorder(n, |vol|, Height(vol), Width(vol))
    ensures Grows(vol, g, start, seen0, fill, q, fill + {n}, q + [n], touches')
  {
    AnyOnBorderAdd(vol, fill, n);
    UnvisitedShrinks(vol, fill, n);
    AppendMembers(q, n);
    ReachedAdd(g, start, fill, n);
  }

  /** Row i of the template: its three `dx` cells. */
  method ExpandRow(vol: Vol, bodyValue: Byte, visited: array3<int>, ghost start: Vec3, ghost seen0: set<Vec3>,
                   c: Vec3, i: nat, q: seq<Vec3>, ghost fill: set<Vec3>, touches: bool)
    returns (q': seq<Vec3>, ghost fill': set<Vec3>, touches': bool)
    requires Valid(vol) && Fits(vol, visited) && i < 9
    requires MarksInt(visited, seen0 + fill) && fill !! seen0 && c in fill
    requires Reached(VoidFull(vol, bodyValue), start, fill)
    requires touches <==> AnyOnBorder(vol, fill)
    modifies visited
    ensures MarksInt(visited, seen0 + fill')
    ensures Grows(vol, VoidFull(vol, bodyValue), start, seen0, fill, q, fill', q', touches')
    ensures forall j' :: 0 <= j' < 3 ==> HandledFull(VoidFull(vol, bodyValue), c, i, j', seen0 + fill')
  {
    var g := VoidFull(vol, bodyValue);
    q', fill', touches' := q, fill, touches;
    for j := 0 to 3
      invariant MarksInt(visited, seen0 + fill')
      invariant Grows(vol, g, start, seen0, fill, q, fill', q', touches')
      invariant forall j' :: 0 <= j' < j ==> HandledFull(g, c, i, j', seen0 + fill')
    {
      ghost var fill1, q1, t1 := fill', q', touches';
      q', fill', touches' := VisitFull(vol, bodyValue, visited, start, seen0, c, i, j, q', fill', touches');
      GrowsTrans(vol, g, start, seen0, fill, q, fill1, q1, t1, fill', q', touches');
      HandledColsGrow(g, c, i, j, seen0 + fill1, seen0 + fill');
    }
  }

  /** The 9 x 3 template loop around the dequeued voxel `c`. */
  method ExpandFull(vol: Vol, bodyValue: Byte, visited: array3<int>, ghost start: Vec3, ghost seen0: set<Vec3>,
                    c: Vec3, q: seq<Vec3>, ghost fill: set<Vec3>, touches: bool)
    returns (q': seq<Vec3>, ghost fill': set<Vec3>, touches': bool)
    requires Valid(vol) && Fits(vol, visited)
    requires MarksInt(visited, seen0 + fill) && fill !! seen0 && c in fill
    requires Reached(VoidFull(vol, bodyValue), start, fill)
    requires touches <==> AnyOnBorder(vol, fill)
    modifies visited
    ensures MarksInt(visited, seen0 + fill')
    ensures Grows(vol, VoidFull(vol, bodyValue), start, seen0, fill, q, fill', q', touches')
    ensures ClosedAt(VoidFull(vol, bodyValue), c, seen0 + fill')
  {
    var g := VoidFull(vol, bodyValue);
    q', fill', touches' := q, fill, touches;
    for i := 0 to 9
      invariant MarksInt(visited, seen0 + fill')
      invariant Grows(vol, g, start, seen0, fill, q, fill', q', touches')
      invariant forall i', j' :: 0 <= i' < i && 0 <= j' < 3 ==> HandledFull(g, c, i', j', seen0 + fill')
    {
      ghost var fill1, q1, t1 := fill', q', touches';
      q', fill', touches' := ExpandRow(vol, bodyValue, visited, start, seen0, c, i, q', fill', touches');
      GrowsTrans(vol, g, start, seen0, fill, q, fill1, q1, t1, fill', q', touches');
      HandledRowsGrow(g, c, i, seen0 + fill1, seen0 + fill');
    }
    forall n | Node(g, n) && Adjacent(Full, c, n) ensures n in seen0 + fill' {
      var i, j := FullNeighbourIsStep(c, n);
      assert HandledFull(g, c, i, j, seen0 + fill');
    }
  }

  /**
   * The void-component fill of computePorosityStats, started from an
   * unvisited void voxel beside the already closed marks `seen0`: returns
   * the component's size and whether it touches the border.
   */
  method FloodVoid(vol: Vol, bodyValue: Byte, visited: array3<int>, start: Vec3, ghost seen0: set<Vec3>)
    returns (localCount: int, touchesBorder: bool, ghost fill: set<Vec3>)
    requires Valid(vol) && Fits(vol, visited)
    requires Node(VoidFull(vol, bodyValue), start) && start !in seen0
    requires MarksInt(visited, seen0)
    requires forall u :: u in seen0 ==> ClosedAt(VoidFull(vol, bodyValue), u, seen0)
    modifies visited
    ensures fill == Component(VoidFull(vol, bodyValue), start) && fill !! seen0
    ensures MarksInt(visited, seen0 + fill)
    ensures forall u :: u in seen0 + fill ==> ClosedAt(VoidFull(vol, bodyValue), u, seen0 + fill)
    ensures localCount == |fill|
    ensures touchesBorder <==> AnyOnBorder(vol, fill)
  {
    var g := VoidFull(vol, bodyValue);
    var depth, height, width := visited.Length0, visited.Length1, visited.Length2;
    touchesBorder := start.z == 0 || start.z == depth - 1 || start.y == 0 || start.y == height - 1
                     || start.x == 0 || start.x == width - 1;
    localCount := 0;
    var q := [start];
    Mark(visited, start, seen0);
    fill := {start};
    ghost var done: set<Vec3> := {};
    FloodStart(vol, bodyValue, visited, start, seen0, touchesBorder);
    while q != []
      invariant FloodState(vol, bodyValue, visited, start, seen0, q, fill, done, localCount, touchesBorder)
      decreases |Box(vol) - fill|, |q|
    {
      q, fill, done, localCount, touchesBorder :=
        FloodStep(vol, bodyValue, visited, start, seen0, q, fill, done, localCount, touchesBorder);
    }
    FloodFinish(vol, bodyValue, visited, start, seen0, fill, done, localCount, touchesBorder);
  }

  /**
   * The invariant of the flood loop of computePorosityStats: the marks are
   * the old ones plus `fill`, a set reached from `start` whose voxels are
   * expanded (`done`) or queued, `touches` records a border voxel in it, and
   * `localCount` counts the expanded ones.
   */
  ghost predicate FloodState(vol: Vol, bodyValue: Byte, visited: array3<int>, start: Vec3, seen0: set<Vec3>,
                             q: seq<Vec3>, fill: set<Vec3>, done: set<Vec3>, localCount: int, touches: bool)
    requires Valid(vol)
    reads visited
  {
    var g := VoidFull(vol, bodyValue);
    && Fits(vol, visited)
    && MarksInt(visited, seen0 + fill) && fill !! seen0 && start in fill
    && Reached(g, start, fill)
    && (touches <==> AnyOnBorder(vol, fill))
    && (forall v :: v in fill ==> v in done || v in q)
    && (forall v :: v in q ==> v in fill)
    && (forall v :: v in done ==> ClosedAt(g, v, seen0 + fill))
    && localCount + |q| == |fill|
  }

  /** The state as the flood starts: `start` marked and queued, nothing expanded. */
  lemma FloodStart(vol: Vol, bodyValue: Byte, visited: array3<int>, start: Vec3, seen0: set<Vec3>, touches: bool)
    requires Valid(vol) && Fits(vol, visited) && Node(VoidFull(vol, bodyValue), start) && start !in seen0
    requires MarksInt(visited, seen0 + {start})
    requires touches <==> OnBorder(start, |vol|, Height(vol), Width(vol))
    ensures FloodState(vol, bodyValue, visited, start, seen0, [start], {start}, {}, 0, touches)
  {
    ReachRefl(VoidFull(vol, bodyValue), start);
    AnyOnBorderAdd(vol, {}, start);
    assert {} + {start} == {start};
  }

  /** With the queue empty the fill is the component of `start`, closed together with the old marks. */
  lemma FloodFinish(vol: Vol, bodyValue: Byte, visited: array3<int>, start: Vec3, seen0: set<Vec3>,
                    fill: set<Vec3>, done: set<Vec3>, localCount: int, touches: bool)
    requires Valid(vol)
    requires forall u :: u in seen0 ==> ClosedAt(VoidFull(vol, bodyValue), u, seen0)
    requires FloodState(vol, bodyValue, visited, start, seen0, [], fill, done, localCount, touches)
    ensures fill == Component(VoidFull(vol, bodyValue), start) && fill !! seen0
    ensures MarksInt(visited, seen0 + fill)
    ensures forall u :: u in seen0 + fill ==> ClosedAt(VoidFull(vol, bodyValue), u, seen0 + fill)
    ensures localCount == |fill|
    ensures touches <==> AnyOnBorder(vol, fill)
  {
    var g := VoidFull(vol, bodyValue);
    FloodClosed(g, seen0, fill, done);
    FillIsComponent(g, seen0, fill, start);
  }

  /** One turn of the flood loop: dequeue a voxel, count it and expand it. */
  method FloodStep(vol: Vol, bodyValue: Byte, visited: array3<int>, ghost start: Vec3, ghost seen0: set<Vec3>,
                   q: seq<Vec3>, ghost fill: set<Vec3>, ghost done: set<Vec3>, localCount: int, touches: bool)
    returns (q': seq<Vec3>, ghost fill': set<Vec3>, ghost done': set<Vec3>, localCount': int, touches': bool)
    requires Valid(vol) && q != []
    requires FloodState(vol, bodyValue, visited, start, seen0, q, fill, done, localCount, touches)
    modifies visited
    ensures FloodState(vol, bodyValue, visited, start, seen0, q', fill', done', localCount', touches')
    ensures |Box(vol) - fill'| < |Box(vol) - fill| || (|Box(vol) - fill'| == |Box(vol) - fill| && |q'| < |q|)
  {
    var g := VoidFull(vol, bodyValue);
    var c := q[0];
    q' := q[1..];
    localCount' := localCount + 1;
    assert forall v :: v in fill ==> v in done || v in q' || v == c;
    assert forall v :: v in q' ==> v in fill;
    q', fill', touches' := ExpandFull(vol, bodyValue, visited, start, seen0, c, q', fill, touches);
    ClosedGrow(g, done, c, seen0 + fill, seen0 + fill');
    done' := done + {c};
  }

  /** When the queue is empty the marks, old and new, are closed. */
  lemma FloodClosed(g: Graph, seen0: set<Vec3>, fill: set<Vec3>, done: set<Vec3>)
    requires forall u :: u in seen0 ==> ClosedAt(g, u, seen0)
    requires forall v :: v in fill ==> v in done
    requires forall v :: v in done ==> ClosedAt(g, v, seen0 + fill)
    ensures forall u :: u in seen0 + fill ==> ClosedAt(g, u, seen0 + fill)
  {
    ClosedMonotone(g, seen0, seen0, seen0 + fill);
  }

  /**
   * What the raster scan of computePorosityStats knows once it has passed
   * the voxels `P`, with the marks `seen` and the components `comps` met so
   * far: the marks are closed void voxels holding every void voxel of `P`
   * and covering exactly the components in `comps`; `empty` counts the
   * marks and `pores` the enclosed components among `comps`.
   */
  ghost predicate ScanSets(vol: Vol, bodyValue: Byte, seen: set<Vec3>, comps: set<set<Vec3>>, P: set<Vec3>,
                           empty: int, pores: int)
    requires |vol| >= 1
  {
    var g := VoidFull(vol, bodyValue);
    && (forall u :: u in seen ==> Node(g, u) && ClosedAt(g, u, seen) && Component(g, u) in comps)
    && (forall v :: v in P && Node(g, v) ==> v in seen)
    && (forall c :: c in comps ==> c <= seen)
    && empty == |seen|
    && pores == |EnclosedOf(vol, comps)|
  }

  lemma EnclosedOfAdd(vol: Vol, comps: set<set<Vec3>>, c: set<Vec3>)
    requires |vol| >= 1 && c !in comps
    ensures |EnclosedOf(vol, comps + {c})| == |EnclosedOf(vol, comps)| + (if Enclosed(vol, c) then 1 else 0)
  {
    if Enclosed(vol, c) {
      assert EnclosedOf(vol, comps + {c}) == EnclosedOf(vol, comps) + {c};
    } else {
      assert EnclosedOf(vol, comps + {c}) == EnclosedOf(vol, comps);
    }
  }

  /** A body voxel, or a void voxel already marked, leaves the counts as they are. */
  lemma ScanOldVoxel(vol: Vol, bodyValue: Byte, seen: set<Vec3>, comps: set<set<Vec3>>, P: set<Vec3>,
                     empty: int, pores: int, v: Vec3)
    requires Valid(vol) && InBox(vol, v)
    requires ScanSets(vol, bodyValue, seen, comps, P, empty, pores)
    requires !Node(VoidFull(vol, bodyValue), v) || v in seen
    ensures ScanSets(vol, bodyValue, seen, comps, P + {v}, empty, pores)
    ensures Node(VoidFull(vol, bodyValue), v) ==> comps + {Component(VoidFull(vol, bodyValue), v)} == comps
  {
    var g := VoidFull(vol, bodyValue);
    if Node(g, v) {
      assert Component(g, v) in comps;
    }
  }

  /** A fresh void voxel adds its whole component to the marks, and one pore when it is enclosed. */
  lemma ScanNewComponent(vol: Vol, bodyValue: Byte, seen: set<Vec3>, comps: set<set<Vec3>>, P: set<Vec3>,
                         empty: int, pores: int, v: Vec3, fill: set<Vec3>, local: int, touches: bool)
    requires Valid(vol) && InBox(vol, v)
    requires ScanSets(vol, bodyValue, seen, comps, P, empty, pores)
    requires Node(VoidFull(vol, bodyValue), v) && v !in seen
    requires fill == Component(VoidFull(vol, bodyValue), v) && fill !! seen
    requires forall u :: u in seen + fill ==> ClosedAt(VoidFull(vol, bodyValue), u, seen + fill)
    requires local == |fill| && (touches <==> AnyOnBorder(vol, fill))
    ensures ScanSets(vol, bodyValue, seen + fill, comps + {fill}, P + {v}, empty + local,
                     if touches then pores else pores + 1)
  {
    var g := VoidFull(vol, bodyValue);
    NewComponentCounts(vol, g, seen, comps, v, fill);
    NewComponentMarks(g, seen, comps, v, fill);
  }

  /** The new component is not among the old ones, so it adds one to the enclosed count exactly when enclosed. */
  lemma NewComponentCounts(vol: Vol, g: Graph, seen: set<Vec3>, comps: set<set<Vec3>>, v: Vec3, fill: set<Vec3>)
    requires |vol| >= 1 && Node(g, v) && v !in seen && fill == Component(g, v)
    requires forall c :: c in comps ==> c <= seen
    ensures fill !in comps
    ensures |EnclosedOf(vol, comps + {fill})| == |EnclosedOf(vol, comps)| + (if Enclosed(vol, fill) then 1 else 0)
  {
    ComponentHasSeed(g, v);
    EnclosedOfAdd(vol, comps, fill);
  }

  /** After the fill, every mark is a closed void voxel whose component is among the met ones. */
  lemma NewComponentMarks(g: Graph, seen: set<Vec3>, comps: set<set<Vec3>>, v: Vec3, fill: set<Vec3>)
    requires Node(g, v) && fill == Component(g, v)
    requires forall u :: u in seen ==> Node(g, u) && Component(g, u) in comps
    requires forall u :: u in seen + fill ==> ClosedAt(g, u, seen + fill)
    requires forall c :: c in comps ==> c <= seen
    ensures forall u :: u in seen + fill ==> Node(g, u) && ClosedAt(g, u, seen + fill) && Component(g, u) in comps + {fill}
    ensures forall c :: c in comps + {fill} ==> c <= seen + fill
    ensures v in seen + fill
  {
    ComponentHasSeed(g, v);
    forall u | u in fill ensures Node(g, u) && Component(g, u) == fill {
      ComponentMembers(g, v, u);
    }
  }

  /**
   * The state of the raster scan: `ScanSets`, with `visited` marking exactly
   * the voxels of `seen` and `comps` the components met in `P`.
   */
  ghost predicate ScanState(vol: Vol, bodyValue: Byte, visited: array3<int>, seen: set<Vec3>, comps: set<set<Vec3>>,
                            P: set<Vec3>, empty: int, pores: int)
    requires |vol| >= 1
    reads visited
  {
    && MarksInt(visited, seen)
    && comps == ComponentsOf(VoidFull(vol, bodyValue), P)
    && ScanSets(vol, bodyValue, seen, comps, P, empty, pores)
  }

  /** The body of the raster scan for one voxel: flood its void component when it starts a new one. */
  method ScanVoxel(vol: Vol, bodyValue: Byte, visited: array3<int>, v: Vec3, ghost seen: set<Vec3>,
                   ghost comps: set<set<Vec3>>, ghost P: set<Vec3>, empty: int, pores: int)
    returns (ghost seen': set<Vec3>, ghost comps': set<set<Vec3>>, empty': int, pores': int)
    requires Valid(vol) && Fits(vol, visited) && InBox(vol, v)
    requires ScanState(vol, bodyValue, visited, seen, comps, P, empty, pores)
    modifies visited
    ensures ScanState(vol, bodyValue, visited, seen', comps', P + {v}, empty', pores')
  {
    ghost var g := VoidFull(vol, bodyValue);
    seen', comps', empty', pores' := seen, comps, empty, pores;
    ComponentsOfAdd(g, P, v);
    if vol[v.z].px[v.y][v.x] != bodyValue && visited[v.z, v.y, v.x] == 0 {
      var local, touches;
      ghost var fill;
      assert v !in seen;
      local, touches, fill := FloodVoid(vol, bodyValue, visited, v, seen);
      ScanNewComponent(vol, bodyValue, seen, comps, P, empty, pores, v, fill, local, touches);
      empty' := empty + local;
      if !touches {
        pores' := pores + 1;
      }
      seen', comps' := seen + fill, comps + {fill};
    } else {
      ScanOldVoxel(vol, bodyValue, seen, comps, P, empty, pores, v);
    }
  }

  /** Once the scan has passed every voxel, the marks are the void voxels and the components all of them. */
  lemma ScanComplete(vol: Vol, bodyValue: Byte, seen: set<Vec3>, comps: set<set<Vec3>>, empty: int, pores: int)
    requires Valid(vol)
    requires comps == ComponentsOf(VoidFull(vol, bodyValue), Box(vol))
    requires ScanSets(vol, bodyValue, seen, comps, Box(vol), empty, pores)
    ensures empty == |Voids(vol, bodyValue)| && pores == |Pores(vol, bodyValue)|
  {
    var g := VoidFull(vol, bodyValue);
    forall v ensures v in seen <==> v in Voids(vol, bodyValue) {
      BoxMembership(vol, v);
    }
    assert seen == Voids(vol, bodyValue);
  }

  /** The x loop of the raster scan: row y of layer z. */
  method ScanRow(vol: Vol, bodyValue: Byte, visited: array3<int>, z: nat, y: nat, ghost seen: set<Vec3>,
                 ghost comps: set<set<Vec3>>, total: int, empty: int, pores: int)
    returns (ghost seen': set<Vec3>, ghost comps': set<set<Vec3>>, total': int, empty': int, pores': int)
    requires Valid(vol) && Fits(vol, visited) && z < |vol| && y < Height(vol)
    requires ScanState(vol, bodyValue, visited, seen, comps, Prefix(vol, z, y, 0), empty, pores)
    requires total == |Prefix(vol, z, y, 0)|
    modifies visited
    ensures ScanState(vol, bodyValue, visited, seen', comps', Prefix(vol, z, y + 1, 0), empty', pores')
    ensures total' == |Prefix(vol, z, y + 1, 0)|
  {
    seen', comps', total', empty', pores' := seen, comps, total, empty, pores;
    for x := 0 to vol[0].cols
      invariant ScanState(vol, bodyValue, visited, seen', comps', Prefix(vol, z, y, x), empty', pores')
      invariant total' == |Prefix(vol, z, y, x)|
    {
      total' := total' + 1;
      PrefixStep(vol, z, y, x);
      seen', comps', empty', pores' :=
        ScanVoxel(vol, bodyValue, visited, Vec3(z, y, x), seen', comps', Prefix(vol, z, y, x), empty', pores');
    }
    PrefixEndOfRow(vol, z, y);
  }

  /** The y loop of the raster scan: layer z. */
  method ScanLayer(vol: Vol, bodyValue: Byte, visited: array3<int>, z: nat, ghost seen: set<Vec3>,
                   ghost comps: set<set<Vec3>>, total: int, empty: int, pores: int)
    returns (ghost seen': set<Vec3>, ghost comps': set<set<Vec3>>, total': int, empty': int, pores': int)
    requires Valid(vol) && Fits(vol, visited) && z < |vol|
    requires ScanState(vol, bodyValue, visited, seen, comps, Prefix(vol, z, 0, 0), empty, pores)
    requires total == |Prefix(vol, z, 0, 0)|
    modifies visited
    ensures ScanState(vol, bodyValue, visited, seen', comps', Prefix(vol, z + 1, 0, 0), empty', pores')
    ensures total' == |Prefix(vol, z + 1, 0, 0)|
  {
    seen', comps', total', empty', pores' := seen, comps, total, empty, pores;
    for y := 0 to vol[0].rows
      invariant ScanState(vol, bodyValue, visited, seen', comps', Prefix(vol, z, y, 0), empty', pores')
      invariant total' == |Prefix(vol, z, y, 0)|
    {
      seen', comps', total', empty', pores' := ScanRow(vol, bodyValue, visited, z, y, seen', comps', total', empty', pores');
    }
    PrefixEndOfSlice(vol, z);
  }

  /** `computePorosityStats`. */
  method ComputePorosityStats(volume: Vol, bodyValue: Byte) returns (stats: PorosityStats)
    requires Valid(volume)
    ensures stats.totalVoxels == |Box(volume)| == |volume| * (Height(volume) * Width(volume))
    ensures stats.emptyVoxels == |Voids(volume, bodyValue)|
    ensures stats.poreCount == |Pores(volume, bodyValue)|
  {
    var depth, height, width := |volume|, volume[0].rows, volume[0].cols;
    var visited := new int[depth, height, width]((_, _, _) => 0);
    var total, empty, pores := 0, 0, 0;
    ghost var seen: set<Vec3>, comps: set<set<Vec3>> := {}, {};
    PrefixStart(volume);
    for z := 0 to depth
      invariant ScanState(volume, bodyValue, visited, seen, comps, Prefix(volume, z, 0, 0), empty, pores)
      invariant total == |Prefix(volume, z, 0, 0)|
    {
      seen, comps, total, empty, pores := ScanLayer(volume, bodyValue, visited, z, seen, comps, total, empty, pores);
    }
    PrefixAll(volume);
    ScanComplete(volume, bodyValue, seen, comps, empty, pores);
    stats := PorosityStats(empty, total, pores);
    BoxSize(volume);
  }

  /** The empty count never exceeds the total, so the porosity is a share. */
  lemma VoidsWithinBox(vol: Vol, bodyValue: Byte)
    ensures Voids(vol, bodyValue) <= Box(vol) && |Voids(vol, bodyValue)| <= |Box(vol)|
  {
    var V := Voids(vol, bodyValue);
    assert |Box(vol)| == |V| + |Box(vol) - V| by {
      assert Box(vol) == V + (Box(vol) - V);
    }
  }

  /** Every component is a set of void voxels holding its own seed. */
  lemma ComponentsNonEmpty(vol: Vol, bodyValue: Byte, c: set<Vec3>) returns (w: Vec3)
    requires c in Components(VoidFull(vol, bodyValue))
    ensures w in c && InBox(vol, w)
  {
    var g := VoidFull(vol, bodyValue);
    w :| w in Box(vol) && Node(g, w) && c == Component(g, w);
    ComponentHasSeed(g, w);
  }

  /** A volume at most two voxels thick along some axis has every voxel on its border, hence no pore. */
  lemma ThinVolumeHasNoPores(vol: Vol, bodyValue: Byte)
    requires Valid(vol) && (|vol| <= 2 || Height(vol) <= 2 || Width(vol) <= 2)
    ensures Pores(vol, bodyValue) == {}
  {
    forall c | c in Components(VoidFull(vol, bodyValue)) ensures !Enclosed(vol, c) {
      var w := ComponentsNonEmpty(vol, bodyValue, c);
      assert OnBorder(w, |vol|, Height(vol), Width(vol));
    }
  }

  /**
   * A pore is walled in: every full neighbour of one of its voxels lies
   * inside the volume and is either in the same pore or a body voxel.
   */
  lemma PoreIsWalledIn(vol: Vol, bodyValue: Byte, c: set<Vec3>, v: Vec3, n: Vec3)
    requires Valid(vol) && c in Pores(vol, bodyValue) && v in c && Adjacent(Full, v, n)
    ensures InBox(vol, n)
    ensures n in c || At(vol, n) == bodyValue
  {
    var g := VoidFull(vol, bodyValue);
    var w :| w in Box(vol) && Node(g, w) && c == Component(g, w);
    assert !OnBorder(v, |vol|, Height(vol), Width(vol));
    ComponentMembers(g, w, v);
    assert InBox(vol, n);
    if At(vol, n) != bodyValue {
      ReachStep(g, w, v, n);
      BoxMembership(vol, n);
    }
  }

  /** Without void voxels there is nothing empty and no pore. */
  lemma SolidHasNoPores(vol: Vol, bodyValue: Byte)
    requires Valid(vol)
    requires forall v :: v in Box(vol) ==> At(vol, v) == bodyValue
    ensures Voids(vol, bodyValue) == {} && Pores(vol, bodyValue) == {}
  {
    forall c | c in Components(VoidFull(vol, bodyValue)) ensures false {
      var w := ComponentsNonEmpty(vol, bodyValue, c);
      ComponentMembers(VoidFull(vol, bodyValue), w, w);
      BoxMembership(vol, w);
    }
  }
}

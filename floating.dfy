/**
 * `detectFloatingIslands3D`: label every face-connected body component in
 * raster order (labels 1, 2, ... in a `D` x `H*W` label matrix indexed by
 * `y*W + x`, voxel lists per label in `label_voxels`), then count the
 * components that have no voxel in layer 0 and at least `min_voxels`
 * voxels. Also the area filter of the per-slice `detectFloatingIslands`.
 */
module FloatingIslands {
  import opened Volume
  import opened Reach

  /** A C++ `int`. */
  type Int32 = x: int | -0x8000_0000 <= x < 0x8000_0000

  /** `static_cast<size_t>(n)` on a 64-bit platform: negative values wrap around. */
  function SizeT(n: Int32): (r: nat)
    ensures n >= 0 ==> r == n
    ensures n < 0 ==> r >= 0x1_0000_0000_0000_0000 - 0x8000_0000
  {
    if n >= 0 then n else n + 0x1_0000_0000_0000_0000
  }

  /** The default `min_voxels` of the 3D check's declaration. */
  const DefaultMinVoxels: Int32 := 10

  /** The default `min_area` of the 2D check's declaration. */
  const DefaultMinArea: Int32 := 30

  /** A component is floating when no voxel lies in layer 0 and it is large enough. */
  ghost predicate Floating(c: set<Vec3>, minVoxels: Int32) {
    (forall v :: v in c ==> v.z != 0) && |c| >= SizeT(minVoxels)
  }

  /** The floating body components of the volume. */
  ghost function FloatingSet(vol: Vol, bodyValue: Byte, minVoxels: Int32): set<set<Vec3>> {
    set c | c in Components(BodyFaces(vol, bodyValue)) && Floating(c, minVoxels)
  }

  /** The `directions` list, in its order. */
  const Ez: seq<int> := [0, 0, 0, 0, 1, -1]
  const Ey: seq<int> := [0, 0, 1, -1, 0, 0]
  const Ex: seq<int> := [1, -1, 0, 0, 0, 0]

  function Dir(c: Vec3, i: nat): Vec3
    requires i < 6
  {
    Vec3(c.z + Ez[i], c.y + Ey[i], c.x + Ex[i])
  }

  /** The six directions are exactly the face neighbours. */
  lemma FaceNeighbourIsDir(c: Vec3, n: Vec3) returns (i: nat)
    requires Adjacent(Face, c, n)
    ensures i < 6 && n == Dir(c, i)
  {
    if n.x == c.x + 1 { i := 0; }
    else if n.x == c.x - 1 { i := 1; }
    else if n.y == c.y + 1 { i := 2; }
    else if n.y == c.y - 1 { i := 3; }
    else if n.z == c.z + 1 { i := 4; }
    else { i := 5; }
  }

  lemma DirIsFaceNeighbour(c: Vec3, i: nat)
    requires i < 6
    ensures Adjacent(Face, c, Dir(c, i))
  {
  }

  /** The shape of the label matrix: `D` rows of `H*W` cells. */
  predicate Shaped(vol: Vol, labels: array2<int>)
    requires |vol| >= 1
  {
    labels.Length0 == |vol| && labels.Length1 == Height(vol) * Width(vol)
  }

  /** `labels(z, y*W + x)`. */
  function LabelOf(labels: array2<int>, h: int, w: int, v: Vec3): int
    requires labels.Length1 == h * w
    requires 0 <= v.z < labels.Length0 && 0 <= v.y < h && 0 <= v.x < w
    reads labels
  {
    IdxBounds(v.y, v.x, h, w);
    labels[v.z, Idx(v.y, v.x, w)]
  }

  /**
   * Label `l` is right for voxel `v` while components `done` are labelled
   * 1..|done| and `fill` is being labelled |done|+1: 0 exactly off the
   * marked voxels `seen`, otherwise the number of the component holding `v`.
   */
  ghost predicate LabelRight(l: int, v: Vec3, seen: set<Vec3>, done: seq<set<Vec3>>, fill: set<Vec3>) {
    && 0 <= l <= |done| + 1
    && (l == 0 <==> v !in seen)
    && (1 <= l <= |done| ==> v in done[l - 1])
    && (l == |done| + 1 ==> v in fill)
  }

  /** Every cell of the label matrix carries its right label. */
  ghost predicate Labelled(labels: array2<int>, h: int, w: int, seen: set<Vec3>, done: seq<set<Vec3>>, fill: set<Vec3>)
    requires labels.Length1 == h * w
    reads labels
  {
    forall z, y, x :: 0 <= z < labels.Length0 && 0 <= y < h && 0 <= x < w
      ==> LabelRight(LabelOf(labels, h, w, Vec3(z, y, x)), Vec3(z, y, x), seen, done, fill)
  }

  /** `labels(n.z, n.y*W + n.x) = current_label` for an unlabelled voxel `n` of the growing component. */
  method SetLabel(labels: array2<int>, h: int, w: int, n: Vec3, current: int,
                  ghost seen: set<Vec3>, ghost done: seq<set<Vec3>>, ghost fill: set<Vec3>,
                  ghost seen': set<Vec3>, ghost fill': set<Vec3>)
    requires labels.Length1 == h * w
    requires seen' == seen + {n} && fill' == fill + {n}
    requires 0 <= n.z < labels.Length0 && 0 <= n.y < h && 0 <= n.x < w
    requires current == |done| + 1 && n !in seen
    requires Labelled(labels, h, w, seen, done, fill)
    modifies labels
    ensures Labelled(labels, h, w, seen', done, fill')
  {
    IdxBounds(n.y, n.x, h, w);
    labels[n.z, Idx(n.y, n.x, w)] := current;
    forall z, y, x | 0 <= z < labels.Length0 && 0 <= y < h && 0 <= x < w
      ensures LabelRight(LabelOf(labels, h, w, Vec3(z, y, x)), Vec3(z, y, x), seen', done, fill')
    {
      if Vec3(z, y, x) != n {
        if z == n.z && Idx(y, x, w) == Idx(n.y, n.x, w) {
          IdxInjective(y, x, n.y, n.x, w);
        }
        assert LabelOf(labels, h, w, Vec3(z, y, x)) == old(LabelOf(labels, h, w, Vec3(z, y, x)));
      }
    }
  }

  /**
   * The fill grew from (fill, q) to (fill', q'): new voxels are body voxels
   * reached from `start` and queued, the queue keeps its old entries and
   * gains one entry per new voxel, and the fill grew or nothing changed;
   * besides, the fill stays clear of the older labels `seen0` and `voxels'`
   * lists it once each.
   */
  ghost predicate Grows(vol: Vol, g: Graph, start: Vec3, seen0: set<Vec3>, fill: set<Vec3>, q: seq<Vec3>,
                        fill': set<Vec3>, q': seq<Vec3>, voxels': seq<Vec3>)
  {
    && fill <= fill' && Reached(g, start, fill')
    && (forall v :: v in fill' ==> v in fill || v in q')
    && (forall v :: v in q' ==> v in q || v in fill')
    && (forall v :: v in q ==> v in q')
    && |q'| - |q| == |fill'| - |fill|
    && ((fill' == fill && q' == q) || |Box(vol) - fill'| < |Box(vol) - fill|)
    && fill' !! seen0
    && Lists(fill', voxels')
  }

  lemma GrowsRefl(vol: Vol, g: Graph, start: Vec3, seen0: set<Vec3>, fill: set<Vec3>, q: seq<Vec3>, voxels: seq<Vec3>)
    requires fill !! seen0 && Reached(g, start, fill)
    requires Lists(fill, voxels)
    ensures Grows(vol, g, start, seen0, fill, q, fill, q, voxels)
  {
  }

  lemma GrowsTrans(vol: Vol, g: Graph, start: Vec3, seen0: set<Vec3>, f0: set<Vec3>, q0: seq<Vec3>,
                   f1: set<Vec3>, q1: seq<Vec3>, l1: seq<Vec3>, f2: set<Vec3>, q2: seq<Vec3>, l2: seq<Vec3>)
    requires Grows(vol, g, start, seen0, f0, q0, f1, q1, l1)
    requires Grows(vol, g, start, seen0, f1, q1, f2, q2, l2)
    ensures Grows(vol, g, start, seen0, f0, q0, f2, q2, l2)
  {
  }

  /** Labelling, queuing and listing a new reachable body voxel `n` is a growth step. */
  lemma AddGrows(vol: Vol, g: Graph, start: Vec3, seen0: set<Vec3>, fill: set<Vec3>, q: seq<Vec3>,
                 voxels: seq<Vec3>, n: Vec3)
    requires InBox(vol, n) && n !in seen0 + fill && fill !! seen0
    requires Reached(g, start, fill) && Node(g, n) && Reachable(g, start, n)
    requires Lists(fill, voxels)
    ensures Grows(vol, g, start, seen0, fill, q, fill + {n}, q + [n], voxels + [n])
  {
    UnvisitedShrinks(vol, fill, n);
    ListsAdd(fill, voxels, n);
    ListsAdd(fill, q, n);
    ReachedAdd(g, start, fill, n);
  }

  /** `s` lists the voxels of `S` once each. */
  ghost predicate Lists(S: set<Vec3>, s: seq<Vec3>) {
    (forall v :: v in s <==> v in S) && |s| == |S|
  }

  /** Appending a new voxel to a list keeps the old entries and adds just it. */
  lemma ListsAdd(S: set<Vec3>, s: seq<Vec3>, n: Vec3)
    ensures forall v :: v in s + [n] <==> v in s || v == n
    ensures n !in S && Lists(S, s) ==> Lists(S + {n}, s + [n])
  {
    AppendMembers(s, n);
  }

  /**
   * Labels a new body neighbour `n` of `c` with the current label, and
   * appends it to the queue and to the component's voxel list.
   */
  method Admit(vol: Vol, bodyValue: Byte, labels: array2<int>, current: int, ghost start: Vec3,
               ghost seen0: set<Vec3>, ghost done: seq<set<Vec3>>, ghost c: Vec3, n: Vec3,
               q: seq<Vec3>, voxels: seq<Vec3>, ghost fill: set<Vec3>)
    returns (q': seq<Vec3>, voxels': seq<Vec3>, ghost fill': set<Vec3>)
    requires Valid(vol) && Shaped(vol, labels) && current == |done| + 1
    requires Labelled(labels, Height(vol), Width(vol), seen0 + fill, done, fill)
    requires fill !! seen0 && c in fill && Reached(BodyFaces(vol, bodyValue), start, fill)
    requires Lists(fill, voxels)
    requires Node(BodyFaces(vol, bodyValue), n) && Adjacent(Face, c, n) && n !in seen0 + fill
    modifies labels
    ensures n in fill'
    ensures Labelled(labels, Height(vol), Width(vol), seen0 + fill', done, fill')
    ensures Grows(vol, BodyFaces(vol, bodyValue), start, seen0, fill, q, fill', q', voxels')
  {
    AdmitGrows(vol, bodyValue, start, seen0, c, n, q, voxels, fill);
    q', voxels', fill' := q + [n], voxels + [n], fill + {n};
    Label(vol, labels, current, seen0, done, n, fill);
  }

  lemma AdmitGrows(vol: Vol, bodyValue: Byte, start: Vec3, seen0: set<Vec3>, c: Vec3, n: Vec3,
                   q: seq<Vec3>, voxels: seq<Vec3>, fill: set<Vec3>)
    requires fill !! seen0 && c in fill && Reached(BodyFaces(vol, bodyValue), start, fill)
    requires Lists(fill, voxels)
    requires Node(BodyFaces(vol, bodyValue), n) && Adjacent(Face, c, n) && n !in seen0 + fill
    ensures Grows(vol, BodyFaces(vol, bodyValue), start, seen0, fill, q, fill + {n}, q + [n], voxels + [n])
  {
    ReachStep(BodyFaces(vol, bodyValue), start, c, n);
    AddGrows(vol, BodyFaces(vol, bodyValue), start, seen0, fill, q, voxels, n);
  }

  /** SetLabel in the terms of the volume's shape. */
  method Label(vol: Vol, labels: array2<int>, current: int, ghost seen0: set<Vec3>,
               ghost done: seq<set<Vec3>>, n: Vec3, ghost fill: set<Vec3>)
    requires Valid(vol) && Shaped(vol, labels) && current == |done| + 1
    requires Labelled(labels, Height(vol), Width(vol), seen0 + fill, done, fill)
    requires InBox(vol, n) && n !in seen0 + fill
    modifies labels
    ensures Labelled(labels, Height(vol), Width(vol), seen0 + (fill + {n}), done, fill + {n})
  {
    InBoxUniform(vol, n);
    SetLabel(labels, Height(vol), Width(vol), n, current, seen0 + fill, done, fill, seen0 + (fill + {n}), fill + {n});
  }

  /** The direction `i` is dealt with: its cell is no body voxel or it is labelled. */
  ghost predicate HandledDir(g: Graph, c: Vec3, i: nat, S: set<Vec3>)
    requires i < 6
  {
    Node(g, Dir(c, i)) ==> Dir(c, i) in S
  }

  lemma HandledDirGrow(g: Graph, c: Vec3, i: nat, S: set<Vec3>, S': set<Vec3>)
    requires i < 6 && S <= S'
    requires forall k :: 0 <= k < i ==> HandledDir(g, c, k, S)
    requires HandledDir(g, c, i, S')
    ensures forall k :: 0 <= k < i + 1 ==> HandledDir(g, c, k, S')
  {
    forall k | 0 <= k < i + 1 ensures HandledDir(g, c, k, S') {
      if k < i {
        assert HandledDir(g, c, k, S);
      }
    }
  }

  /**
   * One entry of the `directions` loop around the dequeued voxel `c`: an
   * inside, unlabelled body neighbour is labelled, queued and listed.
   */
  method VisitDir(vol: Vol, bodyValue: Byte, labels: array2<int>, current: int, ghost start: Vec3,
                  ghost seen0: set<Vec3>, ghost done: seq<set<Vec3>>, c: Vec3, i: nat,
                  q: seq<Vec3>, voxels: seq<Vec3>, ghost fill: set<Vec3>)
    returns (q': seq<Vec3>, voxels': seq<Vec3>, ghost fill': set<Vec3>)
    requires Valid(vol) && Shaped(vol, labels) && i < 6 && current == |done| + 1
    requires Labelled(labels, Height(vol), Width(vol), seen0 + fill, done, fill)
    requires fill !! seen0 && c in fill && Reached(BodyFaces(vol, bodyValue), start, fill)
    requires Lists(fill, voxels)
    modifies labels
    ensures Labelled(labels, Height(vol), Width(vol), seen0 + fill', done, fill')
    ensures Grows(vol, BodyFaces(vol, bodyValue), start, seen0, fill, q, fill', q', voxels')
    ensures HandledDir(BodyFaces(vol, bodyValue), c, i, seen0 + fill')
  {
    var g := BodyFaces(vol, bodyValue);
    var D, H, W := |vol|, vol[0].rows, vol[0].cols;
    q', voxels', fill' := q, voxels, fill;
    GrowsRefl(vol, g, start, seen0, fill, q, voxels);
    var nz, ny, nx := c.z + Ez[i], c.y + Ey[i], c.x + Ex[i];
    var n := Vec3(nz, ny, nx);
    assert n == Dir(c, i);
    if IsInside(nz, ny, nx, D, H, W) {
      assert InBox(vol, n);
      IdxBounds(ny, nx, H, W);
      var cell := labels[nz, Idx(ny, nx, W)];
      assert cell == LabelOf(labels, H, W, n);
      if vol[nz].px[ny][nx] == bodyValue && cell == 0 {
        DirIsFaceNeighbour(c, i);
        q', voxels', fill' := Admit(vol, bodyValue, labels, current, start, seen0, done, c, n, q, voxels, fill);
      }
    }
  }

  /**
   * The `directions` loop around the dequeued voxel `c`: afterwards every
   * body face neighbour of `c` is labelled.
   */
  method ExpandDirs(vol: Vol, bodyValue: Byte, labels: array2<int>, current: int, ghost start: Vec3,
                    ghost seen0: set<Vec3>, ghost done: seq<set<Vec3>>, c: Vec3,
                    q: seq<Vec3>, voxels: seq<Vec3>, ghost fill: set<Vec3>)
    returns (q': seq<Vec3>, voxels': seq<Vec3>, ghost fill': set<Vec3>)
    requires Valid(vol) && Shaped(vol, labels) && current == |done| + 1
    requires Labelled(labels, Height(vol), Width(vol), seen0 + fill, done, fill)
    requires fill !! seen0 && c in fill && Reached(BodyFaces(vol, bodyValue), start, fill)
    requires Lists(fill, voxels)
    modifies labels
    ensures Labelled(labels, Height(vol), Width(vol), seen0 + fill', done, fill')
    ensures Grows(vol, BodyFaces(vol, bodyValue), start, seen0, fill, q, fill', q', voxels')
    ensures ClosedAt(BodyFaces(vol, bodyValue), c, seen0 + fill')
  {
    var g := BodyFaces(vol, bodyValue);
    q', voxels', fill' := q, voxels, fill;
    GrowsRefl(vol, g, start, seen0, fill, q, voxels);
    for i := 0 to 6
      invariant Labelled(labels, Height(vol), Width(vol), seen0 + fill', done, fill')
      invariant Grows(vol, g, start, seen0, fill, q, fill', q', voxels')
      invariant forall k :: 0 <= k < i ==> HandledDir(g, c, k, seen0 + fill')
    {
      ghost var f1, q1, l1 := fill', q', voxels';
      q', voxels', fill' := VisitDir(vol, bodyValue, labels, current, start, seen0, done, c, i, q', voxels', fill');
      GrowsTrans(vol, g, start, seen0, fill, q, f1, q1, l1, fill', q', voxels');
      HandledDirGrow(g, c, i, seen0 + f1, seen0 + fill');
    }
    forall n | Node(g, n) && Adjacent(Face, c, n) ensures n in seen0 + fill' {
      var k := FaceNeighbourIsDir(c, n);
      assert HandledDir(g, c, k, seen0 + fill');
    }
  }

  /**
   * The breadth-first labelling of one component from its first voxel
   * `start` in raster order: label, queue and list `start`, then expand
   * queued voxels until the queue is empty. The labels grow by exactly the
   * component of `start`, listed once each in `voxels`; the loop dequeues
   * `pops` voxels, one per voxel of the component, so none is queued twice.
   */
  method FloodBody(vol: Vol, bodyValue: Byte, labels: array2<int>, current: int, start: Vec3,
                   ghost seen0: set<Vec3>, ghost done: seq<set<Vec3>>)
    returns (voxels: seq<Vec3>, ghost fill: set<Vec3>, ghost pops: nat)
    requires Valid(vol) && Shaped(vol, labels) && current == |done| + 1
    requires Node(BodyFaces(vol, bodyValue), start) && start !in seen0
    requires Labelled(labels, Height(vol), Width(vol), seen0, done, {})
    requires forall u :: u in seen0 ==> ClosedAt(BodyFaces(vol, bodyValue), u, seen0)
    modifies labels
    ensures fill == Component(BodyFaces(vol, bodyValue), start) && fill !! seen0
    ensures Labelled(labels, Height(vol), Width(vol), seen0 + fill, done, fill)
    ensures forall u :: u in seen0 + fill ==> ClosedAt(BodyFaces(vol, bodyValue), u, seen0 + fill)
    ensures Lists(fill, voxels)
    ensures pops == |fill|
  {
    var g := BodyFaces(vol, bodyValue);
    assert seen0 + {} == seen0;
    Label(vol, labels, current, seen0, done, start, {});
    var q := [start];
    voxels := [start];
    fill := {start};
    pops := 0;
    assert {} + {start} == fill;
    ghost var closed: set<Vec3> := {};
    ReachRefl(g, start);
    while q != []
      invariant Labelled(labels, Height(vol), Width(vol), seen0 + fill, done, fill)
      invariant fill !! seen0 && start in fill && Reached(g, start, fill) && Lists(fill, voxels)
      invariant forall v :: v in fill ==> v in closed || v in q
      invariant forall v :: v in q ==> v in fill
      invariant forall v :: v in closed ==> ClosedAt(g, v, seen0 + fill)
      invariant pops + |q| == |fill|
      decreases |Box(vol) - fill|, |q|
    {
      var c := q[0];
      q := q[1..];
      pops := pops + 1;
      ghost var fill0 := fill;
      assert forall v :: v in fill ==> v in closed || v in q || v == c;
      assert forall v :: v in q ==> v in fill;
      q, voxels, fill := ExpandDirs(vol, bodyValue, labels, current, start, seen0, done, c, q, voxels, fill);
      ClosedGrow(g, closed, c, seen0 + fill0, seen0 + fill);
      closed := closed + {c};
    }
    ClosedMonotone(g, seen0, seen0, seen0 + fill);
    FillIsComponent(g, seen0, fill, start);
  }

  /** Closing the component being labelled: it becomes label |done|+1 of the finished ones. */
  lemma LabelledNext(labels: array2<int>, h: int, w: int, seen: set<Vec3>, done: seq<set<Vec3>>, fill: set<Vec3>)
    requires labels.Length1 == h * w
    requires Labelled(labels, h, w, seen, done, fill)
    ensures Labelled(labels, h, w, seen, done + [fill], {})
  {
    forall z, y, x | 0 <= z < labels.Length0 && 0 <= y < h && 0 <= x < w
      ensures LabelRight(LabelOf(labels, h, w, Vec3(z, y, x)), Vec3(z, y, x), seen, done + [fill], {})
    {
      var l := LabelOf(labels, h, w, Vec3(z, y, x));
      assert LabelRight(l, Vec3(z, y, x), seen, done, fill);
      if 1 <= l <= |done| + 1 {
        assert (done + [fill])[l - 1] == if l <= |done| then done[l - 1] else fill;
      }
    }
  }

  /** No two labels name the same component. */
  ghost predicate Distinct(done: seq<set<Vec3>>) {
    forall i, j :: 0 <= i < j < |done| ==> done[i] != done[j]
  }

  /**
   * What the raster scan of detectFloatingIslands3D knows once it has passed
   * the voxels `P`: the labelled voxels `seen` are closed body voxels, each
   * in one of the finished components `done`, which are distinct and
   * labelled in full, and every body voxel of `P` is labelled.
   */
  ghost predicate ScanSets(vol: Vol, bodyValue: Byte, seen: set<Vec3>, done: seq<set<Vec3>>, P: set<Vec3>) {
    var g := BodyFaces(vol, bodyValue);
    && (forall u :: u in seen ==> Node(g, u) && ClosedAt(g, u, seen) && Component(g, u) in done)
    && (forall v :: v in P && Node(g, v) ==> v in seen)
    && (forall k :: 0 <= k < |done| ==> done[k] <= seen)
    && Distinct(done)
  }

  /** `label_voxels` holds, under each label 1..|done|, the voxels of that component once each. */
  ghost predicate VoxelLists(labelVoxels: map<int, seq<Vec3>>, done: seq<set<Vec3>>) {
    && (forall k :: k in labelVoxels <==> 1 <= k <= |done|)
    && (forall k :: 1 <= k <= |done| ==> k in labelVoxels && Lists(done[k - 1], labelVoxels[k]))
  }

  /**
   * The state of the raster scan: `ScanSets`, the label matrix labelling
   * exactly `seen` with the finished components, `current_label` one past
   * them, `label_voxels` listing them, and `done` the components met in `P`.
   */
  ghost predicate ScanState(vol: Vol, bodyValue: Byte, labels: array2<int>, labelVoxels: map<int, seq<Vec3>>,
                            current: int, seen: set<Vec3>, done: seq<set<Vec3>>, P: set<Vec3>)
    requires Valid(vol)
    reads labels
  {
    && Shaped(vol, labels)
    && Labelled(labels, Height(vol), Width(vol), seen, done, {})
    && current == |done| + 1
    && VoxelLists(labelVoxels, done)
    && (set c | c in done) == ComponentsOf(BodyFaces(vol, bodyValue), P)
    && ScanSets(vol, bodyValue, seen, done, P)
  }

  /** A voxel that is no body voxel, or is labelled already, changes nothing. */
  lemma ScanOldVoxel(vol: Vol, bodyValue: Byte, seen: set<Vec3>, done: seq<set<Vec3>>, P: set<Vec3>, v: Vec3)
    requires ScanSets(vol, bodyValue, seen, done, P)
    requires (set c | c in done) == ComponentsOf(BodyFaces(vol, bodyValue), P)
    requires !Node(BodyFaces(vol, bodyValue), v) || v in seen
    ensures ScanSets(vol, bodyValue, seen, done, P + {v})
    ensures (set c | c in done) == ComponentsOf(BodyFaces(vol, bodyValue), P + {v})
  {
    var g := BodyFaces(vol, bodyValue);
    ComponentsOfAdd(g, P, v);
    if Node(g, v) {
      assert Component(g, v) in done;
    }
  }

  /** A new body voxel's whole component is labelled and becomes the next finished one. */
  lemma ScanNewComponent(vol: Vol, bodyValue: Byte, seen: set<Vec3>, done: seq<set<Vec3>>, P: set<Vec3>,
                         v: Vec3, fill: set<Vec3>)
    requires ScanSets(vol, bodyValue, seen, done, P)
    requires (set c | c in done) == ComponentsOf(BodyFaces(vol, bodyValue), P)
    requires Node(BodyFaces(vol, bodyValue), v) && v !in seen
    requires fill == Component(BodyFaces(vol, bodyValue), v) && fill !! seen
    requires forall u :: u in seen + fill ==> ClosedAt(BodyFaces(vol, bodyValue), u, seen + fill)
    ensures ScanSets(vol, bodyValue, seen + fill, done + [fill], P + {v})
    ensures (set c | c in done + [fill]) == ComponentsOf(BodyFaces(vol, bodyValue), P + {v})
  {
    var g := BodyFaces(vol, bodyValue);
    ComponentsOfAdd(g, P, v);
    NewComponentMarks(g, seen, done, v, fill);
    NewComponentDistinct(g, seen, done, v, fill);
    assert (set c | c in done + [fill]) == (set c | c in done) + {fill};
  }

  /** After the flood, every label is on a closed body voxel whose component is finished. */
  lemma NewComponentMarks(g: Graph, seen: set<Vec3>, done: seq<set<Vec3>>, v: Vec3, fill: set<Vec3>)
    requires Node(g, v) && fill == Component(g, v)
    requires forall u :: u in seen ==> Node(g, u) && Component(g, u) in done
    requires forall u :: u in seen + fill ==> ClosedAt(g, u, seen + fill)
    ensures forall u :: u in seen + fill ==> Node(g, u) && ClosedAt(g, u, seen + fill) && Component(g, u) in done + [fill]
    ensures v in seen + fill
  {
    ComponentHasSeed(g, v);
    assert fill == (done + [fill])[|done|];
    forall u | u in fill ensures Node(g, u) && Component(g, u) == fill {
      ComponentMembers(g, v, u);
    }
  }

  /** The new component differs from the finished ones, which lie in the old labels. */
  lemma NewComponentDistinct(g: Graph, seen: set<Vec3>, done: seq<set<Vec3>>, v: Vec3, fill: set<Vec3>)
    requires Node(g, v) && v !in seen && fill == Component(g, v)
    requires forall k :: 0 <= k < |done| ==> done[k] <= seen
    requires Distinct(done)
    ensures forall k :: 0 <= k < |done| + 1 ==> (done + [fill])[k] <= seen + fill
    ensures Distinct(done + [fill])
  {
    ComponentHasSeed(g, v);
    forall i, j | 0 <= i < j < |done| + 1 ensures (done + [fill])[i] != (done + [fill])[j] {
      if j == |done| {
        assert v !in done[i];
      }
    }
  }

  /**
   * The body of the raster scan for one voxel: a body voxel without a label
   * starts a new component, flooded under `current_label`, whose voxel list
   * is stored under that label.
   */
  method ScanVoxel(vol: Vol, bodyValue: Byte, labels: array2<int>, labelVoxels: map<int, seq<Vec3>>,
                   current: int, v: Vec3, ghost seen: set<Vec3>, ghost done: seq<set<Vec3>>, ghost P: set<Vec3>)
    returns (labelVoxels': map<int, seq<Vec3>>, current': int, ghost seen': set<Vec3>, ghost done': seq<set<Vec3>>)
    requires Valid(vol) && InBox(vol, v)
    requires ScanState(vol, bodyValue, labels, labelVoxels, current, seen, done, P)
    modifies labels
    ensures ScanState(vol, bodyValue, labels, labelVoxels', current', seen', done', P + {v})
  {
    labelVoxels', current', seen', done' := labelVoxels, current, seen, done;
    var W := vol[0].cols;
    InBoxUniform(vol, v);
    IdxBounds(v.y, v.x, Height(vol), W);
    var cell := labels[v.z, Idx(v.y, v.x, W)];
    assert cell == LabelOf(labels, Height(vol), W, v);
    if vol[v.z].px[v.y][v.x] == bodyValue && cell == 0 {
      var voxels;
      ghost var fill;
      ghost var pops;
      voxels, fill, pops := FloodBody(vol, bodyValue, labels, current, v, seen, done);
      ScanNewComponent(vol, bodyValue, seen, done, P, v, fill);
      LabelledNext(labels, Height(vol), W, seen + fill, done, fill);
      labelVoxels' := labelVoxels[current := voxels];
      current' := current + 1;
      seen', done' := seen + fill, done + [fill];
      NextVoxelLists(labelVoxels, done, fill, voxels);
    } else {
      ScanOldVoxel(vol, bodyValue, seen, done, P, v);
    }
  }

  lemma NextVoxelLists(labelVoxels: map<int, seq<Vec3>>, done: seq<set<Vec3>>, fill: set<Vec3>, voxels: seq<Vec3>)
    requires VoxelLists(labelVoxels, done) && Lists(fill, voxels)
    ensures VoxelLists(labelVoxels[|done| + 1 := voxels], done + [fill])
  {
    var m := labelVoxels[|done| + 1 := voxels];
    forall k | 1 <= k <= |done| + 1 ensures k in m && Lists((done + [fill])[k - 1], m[k]) {
      if k <= |done| {
        assert (done + [fill])[k - 1] == done[k - 1];
      }
    }
  }

  /** The x loop of the raster scan: row y of layer z. */
  method ScanRow(vol: Vol, bodyValue: Byte, labels: array2<int>, labelVoxels: map<int, seq<Vec3>>, current: int,
                 z: nat, y: nat, ghost seen: set<Vec3>, ghost done: seq<set<Vec3>>)
    returns (labelVoxels': map<int, seq<Vec3>>, current': int, ghost seen': set<Vec3>, ghost done': seq<set<Vec3>>)
    requires Valid(vol) && z < |vol| && y < Height(vol)
    requires ScanState(vol, bodyValue, labels, labelVoxels, current, seen, done, Prefix(vol, z, y, 0))
    modifies labels
    ensures ScanState(vol, bodyValue, labels, labelVoxels', current', seen', done', Prefix(vol, z, y + 1, 0))
  {
    labelVoxels', current', seen', done' := labelVoxels, current, seen, done;
    for x := 0 to vol[0].cols
      invariant ScanState(vol, bodyValue, labels, labelVoxels', current', seen', done', Prefix(vol, z, y, x))
    {
      PrefixStep(vol, z, y, x);
      labelVoxels', current', seen', done' :=
        ScanVoxel(vol, bodyValue, labels, labelVoxels', current', Vec3(z, y, x), seen', done', Prefix(vol, z, y, x));
    }
    PrefixEndOfRow(vol, z, y);
  }

  /** The y loop of the raster scan: layer z. */
  method ScanLayer(vol: Vol, bodyValue: Byte, labels: array2<int>, labelVoxels: map<int, seq<Vec3>>, current: int,
                   z: nat, ghost seen: set<Vec3>, ghost done: seq<set<Vec3>>)
    returns (labelVoxels': map<int, seq<Vec3>>, current': int, ghost seen': set<Vec3>, ghost done': seq<set<Vec3>>)
    requires Valid(vol) && z < |vol|
    requires ScanState(vol, bodyValue, labels, labelVoxels, current, seen, done, Prefix(vol, z, 0, 0))
    modifies labels
    ensures ScanState(vol, bodyValue, labels, labelVoxels', current', seen', done', Prefix(vol, z + 1, 0, 0))
  {
    labelVoxels', current', seen', done' := labelVoxels, current, seen, done;
    for y := 0 to vol[0].rows
      invariant ScanState(vol, bodyValue, labels, labelVoxels', current', seen', done', Prefix(vol, z, y, 0))
    {
      labelVoxels', current', seen', done' := ScanRow(vol, bodyValue, labels, labelVoxels', current', z, y, seen', done');
    }
    PrefixEndOfSlice(vol, z);
  }

  /**
   * The labelling half of detectFloatingIslands3D: afterwards the labels
   * 1..current-1 name the body components, each once, and `label_voxels`
   * lists each of them.
   */
  method LabelBodies(volume: Vol, bodyValue: Byte)
    returns (labelVoxels: map<int, seq<Vec3>>, current: int, ghost done: seq<set<Vec3>>)
    requires Valid(volume)
    ensures current == |done| + 1 && VoxelLists(labelVoxels, done) && Distinct(done)
    ensures (set c | c in done) == Components(BodyFaces(volume, bodyValue))
  {
    var D, H, W := |volume|, volume[0].rows, volume[0].cols;
    var labels := new int[D, H * W]((_, _) => 0);
    current := 1;
    labelVoxels := map[];
    done := [];
    ghost var seen: set<Vec3> := {};
    ScanStart(volume, bodyValue, labels);
    for z := 0 to D
      invariant ScanState(volume, bodyValue, labels, labelVoxels, current, seen, done, Prefix(volume, z, 0, 0))
    {
      labelVoxels, current, seen, done := ScanLayer(volume, bodyValue, labels, labelVoxels, current, z, seen, done);
    }
    PrefixAll(volume);
  }

  /** Before the scan: no label, no component, nothing passed. */
  lemma ScanStart(vol: Vol, bodyValue: Byte, labels: array2<int>)
    requires Valid(vol) && Shaped(vol, labels)
    requires forall i, j :: 0 <= i < labels.Length0 && 0 <= j < labels.Length1 ==> labels[i, j] == 0
    ensures ScanState(vol, bodyValue, labels, map[], 1, {}, [], Prefix(vol, 0, 0, 0))
  {
    PrefixStart(vol);
    ComponentsOfEmpty(BodyFaces(vol, bodyValue));
    var none: seq<set<Vec3>> := [];
    assert (set c | c in none) == {};
    forall z, y, x | 0 <= z < labels.Length0 && 0 <= y < Height(vol) && 0 <= x < Width(vol)
      ensures LabelRight(LabelOf(labels, Height(vol), Width(vol), Vec3(z, y, x)), Vec3(z, y, x), {}, none, {})
    {
      IdxBounds(y, x, Height(vol), Width(vol));
      assert labels[z, Idx(y, x, Width(vol))] == 0;
    }
    assert VoxelLists(map[], none);
    assert ScanSets(vol, bodyValue, {}, none, {});
  }

  lemma ComponentsOfEmpty(g: Graph)
    ensures ComponentsOf(g, {}) == {}
  {
  }

  /** How many of the finished components, in label order, are floating. */
  ghost function FloatingCount(done: seq<set<Vec3>>, minVoxels: Int32): nat {
    if done == [] then 0
    else FloatingCount(done[..|done| - 1], minVoxels) + (if Floating(done[|done| - 1], minVoxels) then 1 else 0)
  }

  /** Over distinct components, counting label by label counts the floating components themselves. */
  lemma {:induction false} FloatingCountIsSize(done: seq<set<Vec3>>, minVoxels: Int32)
    requires Distinct(done)
    ensures FloatingCount(done, minVoxels) == |set c | c in done && Floating(c, minVoxels)|
  {
    if done == [] {
      assert (set c | c in done && Floating(c, minVoxels)) == {};
    } else {
      var p, last := done[..|done| - 1], done[|done| - 1];
      assert Distinct(p);
      FloatingCountIsSize(p, minVoxels);
      assert last !in p by {
        forall i | 0 <= i < |p| ensures p[i] != last {
          assert done[i] != done[|done| - 1];
        }
      }
      assert done == p + [last];
      var before := set c | c in p && Floating(c, minVoxels);
      if Floating(last, minVoxels) {
        assert (set c | c in done && Floating(c, minVoxels)) == before + {last};
      } else {
        assert (set c | c in done && Floating(c, minVoxels)) == before;
      }
    }
  }

  /** The `touches_z0` loop: does some listed voxel lie in layer 0? */
  method TouchesLayer0(voxels: seq<Vec3>) returns (touches: bool)
    ensures touches <==> exists v :: v in voxels && v.z == 0
  {
    touches := false;
    for i := 0 to |voxels|
      invariant forall k :: 0 <= k < i ==> voxels[k].z != 0
    {
      if voxels[i].z == 0 {
        touches := true;
        break;
      }
    }
  }

  /** The test on one list decides whether its component is floating. */
  lemma FloatingByList(c: set<Vec3>, voxels: seq<Vec3>, minVoxels: Int32, touches: bool)
    requires Lists(c, voxels) && (touches <==> exists v :: v in voxels && v.z == 0)
    ensures Floating(c, minVoxels) <==> !touches && |voxels| >= SizeT(minVoxels)
  {
  }

  /**
   * The counting loop of detectFloatingIslands3D over `label_voxels` in key
   * order: the count of listed components off layer 0 with at least
   * `min_voxels` voxels.
   */
  method CountFloating(labelVoxels: map<int, seq<Vec3>>, current: int, minVoxels: Int32, ghost done: seq<set<Vec3>>)
    returns (count: int)
    requires current == |done| + 1 && VoxelLists(labelVoxels, done)
    ensures count == FloatingCount(done, minVoxels)
  {
    count := 0;
    for k := 1 to current
      invariant count == FloatingCount(done[..k - 1], minVoxels)
    {
      var voxels := labelVoxels[k];
      var touches := TouchesLayer0(voxels);
      FloatingByList(done[k - 1], voxels, minVoxels, touches);
      assert done[..k][..k - 1] == done[..k - 1];
      if !touches && |voxels| >= SizeT(minVoxels) {
        count := count + 1;
      }
    }
    assert done[..current - 1] == done;
  }

  /**
   * `detectFloatingIslands3D`: the number of face-connected body components
   * that have no voxel in layer 0 and at least `min_voxels` voxels.
   */
  method DetectFloatingIslands3D(volume: Vol, bodyValue: Byte, minVoxels: Int32) returns (floatingCount: int)
    requires Valid(volume)
    ensures floatingCount == |FloatingSet(volume, bodyValue, minVoxels)|
    ensures floatingCount <= |Components(BodyFaces(volume, bodyValue))|
  {
    var labelVoxels, current;
    ghost var done;
    labelVoxels, current, done := LabelBodies(volume, bodyValue);
    floatingCount := CountFloating(labelVoxels, current, minVoxels, done);
    FloatingCountIsSize(done, minVoxels);
    assert (set c | c in done && Floating(c, minVoxels)) == FloatingSet(volume, bodyValue, minVoxels);
    FloatingWithinComponents(volume, bodyValue, minVoxels);
  }

  /** The floating components are some of the components. */
  lemma FloatingWithinComponents(vol: Vol, bodyValue: Byte, minVoxels: Int32)
    ensures FloatingSet(vol, bodyValue, minVoxels) <= Components(BodyFaces(vol, bodyValue))
    ensures |FloatingSet(vol, bodyValue, minVoxels)| <= |Components(BodyFaces(vol, bodyValue))|
  {
    var F, C := FloatingSet(vol, bodyValue, minVoxels), Components(BodyFaces(vol, bodyValue));
    assert C == F + (C - F);
  }

  /** In a single-layer volume every component touches layer 0, so nothing floats. */
  lemma SingleLayerHasNoFloating(vol: Vol, bodyValue: Byte, minVoxels: Int32)
    requires |vol| == 1
    ensures FloatingSet(vol, bodyValue, minVoxels) == {}
  {
    var g := BodyFaces(vol, bodyValue);
    forall c | c in Components(g) ensures !Floating(c, minVoxels) {
      var w :| w in Box(vol) && Node(g, w) && c == Component(g, w);
      ComponentHasSeed(g, w);
      BoxMembership(vol, w);
    }
  }

  /**
   * A floating island is detached from the base: no body voxel of layer 0
   * reaches any of its voxels.
   */
  lemma FloatingIsDetached(vol: Vol, bodyValue: Byte, minVoxels: Int32, c: set<Vec3>, v: Vec3, u: Vec3)
    requires c in FloatingSet(vol, bodyValue, minVoxels) && v in c && u.z == 0
    ensures !Reachable(BodyFaces(vol, bodyValue), u, v)
  {
    var g := BodyFaces(vol, bodyValue);
    var w :| w in Box(vol) && Node(g, w) && c == Component(g, w);
    if Reachable(g, u, v) {
      ComponentMembers(g, w, v);
      ReachSym(g, u, v);
      ReachEnds(g, u, v);
      ComponentHasSeed(g, u);
      SameComponent(g, v, u);
      assert false;
    }
  }

  /**
   * The cast of a negative `min_voxels` to `size_t` wraps to a huge bound, so
   * on any volume of fewer than 2^64 - 2^31 voxels nothing is reported.
   */
  lemma NegativeMinimumReportsNothing(vol: Vol, bodyValue: Byte, minVoxels: Int32)
    requires minVoxels < 0 && |Box(vol)| < 0x1_0000_0000_0000_0000 - 0x8000_0000
    ensures FloatingSet(vol, bodyValue, minVoxels) == {}
  {
    var g := BodyFaces(vol, bodyValue);
    forall c | c in Components(g) ensures !Floating(c, minVoxels) {
      var w :| w in Box(vol) && Node(g, w) && c == Component(g, w);
      SubsetSize(c, Box(vol));
    }
  }

  lemma SubsetSize(a: set<Vec3>, b: set<Vec3>)
    requires a <= b
    ensures |a| <= |b|
  {
    assert b == a + (b - a);
  }

  /** The body voxels of the volume. */
  ghost function BodyVoxels(vol: Vol, bodyValue: Byte): set<Vec3> {
    set v | v in Box(vol) && At(vol, v) == bodyValue
  }

  /** The summed lengths of the lists under labels 1..n. */
  ghost function ListedSize(labelVoxels: map<int, seq<Vec3>>, n: nat): nat
    requires forall k :: 1 <= k <= n ==> k in labelVoxels
  {
    if n == 0 then 0 else ListedSize(labelVoxels, n - 1) + |labelVoxels[n]|
  }

  /** The voxels of the first n finished components. */
  ghost function UnionUpTo(done: seq<set<Vec3>>, n: nat): set<Vec3>
    requires n <= |done|
  {
    if n == 0 then {} else UnionUpTo(done, n - 1) + done[n - 1]
  }

  lemma {:induction false} UnionUpToMembers(done: seq<set<Vec3>>, n: nat, v: Vec3)
    requires n <= |done|
    ensures v in UnionUpTo(done, n) <==> exists k :: 0 <= k < n && v in done[k]
  {
    if n > 0 {
      UnionUpToMembers(done, n - 1, v);
    }
  }

  /** Over pairwise disjoint components, the list lengths add up to the size of their union. */
  lemma {:induction false} ListedSizeIsUnion(labelVoxels: map<int, seq<Vec3>>, done: seq<set<Vec3>>, n: nat)
    requires VoxelLists(labelVoxels, done) && n <= |done|
    requires forall i, j :: 0 <= i < j < |done| ==> done[i] !! done[j]
    ensures ListedSize(labelVoxels, n) == |UnionUpTo(done, n)|
  {
    if n > 0 {
      ListedSizeIsUnion(labelVoxels, done, n - 1);
      var A, B := UnionUpTo(done, n - 1), done[n - 1];
      forall v | v in A ensures v !in B {
        UnionUpToMembers(done, n - 1, v);
        var k :| 0 <= k < n - 1 && v in done[k];
        assert done[k] !! done[n - 1];
      }
      assert A * B == {};
      assert |labelVoxels[n]| == |B|;
    }
  }

  /**
   * Every body voxel carries exactly one label: the lists under labels
   * 1..current-1 are as long, together, as there are body voxels.
   */
  lemma LabelSizesSumToBody(vol: Vol, bodyValue: Byte, labelVoxels: map<int, seq<Vec3>>, done: seq<set<Vec3>>)
    requires VoxelLists(labelVoxels, done) && Distinct(done)
    requires (set c | c in done) == Components(BodyFaces(vol, bodyValue))
    ensures ListedSize(labelVoxels, |done|) == |BodyVoxels(vol, bodyValue)|
  {
    var g := BodyFaces(vol, bodyValue);
    forall i, j | 0 <= i < j < |done| ensures done[i] !! done[j] {
      assert done[i] in Components(g) && done[j] in Components(g);
      var a :| a in Box(vol) && Node(g, a) && done[i] == Component(g, a);
      var b :| b in Box(vol) && Node(g, b) && done[j] == Component(g, b);
      ComponentsDisjoint(g, a, b);
    }
    ListedSizeIsUnion(labelVoxels, done, |done|);
    forall v ensures v in UnionUpTo(done, |done|) <==> v in BodyVoxels(vol, bodyValue) {
      UnionUpToMembers(done, |done|, v);
      BoxMembership(vol, v);
      if v in UnionUpTo(done, |done|) {
        var k :| 0 <= k < |done| && v in done[k];
        assert done[k] in Components(g);
        var w :| w in Box(vol) && Node(g, w) && done[k] == Component(g, w);
        ComponentMembers(g, w, v);
      }
      if v in BodyVoxels(vol, bodyValue) {
        ComponentHasSeed(g, v);
        assert Component(g, v) in Components(g);
        var k :| 0 <= k < |done| && done[k] == Component(g, v);
      }
    }
    assert UnionUpTo(done, |done|) == BodyVoxels(vol, bodyValue);
  }

  /** One line of the per-slice report: component `component` of slice `slice`, with its area. */
  datatype Report = Report(slice: int, component: int, area: int)

  /** Strict report order: by slice, then by component. */
  predicate ReportBefore(a: Report, b: Report) {
    a.slice < b.slice || (a.slice == b.slice && a.component < b.component)
  }

  /** Component `i` of a slice whose component areas are `areas` is reported: not the background, and below `minArea`. */
  predicate Small(areas: seq<int>, i: int, minArea: Int32) {
    1 <= i < |areas| && areas[i] < minArea
  }

  /** Reports in strictly increasing order. */
  predicate Ordered(reports: seq<Report>) {
    forall i, j :: 0 <= i < j < |reports| ==> ReportBefore(reports[i], reports[j])
  }

  /**
   * The loop of `detectFloatingIslands` over one slice's component table
   * (entry 0 is the background): report every component whose area is below
   * `min_area`, in label order, with its area.
   */
  method SliceReports(z: int, areas: seq<int>, minArea: Int32) returns (found: seq<Report>)
    ensures forall r :: r in found <==> r.slice == z && Small(areas, r.component, minArea) && r.area == areas[r.component]
    ensures Ordered(found)
  {
    found := [];
    var i := 1;
    while i < |areas|
      invariant 1 <= i
      invariant forall r :: r in found <==> r.slice == z && Small(areas, r.component, minArea) && r.area == areas[r.component] && r.component < i
      invariant Ordered(found)
      invariant forall k :: 0 <= k < |found| ==> found[k].component < i
    {
      if areas[i] < minArea {
        found := found + [Report(z, i, areas[i])];
      }
      i := i + 1;
    }
  }

  /**
   * `detectFloatingIslands`: for each slice, given the areas of its
   * 8-connected body components, report every component other than the
   * background whose area is below `min_area`, with its area, slice by slice.
   */
  method DetectFloatingIslands(areaTables: seq<seq<int>>, minArea: Int32) returns (reports: seq<Report>)
    ensures forall r :: r in reports <==>
      && 0 <= r.slice < |areaTables| && Small(areaTables[r.slice], r.component, minArea)
      && r.area == areaTables[r.slice][r.component]
    ensures Ordered(reports)
  {
    reports := [];
    for z := 0 to |areaTables|
      invariant forall r :: r in reports <==>
        && 0 <= r.slice < z && Small(areaTables[r.slice], r.component, minArea)
        && r.area == areaTables[r.slice][r.component]
      invariant Ordered(reports)
    {
      var found := SliceReports(z, areaTables[z], minArea);
      OrderedAppend(reports, found, z);
      reports := reports + found;
    }
  }

  /** Appending a slice's ordered reports after those of earlier slices keeps the order. */
  lemma OrderedAppend(a: seq<Report>, b: seq<Report>, z: int)
    requires Ordered(a) && Ordered(b)
    requires forall r :: r in a ==> r.slice < z
    requires forall r :: r in b ==> r.slice == z
    ensures Ordered(a + b)
  {
    forall i, j | 0 <= i < j < |a + b| ensures ReportBefore((a + b)[i], (a + b)[j]) {
      if j < |a| {
        assert ReportBefore(a[i], a[j]);
      } else if i >= |a| {
        assert ReportBefore(b[i - |a|], b[j - |a|]);
      } else {
        assert a[i] in a && b[j - |a|] in b;
      }
    }
  }
}

/**
 * Connectivity of voxels: the two adjacency rules the engine uses (face
 * adjacency, 6 neighbours; full adjacency, 26 neighbours), paths through
 * voxels of one class (body or void), reachability and connected components,
 * and the facts every flood fill relies on: a set that contains a seed and
 * is closed under adjacency contains the seed's whole component.
 */
module Reach {
  import opened Volume

  /** Face: neighbours differ by one on exactly one axis. Full: by at most one on every axis. */
  datatype Conn = Face | Full

  function Abs(n: int): nat {
    if n < 0 then -n else n
  }

  predicate Adjacent(conn: Conn, a: Vec3, b: Vec3) {
    match conn
    case Face => Abs(a.z - b.z) + Abs(a.y - b.y) + Abs(a.x - b.x) == 1
    case Full => a != b && Abs(a.z - b.z) <= 1 && Abs(a.y - b.y) <= 1 && Abs(a.x - b.x) <= 1
  }

  /**
   * The graph one flood fill walks: the voxels of `vol` whose test
   * `value == bodyValue` equals `body`, joined by `conn`.
   */
  datatype Graph = Graph(vol: Vol, bodyValue: Byte, body: bool, conn: Conn)

  /** The body voxels of `vol`, joined by face adjacency: the graph of is3DConnected and detectFloatingIslands3D. */
  function BodyFaces(vol: Vol, bodyValue: Byte): Graph {
    Graph(vol, bodyValue, true, Face)
  }

  predicate Node(g: Graph, v: Vec3) {
    InBox(g.vol, v) && ((At(g.vol, v) == g.bodyValue) == g.body)
  }

  ghost predicate IsPath(g: Graph, p: seq<Vec3>) {
    && |p| > 0
    && (forall i :: 0 <= i < |p| ==> Node(g, p[i]))
    && (forall i :: 0 < i < |p| ==> Adjacent(g.conn, p[i - 1], p[i]))
  }

  ghost predicate Reachable(g: Graph, s: Vec3, t: Vec3) {
    exists p :: IsPath(g, p) && p[0] == s && p[|p| - 1] == t
  }

  /** Every voxel of `S` is a node some path leads to from `seed`. */
  ghost predicate Reached(g: Graph, seed: Vec3, S: set<Vec3>) {
    forall v :: v in S ==> Node(g, v) && Reachable(g, seed, v)
  }

  /** The connected component of `s`: every voxel some path leads to from `s`. */
  ghost function Component(g: Graph, s: Vec3): set<Vec3> {
    set v | v in Box(g.vol) && Reachable(g, s, v)
  }

  /** Every neighbour of `u` in the graph belongs to `S`. */
  ghost predicate ClosedAt(g: Graph, u: Vec3, S: set<Vec3>) {
    forall v :: Node(g, v) && Adjacent(g.conn, u, v) ==> v in S
  }

  /** Closedness survives growing the set. */
  lemma ClosedMonotone(g: Graph, D: set<Vec3>, S: set<Vec3>, S': set<Vec3>)
    requires S <= S'
    requires forall u :: u in D ==> ClosedAt(g, u, S)
    ensures forall u :: u in D ==> ClosedAt(g, u, S')
  {
  }

  /** Closing one more voxel `c` of a grown set. */
  lemma ClosedGrow(g: Graph, D: set<Vec3>, c: Vec3, S: set<Vec3>, S': set<Vec3>)
    requires S <= S' && ClosedAt(g, c, S')
    requires forall u :: u in D ==> ClosedAt(g, u, S)
    ensures forall u :: u in D + {c} ==> ClosedAt(g, u, S')
  {
  }

  /** The components met by the nodes of `S`. */
  ghost function ComponentsOf(g: Graph, S: set<Vec3>): set<set<Vec3>> {
    set w | w in S && Node(g, w) :: Component(g, w)
  }

  /** Passing one more voxel meets its component when it is a node, and nothing new otherwise. */
  lemma ComponentsOfAdd(g: Graph, S: set<Vec3>, v: Vec3)
    ensures Node(g, v) ==> ComponentsOf(g, S + {v}) == ComponentsOf(g, S) + {Component(g, v)}
    ensures !Node(g, v) ==> ComponentsOf(g, S + {v}) == ComponentsOf(g, S)
  {
  }

  /** All components of the graph. */
  ghost function Components(g: Graph): set<set<Vec3>> {
    ComponentsOf(g, Box(g.vol))
  }

  lemma AdjacentSymmetric(conn: Conn, a: Vec3, b: Vec3)
    ensures Adjacent(conn, a, b) <==> Adjacent(conn, b, a)
  {
  }

  lemma ReachRefl(g: Graph, s: Vec3)
    requires Node(g, s)
    ensures Reachable(g, s, s)
  {
    assert IsPath(g, [s]);
  }

  lemma ReachEnds(g: Graph, s: Vec3, t: Vec3)
    requires Reachable(g, s, t)
    ensures Node(g, s) && Node(g, t)
  {
    var p :| IsPath(g, p) && p[0] == s && p[|p| - 1] == t;
    assert Node(g, p[0]) && Node(g, p[|p| - 1]);
  }

  /** Adding a reachable node keeps a set reached. */
  lemma ReachedAdd(g: Graph, start: Vec3, S: set<Vec3>, n: Vec3)
    requires Reached(g, start, S) && Node(g, n) && Reachable(g, start, n)
    ensures Reached(g, start, S + {n})
  {
  }

  lemma ReachStep(g: Graph, s: Vec3, c: Vec3, n: Vec3)
    requires Reachable(g, s, c) && Node(g, n) && Adjacent(g.conn, c, n)
    ensures Reachable(g, s, n)
  {
    var p :| IsPath(g, p) && p[0] == s && p[|p| - 1] == c;
    var p' := p + [n];
    assert forall i :: 0 <= i < |p| ==> p'[i] == p[i];
    assert IsPath(g, p');
  }

  function Reverse(p: seq<Vec3>): (r: seq<Vec3>)
    ensures |r| == |p|
    ensures forall i :: 0 <= i < |p| ==> r[i] == p[|p| - 1 - i]
  {
    seq(|p|, i requires 0 <= i < |p| => p[|p| - 1 - i])
  }

  lemma ReachSym(g: Graph, s: Vec3, t: Vec3)
    requires Reachable(g, s, t)
    ensures Reachable(g, t, s)
  {
    var p :| IsPath(g, p) && p[0] == s && p[|p| - 1] == t;
    var r := Reverse(p);
    forall i | 0 < i < |r| ensures Adjacent(g.conn, r[i - 1], r[i]) {
      assert r[i - 1] == p[|p| - i] && r[i] == p[|p| - 1 - i];
      AdjacentSymmetric(g.conn, p[|p| - 1 - i], p[|p| - i]);
    }
    assert IsPath(g, r);
  }

  lemma ReachTrans(g: Graph, a: Vec3, b: Vec3, c: Vec3)
    requires Reachable(g, a, b) && Reachable(g, b, c)
    ensures Reachable(g, a, c)
  {
    var p :| IsPath(g, p) && p[0] == a && p[|p| - 1] == b;
    var q :| IsPath(g, q) && q[0] == b && q[|q| - 1] == c;
    var r := p + q[1..];
    forall i | 0 < i < |r| ensures Adjacent(g.conn, r[i - 1], r[i]) {
      if i < |p| {
        assert r[i - 1] == p[i - 1] && r[i] == p[i];
      } else if i == |p| {
        assert r[i - 1] == q[0] && r[i] == q[1];
      } else {
        assert r[i - 1] == q[i - |p|] && r[i] == q[i - |p| + 1];
      }
    }
    assert forall i :: 0 <= i < |r| ==> Node(g, r[i]) by {
      forall i | 0 <= i < |r| ensures Node(g, r[i]) {
        if i < |p| { assert r[i] == p[i]; } else { assert r[i] == q[i - |p| + 1]; }
      }
    }
    assert IsPath(g, r);
  }

  /** Every voxel of a path that starts inside a closed set stays inside it. */
  lemma {:induction false} PathStaysIn(g: Graph, S: set<Vec3>, p: seq<Vec3>, i: nat)
    requires IsPath(g, p) && p[0] in S && i < |p|
    requires forall u :: u in S ==> ClosedAt(g, u, S)
    ensures p[i] in S
  {
    if i > 0 {
      PathStaysIn(g, S, p, i - 1);
      assert ClosedAt(g, p[i - 1], S);
      assert Node(g, p[i]) && Adjacent(g.conn, p[i - 1], p[i]);
    }
  }

  lemma ClosedHoldsReachable(g: Graph, S: set<Vec3>, s: Vec3, t: Vec3)
    requires s in S && Reachable(g, s, t)
    requires forall u :: u in S ==> ClosedAt(g, u, S)
    ensures t in S
  {
    var p :| IsPath(g, p) && p[0] == s && p[|p| - 1] == t;
    PathStaysIn(g, S, p, |p| - 1);
  }

  lemma ComponentHasSeed(g: Graph, s: Vec3)
    requires Node(g, s)
    ensures s in Component(g, s)
  {
    ReachRefl(g, s);
    BoxMembership(g.vol, s);
  }

  /** Two voxels joined by a path have the same component. */
  lemma SameComponent(g: Graph, s: Vec3, t: Vec3)
    requires Reachable(g, s, t)
    ensures Component(g, s) == Component(g, t)
  {
    ReachSym(g, s, t);
    forall v | v in Component(g, s) ensures v in Component(g, t) {
      ReachTrans(g, t, s, v);
    }
    forall v | v in Component(g, t) ensures v in Component(g, s) {
      ReachTrans(g, s, t, v);
    }
  }

  /**
   * A fill grown from `s` beside a closed set `old0` it does not touch is
   * exactly the component of `s` once old0 + fill is closed.
   */
  lemma FillIsComponent(g: Graph, old0: set<Vec3>, fill: set<Vec3>, s: Vec3)
    requires s in fill && fill !! old0
    requires forall v :: v in fill ==> Node(g, v) && Reachable(g, s, v)
    requires forall u :: u in old0 + fill ==> ClosedAt(g, u, old0 + fill)
    requires forall u :: u in old0 ==> ClosedAt(g, u, old0)
    ensures fill == Component(g, s)
  {
    forall v | v in fill ensures v in Component(g, s) {
      BoxMembership(g.vol, v);
    }
    forall t | t in Component(g, s) ensures t in fill {
      ClosedHoldsReachable(g, old0 + fill, s, t);
      if t in old0 {
        ReachSym(g, s, t);
        ClosedHoldsReachable(g, old0, t, s);
        assert false;
      }
    }
  }

  /** Components are equivalence classes: two of them are equal or disjoint. */
  lemma ComponentsDisjoint(g: Graph, a: Vec3, b: Vec3)
    ensures Component(g, a) == Component(g, b) || Component(g, a) !! Component(g, b)
  {
    if !(Component(g, a) !! Component(g, b)) {
      var v :| v in Component(g, a) && v in Component(g, b);
      SameComponent(g, a, v);
      SameComponent(g, b, v);
    }
  }

  /** Every voxel of a component of a node reaches every other (and so is a node). */
  lemma ComponentMembers(g: Graph, s: Vec3, v: Vec3)
    requires v in Component(g, s)
    ensures Node(g, v) && Node(g, s) && Component(g, v) == Component(g, s)
  {
    ReachEnds(g, s, v);
    SameComponent(g, s, v);
  }
}

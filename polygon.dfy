/**
 * Freestyle's `Polygon`: a vertex list with its axis-aligned bounding box,
 * an id and two untyped user-data pointers; `Polygon3r` adds a normal.
 *
 * A point is a sequence of `dim` real coordinates (`Point::dim()`).
 */
module FreestylePolygon {

  type Point = seq<real>

  /** An untyped user-data pointer. */
  datatype Ref = Null | Ptr(address: nat)

  /** The origin of `dim`-space, the value of a default-constructed point. */
  function Origin(dim: nat): (p: Point)
    ensures |p| == dim && forall i :: 0 <= i < dim ==> p[i] == 0.0
  {
    seq(dim, i => 0.0)
  }

  ghost predicate AllOfDim(vs: seq<Point>, dim: nat) {
    forall k :: 0 <= k < |vs| ==> |vs[k]| == dim
  }

  /** Every point has an `i`-th coordinate. */
  ghost predicate HasCoord(vs: seq<Point>, i: nat) {
    forall k :: 0 <= k < |vs| ==> i < |vs[k]|
  }

  /** The smallest `i`-th coordinate among the first `n` points, scanning them in order. */
  function MinCoord(vs: seq<Point>, n: nat, i: nat): real
    requires 0 < n <= |vs| && HasCoord(vs, i)
  {
    if n == 1 then vs[0][i]
    else
      var m := MinCoord(vs, n - 1, i);
      if vs[n - 1][i] < m then vs[n - 1][i] else m
  }

  /** The largest `i`-th coordinate among the first `n` points, scanning them in order. */
  function MaxCoord(vs: seq<Point>, n: nat, i: nat): real
    requires 0 < n <= |vs| && HasCoord(vs, i)
  {
    if n == 1 then vs[0][i]
    else
      var m := MaxCoord(vs, n - 1, i);
      if vs[n - 1][i] > m then vs[n - 1][i] else m
  }

  /** The scanned minimum is a lower bound of the points scanned and one of them attains it. */
  lemma {:induction false} MinCoordIsLeast(vs: seq<Point>, n: nat, i: nat)
    requires 0 < n <= |vs| && HasCoord(vs, i)
    ensures forall k :: 0 <= k < n ==> MinCoord(vs, n, i) <= vs[k][i]
    ensures exists k :: 0 <= k < n && vs[k][i] == MinCoord(vs, n, i)
  {
    if n == 1 {
      assert vs[0][i] == MinCoord(vs, n, i);
    } else {
      MinCoordIsLeast(vs, n - 1, i);
      if vs[n - 1][i] != MinCoord(vs, n, i) {
        var k :| 0 <= k < n - 1 && vs[k][i] == MinCoord(vs, n - 1, i);
        assert vs[k][i] == MinCoord(vs, n, i);
      }
    }
  }

  /** The scanned maximum is an upper bound of the points scanned and one of them attains it. */
  lemma {:induction false} MaxCoordIsGreatest(vs: seq<Point>, n: nat, i: nat)
    requires 0 < n <= |vs| && HasCoord(vs, i)
    ensures forall k :: 0 <= k < n ==> vs[k][i] <= MaxCoord(vs, n, i)
    ensures exists k :: 0 <= k < n && vs[k][i] == MaxCoord(vs, n, i)
  {
    if n == 1 {
      assert vs[0][i] == MaxCoord(vs, n, i);
    } else {
      MaxCoordIsGreatest(vs, n - 1, i);
      if vs[n - 1][i] != MaxCoord(vs, n, i) {
        var k :| 0 <= k < n - 1 && vs[k][i] == MaxCoord(vs, n - 1, i);
        assert vs[k][i] == MaxCoord(vs, n, i);
      }
    }
  }

  /** The low corner of the bounding box of a non-empty point list. */
  function BBoxMin(vs: seq<Point>, dim: nat): (p: Point)
    requires |vs| > 0 && AllOfDim(vs, dim)
    ensures |p| == dim
  {
    seq(dim, i requires 0 <= i < dim => MinCoord(vs, |vs|, i))
  }

  /** The high corner of the bounding box of a non-empty point list. */
  function BBoxMax(vs: seq<Point>, dim: nat): (p: Point)
    requires |vs| > 0 && AllOfDim(vs, dim)
    ensures |p| == dim
  {
    seq(dim, i requires 0 <= i < dim => MaxCoord(vs, |vs|, i))
  }

  /**
   * Coordinate `i` of the box bounds that coordinate of every point, and it
   * is tight: each corner's coordinate is that of some point.
   */
  lemma {:induction false} BBoxBounds(vs: seq<Point>, dim: nat, i: nat)
    requires |vs| > 0 && AllOfDim(vs, dim) && i < dim
    ensures forall k :: 0 <= k < |vs| ==> BBoxMin(vs, dim)[i] <= vs[k][i] <= BBoxMax(vs, dim)[i]
    ensures exists k :: 0 <= k < |vs| && vs[k][i] == BBoxMin(vs, dim)[i]
    ensures exists k :: 0 <= k < |vs| && vs[k][i] == BBoxMax(vs, dim)[i]
  {
    MinCoordIsLeast(vs, |vs|, i);
    MaxCoordIsGreatest(vs, |vs|, i);
    assert BBoxMin(vs, dim)[i] == MinCoord(vs, |vs|, i);
    assert BBoxMax(vs, dim)[i] == MaxCoord(vs, |vs|, i);
  }

  /** Corners that agree with the box coordinate by coordinate are the box. */
  lemma {:induction false} ScannedBoxIsBBox(vs: seq<Point>, dim: nat, lo: Point, hi: Point)
    requires |vs| > 0 && AllOfDim(vs, dim) && |lo| == dim && |hi| == dim
    requires forall e :: 0 <= e < dim ==> lo[e] == MinCoord(vs, |vs|, e) && hi[e] == MaxCoord(vs, |vs|, e)
    ensures lo == BBoxMin(vs, dim) && hi == BBoxMax(vs, dim)
  {
  }

  /** How many points a scan has taken into account after `k` steps: the first is seeded. */
  function Scanned(k: nat): nat {
    if k == 0 then 1 else k
  }

  /** One step of the box scan: point `k` is compared against the box of those before it. */
  lemma {:induction false} ScanStep(vs: seq<Point>, k: nat, i: nat)
    requires k < |vs| && HasCoord(vs, i)
    ensures MinCoord(vs, k + 1, i) ==
      (if vs[k][i] < MinCoord(vs, Scanned(k), i) then vs[k][i] else MinCoord(vs, Scanned(k), i))
    ensures MaxCoord(vs, k + 1, i) ==
      (if vs[k][i] > MaxCoord(vs, Scanned(k), i) then vs[k][i] else MaxCoord(vs, Scanned(k), i))
  {
  }

  /**
   * The scan of `computeBBox` over a non-empty vertex list: the box starts at
   * the first vertex and each coordinate of each vertex widens it.
   */
  method ScanBox(vs: seq<Point>, dim: nat) returns (lo: Point, hi: Point)
    requires |vs| > 0 && AllOfDim(vs, dim)
    ensures lo == BBoxMin(vs, dim) && hi == BBoxMax(vs, dim)
  {
      hi := vs[0];
      lo := vs[0];
      var k := 0;
      while k < |vs|
        invariant 0 <= k <= |vs|
        invariant |lo| == dim && |hi| == dim
        invariant forall e :: 0 <= e < dim ==>
          lo[e] == MinCoord(vs, Scanned(k), e) && hi[e] == MaxCoord(vs, Scanned(k), e)
      {
        var v := vs[k];
        for d := 0 to dim
          invariant |lo| == dim && |hi| == dim
          invariant forall e :: 0 <= e < d ==>
            lo[e] == MinCoord(vs, k + 1, e) && hi[e] == MaxCoord(vs, k + 1, e)
          invariant forall e :: d <= e < dim ==>
            lo[e] == MinCoord(vs, Scanned(k), e) && hi[e] == MaxCoord(vs, Scanned(k), e)
        {
          ScanStep(vs, k, d);
          if v[d] > hi[d] {
            hi := hi[d := v[d]];
          }
          if v[d] < lo[d] {
            lo := lo[d := v[d]];
          }
        }
        k := k + 1;
      }
      ScannedBoxIsBBox(vs, dim, lo, hi);
  }

  class Polygon {
    /** `Point::dim()`: the number of coordinates of every point. */
    const dim: nat

    var vertices: seq<Point>
    var min: Point
    var max: Point
    var id: nat
    var userdata: Ref
    /** Used during ray casting. */
    var userdata2: Ref

    /** Every point has `dim` coordinates. */
    ghost predicate WellFormed()
      reads this
    {
      |min| == dim && |max| == dim && AllOfDim(vertices, dim)
    }

    /** The stored box is that of the vertices whenever there are vertices. */
    ghost predicate Valid()
      reads this
    {
      WellFormed() &&
      (vertices != [] ==> min == BBoxMin(vertices, dim) && max == BBoxMax(vertices, dim))
    }

    /** `Polygon()`: no vertices, id 0, no user data. */
    constructor Empty(dim: nat)
      ensures Valid() && this.dim == dim
      ensures vertices == [] && id == 0 && userdata == Null && userdata2 == Null
      ensures min == Origin(dim) && max == Origin(dim)
    {
      this.dim := dim;
      vertices := [];
      min, max := Origin(dim), Origin(dim);
      id := 0;
      userdata, userdata2 := Null, Null;
    }

    /** `Polygon(const vector<Point> &)`: stores the vertices and computes their box. */
    constructor FromVertices(dim: nat, vertices: seq<Point>)
      requires AllOfDim(vertices, dim)
      ensures Valid() && this.dim == dim
      ensures this.vertices == vertices && id == 0 && userdata == Null && userdata2 == Null
      ensures vertices == [] ==> min == Origin(dim) && max == Origin(dim)
    {
      this.dim := dim;
      this.vertices := vertices;
      min, max := Origin(dim), Origin(dim);
      id := 0;
      userdata, userdata2 := Null, Null;
      new;
      ComputeBBox();
    }

    /**
     * `Polygon(const Polygon &)`: copies the vertices one by one, the id and
     * the box, but not the user data.
     */
    constructor Copy(poly: Polygon)
      requires poly.Valid()
      ensures Valid() && dim == poly.dim
      ensures vertices == poly.vertices && id == poly.id
      ensures min == poly.min && max == poly.max
      ensures userdata == Null && userdata2 == Null
    {
      dim := poly.dim;
      var copied: seq<Point> := [];
      var k := 0;
      while k < |poly.vertices|
        invariant 0 <= k <= |poly.vertices|
        invariant copied == poly.vertices[..k]
      {
        copied := copied + [poly.vertices[k]];
        k := k + 1;
      }
      vertices := copied;
      id := poly.id;
      min, max := poly.min, poly.max;
      userdata, userdata2 := Null, Null;
    }

    /** `getBBox`: the stored box, which bounds every vertex. */
    function GetBBox(): (r: (Point, Point))
      reads this
      requires Valid()
      ensures |r.0| == dim && |r.1| == dim
      ensures forall k, i :: 0 <= k < |vertices| && 0 <= i < dim ==> r.0[i] <= vertices[k][i] <= r.1[i]
    {
      if vertices == [] then (min, max)
      else
        assert forall i :: 0 <= i < dim ==>
          forall k :: 0 <= k < |vertices| ==> min[i] <= vertices[k][i] <= max[i] by {
          forall i | 0 <= i < dim {
            BBoxBounds(vertices, dim, i);
          }
        }
        (min, max)
    }

    /** `getId`. */
    function GetId(): (r: nat)
      reads this
      ensures r == id
    {
      id
    }

    /** `setId`: afterwards `getId` answers the new id; nothing else changes. */
    method SetId(newId: nat)
      modifies this`id
      ensures GetId() == newId
    {
      id := newId;
    }

    /**
     * `computeBBox`: with no vertices, the box is left as it was; otherwise a
     * scan over the vertices and dimensions widens a box that starts at the
     * first vertex.
     */
    method ComputeBBox()
      requires WellFormed()
      modifies this`min, this`max
      ensures Valid()
      ensures vertices == [] ==> min == old(min) && max == old(max)
    {
      if |vertices| == 0 {
        return;
      }
      min, max := ScanBox(vertices, dim);
    }

    /**
     * `setVertices`: clears the list, appends the given vertices in order and
     * recomputes the box.
     */
    method SetVertices(vs: seq<Point>)
      requires WellFormed() && AllOfDim(vs, dim)
      modifies this`vertices, this`min, this`max
      ensures Valid()
      ensures vertices == vs
      ensures vs == [] ==> min == old(min) && max == old(max)
    {
      vertices := [];
      var k := 0;
      while k < |vs|
        invariant 0 <= k <= |vs|
        invariant vertices == vs[..k]
        invariant min == old(min) && max == old(max)
      {
        vertices := vertices + [vs[k]];
        k := k + 1;
      }
      assert vs[..k] == vs;
      ComputeBBox();
    }
  }

  /** `Polygon3r`: a polygon of 3D points with a normal. */
  class Polygon3r {
    const poly: Polygon
    var normal: Point

    /** `Polygon3r()`. */
    constructor Empty()
      ensures fresh(poly) && poly.Valid() && poly.dim == 3 && poly.vertices == []
      ensures poly.id == 0 && poly.userdata == Null && poly.userdata2 == Null
      ensures normal == Origin(3)
    {
      poly := new Polygon.Empty(3);
      normal := Origin(3);
    }

    /** `Polygon3r(vertices, normal)`: the polygon of the vertices, then `setNormal`. */
    constructor FromVertices(vertices: seq<Point>, normal: Point)
      requires AllOfDim(vertices, 3)
      ensures fresh(poly) && poly.Valid() && poly.dim == 3 && poly.vertices == vertices
      ensures poly.id == 0 && poly.userdata == Null && poly.userdata2 == Null
      ensures GetNormal() == normal
    {
      poly := new Polygon.FromVertices(3, vertices);
      this.normal := Origin(3);
      new;
      SetNormal(normal);
    }

    /** `Polygon3r(const Polygon3r &)`: copies the polygon part and the normal. */
    constructor Copy(other: Polygon3r)
      requires other.poly.Valid()
      ensures fresh(poly) && poly.Valid() && poly.dim == other.poly.dim
      ensures poly.vertices == other.poly.vertices && poly.id == other.poly.id
      ensures poly.min == other.poly.min && poly.max == other.poly.max
      ensures poly.userdata == Null && poly.userdata2 == Null
      ensures normal == other.normal
    {
      poly := new Polygon.Copy(other.poly);
      normal := other.normal;
    }

    /** `getNormal`. */
    function GetNormal(): (r: Point)
      reads this
      ensures r == normal
    {
      normal
    }

    /** `setNormal`: afterwards `getNormal` answers the new normal. */
    method SetNormal(n: Point)
      modifies this`normal
      ensures GetNormal() == n
    {
      normal := n;
    }
  }
}

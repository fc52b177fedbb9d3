/**
 * VertexBuffer: the geometry generator of the vertex buffer sample
 * (samples/vertex_buffer/vertex_buffer.c). `divide` recursively splits a
 * triangle, writing eight vertices per visible triangle into a mapped GPU
 * buffer sized for the worst case, `MAX_VERTICES`.
 *
 * Coordinates are exact reals; vertex colours are not modelled, so a
 * vertex is its position.
 */
module VertexBuffer {

  datatype Point = Point(x: real, y: real)

  /** `RECURSION_LIMIT`. */
  const RecursionLimit: nat := 7

  /** `sizeof(vertex)`: two floats of position and one of colour. */
  const VertexSize: nat := 12

  /** Five to the power `n`. */
  function Pow5(n: nat): (p: nat)
    ensures p >= 1
  {
    if n == 0 then 1 else 5 * Pow5(n - 1)
  }

  /** `MAX_VERTICES`: 2 * 5^RECURSION_LIMIT - 2. */
  const MaxVertices: nat := 156248

  lemma MaxVerticesValue()
    ensures MaxVertices == 2 * Pow5(RecursionLimit) - 2
  {
    assert Pow5(RecursionLimit) == 78125 by {
      assert Pow5(3) == 125;
    }
  }

  /** `min` of three values, as the sample writes it. */
  function Min3(a: real, b: real, c: real): real
  {
    if a < b && a < c then a else if b < c then b else c
  }

  /** `max` of three values, as the sample writes it. */
  function Max3(a: real, b: real, c: real): real
  {
    if a > b && a > c then a else if b > c then b else c
  }

  /** The sample's `min` and `max` are the least and the greatest of the three. */
  lemma MinMax3(a: real, b: real, c: real)
    ensures Min3(a, b, c) <= a && Min3(a, b, c) <= b && Min3(a, b, c) <= c
    ensures Min3(a, b, c) == a || Min3(a, b, c) == b || Min3(a, b, c) == c
    ensures Max3(a, b, c) >= a && Max3(a, b, c) >= b && Max3(a, b, c) >= c
    ensures Max3(a, b, c) == a || Max3(a, b, c) == b || Max3(a, b, c) == c
  {
  }

  /** The four early returns: the triangle's bounding box misses [-1,1]². */
  predicate OffScreen(v0: Point, v1: Point, v2: Point)
  {
    Min3(v0.x, v1.x, v2.x) > 1.0 || Min3(v0.y, v1.y, v2.y) > 1.0
    || Max3(v0.x, v1.x, v2.x) < -1.0 || Max3(v0.y, v1.y, v2.y) < -1.0
  }

  /** An off-screen triangle has all three corners on one side of the square. */
  lemma OffScreenMeansOutside(v0: Point, v1: Point, v2: Point)
    ensures OffScreen(v0, v1, v2) <==>
      (v0.x > 1.0 && v1.x > 1.0 && v2.x > 1.0) || (v0.y > 1.0 && v1.y > 1.0 && v2.y > 1.0)
      || (v0.x < -1.0 && v1.x < -1.0 && v2.x < -1.0) || (v0.y < -1.0 && v1.y < -1.0 && v2.y < -1.0)
  {
    MinMax3(v0.x, v1.x, v2.x);
    MinMax3(v0.y, v1.y, v2.y);
  }

  function Avg(a: Point, b: Point): Point
  {
    Point((a.x + b.x) * 0.5, (a.y + b.y) * 0.5)
  }

  function Avg8(a: Point, b: Point): Point
  {
    Point(a.x * 0.8 + b.x * 0.2, a.y * 0.8 + b.y * 0.2)
  }

  /** The four split points `w0`..`w3` of a triangle. */
  datatype Split = Split(w0: Point, w1: Point, w2: Point, w3: Point)

  function Subdivide(v0: Point, v1: Point, v2: Point): Split
  {
    var w1 := Avg(v0, v2);
    var w2 := Avg8(v1, v2);
    Split(Avg(v2, w2), w1, w2, Avg(v0, w2))
  }

  /** The eight vertices written for one visible triangle (the `data` array). */
  function Quad(v0: Point, s: Split): (q: seq<Point>)
    ensures |q| == 8
  {
    [v0, s.w2, s.w2, s.w1, s.w1, s.w0, s.w1, s.w3]
  }

  /**
   * Every vertex `divide(v0, v1, v2, r)` writes, in order: nothing for an
   * off-screen triangle, otherwise its eight vertices followed by those of
   * the five sub-triangles while the decremented limit stays positive.
   */
  function Emitted(v0: Point, v1: Point, v2: Point, r: int): seq<Point>
    decreases if r > 0 then r else 0
  {
    if OffScreen(v0, v1, v2) then []
    else
      var s := Subdivide(v0, v1, v2);
      if r - 1 > 0 then
        Quad(v0, s) + Emitted(s.w2, v1, v0, r - 1) + Emitted(s.w3, v0, s.w1, r - 1) + Emitted(s.w3, s.w2, s.w1, r - 1)
        + Emitted(s.w0, s.w1, s.w2, r - 1) + Emitted(s.w0, s.w1, v2, r - 1)
      else Quad(v0, s)
  }

  /**
   * One call writes whole triangles only, and from a limit r >= 1 at most
   * 2 * 5^r - 2 vertices: the bound `MAX_VERTICES` is built on.
   */
  lemma {:induction false} EmittedWhole(v0: Point, v1: Point, v2: Point, r: int)
    ensures |Emitted(v0, v1, v2, r)| % 8 == 0
    decreases if r > 0 then r else 0
  {
    if !OffScreen(v0, v1, v2) {
      var s := Subdivide(v0, v1, v2);
      EmittedUnfold(v0, v1, v2, r, s.w0, s.w1, s.w2, s.w3);
      if r - 1 > 0 {
        var e1, e2, e3, e4, e5 :=
          Emitted(s.w2, v1, v0, r - 1), Emitted(s.w3, v0, s.w1, r - 1), Emitted(s.w3, s.w2, s.w1, r - 1),
          Emitted(s.w0, s.w1, s.w2, r - 1), Emitted(s.w0, s.w1, v2, r - 1);
        EmittedWhole(s.w2, v1, v0, r - 1);
        EmittedWhole(s.w3, v0, s.w1, r - 1);
        EmittedWhole(s.w3, s.w2, s.w1, r - 1);
        EmittedWhole(s.w0, s.w1, s.w2, r - 1);
        EmittedWhole(s.w0, s.w1, v2, r - 1);
        WholeStep(|Emitted(v0, v1, v2, r)|, |e1|, |e2|, |e3|, |e4|, |e5|);
      }
    }
  }

  /**
   * From a limit r >= 1 one call writes at most 2 * 5^r - 2 vertices: the
   * bound `MAX_VERTICES` is built on.
   */
  lemma {:induction false} EmittedBound(v0: Point, v1: Point, v2: Point, r: int)
    requires r >= 1
    ensures |Emitted(v0, v1, v2, r)| <= 2 * Pow5(r) - 2
    decreases r
  {
    if !OffScreen(v0, v1, v2) {
      var s := Subdivide(v0, v1, v2);
      EmittedUnfold(v0, v1, v2, r, s.w0, s.w1, s.w2, s.w3);
      if r - 1 > 0 {
        EmittedBound(s.w2, v1, v0, r - 1);
        EmittedBound(s.w3, v0, s.w1, r - 1);
        EmittedBound(s.w3, s.w2, s.w1, r - 1);
        EmittedBound(s.w0, s.w1, s.w2, r - 1);
        EmittedBound(s.w0, s.w1, v2, r - 1);
        assert Pow5(r) == 5 * Pow5(r - 1);
      } else {
        assert Pow5(1) == 5;
      }
    }
  }

  /** Eight vertices plus five whole sets of triangles are whole triangles. */
  lemma WholeStep(n: nat, n1: nat, n2: nat, n3: nat, n4: nat, n5: nat)
    requires n == 8 + n1 + n2 + n3 + n4 + n5
    requires n1 % 8 == 0 && n2 % 8 == 0 && n3 % 8 == 0 && n4 % 8 == 0 && n5 % 8 == 0
    ensures n % 8 == 0
  {
    var a := 8 + n1;
    assert a % 8 == 0;
    var b := a + n2;
    assert b % 8 == 0;
    var c := b + n3;
    assert c % 8 == 0;
    var d := c + n4;
    assert d % 8 == 0;
  }

  /** One level of `Emitted` for a visible triangle with split points `w0`..`w3`. */
  lemma EmittedUnfold(v0: Point, v1: Point, v2: Point, r: int, w0: Point, w1: Point, w2: Point, w3: Point)
    requires !OffScreen(v0, v1, v2)
    requires Subdivide(v0, v1, v2) == Split(w0, w1, w2, w3)
    ensures r - 1 > 0 ==>
      Emitted(v0, v1, v2, r)
      == [v0, w2, w2, w1, w1, w0, w1, w3] + Emitted(w2, v1, v0, r - 1) + Emitted(w3, v0, w1, r - 1)
         + Emitted(w3, w2, w1, r - 1) + Emitted(w0, w1, w2, r - 1) + Emitted(w0, w1, v2, r - 1)
    ensures r - 1 <= 0 ==> Emitted(v0, v1, v2, r) == [v0, w2, w2, w1, w1, w0, w1, w3]
  {
  }

  /** An off-screen triangle writes nothing; a visible one starts with its eight vertices. */
  lemma EmittedStart(v0: Point, v1: Point, v2: Point, r: int)
    ensures OffScreen(v0, v1, v2) <==> Emitted(v0, v1, v2, r) == []
    ensures !OffScreen(v0, v1, v2) ==> Emitted(v0, v1, v2, r)[..8] == Quad(v0, Subdivide(v0, v1, v2))
    ensures r <= 1 ==> |Emitted(v0, v1, v2, r)| <= 8
  {
  }

  /** `s` with `e` written over it from position `at`. */
  function Splice<T>(s: seq<T>, at: nat, e: seq<T>): (t: seq<T>)
    requires at + |e| <= |s|
    ensures |t| == |s|
    ensures t[at..at + |e|] == e
    ensures t[..at] == s[..at] && t[at + |e|..] == s[at + |e|..]
  {
    s[..at] + e + s[at + |e|..]
  }

  /** A write at the start leaves its data as the prefix. */
  lemma SplicePrefix<T>(s: seq<T>, e: seq<T>)
    requires |e| <= |s|
    ensures Splice(s, 0, e)[..|e|] == e
  {
    assert Splice(s, 0, e)[..|e|] == Splice(s, 0, e)[0..0 + |e|];
  }

  /** A write right after an earlier one extends it. */
  lemma Extend<T>(s: seq<T>, at: nat, d: seq<T>, mid: seq<T>, e: seq<T>, after: seq<T>)
    requires at + |d| + |e| <= |s|
    requires mid == Splice(s, at, d)
    requires after == Splice(mid, at + |d|, e)
    ensures after == Splice(s, at, d + e)
  {
    SpliceTwice(s, at, d, e);
  }

  /** Two writes back to back are one write of both. */
  lemma SpliceTwice<T>(s: seq<T>, at: nat, e1: seq<T>, e2: seq<T>)
    requires at + |e1| + |e2| <= |s|
    ensures Splice(Splice(s, at, e1), at + |e1|, e2) == Splice(s, at, e1 + e2)
  {
    var t := Splice(Splice(s, at, e1), at + |e1|, e2);
    var u := Splice(s, at, e1 + e2);
    forall k | 0 <= k < |s|
      ensures t[k] == u[k]
    {
      if k < at {
        assert t[k] == t[..at][k];
        assert u[k] == u[..at][k];
      } else if k < at + |e1| {
        assert t[k] == Splice(s, at, e1)[k];
      }
    }
  }

  /**
   * The sample's globals `numVertices` and the mapped vertex buffer
   * (`buffer`), as written through `wgpu_buffer_write_mapped_range`.
   */
  class Geometry {
    var numVertices: nat
    const buffer: array<Point>

    /**
     * `wgpu_buffer_write_mapped_range(buffer, 0, offset * sizeof(vertex),
     * data, sizeof(data))`, in vertex units.
     */
    method WriteMappedRange(offset: nat, data: seq<Point>)
      requires offset + |data| <= buffer.Length
      modifies buffer
      ensures buffer[..] == Splice(old(buffer[..]), offset, data)
    {
      forall k | 0 <= k < |data| {
        buffer[offset + k] := data[k];
      }
      assert buffer[..] == Splice(old(buffer[..]), offset, data) by {
        forall k | 0 <= k < buffer.Length
          ensures buffer[..][k] == Splice(old(buffer[..]), offset, data)[k]
        {
          if k < offset {
            assert Splice(old(buffer[..]), offset, data)[k] == Splice(old(buffer[..]), offset, data)[..offset][k];
          } else if k >= offset + |data| {
            assert Splice(old(buffer[..]), offset, data)[k]
                == Splice(old(buffer[..]), offset, data)[offset + |data|..][k - offset - |data|];
          } else {
            assert Splice(old(buffer[..]), offset, data)[k]
                == Splice(old(buffer[..]), offset, data)[offset..offset + |data|][k - offset];
          }
        }
      }
    }

    /**
     * `divide` (samples/vertex_buffer/vertex_buffer.c:60-95): appends
     * exactly `Emitted(v0, v1, v2, recursionLimit)` at `numVertices`,
     * leaving the rest of the buffer as it was.
     */
    method Divide(v0: Point, v1: Point, v2: Point, recursionLimit: int)
      requires numVertices + |Emitted(v0, v1, v2, recursionLimit)| <= buffer.Length
      modifies this, buffer
      ensures numVertices == old(numVertices) + |Emitted(v0, v1, v2, recursionLimit)|
      ensures buffer[..] == Splice(old(buffer[..]), old(numVertices), Emitted(v0, v1, v2, recursionLimit))
      decreases if recursionLimit > 0 then recursionLimit else 0, 1
    {
      if Min3(v0.x, v1.x, v2.x) > 1.0 { return; }
      if Min3(v0.y, v1.y, v2.y) > 1.0 { return; }
      if Max3(v0.x, v1.x, v2.x) < -1.0 { return; }
      if Max3(v0.y, v1.y, v2.y) < -1.0 { return; }

      var w1 := Avg(v0, v2);
      var w2 := Avg8(v1, v2);
      var w0 := Avg(v2, w2);
      var w3 := Avg(v0, w2);
      assert Subdivide(v0, v1, v2) == Split(w0, w1, w2, w3);

      ghost var start := numVertices;
      ghost var before := buffer[..];
      var data := [v0, w2, w2, w1, w1, w0, w1, w3];
      WriteMappedRange(numVertices, data);
      numVertices := numVertices + 8;

      EmittedUnfold(v0, v1, v2, recursionLimit, w0, w1, w2, w3);
      var r := recursionLimit - 1;
      if r > 0 {
        ghost var e1, e2, e3, e4, e5 :=
          Emitted(w2, v1, v0, r), Emitted(w3, v0, w1, r), Emitted(w3, w2, w1, r),
          Emitted(w0, w1, w2, r), Emitted(w0, w1, v2, r);
        ghost var d := data;
        DivideAfter(before, start, d, w2, v1, v0, r);
        d := d + e1;
        DivideAfter(before, start, d, w3, v0, w1, r);
        d := d + e2;
        DivideAfter(before, start, d, w3, w2, w1, r);
        d := d + e3;
        DivideAfter(before, start, d, w0, w1, w2, r);
        d := d + e4;
        DivideAfter(before, start, d, w0, w1, v2, r);
        d := d + e5;
        assert d == Emitted(v0, v1, v2, recursionLimit);
      } else {
        assert data == Emitted(v0, v1, v2, recursionLimit);
      }
    }

    /**
     * `Divide` for a sub-triangle whose vertices follow `d`, the vertices
     * already written from `start` on.
     */
    method DivideAfter(ghost before: seq<Point>, ghost start: nat, ghost d: seq<Point>,
                       v0: Point, v1: Point, v2: Point, recursionLimit: int)
      requires |before| == buffer.Length
      requires start + |d| + |Emitted(v0, v1, v2, recursionLimit)| <= buffer.Length
      requires buffer[..] == Splice(before, start, d) && numVertices == start + |d|
      modifies this, buffer
      ensures numVertices == start + |d| + |Emitted(v0, v1, v2, recursionLimit)|
      ensures buffer[..] == Splice(before, start, d + Emitted(v0, v1, v2, recursionLimit))
      decreases if recursionLimit > 0 then recursionLimit else 0, 2
    {
      ghost var mid := buffer[..];
      Divide(v0, v1, v2, recursionLimit);
      Extend(before, start, d, mid, Emitted(v0, v1, v2, recursionLimit), buffer[..]);
    }

    /**
     * The geometry half of `CreateGeometryAndRender` (lines 122-150): a
     * fresh buffer of `MAX_VERTICES` vertices, `numVertices` reset, and the
     * initial triangle divided with the full recursion limit. `scale` is
     * the canvas height over its width.
     */
    constructor CreateGeometry(scale: real)
      ensures buffer.Length == MaxVertices
      ensures numVertices <= MaxVertices && numVertices % 8 == 0
      ensures buffer[..numVertices] == Emitted(Point(-4.0 * scale, -4.0), Point(-4.0 * scale, 4.0), Point(12.0 * scale, -4.0), RecursionLimit)
    {
      buffer := new Point[MaxVertices](_ => Point(0.0, 0.0));
      numVertices := 0;
      new;
      var v0, v1, v2 := Point(-4.0 * scale, -4.0), Point(-4.0 * scale, 4.0), Point(12.0 * scale, -4.0);
      ghost var e := Emitted(v0, v1, v2, RecursionLimit);
      ghost var initial := buffer[..];
      Fits(v0, v1, v2);
      Divide(v0, v1, v2, RecursionLimit);
      SplicePrefix(initial, e);
    }
  }

  /** The top-level call writes whole triangles and fits `MAX_VERTICES`. */
  lemma Fits(v0: Point, v1: Point, v2: Point)
    ensures |Emitted(v0, v1, v2, RecursionLimit)| <= MaxVertices
    ensures |Emitted(v0, v1, v2, RecursionLimit)| % 8 == 0
  {
    EmittedBound(v0, v1, v2, RecursionLimit);
    EmittedWhole(v0, v1, v2, RecursionLimit);
    MaxVerticesValue();
  }

  /** Every write of a call lands inside a buffer of `MAX_VERTICES * sizeof(vertex)` bytes. */
  lemma WritesInsideBuffer(v0: Point, v1: Point, v2: Point, offset: nat)
    requires offset + 8 <= |Emitted(v0, v1, v2, RecursionLimit)|
    ensures offset * VertexSize + 8 * VertexSize <= MaxVertices * VertexSize
  {
    EmittedBound(v0, v1, v2, RecursionLimit);
    MaxVerticesValue();
  }
}

/**
 * The ribbon builder `polyline`: it walks the trail with `visit` and writes,
 * for each sample, two edge points `centre + offset` and `centre - offset`
 * into a flat number buffer, four numbers per sample, newest sample first.
 * How an offset is computed (normals, miters and their clamping) is left
 * abstract as the parameter `off`; the model keeps which points each offset
 * is computed from.
 */
module Ribbon {
  import opened Geometry
  import opened Trail

  /** The points an offset is computed from, one constructor per branch of the builder. */
  datatype Join =
    | Start(p: Vec2, next: Vec2)             // first vertex: normal of its own segment
    | Miter(prev: Vec2, p: Vec2, next: Vec2) // interior vertex: clamped miter of both segments
    | End(prev: Vec2, p: Vec2)               // last vertex: normal of the last segment

  /** A ribbon vertex: a centre on the trail and the offset to its two edge points. */
  datatype Vertex = Vertex(centre: Vec2, offset: Vec2)

  function Left(v: Vertex): Vec2 {
    Add(v.centre, v.offset)
  }

  function Right(v: Vertex): Vec2 {
    Sub(v.centre, v.offset)
  }

  /** The join at the `b`-th point of a walk `r` with at least two points. */
  function JoinAt(r: seq<Vec2>, b: nat): (j: Join)
    requires 2 <= |r| && b < |r|
    ensures j.p == r[b]
    ensures b == 0 <==> j.Start?
    ensures b == |r| - 1 <==> j.End?
    ensures j.Start? ==> j.next == r[1]
    ensures j.End? ==> j.prev == r[b - 1]
    ensures j.Miter? ==> j.prev == r[b - 1] && j.next == r[b + 1]
  {
    if b == 0 then Start(r[0], r[1])
    else if b == |r| - 1 then End(r[b - 1], r[b])
    else Miter(r[b - 1], r[b], r[b + 1])
  }

  /** Vertex `b` of the ribbon along the walk `r`: centred on `r[b]`, offset by its join. */
  function VertexAt(r: seq<Vec2>, off: Join -> Vec2, b: nat): Vertex
    requires 2 <= |r| && b < |r|
  {
    Vertex(r[b], off(JoinAt(r, b)))
  }

  /** The reference ribbon: vertex `b` sits on the `b`-th newest sample. */
  function Expected(h: History, off: Join -> Vec2, b: nat): Vertex
    requires h.Valid() && 2 <= h.length && b < h.length
  {
    VertexAt(Recent(h), off, b)
  }

  /** The two edge points block `b` of a buffer holds. */
  function Emitted(poly: seq<real>, b: nat): (Vec2, Vec2)
    requires 4 * b + 4 <= |poly|
  {
    (Vec2(poly[4 * b], poly[4 * b + 1]), Vec2(poly[4 * b + 2], poly[4 * b + 3]))
  }

  /**
   * `polyline`: returns the rewritten buffer and the indices it wrote, in
   * write order. A trail of a single sample is excluded: `visit` then makes
   * no call and the final block would be built from undefined values.
   */
  method Polyline(h: History, poly: seq<real>, off: Join -> Vec2) returns (out: seq<real>, writes: seq<int>)
    requires h.Valid() && 2 <= h.length && 4 * h.length <= |poly|
    ensures |out| == |poly|
    ensures writes == Upto(4 * h.length)
    ensures forall t :: 4 * h.length <= t < |poly| ==> out[t] == poly[t]
    ensures forall b :: 0 <= b < h.length ==>
              Emitted(out, b) == (Left(Expected(h, off, b)), Right(Expected(h, off, b)))
    ensures forall b :: 0 <= b < h.length ==>
              Mid(Emitted(out, b).0, Emitted(out, b).1) == Recent(h)[b]
  {
    var segs := Visit(h);
    var r := Recent(h);
    SegmentsOfWalk(h);
    var x0, xf;
    out, writes, x0, xf := Callbacks(r, segs, poly, off);
    var i := |segs|;
    assert VertexAt(r, off, i) == Vertex(xf, off(End(x0, xf)));
    UptoBlock(i);
    var walked := out;
    out, writes := WriteVertex(out, writes, i, xf, off(End(x0, xf)));
    forall b | 0 <= b < h.length
      ensures Emitted(out, b) == (Left(Expected(h, off, b)), Right(Expected(h, off, b)))
    {
      if b < i {
        assert Emitted(out, b) == Emitted(walked, b);
      }
    }
    RibbonSymmetric(h, off, out);
  }

  /** The segments `visit` yields are the consecutive pairs of the newest-first samples. */
  lemma SegmentsOfWalk(h: History)
    requires h.Valid() && 2 <= h.length
    ensures |Segments(h)| == |Recent(h)| - 1
    ensures forall k :: 0 <= k < |Segments(h)| ==> Segments(h)[k] == Segment(Recent(h)[k], Recent(h)[k + 1])
  {
  }

  /**
   * The callback `polyline` hands to `visit`, run once per segment of the walk
   * `r` in call order: the first call writes block 0 from its own segment, each
   * later call writes the next block with a miter against the previous call's
   * point. Also returns the last call's two points, which the final block is
   * built from.
   */
  method Callbacks(r: seq<Vec2>, segs: seq<Segment>, poly: seq<real>, off: Join -> Vec2)
    returns (out: seq<real>, writes: seq<int>, x0: Vec2, xf: Vec2)
    requires 2 <= |r| && 4 * |r| <= |poly|
    requires |segs| == |r| - 1 && forall k :: 0 <= k < |segs| ==> segs[k] == Segment(r[k], r[k + 1])
    ensures |out| == |poly|
    ensures writes == Upto(4 * |segs|)
    ensures forall t :: 4 * |segs| <= t < |poly| ==> out[t] == poly[t]
    ensures forall b :: 0 <= b < |segs| ==> Emitted(out, b) == (Left(VertexAt(r, off, b)), Right(VertexAt(r, off, b)))
    ensures x0 == r[|r| - 2] && xf == r[|r| - 1]
  {
    out, writes := poly, [];
    var i: int := -1;
    x0, xf := Vec2(0.0, 0.0), Vec2(0.0, 0.0);  // undefined until the first call
    var k := 0;
    while k < |segs|
      invariant 0 <= k <= |segs| && i == k - 1
      invariant |out| == |poly|
      invariant writes == Upto(4 * k)
      invariant forall t :: 4 * k <= t < |poly| ==> out[t] == poly[t]
      invariant forall b :: 0 <= b < k ==> Emitted(out, b) == (Left(VertexAt(r, off, b)), Right(VertexAt(r, off, b)))
      invariant 0 < k ==> x0 == r[k - 1] && xf == r[k]
    {
      var x1, x2 := segs[k].newer, segs[k].older;
      i := i + 1;
      var o := if i == 0 then off(Start(x1, x2)) else off(Miter(x0, x1, x2));
      assert VertexAt(r, off, k) == Vertex(x1, o);
      UptoBlock(k);
      out, writes := WriteVertex(out, writes, i, x1, o);
      x0, xf := x1, x2;
      k := k + 1;
    }
  }

  /**
   * In a buffer holding the reference ribbon, each block's two edge points are
   * symmetric about the sample it stands for, newest sample in block 0.
   */
  lemma RibbonSymmetric(h: History, off: Join -> Vec2, poly: seq<real>)
    requires h.Valid() && 2 <= h.length && 4 * h.length <= |poly|
    requires forall b :: 0 <= b < h.length ==>
               Emitted(poly, b) == (Left(Expected(h, off, b)), Right(Expected(h, off, b)))
    ensures forall b :: 0 <= b < h.length ==>
              Mid(Emitted(poly, b).0, Emitted(poly, b).1) == Recent(h)[b]
              && Sub(Emitted(poly, b).0, Recent(h)[b]) == Sub(Recent(h)[b], Emitted(poly, b).1)
  {
    forall b | 0 <= b < h.length
      ensures Mid(Emitted(poly, b).0, Emitted(poly, b).1) == Recent(h)[b]
      ensures Sub(Emitted(poly, b).0, Recent(h)[b]) == Sub(Recent(h)[b], Emitted(poly, b).1)
    {
      EdgesAroundCentre(Expected(h, off, b));
    }
  }

  /**
   * Block `k < length - 1` is built during the `k`-th callback of `visit`:
   * centred on that callback's newer point, with the first callback's own
   * segment for its offset and later ones a miter with the previous point.
   */
  lemma CallbackVertex(h: History, off: Join -> Vec2, k: nat)
    requires h.Valid() && 2 <= h.length && k < h.length - 1
    ensures var segs := Segments(h);
            Expected(h, off, k)
            == Vertex(segs[k].newer,
                      if k == 0 then off(Start(segs[k].newer, segs[k].older))
                      else off(Miter(segs[k - 1].newer, segs[k].newer, segs[k].older)))
  {
  }

  /**
   * The last block is built after the walk, centred on the last callback's
   * older point, with that callback's segment for its offset.
   */
  lemma FinalVertex(h: History, off: Join -> Vec2)
    requires h.Valid() && 2 <= h.length
    ensures var segs := Segments(h);
            Expected(h, off, h.length - 1)
            == Vertex(segs[h.length - 2].older, off(End(segs[h.length - 2].newer, segs[h.length - 2].older)))
  {
  }

  /** The indices `0, 1, ..., n - 1`, in that order. */
  function Upto(n: nat): (s: seq<int>)
    ensures |s| == n && forall t :: 0 <= t < n ==> s[t] == t
  {
    seq(n, t => t)
  }

  lemma UptoBlock(b: nat)
    ensures Upto(4 * b) + [4 * b, 4 * b + 1, 4 * b + 2, 4 * b + 3] == Upto(4 * b + 4)
  {
  }

  /** The two edge points are symmetric about the centre. */
  lemma EdgesAroundCentre(v: Vertex)
    ensures Mid(Left(v), Right(v)) == v.centre
    ensures Sub(Left(v), v.centre) == Sub(v.centre, Right(v))
  {
  }

  /** Writes one 4-number block `b`: `c + o` then `c - o`, logging each index. */
  method WriteVertex(poly: seq<real>, writes: seq<int>, b: nat, c: Vec2, o: Vec2)
    returns (out: seq<real>, writes': seq<int>)
    requires 4 * b + 4 <= |poly|
    ensures |out| == |poly|
    ensures Emitted(out, b) == (Left(Vertex(c, o)), Right(Vertex(c, o)))
    ensures forall t :: 0 <= t < |poly| && (t < 4 * b || 4 * b + 4 <= t) ==> out[t] == poly[t]
    ensures forall b' :: 0 <= b' < b ==> Emitted(out, b') == Emitted(poly, b')
    ensures writes' == writes + [4 * b, 4 * b + 1, 4 * b + 2, 4 * b + 3]
  {
    out := poly[b * 4 + 0 := c.x + o.x];
    out := out[b * 4 + 1 := c.y + o.y];
    out := out[b * 4 + 2 := c.x - o.x];
    out := out[b * 4 + 3 := c.y - o.y];
    writes' := writes + [b * 4 + 0, b * 4 + 1, b * 4 + 2, b * 4 + 3];
  }
}

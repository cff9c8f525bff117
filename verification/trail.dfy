/**
 * The trail ring buffer `history(n)`: a fixed array of `cap` two-number slots,
 * a write cursor `i` and a fill count `length`. Its logical contents are the
 * last `length` samples pushed, oldest first, read from slot
 * `(i - length) mod cap` forward to slot `(i - 1) mod cap`.
 */
module Trail {
  import opened Geometry
  import opened Modular

  /** `v` is the flat number array: slot `s` occupies `v[2*s]` and `v[2*s+1]`. */
  datatype History = History(cap: nat, i: nat, length: nat, v: seq<real>) {
    predicate Valid() {
      0 < cap && i < cap && length <= cap && |v| == 2 * cap
    }
  }

  /** One callback of `visit`: the newer sample first, then the one pushed just before it. */
  datatype Segment = Segment(newer: Vec2, older: Vec2)

  /** The sample stored in slot `s`. */
  function Slot(h: History, s: nat): Vec2
    requires h.Valid() && s < h.cap
  {
    Vec2(h.v[2 * s], h.v[2 * s + 1])
  }

  /** A fresh history: every number zero, cursor at slot 0, nothing valid. */
  function Empty(n: nat): (h: History)
    requires 0 < n
    ensures h.Valid() && h.cap == n && h.i == 0 && h.length == 0
    ensures Contents(h) == []
  {
    History(n, 0, 0, seq(2 * n, _ => 0.0))
  }

  /** The valid samples, oldest first. */
  function Contents(h: History): (c: seq<Vec2>)
    requires h.Valid()
    ensures |c| == h.length
  {
    Oldest(h, h.length)
  }

  /** The `k` oldest valid samples: logical position `t` lives in slot `(i - length + t) mod cap`. */
  function Oldest(h: History, k: nat): (c: seq<Vec2>)
    requires h.Valid() && k <= h.length
    ensures |c| == k
  {
    if k == 0 then [] else Oldest(h, k - 1) + [Slot(h, Wrap(h.i + h.cap - h.length + k - 1, h.cap))]
  }

  /** The `t`-th oldest valid sample is read from slot `(i - length + t) mod cap`. */
  lemma ContentsAt(h: History, t: nat)
    requires h.Valid() && t < h.length
    ensures Contents(h)[t] == Slot(h, Wrap(h.i + h.cap - h.length + t, h.cap))
  {
    OldestAt(h, h.length, t);
  }

  /** `ContentsAt` with the slot written as the source's modulo, `(i - length + t) % cap`. */
  lemma ContentsSlot(h: History, t: nat)
    requires h.Valid() && t < h.length
    ensures Contents(h)[t] == Slot(h, (h.i - h.length + t) % h.cap)
  {
    ContentsAt(h, t);
    WrapBack(h.i, h.length - t, h.cap);
  }

  lemma {:induction false} OldestAt(h: History, k: nat, t: nat)
    requires h.Valid() && t < k <= h.length
    ensures Oldest(h, k)[t] == Slot(h, Wrap(h.i + h.cap - h.length + t, h.cap))
    decreases k
  {
    if t < k - 1 {
      OldestAt(h, k - 1, t);
    }
  }

  /** The valid samples, newest first: the order in which `visit` walks them. */
  function Recent(h: History): (r: seq<Vec2>)
    requires h.Valid()
    ensures |r| == h.length
  {
    var c := Contents(h);
    seq(|c|, k requires 0 <= k < |c| => c[|c| - 1 - k])
  }

  /** The last `n` elements of `s` (all of `s` when it is shorter). */
  function Keep<T>(s: seq<T>, n: nat): (r: seq<T>)
    ensures |r| == Min(|s|, n)
    ensures r == s[|s| - |r|..]
  {
    if |s| <= n then s else s[|s| - n..]
  }

  /** `push`: store `p` in slot `i`, advance the cursor, grow `length` up to `cap`. */
  function Push(h: History, p: Vec2): (h': History)
    requires h.Valid()
    ensures h'.Valid() && h'.cap == h.cap
    ensures h'.length == Min(h.length + 1, h.cap)
    ensures h.length <= h'.length
    ensures h.length == h.cap ==> h'.length == h.cap
    ensures h'.i == if h.i + 1 < h.cap then h.i + 1 else 0
    ensures Slot(h', h.i) == p
    ensures forall k :: 0 <= k < |h.v| && k != 2 * h.i && k != 2 * h.i + 1 ==> h'.v[k] == h.v[k]
  {
    var v := h.v[2 * h.i := p.x][2 * h.i + 1 := p.y];
    History(h.cap, Wrap(h.i + 1, h.cap), if h.length < h.cap then h.length + 1 else h.length, v)
  }

  /** The cursor advances exactly as the source writes it, `(i + 1) % cap`. */
  lemma PushCursor(h: History, p: Vec2)
    requires h.Valid()
    ensures Push(h, p).i == (h.i + 1) % h.cap
  {
    WrapMod(h.i + 1, h.cap);
  }

  /** `push` applied to each element of `ps` in turn. */
  function Pushes(h: History, ps: seq<Vec2>): (h': History)
    requires h.Valid()
    ensures h'.Valid() && h'.cap == h.cap
    decreases |ps|
  {
    if ps == [] then h else Push(Pushes(h, ps[..|ps| - 1]), ps[|ps| - 1])
  }

  /** The reference for `visit`: consecutive pairs of the valid samples, newest pair first. */
  function Segments(h: History): (segs: seq<Segment>)
    requires h.Valid()
    ensures |segs| == if h.length == 0 then 0 else h.length - 1
    ensures forall k :: 0 < k < |segs| ==> segs[k].newer == segs[k - 1].older
  {
    var r := Recent(h);
    if |r| < 2 then [] else seq(|r| - 1, k requires 0 <= k < |r| - 1 => Segment(r[k], r[k + 1]))
  }

  /** The points a walk over `segs` passes through, in order. */
  function Path(segs: seq<Segment>): (ps: seq<Vec2>)
    ensures |ps| == if segs == [] then 0 else |segs| + 1
  {
    if segs == [] then [] else [segs[0].newer] + seq(|segs|, k requires 0 <= k < |segs| => segs[k].older)
  }

  /**
   * `visit`: the loop runs `j` from `i + cap - 2` down to `i + cap - length`
   * and calls back with slots `(j + 1) % cap` and `j % cap`, JavaScript's `%`.
   * The result is the sequence of callback arguments in call order.
   */
  method Visit(h: History) returns (calls: seq<Segment>)
    requires h.Valid()
    ensures calls == Segments(h)
    ensures |calls| == if h.length == 0 then 0 else h.length - 1
    ensures 2 <= h.length ==>
              calls[0].newer == Slot(h, (h.i - 1) % h.cap) && calls[0].older == Slot(h, (h.i - 2) % h.cap)
    ensures forall k :: 0 < k < |calls| ==> calls[k].newer == calls[k - 1].older
    ensures 2 <= h.length ==> Path(calls) == Recent(h)
  {
    var n := h.cap;
    calls := [];
    var j: int := h.i + n - 2;
    while j > h.i + n - h.length - 1
      invariant j == h.i + n - 2 - |calls|
      invariant |calls| <= if h.length == 0 then 0 else h.length - 1
      invariant forall k :: 0 <= k < |calls| ==> calls[k] == Segments(h)[k]
    {
      var a := Rem(j + 1, n);
      var b := Rem(j + 0, n);
      SegmentAt(h, |calls|);
      WrapMod(j + 1, n);
      WrapMod(j, n);
      calls := calls + [Segment(Vec2(h.v[a * 2], h.v[a * 2 + 1]), Vec2(h.v[b * 2], h.v[b * 2 + 1]))];
      j := j - 1;
    }
    assert calls == Segments(h);
    if 2 <= h.length {
      SegmentsWalk(h);
    }
  }

  /**
   * The reference walk starts at the latest push, `(i - 1) mod cap`, and
   * passes through exactly the valid samples, newest first.
   */
  lemma SegmentsWalk(h: History)
    requires h.Valid() && 2 <= h.length
    ensures Segments(h)[0].newer == Slot(h, (h.i - 1) % h.cap)
    ensures Segments(h)[0].older == Slot(h, (h.i - 2) % h.cap)
    ensures Path(Segments(h)) == Recent(h)
  {
    SegmentAt(h, 0);
    WrapBack(h.i, 1, h.cap);
    WrapBack(h.i, 2, h.cap);
    SegmentsPath(h);
  }

  lemma SegmentsPath(h: History)
    requires h.Valid() && 2 <= h.length
    ensures Path(Segments(h)) == Recent(h)
  {
    var segs, r := Segments(h), Recent(h);
    var ps := Path(segs);
    forall k | 0 <= k < |r|
      ensures ps[k] == r[k]
    {
      if k == 0 {
        assert ps[0] == segs[0].newer;
      } else {
        assert ps[k] == segs[k - 1].older;
      }
    }
  }

  /** The `k`-th segment reads slots `(i - 1 - k) mod cap` and `(i - 2 - k) mod cap`. */
  lemma SegmentAt(h: History, k: nat)
    requires h.Valid() && k + 1 < h.length
    ensures Segments(h)[k] == Segment(Slot(h, Wrap(h.i + h.cap - 1 - k, h.cap)), Slot(h, Wrap(h.i + h.cap - 2 - k, h.cap)))
  {
    var c := Contents(h);
    ContentsAt(h, h.length - 1 - k);
    ContentsAt(h, h.length - 2 - k);
    assert Recent(h)[k] == c[h.length - 1 - k];
    assert Recent(h)[k + 1] == c[h.length - 2 - k];
  }


  /** Keeping the last `n` is the same whether or not the older tail was trimmed first. */
  lemma KeepAppend<T>(s: seq<T>, p: T, n: nat)
    requires 0 < n
    ensures Keep(Keep(s, n) + [p], n) == Keep(s + [p], n)
  {
    if n <= |s| {
      var m := |s| - n;
      assert Keep(s, n) == s[m..];
      assert Keep(s[m..] + [p], n) == (s[m..] + [p])[1..];
      assert (s[m..] + [p])[1..] == s[m + 1..] + [p] == (s + [p])[m + 1..];
    }
  }

  /**
   * One more element through a bounded queue: if `before` kept the last `n` of
   * `c + init` and `after` keeps the last `n` of `before + [p]`, then `after`
   * is the last `n` of `c + init + [p]`.
   */
  lemma KeepSnoc<T>(c: seq<T>, init: seq<T>, p: T, n: nat, before: seq<T>, after: seq<T>)
    requires 0 < n && before == Keep(c + init, n) && after == Keep(before + [p], n)
    ensures after == Keep(c + (init + [p]), n)
  {
    KeepAppend(c + init, p, n);
    assert c + init + [p] == c + (init + [p]);
  }

  /**
   * `push` refines a bounded queue: the valid samples afterwards are the old
   * ones with `p` appended, the oldest dropped once `cap` is exceeded.
   */
  lemma PushContents(h: History, p: Vec2)
    requires h.Valid()
    ensures Contents(Push(h, p)) == Keep(Contents(h) + [p], h.cap)
  {
    var h' := Push(h, p);
    var c', r := Contents(h'), Keep(Contents(h) + [p], h.cap);
    forall t | 0 <= t < |c'|
      ensures c'[t] == r[t]
    {
      PushContentsAt(h, p, t);
    }
  }

  /** One element of `PushContents`: the `t`-th oldest sample after the push. */
  lemma PushContentsAt(h: History, p: Vec2, t: nat)
    requires h.Valid() && t < Push(h, p).length
    ensures Contents(Push(h, p))[t] == Keep(Contents(h) + [p], h.cap)[t]
  {
    var h' := Push(h, p);
    var n, L := h.cap, h.length;
    var c := Contents(h);
    var drop := if L < n then 0 else 1;
    assert Keep(c + [p], n)[t] == (c + [p])[t + drop];
    var s := Wrap(h.i + n - L + t + drop, n);
    assert Wrap(h'.i + n - h'.length + t, n) == s;
    ContentsAt(h', t);
    if t + drop < L {
      PushOtherSlot(h, p, s);
      ContentsAt(h, t + drop);
    }
  }

  /** After a push, the newest valid sample is the one just pushed. */
  lemma PushNewest(h: History, p: Vec2)
    requires h.Valid()
    ensures 1 <= Push(h, p).length && Recent(Push(h, p))[0] == p
  {
    var h' := Push(h, p);
    assert Wrap(h'.i + h.cap - 1, h.cap) == h.i;
    ContentsAt(h', h'.length - 1);
    assert Recent(h')[0] == Contents(h')[h'.length - 1];
  }

  /** `push` leaves every slot but the cursor's alone. */
  lemma PushOtherSlot(h: History, p: Vec2, s: nat)
    requires h.Valid() && s < h.cap && s != h.i
    ensures Slot(Push(h, p), s) == Slot(h, s)
  {
  }

  /** After pushes `ps`, `length` has grown by `|ps|` up to `cap` and the cursor has advanced `|ps|` slots. */
  lemma {:induction false} PushesShape(h: History, ps: seq<Vec2>)
    requires h.Valid()
    ensures Pushes(h, ps).length == Min(h.length + |ps|, h.cap)
    ensures Pushes(h, ps).i == (h.i + |ps|) % h.cap
    decreases |ps|
  {
    if ps == [] {
      ModSelf(h.i, h.cap);
    } else {
      var init := ps[..|ps| - 1];
      PushesShape(h, init);
      ModShift(h.i + |init|, 1, h.cap);
      WrapMod((h.i + |init|) % h.cap + 1, h.cap);
    }
  }

  /** After pushes `ps`, the valid samples are the last `cap` of the old ones followed by `ps`. */
  lemma {:induction false} PushesContents(h: History, ps: seq<Vec2>)
    requires h.Valid()
    ensures Contents(Pushes(h, ps)) == Keep(Contents(h) + ps, h.cap)
    decreases |ps|
  {
    if ps == [] {
      assert Contents(h) + ps == Contents(h);
    } else {
      var init := ps[..|ps| - 1];
      PushesContents(h, init);
      PushesContentsStep(h, init, ps[|ps| - 1]);
      assert init + [ps[|ps| - 1]] == ps;
    }
  }

  /** The inductive step of `PushesContents`: one more push appends one sample. */
  lemma PushesContentsStep(h: History, init: seq<Vec2>, p: Vec2)
    requires h.Valid()
    requires Contents(Pushes(h, init)) == Keep(Contents(h) + init, h.cap)
    ensures Contents(Pushes(h, init + [p])) == Keep(Contents(h) + (init + [p]), h.cap)
  {
    var h0 := Pushes(h, init);
    assert (init + [p])[..|init|] == init;
    assert Pushes(h, init + [p]) == Push(h0, p);
    PushContents(h0, p);
    KeepSnoc(Contents(h), init, p, h.cap, Contents(h0), Contents(Push(h0, p)));
  }

  /**
   * From a fresh buffer: `k < cap` pushes leave `length == k`, any more leave
   * `length == cap`, and the valid samples are the last `cap` pushed.
   */
  lemma PushesFromEmpty(n: nat, ps: seq<Vec2>)
    requires 0 < n
    ensures Pushes(Empty(n), ps).length == Min(|ps|, n)
    ensures Pushes(Empty(n), ps).i == |ps| % n
    ensures Contents(Pushes(Empty(n), ps)) == Keep(ps, n)
  {
    var e := Empty(n);
    PushesShape(e, ps);
    PushesContents(e, ps);
    assert Contents(e) + ps == ps;
    assert e.length + |ps| == |ps| && e.i + |ps| == |ps|;
  }

  /**
   * Capacity 4, five samples pushed: the first is gone, the cursor has wrapped
   * to slot 1, and `visit` yields the pairs newest first.
   */
  lemma CapacityFourExample(a: Vec2, b: Vec2, c: Vec2, d: Vec2, e: Vec2)
    ensures var h := Pushes(Empty(4), [a, b, c, d, e]);
            && h.length == 4 && h.i == 1
            && Contents(h) == [b, c, d, e]
            && Segments(h) == [Segment(e, d), Segment(d, c), Segment(c, b)]
  {
    var ps := [a, b, c, d, e];
    PushesFromEmpty(4, ps);
    var h := Pushes(Empty(4), ps);
    assert Contents(h) == [b, c, d, e];
    assert Recent(h) == [e, d, c, b];
  }
}

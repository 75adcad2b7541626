/** FloodFill.cs: connected-component labelling of a binary image. Every
    foreground pixel not yet labelled starts a new object; a fill from it
    writes the object's label into the label map and grows the object's
    bounding box. The registry (`ObjectCount`, the label map and `Objects`) is
    process-wide state, modelled as the fields of a class. The recursive fill
    is modelled with an explicit worklist: the set of pixels a fill labels and
    the box it grows do not depend on the order the steps are taken in. */
module ObjectLabelling {
  import opened Grids
  import opened Sequences

  datatype Option<T> = None | Some(value: T)

  /** The four corner points CalculateCorners stores. */
  datatype Corners = Corners(topLeft: (int, int), topRight: (int, int), bottomLeft: (int, int), bottomRight: (int, int))

  /** A registry entry: its label, its bounding box, and its corners once
      CalculateCorners has run (null before that in the source). */
  datatype PictureObject = PictureObject(objectNumber: int, xMin: int, xMax: int, yMin: int, yMax: int, corners: Option<Corners>)

  /** A fresh entry: the minima start at the sentinel 512, the maxima at 0. */
  function NewObject(n: int): PictureObject
  {
    PictureObject(n, 512, 0, 512, 0, None)
  }

  // ---------------------------------------------------------------------------
  // The steps of the fill

  /** A step of the fill from (x, y) to q: right or down whenever q is inside
      the image; left or up only when q's coordinate stays at least 1 (the
      source tests `x - 1 > 0` and `y - 1 > 0`). */
  predicate Step(x: int, y: int, q: (int, int), w: int, h: int)
  {
    0 <= q.0 < w && 0 <= q.1 < h &&
    ((q.0 == x + 1 && q.1 == y) || (q.0 == x - 1 && q.0 >= 1 && q.1 == y) ||
     (q.0 == x && q.1 == y + 1) || (q.0 == x && q.1 == y - 1 && q.1 >= 1))
  }

  /** The pixels CheckNeighboringPixels continues with after labelling (x, y). */
  function Moves(x: int, y: int, w: int, h: int): (m: seq<(int, int)>)
    requires 0 <= x < w && 0 <= y < h
    ensures forall q :: q in m <==> Step(x, y, q, w, h)
  {
    (if x + 1 < w then [(x + 1, y)] else []) +
    (if x - 1 > 0 then [(x - 1, y)] else []) +
    (if y + 1 < h then [(x, y + 1)] else []) +
    (if y - 1 > 0 then [(x, y - 1)] else [])
  }

  /** Between two pixels that both have coordinates of at least 1, the steps
      go both ways: each 4-neighbour is a step. */
  lemma StepSymmetric(x: int, y: int, q: (int, int), w: int, h: int)
    requires 1 <= x < w && 1 <= y < h && 1 <= q.0 < w && 1 <= q.1 < h
    requires ((q.0 - x == 1 || x - q.0 == 1) && q.1 == y) || ((q.1 - y == 1 || y - q.1 == 1) && q.0 == x)
    ensures Step(x, y, q, w, h) && Step(q.0, q.1, (x, y), w, h)
  {
  }

  /** The foreground pixels without a label. */
  function Unlabelled(I: Grid<byte>, M: Grid<byte>, w: nat, h: nat): (u: set<(int, int)>)
    requires IsGrid(I, w, h) && IsGrid(M, w, h)
    ensures forall i, j :: (i, j) in u <==> 0 <= i < w && 0 <= j < h && I[i][j] > 0 && M[i][j] == 0
  {
    set i, j | 0 <= i < w && 0 <= j < h && I[i][j] > 0 && M[i][j] == 0 :: (i, j)
  }

  /** Labelling an unlabelled foreground pixel removes exactly it from the
      unlabelled pixels, so the fill terminates. */
  lemma LabelShrinks(I: Grid<byte>, M: Grid<byte>, w: nat, h: nat, x: int, y: int, L: byte)
    requires IsGrid(I, w, h) && IsGrid(M, w, h) && 0 <= x < w && 0 <= y < h
    requires I[x][y] > 0 && M[x][y] == 0 && L != 0
    ensures |Unlabelled(I, Set(M, x, y, L), w, h)| == |Unlabelled(I, M, w, h)| - 1
  {
    var before, after := Unlabelled(I, M, w, h), Unlabelled(I, Set(M, x, y, L), w, h);
    assert forall p :: p in after <==> p in before && p != (x, y);
    assert after == before - {(x, y)};
  }

  /** From M0 to M only unlabelled foreground pixels changed, and they got label L. */
  ghost predicate OnlyNew(I: Grid<byte>, M0: Grid<byte>, M: Grid<byte>, w: nat, h: nat, L: int)
    requires IsGrid(I, w, h) && IsGrid(M0, w, h) && IsGrid(M, w, h)
  {
    forall i, j :: 0 <= i < w && 0 <= j < h && M[i][j] != M0[i][j] ==>
      M0[i][j] == 0 && M[i][j] == L && I[i][j] > 0
  }

  /** Every step out of a pixel labelled L is still to be taken (in `work`), or
      leads to a labelled or a background pixel. With `work` empty: the pixels
      labelled L are closed under the steps into the foreground. */
  ghost predicate ClosedBut(I: Grid<byte>, M: Grid<byte>, w: nat, h: nat, L: int, work: seq<(int, int)>)
    requires IsGrid(I, w, h) && IsGrid(M, w, h)
  {
    forall x, y, q :: 0 <= x < w && 0 <= y < h && M[x][y] == L && q in Moves(x, y, w, h) ==>
      q in work || M[q.0][q.1] != 0 || I[q.0][q.1] == 0
  }

  /** The box of `o` is the bounding box of the pixels labelled L, with the
      sentinels: xMin is the least x of those pixels, or 512 when that is
      smaller; xMax the greatest x, or 0 when there is none; likewise in y. */
  ghost predicate Bounds(o: PictureObject, M: Grid<byte>, w: nat, h: nat, L: int)
    requires IsGrid(M, w, h)
  {
    o.xMin <= 512 && o.yMin <= 512 && 0 <= o.xMax && 0 <= o.yMax &&
    Within(o, M, w, h, L) &&
    AttainedX(o.xMin, 512, M, w, h, L) && AttainedX(o.xMax, 0, M, w, h, L) &&
    AttainedY(o.yMin, 512, M, w, h, L) && AttainedY(o.yMax, 0, M, w, h, L)
  }

  /** Every pixel labelled L lies inside the box of `o`. */
  ghost predicate Within(o: PictureObject, M: Grid<byte>, w: nat, h: nat, L: int)
    requires IsGrid(M, w, h)
  {
    forall i, j :: 0 <= i < w && 0 <= j < h && M[i][j] == L ==> o.xMin <= i <= o.xMax && o.yMin <= j <= o.yMax
  }

  /** `v` is the sentinel or the x of some pixel labelled L. */
  ghost predicate AttainedX(v: int, sentinel: int, M: Grid<byte>, w: nat, h: nat, L: int)
    requires IsGrid(M, w, h)
  {
    v == sentinel || exists i, j :: 0 <= i < w && 0 <= j < h && M[i][j] == L && i == v
  }

  /** `v` is the sentinel or the y of some pixel labelled L. */
  ghost predicate AttainedY(v: int, sentinel: int, M: Grid<byte>, w: nat, h: nat, L: int)
    requires IsGrid(M, w, h)
  {
    v == sentinel || exists i, j :: 0 <= i < w && 0 <= j < h && M[i][j] == L && j == v
  }

  /** Labelling (x, y) with L keeps attained coordinates attained and attains x and y. */
  lemma AttainedLabel(v: int, sentinel: int, M: Grid<byte>, w: nat, h: nat, L: byte, x: int, y: int)
    requires IsGrid(M, w, h) && 0 <= x < w && 0 <= y < h && M[x][y] == 0 && L != 0
    ensures AttainedX(v, sentinel, M, w, h, L) ==> AttainedX(v, sentinel, Set(M, x, y, L), w, h, L)
    ensures AttainedY(v, sentinel, M, w, h, L) ==> AttainedY(v, sentinel, Set(M, x, y, L), w, h, L)
    ensures AttainedX(x, sentinel, Set(M, x, y, L), w, h, L) && AttainedY(y, sentinel, Set(M, x, y, L), w, h, L)
  {
    var M1 := Set(M, x, y, L);
    assert M1[x][y] == L;
    if v != sentinel && AttainedX(v, sentinel, M, w, h, L) {
      var i, j :| 0 <= i < w && 0 <= j < h && M[i][j] == L && i == v;
      assert M1[i][j] == L;
    }
    if v != sentinel && AttainedY(v, sentinel, M, w, h, L) {
      var i, j :| 0 <= i < w && 0 <= j < h && M[i][j] == L && j == v;
      assert M1[i][j] == L;
    }
  }

  /** The box update of CheckNeighboringPixels for a pixel (x, y). */
  function Extend(o: PictureObject, x: int, y: int): (r: PictureObject)
    ensures r.objectNumber == o.objectNumber && r.corners == o.corners
  {
    o.(xMin := if o.xMin > x then x else o.xMin,
       yMin := if o.yMin > y then y else o.yMin,
       xMax := if o.xMax < x then x else o.xMax,
       yMax := if o.yMax < y then y else o.yMax)
  }

  /** A fresh entry is the box of a label no pixel carries yet. */
  lemma NewObjectBounds(M: Grid<byte>, w: nat, h: nat, L: int, n: int)
    requires IsGrid(M, w, h) && forall i, j :: 0 <= i < w && 0 <= j < h ==> M[i][j] != L
    ensures Bounds(NewObject(n), M, w, h, L)
  {
  }

  /** Labelling a pixel and extending the box keeps the box exact. */
  lemma ExtendBounds(o: PictureObject, M: Grid<byte>, w: nat, h: nat, L: byte, x: int, y: int)
    requires IsGrid(M, w, h) && 0 <= x < w && 0 <= y < h && M[x][y] == 0 && L != 0
    requires Bounds(o, M, w, h, L)
    ensures Bounds(Extend(o, x, y), Set(M, x, y, L), w, h, L)
  {
    AttainedLabel(o.xMin, 512, M, w, h, L, x, y);
    AttainedLabel(o.xMax, 0, M, w, h, L, x, y);
    AttainedLabel(o.yMin, 512, M, w, h, L, x, y);
    AttainedLabel(o.yMax, 0, M, w, h, L, x, y);
  }

  /** The box of another label is unaffected by a fill with label L. */
  lemma BoundsStable(o: PictureObject, I: Grid<byte>, M0: Grid<byte>, M: Grid<byte>, w: nat, h: nat, L: int, L2: int)
    requires IsGrid(I, w, h) && IsGrid(M0, w, h) && IsGrid(M, w, h)
    requires OnlyNew(I, M0, M, w, h, L) && L2 != L && L2 != 0
    requires Bounds(o, M0, w, h, L2)
    ensures Bounds(o, M, w, h, L2)
  {
    assert forall i, j :: 0 <= i < w && 0 <= j < h ==> (M[i][j] == L2 <==> M0[i][j] == L2);
  }

  /** Labelling keeps the steps out of labelled pixels accounted for: the
      steps out of the new pixel join the work list. */
  lemma LabelKeepsClosed(I: Grid<byte>, M: Grid<byte>, w: nat, h: nat, L: byte, work: seq<(int, int)>, x: int, y: int)
    requires IsGrid(I, w, h) && IsGrid(M, w, h) && 0 <= x < w && 0 <= y < h && L != 0
    requires ClosedBut(I, M, w, h, L, work + [(x, y)])
    ensures ClosedBut(I, Set(M, x, y, L), w, h, L, work + Moves(x, y, w, h))
  {
    var M1 := Set(M, x, y, L);
    forall i, j, q | 0 <= i < w && 0 <= j < h && M1[i][j] == L && q in Moves(i, j, w, h)
      ensures q in work + Moves(x, y, w, h) || M1[q.0][q.1] != 0 || I[q.0][q.1] == 0
    {
      if (i, j) != (x, y) {
        assert M[i][j] == L;
        assert q in work + [(x, y)] || M[q.0][q.1] != 0 || I[q.0][q.1] == 0;
        if q == (x, y) {
          assert M1[q.0][q.1] == L;
        }
      }
    }
  }

  /** A step to a labelled or background pixel is taken without effect. */
  lemma SkipKeepsClosed(I: Grid<byte>, M: Grid<byte>, w: nat, h: nat, L: int, work: seq<(int, int)>, x: int, y: int)
    requires IsGrid(I, w, h) && IsGrid(M, w, h) && 0 <= x < w && 0 <= y < h
    requires M[x][y] != 0 || I[x][y] == 0
    requires ClosedBut(I, M, w, h, L, work + [(x, y)])
    ensures ClosedBut(I, M, w, h, L, work)
  {
    forall i, j, q | 0 <= i < w && 0 <= j < h && M[i][j] == L && q in Moves(i, j, w, h)
      ensures q in work || M[q.0][q.1] != 0 || I[q.0][q.1] == 0
    {
      assert q in work + [(x, y)] || M[q.0][q.1] != 0 || I[q.0][q.1] == 0;
    }
  }

  /** Labels agree across every 4-adjacent pair of foreground pixels whose
      coordinates are all at least 1. */
  ghost predicate Linked(I: Grid<byte>, M: Grid<byte>, w: nat, h: nat)
    requires IsGrid(I, w, h) && IsGrid(M, w, h)
  {
    forall x, y, i, j ::
      (1 <= x < w && 1 <= y < h && 1 <= i < w && 1 <= j < h && RightOrBelow(x, y, i, j) && I[x][y] > 0 && I[i][j] > 0)
      ==> M[i][j] == M[x][y]
  }

  /** (i, j) is the right or the lower 4-neighbour of (x, y). */
  predicate RightOrBelow(x: int, y: int, i: int, j: int)
  {
    (i == x + 1 && j == y) || (i == x && j == y + 1)
  }

  /** A completed fill with a new label keeps labels agreeing across adjacent
      foreground pixels: from a pixel it labels, every such neighbour is a
      step, so it is labelled too, and with the same label, since a pixel
      labelled earlier would have carried its label over to this one. */
  lemma FillKeepsLinked(I: Grid<byte>, M0: Grid<byte>, M: Grid<byte>, w: nat, h: nat, L: int)
    requires IsGrid(I, w, h) && IsGrid(M0, w, h) && IsGrid(M, w, h) && L != 0
    requires Linked(I, M0, w, h) && OnlyNew(I, M0, M, w, h, L) && ClosedBut(I, M, w, h, L, [])
    ensures Linked(I, M, w, h)
  {
    forall x, y, i, j | (1 <= x < w && 1 <= y < h && 1 <= i < w && 1 <= j < h && RightOrBelow(x, y, i, j) &&
                        I[x][y] > 0 && I[i][j] > 0)
      ensures M[i][j] == M[x][y]
    {
      LinkedPair(I, M0, M, w, h, L, x, y, (i, j));
    }
  }

  lemma LinkedPair(I: Grid<byte>, M0: Grid<byte>, M: Grid<byte>, w: nat, h: nat, L: int, x: int, y: int, q: (int, int))
    requires IsGrid(I, w, h) && IsGrid(M0, w, h) && IsGrid(M, w, h) && L != 0
    requires OnlyNew(I, M0, M, w, h, L) && ClosedBut(I, M, w, h, L, [])
    requires 1 <= x < w && 1 <= y < h && I[x][y] > 0 && 1 <= q.0 < w && 1 <= q.1 < h && I[q.0][q.1] > 0
    requires q == (x + 1, y) || q == (x, y + 1)
    requires M0[q.0][q.1] == M0[x][y]
    ensures M[q.0][q.1] == M[x][y]
  {
    StepSymmetric(x, y, q, w, h);
    assert q in Moves(x, y, w, h) && (x, y) in Moves(q.0, q.1, w, h);
  }

  // ---------------------------------------------------------------------------
  // Reachability through the pixels of one label

  /** A sequence of fill steps that stays on pixels labelled L. */
  ghost predicate LabelPath(M: Grid<byte>, w: nat, h: nat, L: int, path: seq<(int, int)>)
    requires IsGrid(M, w, h)
  {
    |path| >= 1 &&
    (forall k :: 0 <= k < |path| ==> 0 <= path[k].0 < w && 0 <= path[k].1 < h && M[path[k].0][path[k].1] == L) &&
    (forall k :: 0 <= k < |path| - 1 ==> Step(path[k].0, path[k].1, path[k + 1], w, h))
  }

  /** t is reached from s by fill steps through pixels labelled L. */
  ghost predicate Reaches(M: Grid<byte>, w: nat, h: nat, L: int, s: (int, int), t: (int, int))
    requires IsGrid(M, w, h)
  {
    exists path :: LabelPath(M, w, h, L, path) && path[0] == s && path[|path| - 1] == t
  }

  /** A labelled pixel reaches itself. */
  lemma ReachSelf(M: Grid<byte>, w: nat, h: nat, L: int, s: (int, int))
    requires IsGrid(M, w, h) && 0 <= s.0 < w && 0 <= s.1 < h && M[s.0][s.1] == L
    ensures Reaches(M, w, h, L, s, s)
  {
    assert LabelPath(M, w, h, L, [s]);
  }

  /** A path to p continues with a step to a pixel q of the same label. */
  lemma ReachExtend(M: Grid<byte>, w: nat, h: nat, L: int, s: (int, int), p: (int, int), q: (int, int))
    requires IsGrid(M, w, h) && Reaches(M, w, h, L, s, p)
    requires Step(p.0, p.1, q, w, h) && M[q.0][q.1] == L
    ensures Reaches(M, w, h, L, s, q)
  {
    var path :| LabelPath(M, w, h, L, path) && path[0] == s && path[|path| - 1] == p;
    var longer := path + [q];
    forall k | 0 <= k < |longer| - 1
      ensures Step(longer[k].0, longer[k].1, longer[k + 1], w, h)
    {
      if k < |path| - 1 {
        assert longer[k] == path[k] && longer[k + 1] == path[k + 1];
      } else {
        assert longer[k] == p && longer[k + 1] == q;
      }
    }
    assert LabelPath(M, w, h, L, longer);
  }

  /** Paths survive any change that keeps every labelled pixel's label. */
  lemma ReachesGrow(M: Grid<byte>, M1: Grid<byte>, w: nat, h: nat, L: int, s: (int, int), t: (int, int))
    requires IsGrid(M, w, h) && IsGrid(M1, w, h) && L != 0
    requires forall i, j :: 0 <= i < w && 0 <= j < h && M[i][j] != 0 ==> M1[i][j] == M[i][j]
    requires Reaches(M, w, h, L, s, t)
    ensures Reaches(M1, w, h, L, s, t)
  {
    var path :| LabelPath(M, w, h, L, path) && path[0] == s && path[|path| - 1] == t;
    assert LabelPath(M1, w, h, L, path);
  }

  /** The pixels labelled L. */
  function LabelSet(M: Grid<byte>, w: nat, h: nat, L: int): (r: set<(int, int)>)
    requires IsGrid(M, w, h)
    ensures forall p :: p in r <==> 0 <= p.0 < w && 0 <= p.1 < h && M[p.0][p.1] == L
  {
    set i, j | 0 <= i < w && 0 <= j < h && M[i][j] == L :: (i, j)
  }

  /** What the fill from seed (x, y) keeps between its steps beside `FillInv`:
      every pixel labelled L is reached from the seed through pixels labelled
      L, and every pending step leaves a pixel labelled L. */
  ghost predicate Rooted(M: Grid<byte>, w: nat, h: nat, L: int, x: int, y: int, work: seq<(int, int)>)
    requires IsGrid(M, w, h)
  {
    (forall p :: p in LabelSet(M, w, h, L) ==> Reaches(M, w, h, L, (x, y), p)) &&
    (forall q :: q in work ==> exists p :: p in LabelSet(M, w, h, L) && Step(p.0, p.1, q, w, h))
  }

  /** Labelling the seed of a new label roots the fill at it. */
  lemma RootedStart(M0: Grid<byte>, w: nat, h: nat, L: byte, x: int, y: int)
    requires IsGrid(M0, w, h) && 0 <= x < w && 0 <= y < h && L != 0
    requires forall i, j :: 0 <= i < w && 0 <= j < h ==> M0[i][j] != L
    ensures Rooted(Set(M0, x, y, L), w, h, L, x, y, Moves(x, y, w, h))
  {
    var M1 := Set(M0, x, y, L);
    ReachSelf(M1, w, h, L, (x, y));
    forall p | p in LabelSet(M1, w, h, L)
      ensures Reaches(M1, w, h, L, (x, y), p)
    {
      assert p == (x, y);
    }
    forall q | q in Moves(x, y, w, h)
      ensures exists p :: p in LabelSet(M1, w, h, L) && Step(p.0, p.1, q, w, h)
    {
      assert (x, y) in LabelSet(M1, w, h, L) && Step(x, y, q, w, h);
    }
  }

  /** Labelling the pending pixel q keeps the fill rooted: q is a step from a
      pixel the seed reaches, and the steps queued from q leave q. */
  lemma RootedLabel(M: Grid<byte>, w: nat, h: nat, L: byte, x: int, y: int, work: seq<(int, int)>, q: (int, int))
    requires IsGrid(M, w, h) && 0 <= q.0 < w && 0 <= q.1 < h && M[q.0][q.1] == 0 && L != 0
    requires Rooted(M, w, h, L, x, y, work + [q])
    ensures Rooted(Set(M, q.0, q.1, L), w, h, L, x, y, work + Moves(q.0, q.1, w, h))
  {
    assert q in work + [q];
    var r :| r in LabelSet(M, w, h, L) && Step(r.0, r.1, q, w, h);
    LabelReached(M, w, h, L, x, y, q, r);
    LabelQueued(M, w, h, L, x, y, work, q);
  }

  /** After labelling q, a step from a reached pixel r, every pixel labelled L is reached. */
  lemma LabelReached(M: Grid<byte>, w: nat, h: nat, L: byte, x: int, y: int, q: (int, int), r: (int, int))
    requires IsGrid(M, w, h) && 0 <= q.0 < w && 0 <= q.1 < h && M[q.0][q.1] == 0 && L != 0
    requires forall p :: p in LabelSet(M, w, h, L) ==> Reaches(M, w, h, L, (x, y), p)
    requires r in LabelSet(M, w, h, L) && Step(r.0, r.1, q, w, h)
    ensures forall p :: p in LabelSet(Set(M, q.0, q.1, L), w, h, L) ==> Reaches(Set(M, q.0, q.1, L), w, h, L, (x, y), p)
  {
    var M1 := Set(M, q.0, q.1, L);
    assert forall i, j :: 0 <= i < w && 0 <= j < h && M[i][j] != 0 ==> M1[i][j] == M[i][j];
    forall p | p in LabelSet(M1, w, h, L)
      ensures Reaches(M1, w, h, L, (x, y), p)
    {
      if p == q {
        ReachesGrow(M, M1, w, h, L, (x, y), r);
        ReachExtend(M1, w, h, L, (x, y), r, q);
      } else {
        assert p in LabelSet(M, w, h, L);
        ReachesGrow(M, M1, w, h, L, (x, y), p);
      }
    }
  }

  /** After labelling q, every pending step, old or queued from q, leaves a pixel labelled L. */
  lemma LabelQueued(M: Grid<byte>, w: nat, h: nat, L: byte, x: int, y: int, work: seq<(int, int)>, q: (int, int))
    requires IsGrid(M, w, h) && 0 <= q.0 < w && 0 <= q.1 < h && L != 0
    requires forall p :: p in work + [q] ==> exists r :: r in LabelSet(M, w, h, L) && Step(r.0, r.1, p, w, h)
    ensures forall p :: p in work + Moves(q.0, q.1, w, h) ==>
      exists r :: r in LabelSet(Set(M, q.0, q.1, L), w, h, L) && Step(r.0, r.1, p, w, h)
  {
    var M1 := Set(M, q.0, q.1, L);
    forall p | p in work + Moves(q.0, q.1, w, h)
      ensures exists r :: r in LabelSet(M1, w, h, L) && Step(r.0, r.1, p, w, h)
    {
      if p in work {
        assert p in work + [q];
        var r :| r in LabelSet(M, w, h, L) && Step(r.0, r.1, p, w, h);
        assert r in LabelSet(M1, w, h, L);
      } else {
        assert q in LabelSet(M1, w, h, L) && Step(q.0, q.1, p, w, h);
      }
    }
  }

  /** Dropping a pending step keeps the fill rooted. */
  lemma RootedSkip(M: Grid<byte>, w: nat, h: nat, L: int, x: int, y: int, work: seq<(int, int)>, q: (int, int))
    requires IsGrid(M, w, h) && Rooted(M, w, h, L, x, y, work + [q])
    ensures Rooted(M, w, h, L, x, y, work)
  {
    forall p | p in work
      ensures exists r :: r in LabelSet(M, w, h, L) && Step(r.0, r.1, p, w, h)
    {
      assert p in work + [q];
    }
  }

  // ---------------------------------------------------------------------------
  // CheckNeighboringPixels

  /** Label pixel (x, y) with L and extend the box of entry L - 1. */
  method Label(labels: array2<byte>, objs: seq<PictureObject>, L: byte, x: int, y: int, ghost cur: Grid<byte>)
    returns (objs1: seq<PictureObject>, ghost next: Grid<byte>)
    modifies labels
    requires Holds(labels, cur) && 0 <= x < labels.Length0 && 0 <= y < labels.Length1 && 1 <= L <= |objs|
    ensures Holds(labels, next) && next == Set(cur, x, y, L)
    ensures objs1 == objs[L - 1 := Extend(objs[L - 1], x, y)]
  {
    labels[x, y] := L;
    next := Set(cur, x, y, L);
    var o := objs[L - 1];
    if o.xMin > x {
      o := o.(xMin := x);
    }
    if o.yMin > y {
      o := o.(yMin := y);
    }
    if o.xMax < x {
      o := o.(xMax := x);
    }
    if o.yMax < y {
      o := o.(yMax := y);
    }
    objs1 := objs[L - 1 := o];
  }

  /** What holds between the steps of a fill with label L from seed (x, y):
      the seed is labelled, only unlabelled foreground pixels got label L, the
      pending steps stay inside the image, every step out of a labelled pixel
      is pending or done, and only entry L - 1 of the registry changed, keeping
      an exact box if it started with one. */
  ghost predicate FillInv(I: Grid<byte>, M0: Grid<byte>, M: Grid<byte>, w: nat, h: nat, L: int, x: int, y: int,
                          work: seq<(int, int)>, objs0: seq<PictureObject>, objs: seq<PictureObject>, bounded: bool)
    requires IsGrid(I, w, h) && IsGrid(M0, w, h) && IsGrid(M, w, h) && 1 <= L <= |objs0| && 0 <= x < w && 0 <= y < h
  {
    M[x][y] == L && OnlyNew(I, M0, M, w, h, L) &&
    (forall q :: q in work ==> 0 <= q.0 < w && 0 <= q.1 < h) &&
    ClosedBut(I, M, w, h, L, work) &&
    |objs| == |objs0| && (forall k :: 0 <= k < |objs0| && k != L - 1 ==> objs[k] == objs0[k]) &&
    objs[L - 1].objectNumber == objs0[L - 1].objectNumber && objs[L - 1].corners == objs0[L - 1].corners &&
    (bounded ==> Bounds(objs[L - 1], M, w, h, L))
  }

  /** Labelling the pending pixel q keeps the fill invariant, with q's steps queued. */
  lemma LabelKeepsFillInv(I: Grid<byte>, M0: Grid<byte>, M: Grid<byte>, w: nat, h: nat, L: byte, x: int, y: int,
                          work: seq<(int, int)>, q: (int, int), objs0: seq<PictureObject>, objs: seq<PictureObject>, bounded: bool)
    requires IsGrid(I, w, h) && IsGrid(M0, w, h) && IsGrid(M, w, h) && 1 <= L <= |objs0| && 0 <= x < w && 0 <= y < h
    requires FillInv(I, M0, M, w, h, L, x, y, work + [q], objs0, objs, bounded)
    requires 0 <= q.0 < w && 0 <= q.1 < h && I[q.0][q.1] > 0 && M[q.0][q.1] == 0
    ensures FillInv(I, M0, Set(M, q.0, q.1, L), w, h, L, x, y, work + Moves(q.0, q.1, w, h), objs0,
                    objs[L - 1 := Extend(objs[L - 1], q.0, q.1)], bounded)
  {
    var M1 := Set(M, q.0, q.1, L);
    if bounded {
      ExtendBounds(objs[L - 1], M, w, h, L, q.0, q.1);
    }
    LabelKeepsClosed(I, M, w, h, L, work, q.0, q.1);
    forall p | p in work + Moves(q.0, q.1, w, h) ensures 0 <= p.0 < w && 0 <= p.1 < h {
      if p in work {
        assert p in work + [q];
      }
    }
    assert OnlyNew(I, M0, M1, w, h, L) by {
      forall i, j | 0 <= i < w && 0 <= j < h && M1[i][j] != M0[i][j]
        ensures M0[i][j] == 0 && M1[i][j] == L && I[i][j] > 0
      {
        if (i, j) != q {
          assert M1[i][j] == M[i][j];
        }
      }
    }
  }

  /** Labelling the seed establishes the fill invariant, with the seed's steps queued. */
  lemma FillStart(I: Grid<byte>, M0: Grid<byte>, w: nat, h: nat, L: byte, x: int, y: int,
                  objs: seq<PictureObject>, bounded: bool)
    requires IsGrid(I, w, h) && IsGrid(M0, w, h) && 1 <= L <= |objs| && 0 <= x < w && 0 <= y < h
    requires I[x][y] > 0 && M0[x][y] == 0 && forall i, j :: 0 <= i < w && 0 <= j < h ==> M0[i][j] != L
    requires bounded ==> Bounds(objs[L - 1], M0, w, h, L)
    ensures FillInv(I, M0, Set(M0, x, y, L), w, h, L, x, y, Moves(x, y, w, h), objs,
                    objs[L - 1 := Extend(objs[L - 1], x, y)], bounded)
  {
    var M1 := Set(M0, x, y, L);
    if bounded {
      ExtendBounds(objs[L - 1], M0, w, h, L, x, y);
    }
    assert ClosedBut(I, M0, w, h, L, [] + [(x, y)]);
    LabelKeepsClosed(I, M0, w, h, L, [], x, y);
    assert [] + Moves(x, y, w, h) == Moves(x, y, w, h);
  }

  /** Dropping a pending step to a labelled or background pixel keeps the fill invariant. */
  lemma SkipKeepsFillInv(I: Grid<byte>, M0: Grid<byte>, M: Grid<byte>, w: nat, h: nat, L: byte, x: int, y: int,
                         work: seq<(int, int)>, q: (int, int), objs0: seq<PictureObject>, objs: seq<PictureObject>, bounded: bool)
    requires IsGrid(I, w, h) && IsGrid(M0, w, h) && IsGrid(M, w, h) && 1 <= L <= |objs0| && 0 <= x < w && 0 <= y < h
    requires FillInv(I, M0, M, w, h, L, x, y, work + [q], objs0, objs, bounded)
    requires 0 <= q.0 < w && 0 <= q.1 < h && (I[q.0][q.1] == 0 || M[q.0][q.1] != 0)
    ensures FillInv(I, M0, M, w, h, L, x, y, work, objs0, objs, bounded)
  {
    SkipKeepsClosed(I, M, w, h, L, work, q.0, q.1);
    forall p | p in work ensures 0 <= p.0 < w && 0 <= p.1 < h {
      assert p in work + [q];
    }
  }

  /** One pending step of the fill: take the last entry of `work`; label it and
      queue its steps if it is unlabelled foreground. */
  method Visit(image: array2<byte>, labels: array2<byte>, objs: seq<PictureObject>, L: byte, x: int, y: int,
               work: seq<(int, int)>, ghost I: Grid<byte>, ghost M0: Grid<byte>, ghost M: Grid<byte>,
               ghost objs0: seq<PictureObject>, ghost bounded: bool)
    returns (objs1: seq<PictureObject>, work1: seq<(int, int)>, ghost M1: Grid<byte>)
    modifies labels
    requires labels != image && labels.Length0 == image.Length0 && labels.Length1 == image.Length1
    requires Holds(image, I) && Holds(labels, M) && IsGrid(M0, image.Length0, image.Length1)
    requires 1 <= L <= |objs0| && 0 <= x < image.Length0 && 0 <= y < image.Length1 && work != []
    requires FillInv(I, M0, M, image.Length0, image.Length1, L, x, y, work, objs0, objs, bounded)
    requires Rooted(M, image.Length0, image.Length1, L, x, y, work)
    ensures Holds(labels, M1)
    ensures FillInv(I, M0, M1, image.Length0, image.Length1, L, x, y, work1, objs0, objs1, bounded)
    ensures Rooted(M1, image.Length0, image.Length1, L, x, y, work1)
    ensures |Unlabelled(I, M1, image.Length0, image.Length1)| < |Unlabelled(I, M, image.Length0, image.Length1)| ||
      (M1 == M && |work1| < |work|)
  {
    var w, h := image.Length0, image.Length1;
    var q := work[|work| - 1];
    work1 := work[..|work| - 1];
    assert work1 + [q] == work;
    assert q in work;
    if image[q.0, q.1] > 0 && labels[q.0, q.1] == 0 {
      LabelShrinks(I, M, w, h, q.0, q.1, L);
      LabelKeepsFillInv(I, M0, M, w, h, L, x, y, work1, q, objs0, objs, bounded);
      RootedLabel(M, w, h, L, x, y, work1, q);
      objs1, M1 := Label(labels, objs, L, q.0, q.1, M);
      work1 := work1 + Moves(q.0, q.1, w, h);
    } else {
      SkipKeepsFillInv(I, M0, M, w, h, L, x, y, work1, q, objs0, objs, bounded);
      RootedSkip(M, w, h, L, x, y, work1, q);
      objs1, M1 := objs, M;
    }
  }

  /** CheckNeighboringPixels from the seed (x, y): label it and everything the
      steps reach through unlabelled foreground pixels with L, growing the box
      of entry L - 1. Both directions hold: every step out of a pixel labelled
      L ends labelled or in the background, and every pixel labelled L is
      reached from the seed through pixels labelled L. */
  method Fill(image: array2<byte>, labels: array2<byte>, objs: seq<PictureObject>, L: byte, x: int, y: int,
              ghost I: Grid<byte>, ghost M0: Grid<byte>)
    returns (objs1: seq<PictureObject>, ghost M1: Grid<byte>)
    modifies labels
    requires labels != image && labels.Length0 == image.Length0 && labels.Length1 == image.Length1
    requires Holds(image, I) && Holds(labels, M0) && 1 <= L <= |objs|
    requires 0 <= x < image.Length0 && 0 <= y < image.Length1 && I[x][y] > 0 && M0[x][y] == 0
    requires forall i, j :: 0 <= i < image.Length0 && 0 <= j < image.Length1 ==> M0[i][j] != L
    ensures Holds(labels, M1) && M1[x][y] == L
    ensures OnlyNew(I, M0, M1, image.Length0, image.Length1, L)
    ensures ClosedBut(I, M1, image.Length0, image.Length1, L, [])
    ensures forall p :: p in LabelSet(M1, image.Length0, image.Length1, L) ==>
      Reaches(M1, image.Length0, image.Length1, L, (x, y), p)
    ensures |objs1| == |objs| && forall k :: 0 <= k < |objs| && k != L - 1 ==> objs1[k] == objs[k]
    ensures objs1[L - 1].objectNumber == objs[L - 1].objectNumber && objs1[L - 1].corners == objs[L - 1].corners
    ensures Bounds(objs[L - 1], M0, image.Length0, image.Length1, L) ==>
      Bounds(objs1[L - 1], M1, image.Length0, image.Length1, L)
  {
    var w, h := image.Length0, image.Length1;
    ghost var bounded := Bounds(objs[L - 1], M0, w, h, L);
    FillStart(I, M0, w, h, L, x, y, objs, bounded);
    RootedStart(M0, w, h, L, x, y);
    objs1, M1 := Label(labels, objs, L, x, y, M0);
    var work := Moves(x, y, w, h);
    while work != []
      invariant Holds(labels, M1) && IsGrid(M1, w, h) && IsGrid(M0, w, h)
      invariant FillInv(I, M0, M1, w, h, L, x, y, work, objs, objs1, bounded)
      invariant Rooted(M1, w, h, L, x, y, work)
      decreases |Unlabelled(I, M1, w, h)|, |work|
    {
      objs1, work, M1 := Visit(image, labels, objs1, L, x, y, work, I, M0, M1, objs, bounded);
    }
  }

  // ---------------------------------------------------------------------------
  // The scan of MarkObjects

  /** Pixel p comes before q in the x-major scan. */
  predicate Before(p: (int, int), q: (int, int))
  {
    p.0 < q.0 || (p.0 == q.0 && p.1 < q.1)
  }

  /** Every label is 0 or one handed out in this scan: above c0, at most count. */
  ghost predicate LabelRange(M: Grid<byte>, w: nat, h: nat, c0: int, count: int)
    requires IsGrid(M, w, h)
  {
    forall i, j :: 0 <= i < w && 0 <= j < h && M[i][j] != 0 ==> c0 < M[i][j] <= count
  }

  /** Background pixels carry no label. */
  ghost predicate Background(I: Grid<byte>, M: Grid<byte>, w: nat, h: nat)
    requires IsGrid(I, w, h) && IsGrid(M, w, h)
  {
    forall i, j :: 0 <= i < w && 0 <= j < h && I[i][j] == 0 ==> M[i][j] == 0
  }

  /** Every foreground pixel the scan has passed carries a label. */
  ghost predicate ScannedLabelled(I: Grid<byte>, M: Grid<byte>, w: nat, h: nat, x: int, y: int)
    requires IsGrid(I, w, h) && IsGrid(M, w, h)
  {
    forall i, j :: 0 <= i < w && 0 <= j < h && Before((i, j), (x, y)) && I[i][j] > 0 ==> M[i][j] != 0
  }

  /** seeds[k] is the pixel where label c0 + 1 + k was handed out: it carries
      that label, the scan has passed it, and every pixel before it in scan
      order carries an earlier label or none, so it is the first pixel of its
      label and the labels appear in scan order. */
  ghost predicate SeedsOk(M: Grid<byte>, w: nat, h: nat, c0: int, seeds: seq<(int, int)>, x: int, y: int)
    requires IsGrid(M, w, h)
  {
    (forall k :: 0 <= k < |seeds| ==>
      0 <= seeds[k].0 < w && 0 <= seeds[k].1 < h && Before(seeds[k], (x, y)) &&
      M[seeds[k].0][seeds[k].1] == c0 + 1 + k) &&
    (forall k, i, j :: 0 <= k < |seeds| && 0 <= i < w && 0 <= j < h && Before((i, j), seeds[k]) ==> M[i][j] <= c0 + k)
  }

  /** Label c0 + 1 + k is rooted at seeds[k]: every pixel with that label is
      reached from the seed through pixels of the label. */
  ghost predicate SeedsReach(M: Grid<byte>, w: nat, h: nat, c0: int, seeds: seq<(int, int)>)
    requires IsGrid(M, w, h)
  {
    forall L, p :: c0 < L <= c0 + |seeds| && p in LabelSet(M, w, h, L) ==> Reaches(M, w, h, L, seeds[L - c0 - 1], p)
  }

  /** A fill with the next label, rooted at the scanned pixel (x, y), keeps
      every label rooted at its seed: the earlier labels' pixels and paths are
      untouched, and the new label is rooted at (x, y). */
  lemma FillKeepsReach(I: Grid<byte>, M: Grid<byte>, M1: Grid<byte>, w: nat, h: nat, c0: int, count: int, L: int,
                       seeds: seq<(int, int)>, x: int, y: int)
    requires IsGrid(I, w, h) && IsGrid(M, w, h) && IsGrid(M1, w, h) && 0 <= c0 <= count && |seeds| == count - c0
    requires L == count + 1 && SeedsReach(M, w, h, c0, seeds) && OnlyNew(I, M, M1, w, h, L)
    requires forall p :: p in LabelSet(M1, w, h, L) ==> Reaches(M1, w, h, L, (x, y), p)
    ensures SeedsReach(M1, w, h, c0, seeds + [(x, y)])
  {
    var s := seeds + [(x, y)];
    assert forall i, j :: 0 <= i < w && 0 <= j < h && M[i][j] != 0 ==> M1[i][j] == M[i][j];
    forall K, p | c0 < K <= c0 + |s| && p in LabelSet(M1, w, h, K)
      ensures Reaches(M1, w, h, K, s[K - c0 - 1], p)
    {
      if K == L {
        assert s[K - c0 - 1] == (x, y);
      } else {
        assert s[K - c0 - 1] == seeds[K - c0 - 1];
        assert p in LabelSet(M, w, h, K);
        ReachesGrow(M, M1, w, h, K, seeds[K - c0 - 1], p);
      }
    }
  }

  /** When the registry started consistent (as many entries as the count), it
      stays so, the old entries are untouched, and each new entry k carries
      number k + 1, no corners yet, and the exact box of label k + 1. */
  ghost predicate RegistryOk(M: Grid<byte>, w: nat, h: nat, count: int, objs: seq<PictureObject>,
                             objs0: seq<PictureObject>, consistent: bool)
    requires IsGrid(M, w, h)
  {
    consistent ==>
      count == |objs| && |objs0| <= |objs| && objs[..|objs0|] == objs0 &&
      forall k :: |objs0| <= k < |objs| ==>
        objs[k].objectNumber == k + 1 && objs[k].corners == None && Bounds(objs[k], M, w, h, k + 1)
  }

  /** The invariant of the scan at position (x, y): the facts below, and every
      label rooted at its seed. */
  ghost predicate ScanInv(I: Grid<byte>, M: Grid<byte>, w: nat, h: nat, c0: int, count: int, objs: seq<PictureObject>,
                          objs0: seq<PictureObject>, seeds: seq<(int, int)>, consistent: bool, x: int, y: int)
    requires IsGrid(I, w, h) && IsGrid(M, w, h)
  {
    ScanFacts(I, M, w, h, c0, count, objs, objs0, seeds, consistent, x, y) && SeedsReach(M, w, h, c0, seeds)
  }

  /** The counts, labels, seeds, links and registry facts of the scan at (x, y). */
  ghost predicate ScanFacts(I: Grid<byte>, M: Grid<byte>, w: nat, h: nat, c0: int, count: int, objs: seq<PictureObject>,
                            objs0: seq<PictureObject>, seeds: seq<(int, int)>, consistent: bool, x: int, y: int)
    requires IsGrid(I, w, h) && IsGrid(M, w, h)
  {
    0 <= c0 <= count && |objs| - |objs0| == count - c0 && |seeds| == count - c0 &&
    LabelRange(M, w, h, c0, count) && Background(I, M, w, h) && ScannedLabelled(I, M, w, h, x, y) &&
    SeedsOk(M, w, h, c0, seeds, x, y) && Linked(I, M, w, h) && RegistryOk(M, w, h, count, objs, objs0, consistent)
  }

  /** Passing a background or already labelled pixel keeps the scan invariant. */
  lemma SkipKeepsScanInv(I: Grid<byte>, M: Grid<byte>, w: nat, h: nat, c0: int, count: int, objs: seq<PictureObject>,
                         objs0: seq<PictureObject>, seeds: seq<(int, int)>, consistent: bool, x: int, y: int)
    requires IsGrid(I, w, h) && IsGrid(M, w, h) && 0 <= x < w && 0 <= y < h
    requires ScanInv(I, M, w, h, c0, count, objs, objs0, seeds, consistent, x, y)
    requires I[x][y] == 0 || M[x][y] != 0
    ensures ScanInv(I, M, w, h, c0, count, objs, objs0, seeds, consistent, x, y + 1)
  {
  }

  /** A finished column hands over to the next one. */
  lemma NextColumn(I: Grid<byte>, M: Grid<byte>, w: nat, h: nat, c0: int, count: int, objs: seq<PictureObject>,
                   objs0: seq<PictureObject>, seeds: seq<(int, int)>, consistent: bool, x: int)
    requires IsGrid(I, w, h) && IsGrid(M, w, h)
    requires ScanInv(I, M, w, h, c0, count, objs, objs0, seeds, consistent, x, h)
    ensures ScanInv(I, M, w, h, c0, count, objs, objs0, seeds, consistent, x + 1, 0)
  {
    forall k | 0 <= k < |seeds| ensures Before(seeds[k], (x + 1, 0)) {
      assert Before(seeds[k], (x, h));
    }
  }

  /** A fill with the next label from the scanned pixel (x, y) keeps the seeds'
      facts: the pixels it labels were unlabelled, so none of them lies before
      (x, y), and every earlier seed and everything before it is unchanged. */
  lemma FillKeepsSeeds(I: Grid<byte>, M: Grid<byte>, M1: Grid<byte>, w: nat, h: nat, c0: int, count: int,
                       seeds: seq<(int, int)>, x: int, y: int)
    requires IsGrid(I, w, h) && IsGrid(M, w, h) && IsGrid(M1, w, h) && 0 <= x < w && 0 <= y < h
    requires |seeds| == count - c0 && 0 <= c0 <= count
    requires LabelRange(M, w, h, c0, count) && ScannedLabelled(I, M, w, h, x, y) && SeedsOk(M, w, h, c0, seeds, x, y)
    requires OnlyNew(I, M, M1, w, h, count + 1) && M1[x][y] == count + 1
    ensures SeedsOk(M1, w, h, c0, seeds + [(x, y)], x, y + 1)
  {
    var s := seeds + [(x, y)];
    forall i, j | 0 <= i < w && 0 <= j < h && Before((i, j), (x, y))
      ensures M1[i][j] == M[i][j]
    {
    }
    forall k | 0 <= k < |s|
      ensures 0 <= s[k].0 < w && 0 <= s[k].1 < h && Before(s[k], (x, y + 1)) && M1[s[k].0][s[k].1] == c0 + 1 + k
    {
      if k < |seeds| {
        assert s[k] == seeds[k];
      }
    }
    forall k, i, j | 0 <= k < |s| && 0 <= i < w && 0 <= j < h && Before((i, j), s[k])
      ensures M1[i][j] <= c0 + k
    {
      if k < |seeds| {
        assert s[k] == seeds[k] && Before(seeds[k], (x, y));
      }
    }
  }

  /** A fill with the next label keeps the registry facts: the new entry gets
      the exact box of its label, the other entries' labels are untouched. */
  lemma FillKeepsRegistry(I: Grid<byte>, M: Grid<byte>, M1: Grid<byte>, w: nat, h: nat, count: int,
                          objs: seq<PictureObject>, objs1: seq<PictureObject>, objs0: seq<PictureObject>)
    requires IsGrid(I, w, h) && IsGrid(M, w, h) && IsGrid(M1, w, h) && 0 <= count
    requires RegistryOk(M, w, h, count, objs, objs0, true) && OnlyNew(I, M, M1, w, h, count + 1)
    requires |objs1| == |objs| + 1 && Bounds(objs1[count], M1, w, h, count + 1)
    requires objs1[count].objectNumber == count + 1 && objs1[count].corners == None
    requires forall k :: 0 <= k < |objs| ==> objs1[k] == objs[k]
    ensures RegistryOk(M1, w, h, count + 1, objs1, objs0, true)
  {
    assert objs1[..|objs0|] == objs[..|objs0|];
    forall k | |objs0| <= k < |objs|
      ensures Bounds(objs1[k], M1, w, h, k + 1)
    {
      BoundsStable(objs[k], I, M, M1, w, h, count + 1, k + 1);
    }
  }

  /** No pixel carries the label after the last one handed out. */
  lemma NewLabelUnused(M: Grid<byte>, w: nat, h: nat, c0: int, count: int)
    requires IsGrid(M, w, h) && LabelRange(M, w, h, c0, count) && 0 <= count
    ensures forall i, j :: 0 <= i < w && 0 <= j < h ==> M[i][j] != count + 1
  {
  }

  /** A fill from the scanned pixel (x, y) with the next label L = count + 1
      keeps the scan invariant, one pixel further on. `added` is the registry
      with the new entry appended, `objs1` the registry after the fill. */
  lemma FillKeepsScanInv(I: Grid<byte>, M: Grid<byte>, M1: Grid<byte>, w: nat, h: nat, c0: int, count: int, L: byte,
                         objs: seq<PictureObject>, added: seq<PictureObject>, objs1: seq<PictureObject>,
                         objs0: seq<PictureObject>, seeds: seq<(int, int)>, consistent: bool, x: int, y: int)
    requires IsGrid(I, w, h) && IsGrid(M, w, h) && IsGrid(M1, w, h) && 0 <= x < w && 0 <= y < h
    requires ScanInv(I, M, w, h, c0, count, objs, objs0, seeds, consistent, x, y)
    requires L as int == count + 1 && added == objs + [NewObject(L)] && L as int <= |added|
    requires M1[x][y] == L && OnlyNew(I, M, M1, w, h, L) && ClosedBut(I, M1, w, h, L, [])
    requires |objs1| == |added| && forall k :: 0 <= k < |added| && k != L - 1 ==> objs1[k] == added[k]
    requires objs1[L - 1].objectNumber == added[L - 1].objectNumber && objs1[L - 1].corners == added[L - 1].corners
    requires Bounds(added[L - 1], M, w, h, L) ==> Bounds(objs1[L - 1], M1, w, h, L)
    requires forall p :: p in LabelSet(M1, w, h, L) ==> Reaches(M1, w, h, L, (x, y), p)
    ensures ScanInv(I, M1, w, h, c0, count + 1, objs1, objs0, seeds + [(x, y)], consistent, x, y + 1)
  {
    FillKeepsReach(I, M, M1, w, h, c0, count, L as int, seeds, x, y);
    FillKeepsScanFacts(I, M, M1, w, h, c0, count, L, objs, added, objs1, objs0, seeds, consistent, x, y);
  }

  /** The facts part of `FillKeepsScanInv`. */
  lemma FillKeepsScanFacts(I: Grid<byte>, M: Grid<byte>, M1: Grid<byte>, w: nat, h: nat, c0: int, count: int, L: byte,
                           objs: seq<PictureObject>, added: seq<PictureObject>, objs1: seq<PictureObject>,
                           objs0: seq<PictureObject>, seeds: seq<(int, int)>, consistent: bool, x: int, y: int)
    requires IsGrid(I, w, h) && IsGrid(M, w, h) && IsGrid(M1, w, h) && 0 <= x < w && 0 <= y < h
    requires ScanFacts(I, M, w, h, c0, count, objs, objs0, seeds, consistent, x, y)
    requires L as int == count + 1 && added == objs + [NewObject(L)] && L as int <= |added|
    requires M1[x][y] == L && OnlyNew(I, M, M1, w, h, L) && ClosedBut(I, M1, w, h, L, [])
    requires |objs1| == |added| && forall k :: 0 <= k < |added| && k != L - 1 ==> objs1[k] == added[k]
    requires objs1[L - 1].objectNumber == added[L - 1].objectNumber && objs1[L - 1].corners == added[L - 1].corners
    requires Bounds(added[L - 1], M, w, h, L) ==> Bounds(objs1[L - 1], M1, w, h, L)
    ensures ScanFacts(I, M1, w, h, c0, count + 1, objs1, objs0, seeds + [(x, y)], consistent, x, y + 1)
  {
    FillKeepsLinked(I, M, M1, w, h, L);
    FillKeepsSeeds(I, M, M1, w, h, c0, count, seeds, x, y);
    assert LabelRange(M1, w, h, c0, count + 1);
    assert Background(I, M1, w, h);
    assert ScannedLabelled(I, M1, w, h, x, y + 1);
    if consistent {
      NewLabelUnused(M, w, h, c0, count);
      NewObjectBounds(M, w, h, L, L);
      FillKeepsRegistry(I, M, M1, w, h, count, objs, objs1, objs0);
    }
  }

  /** One pixel of the scan that is foreground and unlabelled: count the new
      object, register it with sentinel box, and fill from the pixel. `ok` is
      false where the source throws: when the count wraps to 0 or names no
      entry of the registry. */
  method SeedAt(image: array2<byte>, labels: array2<byte>, count: byte, objs: seq<PictureObject>, x: int, y: int,
                ghost I: Grid<byte>, ghost M: Grid<byte>, ghost c0: int, ghost objs0: seq<PictureObject>,
                ghost seeds: seq<(int, int)>, ghost consistent: bool)
    returns (count1: byte, objs1: seq<PictureObject>, ok: bool, ghost M1: Grid<byte>, ghost seeds1: seq<(int, int)>)
    modifies labels
    requires labels != image && labels.Length0 == image.Length0 && labels.Length1 == image.Length1
    requires Holds(image, I) && Holds(labels, M)
    requires 0 <= x < image.Length0 && 0 <= y < image.Length1 && I[x][y] > 0 && M[x][y] == 0
    requires ScanInv(I, M, image.Length0, image.Length1, c0, count as int, objs, objs0, seeds, consistent, x, y)
    ensures Holds(labels, M1)
    ensures ok ==> ScanInv(I, M1, image.Length0, image.Length1, c0, count1 as int, objs1, objs0, seeds1, consistent, x, y + 1)
    ensures !ok && consistent ==> count1 == 0 && |objs1| == 256
  {
    count1 := (count as int + 1) % 256;
    var added := objs + [NewObject(count1)];
    if count1 == 0 || count1 as int > |added| {
      labels[x, y] := count1;
      ok, objs1, M1, seeds1 := false, added, Set(M, x, y, count1), seeds;
      return;
    }
    ok := true;
    NewLabelUnused(M, image.Length0, image.Length1, c0, count as int);
    objs1, M1 := Fill(image, labels, added, count1, x, y, I, M);
    seeds1 := seeds + [(x, y)];
    FillKeepsScanInv(I, M, M1, image.Length0, image.Length1, c0, count as int, count1,
                     objs, added, objs1, objs0, seeds, consistent, x, y);
  }

  /** Before the scan: an all-zero label map satisfies the scan invariant. */
  lemma ScanStart(I: Grid<byte>, M: Grid<byte>, w: nat, h: nat, c0: int, objs0: seq<PictureObject>)
    requires IsGrid(I, w, h) && IsGrid(M, w, h) && 0 <= c0
    requires forall i, j :: 0 <= i < w && 0 <= j < h ==> M[i][j] == 0
    ensures ScanInv(I, M, w, h, c0, c0, objs0, objs0, [], |objs0| == c0, 0, 0)
  {
    assert objs0[..|objs0|] == objs0;
  }

  /** Column x of the scan: every pixel (x, y) from the top down that is
      foreground and unlabelled seeds a new object. */
  method ScanColumn(image: array2<byte>, labels: array2<byte>, x: int, count: byte, objs: seq<PictureObject>,
                    ghost I: Grid<byte>, ghost M: Grid<byte>, ghost c0: int, ghost objs0: seq<PictureObject>,
                    ghost seeds: seq<(int, int)>, ghost consistent: bool)
    returns (count1: byte, objs1: seq<PictureObject>, ok: bool, ghost M1: Grid<byte>, ghost seeds1: seq<(int, int)>)
    modifies labels
    requires labels != image && labels.Length0 == image.Length0 && labels.Length1 == image.Length1
    requires Holds(image, I) && Holds(labels, M) && 0 <= x < image.Length0
    requires ScanInv(I, M, image.Length0, image.Length1, c0, count as int, objs, objs0, seeds, consistent, x, 0)
    ensures Holds(labels, M1)
    ensures ok ==> ScanInv(I, M1, image.Length0, image.Length1, c0, count1 as int, objs1, objs0, seeds1, consistent, x + 1, 0)
    ensures !ok && consistent ==> count1 == 0 && |objs1| == 256
  {
    var w, h := image.Length0, image.Length1;
    count1, objs1, ok, M1, seeds1 := count, objs, true, M, seeds;
    for y := 0 to h
      invariant Holds(labels, M1) && IsGrid(M1, w, h)
      invariant ScanInv(I, M1, w, h, c0, count1 as int, objs1, objs0, seeds1, consistent, x, y)
    {
      if image[x, y] > 0 && labels[x, y] == 0 {
        count1, objs1, ok, M1, seeds1 := SeedAt(image, labels, count1, objs1, x, y, I, M1, c0, objs0, seeds1, consistent);
        if !ok {
          return;
        }
      } else {
        SkipKeepsScanInv(I, M1, w, h, c0, count1 as int, objs1, objs0, seeds1, consistent, x, y);
      }
    }
    NextColumn(I, M1, w, h, c0, count1 as int, objs1, objs0, seeds1, consistent, x);
  }

  /** The scan of MarkObjects over the whole image, x-major, from a registry
      holding `count0` and `objs0`. */
  method Scan(image: array2<byte>, count0: byte, objs0: seq<PictureObject>)
    returns (labels: array2<byte>, count: byte, objs: seq<PictureObject>, ok: bool, ghost seeds: seq<(int, int)>)
    ensures fresh(labels) && labels.Length0 == image.Length0 && labels.Length1 == image.Length1
    ensures ok ==> Labelled(Cells(image), Cells(labels), image.Length0, image.Length1, count0 as int, count as int, seeds)
    ensures ok ==> |objs| - |objs0| == count as int - count0 as int
    ensures ok ==> RegistryOk(Cells(labels), image.Length0, image.Length1, count as int, objs, objs0, |objs0| == count0 as int)
    ensures !ok && |objs0| == count0 as int ==> count == 0 && |objs| == 256
  {
    var w, h := image.Length0, image.Length1;
    labels := new byte[w, h]((_, _) => 0);
    ghost var I := Cells(image);
    ghost var M := Cells(labels);
    ghost var consistent := |objs0| == count0 as int;
    count, objs, ok, seeds := count0, objs0, true, [];
    ScanStart(I, M, w, h, count0 as int, objs0);
    for x := 0 to w
      invariant Holds(image, I) && Holds(labels, M) && IsGrid(I, w, h) && IsGrid(M, w, h)
      invariant ScanInv(I, M, w, h, count0 as int, count as int, objs, objs0, seeds, consistent, x, 0)
    {
      count, objs, ok, M, seeds := ScanColumn(image, labels, x, count, objs, I, M, count0 as int, objs0, seeds, consistent);
      if !ok {
        return;
      }
    }
    CellsOf(labels, M);
    ScanDone(I, M, w, h, count0 as int, count as int, objs, objs0, seeds, consistent);
  }

  // ---------------------------------------------------------------------------
  // The outcome of the scan

  /** What a completed scan from count c0 to count c leaves in the label map:
      exactly the foreground pixels carry a label, the labels are c0 + 1 .. c,
      label c0 + 1 + k first appears (in scan order) at seeds[k], every pixel
      with that label is reached from seeds[k] through pixels of the label, and
      pixels joined by a step carry the same label. */
  ghost predicate Labelled(I: Grid<byte>, M: Grid<byte>, w: nat, h: nat, c0: int, c: int, seeds: seq<(int, int)>)
    requires IsGrid(I, w, h) && IsGrid(M, w, h)
  {
    (forall i, j :: 0 <= i < w && 0 <= j < h ==> (I[i][j] > 0 <==> M[i][j] != 0)) &&
    LabelRange(M, w, h, c0, c) && |seeds| == c - c0 && SeedsOk(M, w, h, c0, seeds, w, 0) &&
    SeedsReach(M, w, h, c0, seeds) && Linked(I, M, w, h)
  }

  /** The scan invariant past the last pixel is the labelling. */
  lemma ScanDone(I: Grid<byte>, M: Grid<byte>, w: nat, h: nat, c0: int, c: int, objs: seq<PictureObject>,
                 objs0: seq<PictureObject>, seeds: seq<(int, int)>, consistent: bool)
    requires IsGrid(I, w, h) && IsGrid(M, w, h)
    requires ScanInv(I, M, w, h, c0, c, objs, objs0, seeds, consistent, w, 0)
    ensures Labelled(I, M, w, h, c0, c, seeds)
  {
    forall i, j | 0 <= i < w && 0 <= j < h
      ensures I[i][j] > 0 <==> M[i][j] != 0
    {
      assert Before((i, j), (w, 0));
    }
  }

  /** Pixels that share a label are connected: both are reached by fill steps
      from that label's seed through foreground pixels carrying the label. */
  lemma {:induction false} SameLabelConnected(I: Grid<byte>, M: Grid<byte>, w: nat, h: nat, c0: int, c: int,
                                              seeds: seq<(int, int)>, p: (int, int), q: (int, int))
    requires IsGrid(I, w, h) && IsGrid(M, w, h) && Labelled(I, M, w, h, c0, c, seeds)
    requires 0 <= p.0 < w && 0 <= p.1 < h && 0 <= q.0 < w && 0 <= q.1 < h
    requires M[p.0][p.1] != 0 && M[q.0][q.1] == M[p.0][p.1]
    ensures exists s :: Reaches(M, w, h, M[p.0][p.1], s, p) && Reaches(M, w, h, M[p.0][p.1], s, q)
  {
    CommonSeed(M, w, h, c0, c, seeds, p, q);
  }

  /** Two pixels of one label are reached from that label's seed. */
  lemma CommonSeed(M: Grid<byte>, w: nat, h: nat, c0: int, c: int, seeds: seq<(int, int)>, p: (int, int), q: (int, int))
    requires IsGrid(M, w, h) && LabelRange(M, w, h, c0, c) && |seeds| == c - c0 && SeedsReach(M, w, h, c0, seeds)
    requires 0 <= p.0 < w && 0 <= p.1 < h && 0 <= q.0 < w && 0 <= q.1 < h
    requires M[p.0][p.1] != 0 && M[q.0][q.1] == M[p.0][p.1]
    ensures exists s :: Reaches(M, w, h, M[p.0][p.1], s, p) && Reaches(M, w, h, M[p.0][p.1], s, q)
  {
    var L := M[p.0][p.1] as int;
    assert p in LabelSet(M, w, h, L) && q in LabelSet(M, w, h, L);
    var s := seeds[L - c0 - 1];
    assert Reaches(M, w, h, L, s, p) && Reaches(M, w, h, L, s, q);
  }

  /** The paths of a labelling run through foreground pixels only. */
  lemma LabelPathForeground(I: Grid<byte>, M: Grid<byte>, w: nat, h: nat, c0: int, c: int,
                            seeds: seq<(int, int)>, L: int, path: seq<(int, int)>)
    requires IsGrid(I, w, h) && IsGrid(M, w, h) && Labelled(I, M, w, h, c0, c, seeds)
    requires L != 0 && LabelPath(M, w, h, L, path)
    ensures forall k :: 0 <= k < |path| ==> I[path[k].0][path[k].1] > 0
  {
    forall k | 0 <= k < |path|
      ensures I[path[k].0][path[k].1] > 0
    {
      assert M[path[k].0][path[k].1] == L;
    }
  }

  /** The labels appear in scan order: the first pixel of an earlier label
      comes before the first pixel of a later one. */
  lemma SeedsInScanOrder(I: Grid<byte>, M: Grid<byte>, w: nat, h: nat, c0: int, c: int, seeds: seq<(int, int)>)
    requires IsGrid(I, w, h) && IsGrid(M, w, h) && Labelled(I, M, w, h, c0, c, seeds)
    ensures forall k1, k2 :: 0 <= k1 < k2 < |seeds| ==> Before(seeds[k1], seeds[k2])
  {
    forall k1, k2 | 0 <= k1 < k2 < |seeds|
      ensures Before(seeds[k1], seeds[k2])
    {
      var p, q := seeds[k1], seeds[k2];
      assert M[p.0][p.1] == c0 + 1 + k1 && M[q.0][q.1] == c0 + 1 + k2;
      assert !Before(q, p);
    }
  }

  /** Once a label is used, its box is exact: the sentinels are gone (on images
      at most 512 pixels wide and high) and every side of the box is reached
      by a pixel of the label. */
  lemma UsedLabelBox(o: PictureObject, M: Grid<byte>, w: nat, h: nat, L: int, x: int, y: int)
    requires IsGrid(M, w, h) && w <= 512 && h <= 512 && Bounds(o, M, w, h, L)
    requires 0 <= x < w && 0 <= y < h && M[x][y] == L
    ensures o.xMin <= x <= o.xMax && o.yMin <= y <= o.yMax
    ensures exists i, j :: 0 <= i < w && 0 <= j < h && M[i][j] == L && i == o.xMin
    ensures exists i, j :: 0 <= i < w && 0 <= j < h && M[i][j] == L && i == o.xMax
    ensures exists i, j :: 0 <= i < w && 0 <= j < h && M[i][j] == L && j == o.yMin
    ensures exists i, j :: 0 <= i < w && 0 <= j < h && M[i][j] == L && j == o.yMax
  {
    assert M[x][y] == L;
  }

  // ---------------------------------------------------------------------------
  // Corners and the filter

  /** The corner points CalculateCorners derives from an entry's box. */
  function CornersOf(o: PictureObject): Corners
  {
    Corners((o.xMin, o.yMin), (o.xMax, o.yMin), (o.xMin, o.yMax), (o.xMax, o.yMax))
  }

  /** An entry with its corners calculated. */
  function WithCorners(o: PictureObject): (r: PictureObject)
    ensures r.objectNumber == o.objectNumber && r.corners == Some(CornersOf(o))
    ensures r.xMin == o.xMin && r.xMax == o.xMax && r.yMin == o.yMin && r.yMax == o.yMax
  {
    o.(corners := Some(CornersOf(o)))
  }

  function Abs(n: int): int
  {
    if n < 0 then -n else n
  }

  /** The height filterObjects reads off the corners: top-left against bottom-left in y. */
  function Height(c: Corners): int
  {
    Abs(c.topLeft.1 - c.bottomLeft.1)
  }

  /** The width filterObjects reads off the corners: top-left against bottom-left in x. */
  function Width(c: Corners): int
  {
    Abs(c.topLeft.0 - c.bottomLeft.0)
  }

  /** The pixel test of filterObjects: taller than 50, and the integer quotient
      width / height below 0.5. */
  predicate PoleShaped(c: Corners)
  {
    Height(c) > 50 && (Quot(Width(c), Height(c)) as real) < 0.5
  }

  /** The test filterObjects keeps a registry entry by: taller than 50. */
  predicate Tall(o: PictureObject)
  {
    o.corners.Some? && Height(o.corners.value) > 50
  }

  /** With the corners CalculateCorners stores, the width filterObjects
      computes is always 0 and the height is the height of the box, so the
      pixel test and the registry test agree: both keep exactly the objects
      whose box is more than 50 high. */
  lemma PoleShapedIsTall(o: PictureObject)
    requires o.corners == Some(CornersOf(o))
    ensures Width(o.corners.value) == 0
    ensures PoleShaped(o.corners.value) <==> Tall(o)
    ensures Tall(o) <==> Abs(o.yMax - o.yMin) > 50
  {
  }

  /** Every label in M names a registry entry with corners. */
  ghost predicate LabelsKnown(M: Grid<byte>, w: nat, h: nat, objs: seq<PictureObject>)
    requires IsGrid(M, w, h)
  {
    forall i, j :: 0 <= i < w && 0 <= j < h ==> M[i][j] <= |objs| && (M[i][j] > 0 ==> objs[M[i][j] - 1].corners.Some?)
  }

  /** The value filterObjects writes for a pixel with label v. */
  function FilterPixel(objs: seq<PictureObject>, v: byte): (b: byte)
    requires v <= |objs| && (v > 0 ==> objs[v - 1].corners.Some?)
    ensures b == 0 || b == 255
    ensures b == 255 <==> v > 0 && PoleShaped(objs[v - 1].corners.value)
  {
    if v > 0 && PoleShaped(objs[v - 1].corners.value) then 255 else 0
  }

  /** The image filterObjects produces from a label map. */
  function Filtered(M: Grid<byte>, w: nat, h: nat, objs: seq<PictureObject>): (r: Grid<byte>)
    requires IsGrid(M, w, h) && LabelsKnown(M, w, h, objs)
    ensures IsGrid(r, w, h)
    ensures forall x, y :: 0 <= x < w && 0 <= y < h ==> r[x][y] == FilterPixel(objs, M[x][y])
  {
    seq(w, x requires 0 <= x < w => seq(h, y requires 0 <= y < h => FilterPixel(objs, M[x][y])))
  }

  /** After CalculateCorners, the filtered image keeps a pixel exactly when
      its object is kept in the registry: when it is labelled and its object
      is taller than 50. Nothing outside the labelled pixels is set. */
  lemma FilteredKeepsTallObjects(M: Grid<byte>, w: nat, h: nat, objs: seq<PictureObject>, x: int, y: int)
    requires IsGrid(M, w, h) && LabelsKnown(M, w, h, objs) && 0 <= x < w && 0 <= y < h
    requires forall k :: 0 <= k < |objs| ==> objs[k].corners == Some(CornersOf(objs[k]))
    ensures Filtered(M, w, h, objs)[x][y] == 255 <==> M[x][y] > 0 && Tall(objs[M[x][y] - 1])
    ensures Filtered(M, w, h, objs)[x][y] == 0 <==> M[x][y] == 0 || !Tall(objs[M[x][y] - 1])
  {
    if M[x][y] > 0 {
      PoleShapedIsTall(objs[M[x][y] - 1]);
    }
  }

  /** The index test of the registry filter. */
  function TallAt(objs: seq<PictureObject>): int -> bool
  {
    i => 0 <= i < |objs| && Tall(objs[i])
  }

  /** The entries filterObjects keeps, in registry order. */
  function Survivors(objs: seq<PictureObject>): (r: seq<PictureObject>)
    ensures |r| <= |objs|
  {
    Where(objs, TallAt(objs), |objs|)
  }

  /** The survivors are the tall entries of the registry, each one, in order. */
  lemma SurvivorsAreTall(objs: seq<PictureObject>)
    ensures |Survivors(objs)| == |Kept(TallAt(objs), |objs|)|
    ensures forall k :: 0 <= k < |Survivors(objs)| ==>
      Survivors(objs)[k] == objs[Kept(TallAt(objs), |objs|)[k]] && Tall(Survivors(objs)[k])
    ensures forall i :: 0 <= i < |objs| && Tall(objs[i]) ==> i in Kept(TallAt(objs), |objs|)
  {
    WhereAt(objs, TallAt(objs), |objs|);
    forall k | 0 <= k < |Survivors(objs)|
      ensures Tall(Survivors(objs)[k])
    {
      assert TallAt(objs)(Kept(TallAt(objs), |objs|)[k]);
    }
    forall i | 0 <= i < |objs| && Tall(objs[i])
      ensures i in Kept(TallAt(objs), |objs|)
    {
      assert TallAt(objs)(i);
    }
  }

  /** The pixel loops of filterObjects. */
  method FilterMap(image: array2<byte>, objs: seq<PictureObject>) returns (result: array2<byte>)
    requires LabelsKnown(Cells(image), image.Length0, image.Length1, objs)
    ensures fresh(result) && result.Length0 == image.Length0 && result.Length1 == image.Length1
    ensures Cells(result) == Filtered(Cells(image), image.Length0, image.Length1, objs)
  {
    ghost var M := Cells(image);
    result := new byte[image.Length0, image.Length1]((_, _) => 0);
    for x := 0 to image.Length0
      invariant forall i, j :: 0 <= i < x && 0 <= j < image.Length1 ==> result[i, j] == FilterPixel(objs, M[i][j])
      invariant forall i, j :: x <= i < image.Length0 && 0 <= j < image.Length1 ==> result[i, j] == 0
    {
      for y := 0 to image.Length1
        invariant forall i, j :: 0 <= j < image.Length1 && (0 <= i < x || (i == x && j < y)) ==>
          result[i, j] == FilterPixel(objs, M[i][j])
        invariant forall i, j :: 0 <= j < image.Length1 && (x < i < image.Length0 || (i == x && y <= j)) ==> result[i, j] == 0
      {
        if image[x, y] <= 0 {
          continue;
        }
        var c := objs[image[x, y] - 1].corners.value;
        var height := Abs(c.topLeft.1 - c.bottomLeft.1);
        var width := Abs(c.topLeft.0 - c.bottomLeft.0);
        if height > 50 && (Quot(width, height) as real) < 0.5 {
          result[x, y] := 255;
        }
      }
    }
    CellsOf(result, Filtered(M, image.Length0, image.Length1, objs));
  }

  /** The registry loop of filterObjects: the tall entries, in order, with the
      byte count decremented once for every entry kept. */
  method KeepTall(objs: seq<PictureObject>, count: byte) returns (kept: seq<PictureObject>, count1: byte)
    ensures kept == Survivors(objs)
    ensures count1 as int == (count as int - |kept|) % 256
  {
    kept, count1 := [], count;
    for k := 0 to |objs|
      invariant kept == Where(objs, TallAt(objs), k)
      invariant count1 as int == (count as int - |kept|) % 256
    {
      assert Where(objs, TallAt(objs), k + 1) == kept + (if Tall(objs[k]) then [objs[k]] else []);
      if Tall(objs[k]) {
        DecrementWraps(count as int - |kept|, count1 as int);
        kept := kept + [objs[k]];
        count1 := (count1 as int - 1) % 256;
      }
    }
  }

  /** Decrementing a byte that holds n modulo 256 gives n - 1 modulo 256. */
  lemma DecrementWraps(n: int, b: int)
    requires b == n % 256
    ensures (b - 1) % 256 == (n - 1) % 256
  {
  }

  // ---------------------------------------------------------------------------
  // The registry

  /** The state of the static class FloodFill: the object count (a byte that
      wraps), the label map of the last scan, and the registry of objects. */
  class FloodFill {
    var objectCount: byte
    var objectMap: array2<byte>
    var objects: seq<PictureObject>

    /** The state the pipeline starts from: no objects, no map (an empty one). */
    constructor ()
      ensures objectCount == 0 && objects == [] && objectMap.Length0 == 0 && objectMap.Length1 == 0
    {
      objectCount := 0;
      objects := [];
      objectMap := new byte[0, 0];
    }

    /** CalculateCorners: store every entry's box as its four corners. */
    method CalculateCorners()
      modifies this
      ensures objectCount == old(objectCount) && objectMap == old(objectMap)
      ensures |objects| == |old(objects)|
      ensures forall k :: 0 <= k < |objects| ==> objects[k] == WithCorners(old(objects)[k])
    {
      var k := 0;
      while k < |objects|
        invariant 0 <= k <= |objects| && |objects| == |old(objects)|
        invariant objectCount == old(objectCount) && objectMap == old(objectMap)
        invariant forall i :: 0 <= i < k ==> objects[i] == WithCorners(old(objects)[i])
        invariant forall i :: k <= i < |objects| ==> objects[i] == old(objects)[i]
      {
        objects := objects[k := WithCorners(objects[k])];
        k := k + 1;
      }
    }

    /** MarkObjects: label the image and register its objects. `ok` is false
        where the source throws (the byte count wraps to 0, or it names no
        registry entry); the state is then as the source leaves it. */
    method MarkObjects(image: array2<byte>) returns (result: array2<byte>, ok: bool, ghost seeds: seq<(int, int)>)
      modifies this
      ensures fresh(result) && objectMap == result
      ensures result.Length0 == image.Length0 && result.Length1 == image.Length1
      ensures ok ==> Labelled(Cells(image), Cells(result), image.Length0, image.Length1,
                              old(objectCount) as int, objectCount as int, seeds)
      ensures ok ==> |objects| - |old(objects)| == objectCount as int - old(objectCount) as int
      ensures ok ==> forall k :: 0 <= k < |objects| ==> objects[k].corners == Some(CornersOf(objects[k]))
      ensures ok && |old(objects)| == old(objectCount) as int ==>
        Registered(Cells(result), image.Length0, image.Length1, objectCount as int, objects, old(objects))
      ensures !ok && |old(objects)| == old(objectCount) as int ==> objectCount == 0 && |objects| == 256
    {
      ghost var objs0 := objects;
      var count, objs;
      result, count, objs, ok, seeds := Scan(image, objectCount, objects);
      objectMap, objectCount, objects := result, count, objs;
      if ok {
        ghost var I, M := Cells(image), Cells(result);
        CalculateCorners();
        assert Cells(image) == I && Cells(result) == M;
        if |objs0| == old(objectCount) as int {
          CornersKeepRegistry(M, image.Length0, image.Length1, count as int, objs, objects, objs0);
        }
      }
    }

    /** filterObjects: keep the pixels of pole-shaped objects as 255, keep the
        tall entries of the registry, and decrement the count once per entry kept. */
    method FilterObjects(image: array2<byte>) returns (result: array2<byte>)
      modifies this
      requires LabelsKnown(Cells(image), image.Length0, image.Length1, objects)
      requires forall k :: 0 <= k < |objects| ==> objects[k].corners.Some?
      ensures fresh(result) && result.Length0 == image.Length0 && result.Length1 == image.Length1
      ensures Cells(result) == Filtered(Cells(image), image.Length0, image.Length1, old(objects))
      ensures objects == Survivors(old(objects))
      ensures objectCount as int == (old(objectCount) as int - |objects|) % 256
      ensures objectMap == old(objectMap)
    {
      result := FilterMap(image, objects);
      objects, objectCount := KeepTall(objects, objectCount);
    }
  }

  /** What MarkObjects leaves in a registry that was consistent: the count is
      the number of entries, the old entries only gained their corners, and
      each new entry k is object k + 1 with the exact box of label k + 1. */
  ghost predicate Registered(M: Grid<byte>, w: nat, h: nat, count: int, objs: seq<PictureObject>, objs0: seq<PictureObject>)
    requires IsGrid(M, w, h)
  {
    count == |objs| && |objs0| <= |objs| &&
    (forall k :: 0 <= k < |objs0| ==> objs[k] == WithCorners(objs0[k])) &&
    (forall k :: |objs0| <= k < |objs| ==> objs[k].objectNumber == k + 1 && Bounds(objs[k], M, w, h, k + 1))
  }

  /** Calculating the corners keeps what the scan established about the registry. */
  lemma CornersKeepRegistry(M: Grid<byte>, w: nat, h: nat, count: int, objs: seq<PictureObject>,
                            objs1: seq<PictureObject>, objs0: seq<PictureObject>)
    requires IsGrid(M, w, h) && RegistryOk(M, w, h, count, objs, objs0, true)
    requires |objs1| == |objs| && forall k :: 0 <= k < |objs| ==> objs1[k] == WithCorners(objs[k])
    ensures Registered(M, w, h, count, objs1, objs0)
  {
    forall k | 0 <= k < |objs0|
      ensures objs1[k] == WithCorners(objs0[k])
    {
      assert objs[k] == objs[..|objs0|][k];
    }
  }
}

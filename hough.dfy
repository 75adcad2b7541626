/** HoughTransform.cs: the line accumulator, the in-place 21×21 non-maximum
    suppression over it, the vote threshold, the extraction of lines above the
    threshold, and their de-duplication by distance. The position of pixel
    (u, v) at angle index t, computed with cosine and sine in the source, is
    the input function `vote`. */
module Hough {
  import opened Grids
  import opened Sequences

  /** A line of the accumulator: angle index `theta`, distance column `rho`, votes `v`. */
  datatype FoundLine = FoundLine(theta: int, rho: int, v: int)

  /** The de-duplication key of a line. */
  function Rho(l: FoundLine): int
  {
    l.rho
  }

  /** The accumulator column of pixel (u, v) at angle index t, already shifted
      by the Hough height. */
  type Vote = (int, int, int) -> int

  // ---------------------------------------------------------------------------
  // Accumulator

  /** An all-zero accumulator of `T` angles by `R` distances. */
  function Zero(T: nat, R: nat): (z: Grid<int>)
    ensures IsGrid(z, T, R)
    ensures forall t, r :: 0 <= t < T && 0 <= r < R ==> z[t][r] == 0
  {
    seq(T, _ => seq(R, _ => 0))
  }

  /** The accumulator after the votes of pixel (u, v) for angles 0 .. n - 1:
      each angle adds one to the cell at its distance, unless that distance
      falls outside the accumulator. */
  function AddVotes(g: Grid<int>, T: nat, R: nat, vote: Vote, u: int, v: int, n: nat): (a: Grid<int>)
    requires IsGrid(g, T, R) && n <= T
    ensures IsGrid(a, T, R)
    decreases n
  {
    if n == 0 then g
    else
      var prev := AddVotes(g, T, R, vote, u, v, n - 1);
      var r := vote(u, v, n - 1);
      if r < 0 || r >= R then prev else Set(prev, n - 1, r, prev[n - 1][r] + 1)
  }

  /** A pixel adds exactly one vote to cell (t, r) when its distance at angle t
      is r, and nothing otherwise. */
  lemma {:induction false} AddVotesAt(g: Grid<int>, T: nat, R: nat, vote: Vote, u: int, v: int, n: nat, t: int, r: int)
    requires IsGrid(g, T, R) && n <= T && 0 <= t < T && 0 <= r < R
    ensures AddVotes(g, T, R, vote, u, v, n)[t][r] == g[t][r] + (if t < n && vote(u, v, t) == r then 1 else 0)
    decreases n
  {
    if n > 0 {
      AddVotesAt(g, T, R, vote, u, v, n - 1, t, r);
    }
  }

  /** Only pixels at 255 vote. */
  function Cast(g: Grid<int>, I: Grid<byte>, W: nat, H: nat, T: nat, vote: Vote, u: int, v: int): (a: Grid<int>)
    requires IsGrid(g, T, 2 * H) && IsGrid(I, W, H) && 0 <= u < W && 0 <= v < H
    ensures IsGrid(a, T, 2 * H)
  {
    if I[u][v] == 255 then AddVotes(g, T, 2 * H, vote, u, v, T) else g
  }

  /** The accumulator after pixels (u, 0) .. (u, v - 1) of column u have voted. */
  function AccColumn(g: Grid<int>, I: Grid<byte>, W: nat, H: nat, T: nat, vote: Vote, u: int, v: int): (a: Grid<int>)
    requires IsGrid(g, T, 2 * H) && IsGrid(I, W, H) && 0 <= u < W && 0 <= v <= H
    ensures IsGrid(a, T, 2 * H)
    decreases v
  {
    if v == 0 then g else Cast(AccColumn(g, I, W, H, T, vote, u, v - 1), I, W, H, T, vote, u, v - 1)
  }

  /** The accumulator after the pixels of columns 0 .. u - 1 have voted. */
  function AccColumns(I: Grid<byte>, W: nat, H: nat, T: nat, vote: Vote, u: int): (a: Grid<int>)
    requires IsGrid(I, W, H) && 0 <= u <= W
    ensures IsGrid(a, T, 2 * H)
    decreases u
  {
    if u == 0 then Zero(T, 2 * H) else AccColumn(AccColumns(I, W, H, T, vote, u - 1), I, W, H, T, vote, u - 1, H)
  }

  /** The accumulator `CreateHoughSpace` builds: `T` angles by twice the image height. */
  function Accumulator(I: Grid<byte>, W: nat, H: nat, T: nat, vote: Vote): (a: Grid<int>)
    requires IsGrid(I, W, H)
    ensures IsGrid(a, T, 2 * H)
  {
    AccColumns(I, W, H, T, vote, W)
  }

  /** The pixels before (u, v) in scan order that are 255 and whose distance at
      angle t is r: the voters for cell (t, r) so far. */
  function Voters(I: Grid<byte>, W: nat, H: nat, vote: Vote, t: int, r: int, u: int, v: int): set<(int, int)>
    requires IsGrid(I, W, H)
  {
    set i, j | 0 <= i < W && 0 <= j < H && (i < u || (i == u && j < v)) && I[i][j] == 255 && vote(i, j, t) == r :: (i, j)
  }

  /** One more pixel of the column adds itself to the voters of the cells it votes for. */
  lemma VotersStep(I: Grid<byte>, W: nat, H: nat, vote: Vote, t: int, r: int, u: int, v: int)
    requires IsGrid(I, W, H) && 0 <= u < W && 0 <= v < H
    ensures |Voters(I, W, H, vote, t, r, u, v + 1)| ==
      |Voters(I, W, H, vote, t, r, u, v)| + (if I[u][v] == 255 && vote(u, v, t) == r then 1 else 0)
  {
    var before, after := Voters(I, W, H, vote, t, r, u, v), Voters(I, W, H, vote, t, r, u, v + 1);
    if I[u][v] == 255 && vote(u, v, t) == r {
      assert after == before + {(u, v)};
    } else {
      assert after == before;
    }
  }

  lemma {:induction false} AccColumnCounts(g: Grid<int>, I: Grid<byte>, W: nat, H: nat, T: nat, vote: Vote,
                                          u: int, v: int, t: int, r: int)
    requires IsGrid(g, T, 2 * H) && IsGrid(I, W, H) && 0 <= u < W && 0 <= v <= H && 0 <= t < T && 0 <= r < 2 * H
    requires g[t][r] == |Voters(I, W, H, vote, t, r, u, 0)|
    ensures AccColumn(g, I, W, H, T, vote, u, v)[t][r] == |Voters(I, W, H, vote, t, r, u, v)|
    decreases v
  {
    if v > 0 {
      AccColumnCounts(g, I, W, H, T, vote, u, v - 1, t, r);
      AddVotesAt(AccColumn(g, I, W, H, T, vote, u, v - 1), T, 2 * H, vote, u, v - 1, T, t, r);
      VotersStep(I, W, H, vote, t, r, u, v - 1);
    }
  }

  lemma {:induction false} AccColumnsCounts(I: Grid<byte>, W: nat, H: nat, T: nat, vote: Vote, u: int, t: int, r: int)
    requires IsGrid(I, W, H) && 0 <= u <= W && 0 <= t < T && 0 <= r < 2 * H
    ensures AccColumns(I, W, H, T, vote, u)[t][r] == |Voters(I, W, H, vote, t, r, u, 0)|
    decreases u
  {
    if u == 0 {
      assert Voters(I, W, H, vote, t, r, 0, 0) == {};
    } else {
      AccColumnsCounts(I, W, H, T, vote, u - 1, t, r);
      AccColumnCounts(AccColumns(I, W, H, T, vote, u - 1), I, W, H, T, vote, u - 1, H, t, r);
      assert Voters(I, W, H, vote, t, r, u - 1, H) == Voters(I, W, H, vote, t, r, u, 0);
    }
  }

  /** Cell (t, r) of the accumulator counts exactly the 255-pixels whose distance
      at angle t is r; a distance outside the accumulator is counted nowhere. */
  lemma AccumulatorCounts(I: Grid<byte>, W: nat, H: nat, T: nat, vote: Vote, t: int, r: int)
    requires IsGrid(I, W, H) && 0 <= t < T && 0 <= r < 2 * H
    ensures Accumulator(I, W, H, T, vote)[t][r] == |Voters(I, W, H, vote, t, r, W, 0)|
    ensures Accumulator(I, W, H, T, vote)[t][r] >= 0
  {
    AccColumnsCounts(I, W, H, T, vote, W, t, r);
  }

  /** The largest cell of a non-empty accumulator (LINQ `Max` over the cells). */
  function GridMax(g: Grid<int>, T: nat, R: nat, n: nat): int
    requires IsGrid(g, T, R) && 0 < n <= T && R > 0
    decreases n
  {
    var row := RowMax(g[n - 1], R);
    if n == 1 then row
    else
      var rest := GridMax(g, T, R, n - 1);
      if row >= rest then row else rest
  }

  function RowMax(row: seq<int>, n: nat): int
    requires 0 < n <= |row|
    decreases n
  {
    if n == 1 then row[0]
    else
      var rest := RowMax(row, n - 1);
      if row[n - 1] >= rest then row[n - 1] else rest
  }

  /** `RowMax` bounds the first `n` cells of the row and is one of them. */
  lemma {:induction false} RowMaxIsMax(row: seq<int>, n: nat)
    requires 0 < n <= |row|
    ensures forall r :: 0 <= r < n ==> row[r] <= RowMax(row, n)
    ensures exists r :: 0 <= r < n && row[r] == RowMax(row, n)
    decreases n
  {
    if n == 1 {
      assert row[0] == RowMax(row, n);
    } else {
      RowMaxIsMax(row, n - 1);
      var r1 :| 0 <= r1 < n - 1 && row[r1] == RowMax(row, n - 1);
      if row[n - 1] >= RowMax(row, n - 1) {
        assert row[n - 1] == RowMax(row, n);
      } else {
        assert row[r1] == RowMax(row, n);
      }
    }
  }

  /** `GridMax` bounds the first `n` columns of the accumulator and is one of
      its cells. */
  lemma {:induction false} GridMaxIsMax(g: Grid<int>, T: nat, R: nat, n: nat)
    requires IsGrid(g, T, R) && 0 < n <= T && R > 0
    ensures forall t, r :: 0 <= t < n && 0 <= r < R ==> g[t][r] <= GridMax(g, T, R, n)
    ensures exists t, r :: 0 <= t < n && 0 <= r < R && g[t][r] == GridMax(g, T, R, n)
    decreases n
  {
    RowMaxIsMax(g[n - 1], R);
    var r0 :| 0 <= r0 < R && g[n - 1][r0] == RowMax(g[n - 1], R);
    if n > 1 {
      GridMaxIsMax(g, T, R, n - 1);
      var t1, r1 :| 0 <= t1 < n - 1 && 0 <= r1 < R && g[t1][r1] == GridMax(g, T, R, n - 1);
      if RowMax(g[n - 1], R) < GridMax(g, T, R, n - 1) {
        assert g[t1][r1] == GridMax(g, T, R, n);
      }
    }
    assert g[n - 1][r0] == RowMax(g[n - 1], R);
  }

  /** The vote threshold: `(int)(max * 0.4)`. */
  function VoteThreshold(m: int): (k: int)
  {
    Truncate(m as real * (2.0 / 5.0))
  }

  /** For a non-negative maximum the threshold is the integer part of two fifths of it. */
  lemma VoteThresholdTwoFifths(m: int)
    requires m >= 0
    ensures VoteThreshold(m) == (2 * m) / 5
    ensures 0 <= VoteThreshold(m) <= m
  {
    var q := (2 * m) / 5;
    var x := m as real * (2.0 / 5.0);
    assert 5 * q <= 2 * m < 5 * q + 5;
    assert q as real <= x < q as real + 1.0;
    assert x.Floor == q;
  }

  // ---------------------------------------------------------------------------
  // Non-maximum suppression

  /** Half the 21-cell neighbourhood: `startEnd`. */
  const Reach := 10

  /** Cell (a, b) lies in the 21×21 window centred on (t, r). */
  predicate InWindow(t: int, r: int, a: int, b: int)
  {
    t - Reach <= a <= t + Reach && r - Reach <= b <= r + Reach
  }

  /** Cell (t, r) is visited by the scan: its whole window lies inside. */
  predicate Inner(T: int, R: int, t: int, r: int)
  {
    Reach <= t < T - Reach && Reach <= r < R - Reach
  }

  /** Where the scan of one dimension stops. */
  function End(n: int): (e: int)
    ensures e >= Reach && (n - Reach >= Reach ==> e == n - Reach)
  {
    if n - Reach >= Reach then n - Reach else Reach
  }

  /** Some cell of the window of (t, r) is strictly greater than (t, r). */
  predicate Exceeded(g: Grid<int>, T: nat, R: nat, t: int, r: int)
    requires IsGrid(g, T, R) && Inner(T, R, t, r)
  {
    exists a, b :: t - Reach <= a <= t + Reach && r - Reach <= b <= r + Reach && g[a][b] > g[t][r]
  }

  /** The visit of (t, r): it becomes 0 when some cell of its window is strictly
      greater, as read from the buffer being overwritten. */
  function NmsVisit(g: Grid<int>, T: nat, R: nat, t: int, r: int): (a: Grid<int>)
    requires IsGrid(g, T, R) && Inner(T, R, t, r)
    ensures IsGrid(a, T, R)
  {
    if Exceeded(g, T, R, t, r) then Set(g, t, r, 0) else g
  }

  /** The buffer after visiting (t, Reach) .. (t, n - 1). */
  function NmsRow(g: Grid<int>, T: nat, R: nat, t: int, n: int): (a: Grid<int>)
    requires IsGrid(g, T, R) && Reach <= t < T - Reach && n <= End(R)
    ensures IsGrid(a, T, R)
    decreases n
  {
    if n <= Reach then g else NmsVisit(NmsRow(g, T, R, t, n - 1), T, R, t, n - 1)
  }

  /** The buffer after visiting rows Reach .. n - 1 of the angle dimension. */
  function NmsRows(g: Grid<int>, T: nat, R: nat, n: int): (a: Grid<int>)
    requires IsGrid(g, T, R) && n <= End(T)
    ensures IsGrid(a, T, R)
    decreases n
  {
    if n <= Reach then g else NmsRow(NmsRows(g, T, R, n - 1), T, R, n - 1, End(R))
  }

  /** The suppressed accumulator: the whole scan. */
  function Nms(g: Grid<int>, T: nat, R: nat): (a: Grid<int>)
    requires IsGrid(g, T, R)
    ensures IsGrid(a, T, R)
  {
    NmsRows(g, T, R, End(T))
  }

  predicate Before(i: int, j: int, t: int, r: int)
  {
    i < t || (i == t && j < r)
  }

  predicate NonNegative(g: Grid<int>, T: nat, R: nat)
    requires IsGrid(g, T, R)
  {
    forall i, j :: 0 <= i < T && 0 <= j < R ==> g[i][j] >= 0
  }

  /** What holds once every cell before (t, r) is visited: unvisited cells are
      untouched, visited ones are kept or zeroed, and (for a non-negative
      accumulator) every visited nonzero cell is a maximum of its window. */
  ghost predicate NmsInv(g0: Grid<int>, T: nat, R: nat, cur: Grid<int>, t: int, r: int)
    requires IsGrid(g0, T, R)
  {
    IsGrid(cur, T, R) &&
    (forall i, j :: 0 <= i < T && 0 <= j < R && !(Inner(T, R, i, j) && Before(i, j, t, r)) ==> cur[i][j] == g0[i][j]) &&
    (forall i, j :: 0 <= i < T && 0 <= j < R ==> cur[i][j] == g0[i][j] || cur[i][j] == 0) &&
    (NonNegative(g0, T, R) ==>
      forall i, j :: 0 <= i < T && 0 <= j < R && Inner(T, R, i, j) && Before(i, j, t, r) && cur[i][j] != 0 ==>
        !Exceeded(cur, T, R, i, j))
  }

  lemma NmsVisitKeepsInv(g0: Grid<int>, T: nat, R: nat, cur: Grid<int>, t: int, r: int)
    requires IsGrid(g0, T, R) && Inner(T, R, t, r) && NmsInv(g0, T, R, cur, t, r)
    ensures NmsInv(g0, T, R, NmsVisit(cur, T, R, t, r), t, r + 1)
  {
    var next := NmsVisit(cur, T, R, t, r);
    if NonNegative(g0, T, R) {
      forall i, j | 0 <= i < T && 0 <= j < R && Inner(T, R, i, j) && Before(i, j, t, r + 1) && next[i][j] != 0
        ensures !Exceeded(next, T, R, i, j)
      {
        if i != t || j != r {
          forall a, b | InWindow(i, j, a, b)
            ensures next[a][b] <= next[i][j]
          {
            assert next[a][b] <= cur[a][b] <= cur[i][j];
          }
        }
      }
    }
  }

  lemma {:induction false} NmsRowInv(g0: Grid<int>, T: nat, R: nat, start: Grid<int>, t: int, n: int)
    requires IsGrid(g0, T, R) && IsGrid(start, T, R) && Reach <= t < T - Reach && Reach <= n <= End(R)
    requires NmsInv(g0, T, R, start, t, Reach)
    ensures NmsInv(g0, T, R, NmsRow(start, T, R, t, n), t, n)
    decreases n
  {
    if n > Reach {
      NmsRowInv(g0, T, R, start, t, n - 1);
      NmsVisitKeepsInv(g0, T, R, NmsRow(start, T, R, t, n - 1), t, n - 1);
    }
  }

  /** Having visited row t up to its end is having visited everything before row t + 1. */
  lemma NmsRowDone(g0: Grid<int>, T: nat, R: nat, cur: Grid<int>, t: int)
    requires IsGrid(g0, T, R) && NmsInv(g0, T, R, cur, t, End(R))
    ensures NmsInv(g0, T, R, cur, t + 1, Reach)
  {
    assert forall i, j :: Inner(T, R, i, j) ==> (Before(i, j, t, End(R)) <==> Before(i, j, t + 1, Reach));
  }

  lemma {:induction false} NmsRowsInv(g0: Grid<int>, T: nat, R: nat, n: int)
    requires IsGrid(g0, T, R) && Reach <= n <= End(T)
    ensures NmsInv(g0, T, R, NmsRows(g0, T, R, n), n, Reach)
    decreases n
  {
    if n > Reach {
      var before := NmsRows(g0, T, R, n - 1);
      NmsRowsInv(g0, T, R, n - 1);
      NmsRowInv(g0, T, R, before, n - 1, End(R));
      NmsRowDone(g0, T, R, NmsRow(before, T, R, n - 1, End(R)), n - 1);
    }
  }

  /** Cells within `Reach` of an edge of the accumulator are never changed. */
  lemma NmsBorder(g: Grid<int>, T: nat, R: nat, t: int, r: int)
    requires IsGrid(g, T, R) && 0 <= t < T && 0 <= r < R && !Inner(T, R, t, r)
    ensures Nms(g, T, R)[t][r] == g[t][r]
  {
    NmsRowsInv(g, T, R, End(T));
  }

  /** Suppression only ever writes 0: each cell is kept or zeroed. */
  lemma NmsKeepsOrZeroes(g: Grid<int>, T: nat, R: nat, t: int, r: int)
    requires IsGrid(g, T, R) && 0 <= t < T && 0 <= r < R
    ensures Nms(g, T, R)[t][r] == g[t][r] || Nms(g, T, R)[t][r] == 0
  {
    NmsRowsInv(g, T, R, End(T));
  }

  /** On a non-negative accumulator, every nonzero interior cell that survives is
      at least every cell of its 21×21 window in the final accumulator. */
  lemma NmsLocalMax(g: Grid<int>, T: nat, R: nat, t: int, r: int, a: int, b: int)
    requires IsGrid(g, T, R) && NonNegative(g, T, R) && Inner(T, R, t, r) && InWindow(t, r, a, b)
    requires Nms(g, T, R)[t][r] != 0
    ensures Nms(g, T, R)[a][b] <= Nms(g, T, R)[t][r]
  {
    NmsRowsInv(g, T, R, End(T));
    assert Before(t, r, End(T), Reach);
    assert !Exceeded(Nms(g, T, R), T, R, t, r);
  }

  /** The accumulator of any image is non-negative, so its suppression keeps only window maxima. */
  lemma AccumulatorNonNegative(I: Grid<byte>, W: nat, H: nat, T: nat, vote: Vote)
    requires IsGrid(I, W, H)
    ensures NonNegative(Accumulator(I, W, H, T, vote), T, 2 * H)
  {
    forall t, r | 0 <= t < T && 0 <= r < 2 * H
      ensures Accumulator(I, W, H, T, vote)[t][r] >= 0
    {
      AccumulatorCounts(I, W, H, T, vote, t, r);
    }
  }

  // ---------------------------------------------------------------------------
  // Line extraction

  /** The lines of row t among distances 0 .. n - 1: the cells at or above the threshold. */
  function RowLines(g: Grid<int>, T: nat, R: nat, threshold: int, t: int, n: nat): seq<FoundLine>
    requires IsGrid(g, T, R) && 0 <= t < T && n <= R
    decreases n
  {
    if n == 0 then []
    else
      var here := if g[t][n - 1] >= threshold then [FoundLine(t, n - 1, g[t][n - 1])] else [];
      RowLines(g, T, R, threshold, t, n - 1) + here
  }

  /** Line `l1` comes strictly before `l2` in angle-major, then distance order. */
  predicate Earlier(l1: FoundLine, l2: FoundLine)
  {
    l1.theta < l2.theta || (l1.theta == l2.theta && l1.rho < l2.rho)
  }

  /** The lines of rows 0 .. n - 1, row by row. */
  function Lines(g: Grid<int>, T: nat, R: nat, threshold: int, n: nat): seq<FoundLine>
    requires IsGrid(g, T, R) && n <= T
    decreases n
  {
    if n == 0 then [] else Lines(g, T, R, threshold, n - 1) + RowLines(g, T, R, threshold, n - 1, R)
  }

  /** Line `l` is cell (theta, rho) of `g`, at or above the threshold, with its votes. */
  predicate IsLineOf(g: Grid<int>, T: nat, R: nat, threshold: int, l: FoundLine)
    requires IsGrid(g, T, R)
  {
    0 <= l.theta < T && 0 <= l.rho < R && g[l.theta][l.rho] >= threshold && l.v == g[l.theta][l.rho]
  }

  /** Every line of row t is a cell of row t below n at or above the threshold,
      and the distances increase along the row. */
  lemma {:induction false} RowLinesSound(g: Grid<int>, T: nat, R: nat, threshold: int, t: int, n: nat)
    requires IsGrid(g, T, R) && 0 <= t < T && n <= R
    ensures forall k :: 0 <= k < |RowLines(g, T, R, threshold, t, n)| ==>
      var l := RowLines(g, T, R, threshold, t, n)[k]; IsLineOf(g, T, R, threshold, l) && l.theta == t && l.rho < n
    ensures forall k1, k2 :: 0 <= k1 < k2 < |RowLines(g, T, R, threshold, t, n)| ==>
      RowLines(g, T, R, threshold, t, n)[k1].rho < RowLines(g, T, R, threshold, t, n)[k2].rho
    decreases n
  {
    if n > 0 {
      RowLinesSound(g, T, R, threshold, t, n - 1);
      var prev := RowLines(g, T, R, threshold, t, n - 1);
      var here := if g[t][n - 1] >= threshold then [FoundLine(t, n - 1, g[t][n - 1])] else [];
      var all := RowLines(g, T, R, threshold, t, n);
      assert all == prev + here;
      forall k | 0 <= k < |all|
        ensures IsLineOf(g, T, R, threshold, all[k]) && all[k].theta == t && all[k].rho < n
      {
        if k < |prev| {
          assert all[k] == prev[k];
        }
      }
      forall k1, k2 | 0 <= k1 < k2 < |all|
        ensures all[k1].rho < all[k2].rho
      {
        if k2 < |prev| {
          assert all[k1] == prev[k1] && all[k2] == prev[k2];
        } else {
          assert all[k1] == prev[k1];
        }
      }
    }
  }

  /** Every line is a cell at or above the threshold, and the lines come in
      angle-major, then distance order. */
  lemma {:induction false} LinesSound(g: Grid<int>, T: nat, R: nat, threshold: int, n: nat)
    requires IsGrid(g, T, R) && n <= T
    ensures forall k :: 0 <= k < |Lines(g, T, R, threshold, n)| ==>
      IsLineOf(g, T, R, threshold, Lines(g, T, R, threshold, n)[k]) && Lines(g, T, R, threshold, n)[k].theta < n
    ensures forall k1, k2 :: 0 <= k1 < k2 < |Lines(g, T, R, threshold, n)| ==>
      Earlier(Lines(g, T, R, threshold, n)[k1], Lines(g, T, R, threshold, n)[k2])
    decreases n
  {
    if n > 0 {
      LinesSound(g, T, R, threshold, n - 1);
      RowLinesSound(g, T, R, threshold, n - 1, R);
      var prev, row := Lines(g, T, R, threshold, n - 1), RowLines(g, T, R, threshold, n - 1, R);
      var all := Lines(g, T, R, threshold, n);
      assert all == prev + row;
      forall k | 0 <= k < |all|
        ensures IsLineOf(g, T, R, threshold, all[k]) && all[k].theta < n
      {
        if k < |prev| {
          assert all[k] == prev[k];
        } else {
          assert all[k] == row[k - |prev|];
        }
      }
      forall k1, k2 | 0 <= k1 < k2 < |all|
        ensures Earlier(all[k1], all[k2])
      {
        if k2 < |prev| {
          assert all[k1] == prev[k1] && all[k2] == prev[k2];
        } else if k1 < |prev| {
          assert all[k1] == prev[k1] && all[k2] == row[k2 - |prev|];
        } else {
          assert all[k1] == row[k1 - |prev|] && all[k2] == row[k2 - |prev|];
        }
      }
    }
  }

  /** An element of either part is an element of the concatenation. */
  lemma InAppend<T>(x: T, a: seq<T>, b: seq<T>)
    requires x in a || x in b
    ensures x in a + b
  {
  }

  /** Every cell at or above the threshold gives a line of its row. */
  lemma {:induction false} RowLinesComplete(g: Grid<int>, T: nat, R: nat, threshold: int, t: int, n: nat, r: int)
    requires IsGrid(g, T, R) && 0 <= t < T && n <= R && 0 <= r < n && g[t][r] >= threshold
    ensures FoundLine(t, r, g[t][r]) in RowLines(g, T, R, threshold, t, n)
    decreases n
  {
    var prev := RowLines(g, T, R, threshold, t, n - 1);
    var here := if g[t][n - 1] >= threshold then [FoundLine(t, n - 1, g[t][n - 1])] else [];
    assert RowLines(g, T, R, threshold, t, n) == prev + here;
    if r < n - 1 {
      RowLinesComplete(g, T, R, threshold, t, n - 1, r);
    }
  }

  /** The lines are exactly the cells at or above the threshold. */
  lemma {:induction false} LinesComplete(g: Grid<int>, T: nat, R: nat, threshold: int, n: nat, t: int, r: int)
    requires IsGrid(g, T, R) && n <= T && 0 <= t < n && 0 <= r < R && g[t][r] >= threshold
    ensures FoundLine(t, r, g[t][r]) in Lines(g, T, R, threshold, n)
    decreases n
  {
    var prev, row := Lines(g, T, R, threshold, n - 1), RowLines(g, T, R, threshold, n - 1, R);
    assert Lines(g, T, R, threshold, n) == prev + row;
    if t < n - 1 {
      LinesComplete(g, T, R, threshold, n - 1, t, r);
    } else {
      RowLinesComplete(g, T, R, threshold, t, R, r);
    }
    InAppend(FoundLine(t, r, g[t][r]), prev, row);
  }

  /** The state of the static class HoughTransform: the vote threshold and the
      point counter that `GetLines` checks. */
  class HoughTransform {
    var threshold: int
    var numPoints: int

    /** The static initialisers: threshold 50, no points. */
    constructor ()
      ensures threshold == 50 && numPoints == 0
    {
      threshold := 50;
      numPoints := 0;
    }

    /** The votes of one 255-pixel, one per angle. */
    static method CastVotes(houghArray: array2<int>, u: int, v: int, vote: Vote, ghost cur: Grid<int>)
      modifies houghArray
      requires Holds(houghArray, cur)
      ensures Holds(houghArray, AddVotes(cur, houghArray.Length0, houghArray.Length1, vote, u, v, houghArray.Length0))
    {
      var T, R := houghArray.Length0, houghArray.Length1;
      for t := 0 to T
        invariant Holds(houghArray, AddVotes(cur, T, R, vote, u, v, t))
      {
        var r := vote(u, v, t);
        if r < 0 || r >= R {
          continue;
        }
        houghArray[t, r] := houghArray[t, r] + 1;
      }
    }

    /** The votes of column u of the image. */
    static method VoteColumn(houghArray: array2<int>, input: array2<byte>, u: int, vote: Vote,
                             ghost I: Grid<byte>, ghost start: Grid<int>)
      modifies houghArray
      requires houghArray.Length1 == 2 * input.Length1 && 0 <= u < input.Length0
      requires Holds(input, I) && Holds(houghArray, start)
      ensures Holds(houghArray, AccColumn(start, I, input.Length0, input.Length1, houghArray.Length0, vote, u, input.Length1))
    {
      var W, H, T := input.Length0, input.Length1, houghArray.Length0;
      for v := 0 to H
        invariant Holds(houghArray, AccColumn(start, I, W, H, T, vote, u, v))
      {
        if input[u, v] == 255 {
          CastVotes(houghArray, u, v, vote, AccColumn(start, I, W, H, T, vote, u, v));
        }
      }
    }

    /** HoughTransform.CreateHoughSpace: a fresh accumulator of `maxTheta` angles
        by twice the image height holding the votes of the 255-pixels; the point
        counter ends at 1 and the threshold becomes two fifths of the largest
        cell, truncated. An empty accumulator has no maximum and is excluded. */
    method CreateHoughSpace(input: array2<byte>, maxTheta: nat, vote: Vote) returns (houghArray: array2<int>)
      modifies this
      requires maxTheta > 0 && input.Length1 > 0
      ensures fresh(houghArray)
      ensures houghArray.Length0 == maxTheta && houghArray.Length1 == 2 * input.Length1
      ensures Cells(houghArray) == Accumulator(Cells(input), input.Length0, input.Length1, maxTheta, vote)
      ensures numPoints == 1
      ensures threshold == VoteThreshold(GridMax(Cells(houghArray), maxTheta, 2 * input.Length1, maxTheta))
    {
      numPoints := 0;
      houghArray := Accumulate(input, maxTheta, vote);
      numPoints := numPoints + 1;
      threshold := VoteThreshold(GridMax(Cells(houghArray), maxTheta, 2 * input.Length1, maxTheta));
    }

    /** A fresh all-zero accumulator. */
    static method NewAccumulator(T: nat, R: nat) returns (a: array2<int>)
      ensures fresh(a) && a.Length0 == T && a.Length1 == R && Holds(a, Zero(T, R))
    {
      a := new int[T, R]((_, _) => 0);
    }

    /** The voting loops of CreateHoughSpace over a fresh accumulator. */
    static method Accumulate(input: array2<byte>, maxTheta: nat, vote: Vote) returns (houghArray: array2<int>)
      ensures fresh(houghArray)
      ensures houghArray.Length0 == maxTheta && houghArray.Length1 == 2 * input.Length1
      ensures Cells(houghArray) == Accumulator(Cells(input), input.Length0, input.Length1, maxTheta, vote)
    {
      var W, H := input.Length0, input.Length1;
      ghost var I := Cells(input);
      houghArray := NewAccumulator(maxTheta, 2 * H);
      for u := 0 to W
        invariant Holds(houghArray, AccColumns(I, W, H, maxTheta, vote, u))
      {
        VoteColumn(houghArray, input, u, vote, I, AccColumns(I, W, H, maxTheta, vote, u));
      }
      CellsOf(houghArray, AccColumns(I, W, H, maxTheta, vote, W));
    }

    /** The inner two loops of NonMaximumSupression for cell (t, r): every cell
        of its window is compared with the current value of (t, r). */
    static method VisitCell(houghSpace: array2<int>, t: int, r: int, ghost cur: Grid<int>)
      modifies houghSpace
      requires Inner(houghSpace.Length0, houghSpace.Length1, t, r) && Holds(houghSpace, cur)
      ensures Holds(houghSpace, NmsVisit(cur, houghSpace.Length0, houghSpace.Length1, t, r))
    {
      var T, R := houghSpace.Length0, houghSpace.Length1;
      var startEnd := Reach;
      ghost var seen := false;
      for i := 0 to 2 * Reach + 1
        invariant Holds(houghSpace, if seen then Set(cur, t, r, 0) else cur)
        invariant seen ==> Exceeded(cur, T, R, t, r)
        invariant !seen ==> forall a, b :: InWindow(t, r, a, b) && a < t - startEnd + i ==> cur[a][b] <= cur[t][r]
      {
        for j := 0 to 2 * Reach + 1
          invariant Holds(houghSpace, if seen then Set(cur, t, r, 0) else cur)
          invariant seen ==> Exceeded(cur, T, R, t, r)
          invariant !seen ==> forall a, b ::
            (InWindow(t, r, a, b) && (a < t - startEnd + i || (a == t - startEnd + i && b < r - startEnd + j))) ==>
            cur[a][b] <= cur[t][r]
        {
          if houghSpace[t - startEnd + i, r - startEnd + j] > houghSpace[t, r] {
            if !seen {
              assert InWindow(t, r, t - startEnd + i, r - startEnd + j);
            }
            houghSpace[t, r] := 0;
            seen := true;
          }
        }
      }
    }

    /** HoughTransform.NonMaximumSupression: the scan over the cells at least
        `startEnd` from every edge, overwriting the accumulator in place. */
    static method NonMaximumSupression(houghSpace: array2<int>)
      modifies houghSpace
      ensures Cells(houghSpace) == Nms(old(Cells(houghSpace)), houghSpace.Length0, houghSpace.Length1)
    {
      var T, R := houghSpace.Length0, houghSpace.Length1;
      ghost var g0 := Cells(houghSpace);
      var startEnd := Reach;
      var t := startEnd;
      while t < T - startEnd
        invariant Reach <= t <= End(T)
        invariant Holds(houghSpace, NmsRows(g0, T, R, t))
      {
        ghost var start := NmsRows(g0, T, R, t);
        var r := startEnd;
        while r < R - startEnd
          invariant Reach <= r <= End(R)
          invariant Holds(houghSpace, NmsRow(start, T, R, t, r))
        {
          VisitCell(houghSpace, t, r, NmsRow(start, T, R, t, r));
          r := r + 1;
        }
        t := t + 1;
      }
      CellsOf(houghSpace, NmsRows(g0, T, R, t));
    }

    /** HoughTransform.GetLines: the cells at or above `threshold` as lines, in
        angle-major then distance order; none while no points were counted. */
    method GetLines(houghSpace: array2<int>, threshold: int) returns (results: seq<FoundLine>)
      ensures results == if numPoints == 0 then []
        else Lines(Cells(houghSpace), houghSpace.Length0, houghSpace.Length1, threshold, houghSpace.Length0)
    {
      results := [];
      if numPoints == 0 {
        return;
      }
      var T, R := houghSpace.Length0, houghSpace.Length1;
      ghost var G := Cells(houghSpace);
      for t := 0 to T
        invariant results == Lines(G, T, R, threshold, t)
      {
        for r := 0 to R
          invariant results == Lines(G, T, R, threshold, t) + RowLines(G, T, R, threshold, t, r)
        {
          if houghSpace[t, r] >= threshold {
            results := results + [FoundLine(t, r, houghSpace[t, r])];
          }
        }
      }
    }

    /** HoughTransform.FoundLines with 180 angles: accumulate, suppress, extract
        and keep the first line of every distance. The distances of the result
        are pairwise distinct. */
    method FoundLines(image: array2<byte>, vote: Vote) returns (newList: seq<FoundLine>)
      modifies this
      requires image.Length1 > 0
      ensures numPoints == 1
      ensures var acc := Accumulator(old(Cells(image)), image.Length0, image.Length1, 180, vote);
        threshold == VoteThreshold(GridMax(acc, 180, 2 * image.Length1, 180)) &&
        newList == FirstPerKey(Lines(Nms(acc, 180, 2 * image.Length1), 180, 2 * image.Length1, threshold, 180), Rho)
      ensures forall k1, k2 :: 0 <= k1 < k2 < |newList| ==> Rho(newList[k1]) != Rho(newList[k2])
    {
      ghost var I := Cells(image);
      var houghSpace := CreateHoughSpace(image, 180, vote);
      ghost var acc := Cells(houghSpace);
      assert acc == Accumulator(I, image.Length0, image.Length1, 180, vote);
      NonMaximumSupression(houghSpace);
      ghost var suppressed := Cells(houghSpace);
      assert suppressed == Nms(acc, 180, 2 * image.Length1);
      var list := GetLines(houghSpace, threshold);
      assert list == Lines(suppressed, 180, 2 * image.Length1, threshold, 180);
      newList := FirstPerKey(list, Rho);
      FirstPerKeyDistinct(list, Rho);
    }
  }
}

/** HoughExtensions.cs: lines in slope/intercept form, their truncation-based
    equality, the intersection of two lines, the pairing of lines whose
    intersection lies at or above the top of the image, the filter that keeps
    one pair per shared line, and the mask that keeps the pixels between the
    two lines of some pair. Doubles are modelled as reals; an intersection of
    parallel lines lies at an infinity. */
module Pairing {
  import opened Grids
  import opened Sequences

  /** A line y = A x + B (the colour of the source's struct is left out). */
  datatype Line = Line(A: real, B: real)

  /** A double that is finite or one of the two infinities. */
  datatype ExtReal = Finite(v: real) | PosInf | NegInf

  /** Two lines and their intersection (x, y). */
  datatype Pair = Pair(ix: ExtReal, iy: ExtReal, L1: Line, l2: Line)

  /** The order of doubles, extended to the infinities. */
  predicate AtMost(a: ExtReal, b: ExtReal)
  {
    a == NegInf || b == PosInf || (a.Finite? && b.Finite? && a.v <= b.v)
  }

  lemma AtMostTotal(a: ExtReal, b: ExtReal)
    ensures AtMost(a, b) || AtMost(b, a)
    ensures AtMost(a, b) && AtMost(b, a) ==> a == b
  {
  }

  lemma AtMostTransitive(a: ExtReal, b: ExtReal, c: ExtReal)
    requires AtMost(a, b) && AtMost(b, c)
    ensures AtMost(a, c)
  {
  }

  // ---------------------------------------------------------------------------
  // Equality of lines and pairs

  /** Line.Equals: the truncated slopes and the truncated intercepts coincide. */
  predicate LineEquals(c1: Line, c2: Line)
  {
    Truncate(c1.A) == Truncate(c2.A) && Truncate(c1.B) == Truncate(c2.B)
  }

  /** Line.Unequals, written as the source writes it: some truncated coefficient differs. */
  function LineUnequals(c1: Line, c2: Line): (b: bool)
    ensures b <==> !LineEquals(c1, c2)
  {
    Truncate(c1.A) != Truncate(c2.A) || Truncate(c1.B) != Truncate(c2.B)
  }

  /** Line equality is an equivalence, coarser than equality of the coefficients. */
  lemma LineEqualsEquivalence(c1: Line, c2: Line, c3: Line)
    ensures LineEquals(c1, c1)
    ensures LineEquals(c1, c2) ==> LineEquals(c2, c1)
    ensures LineEquals(c1, c2) && LineEquals(c2, c3) ==> LineEquals(c1, c3)
    ensures c1.A == c2.A && c1.B == c2.B ==> LineEquals(c1, c2)
  {
  }

  /** Unequal lines differ in a coefficient, so their intersection is defined
      or lies at an infinity. */
  lemma UnequalLinesDiffer(c1: Line, c2: Line)
    requires LineUnequals(c1, c2)
    ensures c1.A != c2.A || c1.B != c2.B
  {
  }

  /** Pair.Equals: first line with first line and second with second. */
  predicate PairEquals(p1: Pair, p2: Pair)
  {
    LineEquals(p1.L1, p2.L1) && LineEquals(p1.l2, p2.l2)
  }

  /** Pair equality is order-sensitive: swapping the lines of a pair whose lines
      are unequal gives a pair that is not equal to it. */
  lemma PairEqualsOrderSensitive(p: Pair)
    requires LineUnequals(p.L1, p.l2)
    ensures !PairEquals(p, Pair(p.ix, p.iy, p.l2, p.L1))
    ensures PairEquals(p, p)
  {
  }

  // ---------------------------------------------------------------------------
  // Intersection and the x at a height

  /** HoughExtensions.CalculateIntersection: x = (B2 - B1) / (A1 - A2), y = A1 x + B1.
      Parallel lines with different intercepts meet at an infinite x, whose sign
      is that of B2 - B1, and then at the infinite y of the first line's slope. */
  function Intersection(l1c: Line, l2c: Line): (p: (ExtReal, ExtReal))
    requires l1c.A != l2c.A || l1c.B != l2c.B
    requires l1c.A == l2c.A ==> l1c.A != 0.0
    ensures l1c.A != l2c.A ==> p.0.Finite? && p.1.Finite?
    ensures l1c.A == l2c.A ==> !p.0.Finite? && !p.1.Finite?
    ensures l1c.A == l2c.A ==> (p.1 == NegInf <==> (l1c.A > 0.0) != (l2c.B > l1c.B))
  {
    if l1c.A != l2c.A then
      var x := (l2c.B - l1c.B) / (l1c.A - l2c.A);
      (Finite(x), Finite(l1c.A * x + l1c.B))
    else
      var x := if l2c.B > l1c.B then PosInf else NegInf;
      var y := if (l1c.A > 0.0) == (l2c.B > l1c.B) then PosInf else NegInf;
      (x, y)
  }

  /** Lines of different slopes meet at a point on both lines. */
  lemma IntersectionOnLines(l1c: Line, l2c: Line)
    requires l1c.A != l2c.A
    ensures var p := Intersection(l1c, l2c);
      p.1.v == l1c.A * p.0.v + l1c.B && p.1.v == l2c.A * p.0.v + l2c.B
  {
  }

  /** The y of an intersection lies below the top row of the image: strictly positive. */
  predicate Positive(y: ExtReal)
  {
    y == PosInf || (y.Finite? && y.v > 0.0)
  }

  /** The x at which line `l` reaches height `y`: -((B - y) / A). */
  function XAt(l: Line, y: real): real
    requires l.A != 0.0
  {
    -((l.B - y) / l.A)
  }

  /** The point (XAt(l, y), y) lies on l. */
  lemma XAtOnLine(l: Line, y: real)
    requires l.A != 0.0
    ensures l.A * XAt(l, y) + l.B == y
  {
  }

  /** HoughExtensions.GetX: where the line crosses y = 0. */
  function GetX(l: Line): real
    requires l.A != 0.0
  {
    -((l.B - 0.0) / l.A)
  }

  /** (GetX(l), 0) lies on l: GetX is the crossing with the top row. */
  lemma GetXOnAxis(l: Line)
    requires l.A != 0.0
    ensures l.A * GetX(l) + l.B == 0.0 && GetX(l) == XAt(l, 0.0)
  {
  }

  /** How far apart the two lines of a pair are at y = 0. */
  function Spread(p: Pair): (d: real)
    requires p.L1.A != 0.0 && p.l2.A != 0.0
    ensures d >= 0.0
  {
    var d := GetX(p.L1) - GetX(p.l2);
    if d < 0.0 then -d else d
  }

  // ---------------------------------------------------------------------------
  // Candidate pairs

  /** Every line has a nonzero slope: the slopes are -cot θ for angles that
      stay clear of the vertical and horizontal. */
  predicate Sloped(lines: seq<Line>)
  {
    forall k :: 0 <= k < |lines| ==> lines[k].A != 0.0
  }

  /** Both lines of every pair have a nonzero slope. */
  predicate PairsSloped(pairs: seq<Pair>)
  {
    forall k :: 0 <= k < |pairs| ==> pairs[k].L1.A != 0.0 && pairs[k].l2.A != 0.0
  }

  /** The intercept shift of the rough pairing: the first line moves up by 100
      when its slope is negative and down otherwise, the second the other way. */
  function Pad(A: real, first: bool): (d: real)
    ensures d == 100.0 || d == -100.0
    ensures first ==> (d > 0.0 <==> A < 0.0)
    ensures !first ==> (d > 0.0 <==> A >= 0.0)
  {
    if (A < 0.0) == first then 100.0 else -100.0
  }

  /** The pair stored for lines l1c and l2c meeting at `p`. */
  function MakePair(p: (ExtReal, ExtReal), l1c: Line, l2c: Line, rough: bool): (q: Pair)
    ensures q.ix == p.0 && q.iy == p.1 && q.L1.A == l1c.A && q.l2.A == l2c.A
    ensures !rough ==> q.L1 == l1c && q.l2 == l2c
    ensures rough ==> q.L1.B - l1c.B == Pad(l1c.A, true) && q.l2.B - l2c.B == Pad(l2c.A, false)
  {
    if rough then Pair(p.0, p.1, Line(l1c.A, l1c.B + Pad(l1c.A, true)), Line(l2c.A, l2c.B + Pad(l2c.A, false)))
    else Pair(p.0, p.1, l1c, l2c)
  }

  /** What iteration (i, j) of the pairing loops appends: nothing for lines that
      are equal after truncation or that meet below the top row, else one pair. */
  function Candidate(lines: seq<Line>, rough: bool, i: int, j: int): seq<Pair>
    requires Sloped(lines) && 0 <= i < |lines| && 0 <= j < |lines|
  {
    if LineEquals(lines[i], lines[j]) then []
    else
      var p := Intersection(lines[i], lines[j]);
      if Positive(p.1) then [] else [MakePair(p, lines[i], lines[j], rough)]
  }

  /** The pairs of line i with lines 0 .. n - 1. */
  function CandidateRow(lines: seq<Line>, rough: bool, i: int, n: nat): seq<Pair>
    requires Sloped(lines) && 0 <= i < |lines| && n <= |lines|
    decreases n
  {
    if n == 0 then [] else CandidateRow(lines, rough, i, n - 1) + Candidate(lines, rough, i, n - 1)
  }

  /** `potentialPairs` after rows 0 .. n - 1 of the pairing loops. */
  function Candidates(lines: seq<Line>, rough: bool, n: nat): seq<Pair>
    requires Sloped(lines) && n <= |lines|
    decreases n
  {
    if n == 0 then [] else Candidates(lines, rough, n - 1) + CandidateRow(lines, rough, n - 1, |lines|)
  }

  /** Pair `q` is what the loops store for some ordered (i, j) of unequal lines
      meeting at or above the top row. */
  ghost predicate FromLines(lines: seq<Line>, rough: bool, q: Pair)
    requires Sloped(lines)
  {
    exists i, j :: 0 <= i < |lines| && 0 <= j < |lines| && LineUnequals(lines[i], lines[j]) &&
      !Positive(Intersection(lines[i], lines[j]).1) && q == MakePair(Intersection(lines[i], lines[j]), lines[i], lines[j], rough)
  }

  lemma {:induction false} CandidateRowSound(lines: seq<Line>, rough: bool, i: int, n: nat)
    requires Sloped(lines) && 0 <= i < |lines| && n <= |lines|
    ensures forall q :: q in CandidateRow(lines, rough, i, n) ==> FromLines(lines, rough, q)
    decreases n
  {
    if n > 0 {
      CandidateRowSound(lines, rough, i, n - 1);
      var prev, here := CandidateRow(lines, rough, i, n - 1), Candidate(lines, rough, i, n - 1);
      assert CandidateRow(lines, rough, i, n) == prev + here;
      if here != [] {
        assert FromLines(lines, rough, here[0]) by {
          assert LineUnequals(lines[i], lines[n - 1]);
        }
      }
    }
  }

  /** Every stored pair comes from an ordered pair of unequal lines meeting at
      or above the top row (y <= 0). */
  lemma {:induction false} CandidatesSound(lines: seq<Line>, rough: bool, n: nat)
    requires Sloped(lines) && n <= |lines|
    ensures AllFromLines(lines, rough, Candidates(lines, rough, n))
    decreases n
  {
    if n > 0 {
      CandidatesSound(lines, rough, n - 1);
      CandidateRowSound(lines, rough, n - 1, |lines|);
      var prev, row := Candidates(lines, rough, n - 1), CandidateRow(lines, rough, n - 1, |lines|);
      assert Candidates(lines, rough, n) == prev + row;
      AllFromLinesAppend(lines, rough, prev, row);
    }
  }

  lemma AllFromLinesAppend(lines: seq<Line>, rough: bool, a: seq<Pair>, b: seq<Pair>)
    requires Sloped(lines) && AllFromLines(lines, rough, a) && AllFromLines(lines, rough, b)
    ensures AllFromLines(lines, rough, a + b)
  {
    forall q | q in a + b ensures FromLines(lines, rough, q) {
      assert q in a || q in b;
    }
  }

  lemma {:induction false} CandidateRowComplete(lines: seq<Line>, rough: bool, i: int, n: nat, j: int)
    requires Sloped(lines) && 0 <= i < |lines| && n <= |lines| && 0 <= j < n
    requires LineUnequals(lines[i], lines[j]) && !Positive(Intersection(lines[i], lines[j]).1)
    ensures MakePair(Intersection(lines[i], lines[j]), lines[i], lines[j], rough) in CandidateRow(lines, rough, i, n)
    decreases n
  {
    assert CandidateRow(lines, rough, i, n) == CandidateRow(lines, rough, i, n - 1) + Candidate(lines, rough, i, n - 1);
    if j < n - 1 {
      CandidateRowComplete(lines, rough, i, n - 1, j);
    }
  }

  /** Every ordered pair of unequal lines meeting at or above the top row is stored. */
  lemma {:induction false} CandidatesComplete(lines: seq<Line>, rough: bool, n: nat, i: int, j: int)
    requires Sloped(lines) && n <= |lines| && 0 <= i < n && 0 <= j < |lines|
    requires LineUnequals(lines[i], lines[j]) && !Positive(Intersection(lines[i], lines[j]).1)
    ensures MakePair(Intersection(lines[i], lines[j]), lines[i], lines[j], rough) in Candidates(lines, rough, n)
    decreases n
  {
    var q := MakePair(Intersection(lines[i], lines[j]), lines[i], lines[j], rough);
    var prev, row := Candidates(lines, rough, n - 1), CandidateRow(lines, rough, n - 1, |lines|);
    assert Candidates(lines, rough, n) == prev + row;
    if i < n - 1 {
      CandidatesComplete(lines, rough, n - 1, i, j);
      assert q in prev;
    } else {
      CandidateRowComplete(lines, rough, i, |lines|, j);
      assert q in row;
    }
  }

  /** The stored pairs keep the slopes of their lines, so they are sloped too. */
  lemma CandidatesSloped(lines: seq<Line>, rough: bool)
    requires Sloped(lines)
    ensures PairsSloped(Candidates(lines, rough, |lines|))
  {
    var c := Candidates(lines, rough, |lines|);
    CandidatesSound(lines, rough, |lines|);
    forall k | 0 <= k < |c| ensures c[k].L1.A != 0.0 && c[k].l2.A != 0.0 {
      assert FromLines(lines, rough, c[k]);
    }
  }

  /** One iteration of the inner pairing loop: whether lines i and j give a
      pair, and that pair. */
  method PairFor(lines: seq<Line>, rough: bool, i: int, j: int) returns (found: bool, pair: Pair)
    requires Sloped(lines) && 0 <= i < |lines| && 0 <= j < |lines|
    ensures Candidate(lines, rough, i, j) == if found then [pair] else []
  {
    if Truncate(lines[i].A) == Truncate(lines[j].A) && Truncate(lines[i].B) == Truncate(lines[j].B) {
      return false, Pair(NegInf, NegInf, lines[i], lines[j]);
    }
    var intersection := Intersection(lines[i], lines[j]);
    if Positive(intersection.1) {
      return false, Pair(NegInf, NegInf, lines[i], lines[j]);
    }
    var l1, l2;
    if rough {
      l1 := if lines[i].A < 0.0 then Line(lines[i].A, lines[i].B + 100.0) else Line(lines[i].A, lines[i].B - 100.0);
      l2 := if lines[j].A < 0.0 then Line(lines[j].A, lines[j].B - 100.0) else Line(lines[j].A, lines[j].B + 100.0);
    } else {
      l1 := lines[i];
      l2 := lines[j];
    }
    found, pair := true, Pair(intersection.0, intersection.1, l1, l2);
  }

  /** The two pairing loops of GetPairs and GetRoughPairs. */
  method CollectPairs(lines: seq<Line>, rough: bool) returns (potentialPairs: seq<Pair>)
    requires Sloped(lines)
    ensures potentialPairs == Candidates(lines, rough, |lines|)
  {
    potentialPairs := [];
    for i := 0 to |lines|
      invariant potentialPairs == Candidates(lines, rough, i)
    {
      potentialPairs := CollectRow(lines, rough, i, potentialPairs);
    }
  }

  /** The inner pairing loop for line i, appending to `acc`. */
  method CollectRow(lines: seq<Line>, rough: bool, i: int, acc: seq<Pair>) returns (r: seq<Pair>)
    requires Sloped(lines) && 0 <= i < |lines|
    ensures r == acc + CandidateRow(lines, rough, i, |lines|)
  {
    r := acc;
    for j := 0 to |lines|
      invariant r == acc + CandidateRow(lines, rough, i, j)
    {
      var found, pair := PairFor(lines, rough, i, j);
      assert CandidateRow(lines, rough, i, j + 1) == CandidateRow(lines, rough, i, j) + Candidate(lines, rough, i, j);
      if found {
        r := r + [pair];
      }
    }
  }

  // ---------------------------------------------------------------------------
  // Grouping by rounded y and sorting by y

  /** `Math.Round` of the intersection's y; the infinities round to themselves. */
  function Key(p: Pair): (k: ExtReal)
    ensures k.Finite? <==> p.iy.Finite?
  {
    match p.iy
    case Finite(v) => Finite(Round(v) as real)
    case _ => p.iy
  }

  /** Place `p` before the first element whose y is at least its own (the stable
      insertion of an ascending sort). */
  function Insert(p: Pair, s: seq<Pair>): (r: seq<Pair>)
    ensures multiset(r) == multiset(s) + multiset{p}
    decreases |s|
  {
    if |s| == 0 then [p]
    else if AtMost(p.iy, s[0].iy) then [p] + s
    else
      assert s == [s[0]] + s[1..];
      [s[0]] + Insert(p, s[1..])
  }

  /** `OrderBy(y)`: the stable ascending sort by intersection y. */
  function SortByY(s: seq<Pair>): (r: seq<Pair>)
    ensures multiset(r) == multiset(s)
    decreases |s|
  {
    if |s| == 0 then []
    else
      assert s == [s[0]] + s[1..];
      Insert(s[0], SortByY(s[1..]))
  }

  predicate Ascending(s: seq<Pair>)
  {
    forall k1, k2 :: 0 <= k1 < k2 < |s| ==> AtMost(s[k1].iy, s[k2].iy)
  }

  /** Non-increasing in y. */
  predicate Descending(s: seq<Pair>)
  {
    forall k1, k2 :: 0 <= k1 < k2 < |s| ==> AtMost(s[k2].iy, s[k1].iy)
  }

  lemma {:induction false} InsertAscending(p: Pair, s: seq<Pair>)
    requires Ascending(s)
    ensures Ascending(Insert(p, s))
    decreases |s|
  {
    if |s| > 0 {
      if AtMost(p.iy, s[0].iy) {
        forall k | 0 <= k < |s| ensures AtMost(p.iy, s[k].iy) {
          AtMostTransitive(p.iy, s[0].iy, s[k].iy);
        }
      } else {
        InsertAscending(p, s[1..]);
        AtMostTotal(p.iy, s[0].iy);
        var r := Insert(p, s[1..]);
        forall k | 0 <= k < |r| ensures AtMost(s[0].iy, r[k].iy) {
          assert r[k] in multiset(r);
          assert r[k] == p || r[k] in s[1..];
        }
      }
    }
  }

  /** The sort orders by y. */
  lemma {:induction false} SortByYAscending(s: seq<Pair>)
    ensures Ascending(SortByY(s))
    decreases |s|
  {
    if |s| > 0 {
      SortByYAscending(s[1..]);
      InsertAscending(s[0], SortByY(s[1..]));
    }
  }

  /** `Reverse()`. */
  function Reverse(s: seq<Pair>): (r: seq<Pair>)
    ensures |r| == |s|
    ensures forall k :: 0 <= k < |s| ==> r[k] == s[|s| - 1 - k]
    decreases |s|
  {
    if |s| == 0 then [] else Reverse(s[1..]) + [s[0]]
  }

  /** No two elements share a key. */
  predicate DistinctKeys(s: seq<Pair>)
  {
    forall k1, k2 :: 0 <= k1 < k2 < |s| ==> Key(s[k1]) != Key(s[k2])
  }

  lemma {:induction false} InsertDistinct(p: Pair, s: seq<Pair>)
    requires DistinctKeys(s) && forall q :: q in s ==> Key(q) != Key(p)
    ensures DistinctKeys(Insert(p, s))
    decreases |s|
  {
    if |s| > 0 && !AtMost(p.iy, s[0].iy) {
      InsertDistinct(p, s[1..]);
      var r := Insert(p, s[1..]);
      forall k | 0 <= k < |r| ensures Key(s[0]) != Key(r[k]) {
        assert r[k] in multiset(r);
        if r[k] != p {
          assert r[k] in multiset(s[1..]);
          var m :| 0 <= m < |s[1..]| && s[1..][m] == r[k];
          assert s[m + 1] == r[k];
        }
      }
      assert Insert(p, s) == [s[0]] + r;
    }
  }

  /** Sorting keeps distinct keys distinct. */
  lemma {:induction false} SortByYDistinct(s: seq<Pair>)
    requires DistinctKeys(s)
    ensures DistinctKeys(SortByY(s))
    decreases |s|
  {
    if |s| > 0 {
      SortByYDistinct(s[1..]);
      forall q | q in SortByY(s[1..]) ensures Key(q) != Key(s[0]) {
        assert q in multiset(SortByY(s[1..]));
      }
      InsertDistinct(s[0], SortByY(s[1..]));
    }
  }

  /** Reversing an ascending sequence gives a descending one. */
  lemma ReverseDescending(s: seq<Pair>)
    requires Ascending(s)
    ensures Descending(Reverse(s))
  {
    var r := Reverse(s);
    forall k1, k2 | 0 <= k1 < k2 < |r| ensures AtMost(r[k2].iy, r[k1].iy) {
      assert r[k1] == s[|s| - 1 - k1] && r[k2] == s[|s| - 1 - k2];
    }
  }

  /** Reversing keeps distinct keys distinct. */
  lemma ReverseDistinct(s: seq<Pair>)
    requires DistinctKeys(s)
    ensures DistinctKeys(Reverse(s))
  {
    var r := Reverse(s);
    forall k1, k2 | 0 <= k1 < k2 < |r| ensures Key(r[k1]) != Key(r[k2]) {
      assert r[k1] == s[|s| - 1 - k1] && r[k2] == s[|s| - 1 - k2];
    }
  }

  // ---------------------------------------------------------------------------
  // UniqueFilter

  /** Two pairs have a line in common (in either position). */
  predicate SharesLine(p: Pair, q: Pair)
  {
    LineEquals(p.L1, q.L1) || LineEquals(p.L1, q.l2) || LineEquals(p.l2, q.L1) || LineEquals(p.l2, q.l2)
  }

  /** What comparing pairs i and j marks as illegal: pair j when pair i is
      strictly narrower at y = 0, and pair i otherwise. */
  function Loser(pairs: seq<Pair>, i: int, j: int): Pair
    requires PairsSloped(pairs) && 0 <= i < |pairs| && 0 <= j < |pairs|
  {
    if Spread(pairs[i]) < Spread(pairs[j]) then pairs[j] else pairs[i]
  }

  /** The pair marked is one of the two compared, the one that is wider at
      y = 0 (at least as wide as either), and pair i on a tie. */
  lemma LoserIsWider(pairs: seq<Pair>, i: int, j: int)
    requires PairsSloped(pairs) && 0 <= i < |pairs| && 0 <= j < |pairs|
    ensures Loser(pairs, i, j) == pairs[i] || Loser(pairs, i, j) == pairs[j]
    ensures Spread(Loser(pairs, i, j)) >= Spread(pairs[i]) && Spread(Loser(pairs, i, j)) >= Spread(pairs[j])
    ensures Spread(pairs[i]) == Spread(pairs[j]) ==> Loser(pairs, i, j) == pairs[i]
  {
  }

  /** The entries appended to `illegals` by the inner loop for pair i over pairs 0 .. n - 1. */
  function IllegalRow(pairs: seq<Pair>, i: int, n: nat): seq<Pair>
    requires PairsSloped(pairs) && 0 <= i < |pairs| && n <= |pairs|
    decreases n
  {
    if n == 0 then []
    else
      var here := if n - 1 != i && SharesLine(pairs[i], pairs[n - 1]) then [Loser(pairs, i, n - 1)] else [];
      IllegalRow(pairs, i, n - 1) + here
  }

  /** `illegals` after the outer loop has handled pairs 0 .. n - 1. */
  function Illegals(pairs: seq<Pair>, n: nat): seq<Pair>
    requires PairsSloped(pairs) && n <= |pairs|
    decreases n
  {
    if n == 0 then [] else Illegals(pairs, n - 1) + IllegalRow(pairs, n - 1, |pairs|)
  }

  /** The test of the final `Where`: pair i stays unless some entry of `illegals`
      at a position other than i equals it. The position is an index into
      `illegals`, not into `pairs`, exactly as the source compares them. */
  function KeepFn(pairs: seq<Pair>, illegals: seq<Pair>): int -> bool
  {
    i => !(0 <= i < |pairs| && exists k :: 0 <= k < |illegals| && k != i && PairEquals(pairs[i], illegals[k]))
  }

  /** HoughExtensions.UniqueFilter as a value. */
  function Unique(pairs: seq<Pair>): (r: seq<Pair>)
    requires PairsSloped(pairs)
    ensures |r| <= |pairs|
  {
    Where(pairs, KeepFn(pairs, Illegals(pairs, |pairs|)), |pairs|)
  }

  lemma {:induction false} IllegalRowEntry(pairs: seq<Pair>, i: int, n: nat, j: int) returns (e: int)
    requires PairsSloped(pairs) && 0 <= i < |pairs| && n <= |pairs| && 0 <= j < n
    requires j != i && SharesLine(pairs[i], pairs[j])
    ensures 0 <= e < |IllegalRow(pairs, i, n)| && IllegalRow(pairs, i, n)[e] == Loser(pairs, i, j)
    decreases n
  {
    var prev := IllegalRow(pairs, i, n - 1);
    assert IllegalRow(pairs, i, n) == prev +
      (if n - 1 != i && SharesLine(pairs[i], pairs[n - 1]) then [Loser(pairs, i, n - 1)] else []);
    if j < n - 1 {
      e := IllegalRowEntry(pairs, i, n - 1, j);
    } else {
      e := |prev|;
    }
  }

  /** The entries for rows below m stay in place as later rows are appended. */
  lemma {:induction false} IllegalsPrefix(pairs: seq<Pair>, m: nat, n: nat)
    requires PairsSloped(pairs) && m <= n <= |pairs|
    ensures |Illegals(pairs, m)| <= |Illegals(pairs, n)|
    ensures forall k :: 0 <= k < |Illegals(pairs, m)| ==> Illegals(pairs, n)[k] == Illegals(pairs, m)[k]
    decreases n
  {
    if m < n {
      IllegalsPrefix(pairs, m, n - 1);
      var prev := Illegals(pairs, n - 1);
      assert Illegals(pairs, n) == prev + IllegalRow(pairs, n - 1, |pairs|);
    }
  }

  /** Later rows only append to `illegals`. */
  lemma {:induction false} IllegalsGrow(pairs: seq<Pair>, m: nat, n: nat)
    requires PairsSloped(pairs) && m <= n <= |pairs|
    ensures |Illegals(pairs, m)| <= |Illegals(pairs, n)|
    decreases n
  {
    if m < n {
      IllegalsGrow(pairs, m, n - 1);
      assert |Illegals(pairs, n)| == |Illegals(pairs, n - 1)| + |IllegalRow(pairs, n - 1, |pairs|)|;
    }
  }

  /** The entry of row i for pair j sits in the block that row i appends. */
  lemma IllegalsEntry(pairs: seq<Pair>, i: int, j: int) returns (e: int)
    requires PairsSloped(pairs) && 0 <= i < |pairs| && 0 <= j < |pairs|
    requires j != i && SharesLine(pairs[i], pairs[j])
    ensures |Illegals(pairs, i)| <= e < |Illegals(pairs, i + 1)| <= |Illegals(pairs, |pairs|)|
    ensures Illegals(pairs, |pairs|)[e] == Loser(pairs, i, j)
  {
    var d := IllegalRowEntry(pairs, i, |pairs|, j);
    var prev, row := Illegals(pairs, i), IllegalRow(pairs, i, |pairs|);
    assert Illegals(pairs, i + 1) == prev + row;
    e := |prev| + d;
    assert Illegals(pairs, i + 1)[e] == row[d];
    IllegalsPrefix(pairs, i + 1, |pairs|);
  }

  /** The filter's promise: when pair j shares a line with another pair i and is
      strictly wider at y = 0, pair j is dropped (both comparisons mark it, so
      an entry at a position other than j equals it). */
  lemma WiderSharingPairDropped(pairs: seq<Pair>, i: int, j: int)
    requires PairsSloped(pairs) && 0 <= i < |pairs| && 0 <= j < |pairs| && i != j
    requires SharesLine(pairs[i], pairs[j]) && Spread(pairs[i]) < Spread(pairs[j])
    ensures !KeepFn(pairs, Illegals(pairs, |pairs|))(j)
    ensures j !in Kept(KeepFn(pairs, Illegals(pairs, |pairs|)), |pairs|)
  {
    var ill := Illegals(pairs, |pairs|);
    LoserIsWider(pairs, i, j);
    LoserIsWider(pairs, j, i);
    var e1, e2 := MarkedTwice(pairs, i, j);
    LineEqualsEquivalence(pairs[j].L1, pairs[j].L1, pairs[j].L1);
    LineEqualsEquivalence(pairs[j].l2, pairs[j].l2, pairs[j].l2);
    var k := if e1 != j then e1 else e2;
    assert 0 <= k < |ill| && k != j && PairEquals(pairs[j], ill[k]);
  }

  /** When pair j loses both comparisons with pair i, both append pair j, at
      two different positions of `illegals`. */
  lemma MarkedTwice(pairs: seq<Pair>, i: int, j: int) returns (e1: int, e2: int)
    requires PairsSloped(pairs) && 0 <= i < |pairs| && 0 <= j < |pairs| && i != j
    requires SharesLine(pairs[i], pairs[j]) && Loser(pairs, i, j) == pairs[j] && Loser(pairs, j, i) == pairs[j]
    ensures 0 <= e1 < |Illegals(pairs, |pairs|)| && 0 <= e2 < |Illegals(pairs, |pairs|)| && e1 != e2
    ensures Illegals(pairs, |pairs|)[e1] == pairs[j] && Illegals(pairs, |pairs|)[e2] == pairs[j]
  {
    e1 := IllegalsEntry(pairs, i, j);
    assert SharesLine(pairs[j], pairs[i]);
    e2 := IllegalsEntry(pairs, j, i);
    if i < j {
      BlocksInOrder(pairs, i, j, e1, e2);
    } else {
      BlocksInOrder(pairs, j, i, e2, e1);
    }
  }

  /** Entries appended by an earlier row sit before those of a later row. */
  lemma BlocksInOrder(pairs: seq<Pair>, a: int, b: int, ea: int, eb: int)
    requires PairsSloped(pairs) && 0 <= a < b < |pairs|
    requires ea < |Illegals(pairs, a + 1)| && |Illegals(pairs, b)| <= eb
    ensures ea < eb
  {
    IllegalsGrow(pairs, a + 1, b);
  }

  /** When no two pairs share a line, nothing is marked and every pair is kept. */
  lemma NoSharingKeepsAll(pairs: seq<Pair>)
    requires PairsSloped(pairs)
    requires forall i, j :: 0 <= i < |pairs| && 0 <= j < |pairs| && i != j ==> !SharesLine(pairs[i], pairs[j])
    ensures Unique(pairs) == pairs
  {
    NoSharingNoIllegals(pairs, |pairs|);
    WhereAll(pairs, KeepFn(pairs, Illegals(pairs, |pairs|)), |pairs|);
  }

  lemma {:induction false} NoSharingNoIllegals(pairs: seq<Pair>, n: nat)
    requires PairsSloped(pairs) && n <= |pairs|
    requires forall i, j :: 0 <= i < |pairs| && 0 <= j < |pairs| && i != j ==> !SharesLine(pairs[i], pairs[j])
    ensures Illegals(pairs, n) == []
    decreases n
  {
    if n > 0 {
      NoSharingNoIllegals(pairs, n - 1);
      NoSharingEmptyRow(pairs, n - 1, |pairs|);
      assert Illegals(pairs, n) == Illegals(pairs, n - 1) + IllegalRow(pairs, n - 1, |pairs|);
    }
  }

  lemma {:induction false} NoSharingEmptyRow(pairs: seq<Pair>, i: int, n: nat)
    requires PairsSloped(pairs) && 0 <= i < |pairs| && n <= |pairs|
    requires forall j :: 0 <= j < |pairs| && i != j ==> !SharesLine(pairs[i], pairs[j])
    ensures IllegalRow(pairs, i, n) == []
    decreases n
  {
    if n > 0 {
      NoSharingEmptyRow(pairs, i, n - 1);
    }
  }

  /** The filter keeps the relative order of what it keeps: a descending input
      gives a descending output, and distinct keys stay distinct. */
  lemma UniqueOrdered(pairs: seq<Pair>)
    requires PairsSloped(pairs)
    ensures Descending(pairs) ==> Descending(Unique(pairs))
    ensures DistinctKeys(pairs) ==> DistinctKeys(Unique(pairs))
    ensures forall q :: q in Unique(pairs) ==> q in pairs
  {
    var keep := KeepFn(pairs, Illegals(pairs, |pairs|));
    WhereAt(pairs, keep, |pairs|);
    var idx := Kept(keep, |pairs|);
    var r := Unique(pairs);
    forall q | q in r ensures q in pairs {
      WhereSubset(pairs, keep, |pairs|, q);
    }
    forall k1, k2 | 0 <= k1 < k2 < |r|
      ensures r[k1] == pairs[idx[k1]] && r[k2] == pairs[idx[k2]] && idx[k1] < idx[k2]
    {
    }
  }

  /** HoughExtensions.UniqueFilter: two loops collect the illegal entries, then
      the pairs no other entry equals are kept in order. `height` is unused, as
      in the source. */
  method UniqueFilter(pairs: seq<Pair>, height: int) returns (r: seq<Pair>)
    requires PairsSloped(pairs)
    ensures r == Unique(pairs)
  {
    var illegals := [];
    for i := 0 to |pairs|
      invariant illegals == Illegals(pairs, i)
    {
      var diff1 := Spread(pairs[i]);
      for j := 0 to |pairs|
        invariant illegals == Illegals(pairs, i) + IllegalRow(pairs, i, j)
      {
        if i == j {
          continue;
        }
        var diff2 := Spread(pairs[j]);
        if !LineEquals(pairs[i].L1, pairs[j].L1) && !LineEquals(pairs[i].L1, pairs[j].l2) &&
           !LineEquals(pairs[i].l2, pairs[j].L1) && !LineEquals(pairs[i].l2, pairs[j].l2)
        {
          continue;
        }
        illegals := illegals + [if diff1 < diff2 then pairs[j] else pairs[i]];
      }
    }
    r := Where(pairs, KeepFn(pairs, illegals), |pairs|);
  }

  // ---------------------------------------------------------------------------
  // GetPairs and GetRoughPairs

  /** Every element of `s` is a pair stored by the pairing loops. */
  ghost predicate AllFromLines(lines: seq<Line>, rough: bool, s: seq<Pair>)
    requires Sloped(lines)
  {
    forall q :: q in s ==> FromLines(lines, rough, q)
  }

  lemma FromLinesSloped(lines: seq<Line>, rough: bool, s: seq<Pair>)
    requires Sloped(lines) && AllFromLines(lines, rough, s)
    ensures PairsSloped(s)
  {
    forall k | 0 <= k < |s| ensures s[k].L1.A != 0.0 && s[k].l2.A != 0.0 {
      assert FromLines(lines, rough, s[k]);
    }
  }

  /** The candidate pairs, one per rounded intersection y (the first met),
      ordered by descending y: the list handed to UniqueFilter. */
  function Arranged(lines: seq<Line>, rough: bool): seq<Pair>
    requires Sloped(lines)
  {
    Reverse(SortByY(FirstPerKey(Candidates(lines, rough, |lines|), Key)))
  }

  /** The arranged list holds only stored pairs, is ordered by descending y and
      has no two pairs whose intersections round to the same y. */
  lemma ArrangedFacts(lines: seq<Line>, rough: bool)
    requires Sloped(lines)
    ensures AllFromLines(lines, rough, Arranged(lines, rough))
    ensures PairsSloped(Arranged(lines, rough))
    ensures Descending(Arranged(lines, rough))
    ensures DistinctKeys(Arranged(lines, rough))
  {
    var c := Candidates(lines, rough, |lines|);
    var f := FirstPerKey(c, Key);
    var s := SortByY(f);
    ArrangedFromLines(lines, rough, c);
    FromLinesSloped(lines, rough, Reverse(s));
    SortByYAscending(f);
    ReverseDescending(s);
    FirstPerKeyDistinct(c, Key);
    SortByYDistinct(f);
    ReverseDistinct(s);
  }

  /** Keeping the first pair per key, sorting and reversing only rearrange
      stored pairs. */
  lemma ArrangedFromLines(lines: seq<Line>, rough: bool, c: seq<Pair>)
    requires Sloped(lines) && c == Candidates(lines, rough, |lines|)
    ensures AllFromLines(lines, rough, Reverse(SortByY(FirstPerKey(c, Key))))
  {
    var f := FirstPerKey(c, Key);
    var s := SortByY(f);
    var r := Reverse(s);
    forall q | q in r ensures q in c {
      ReverseMembers(s, q);
      SortByYMembers(f, q);
      FirstPerKeySubset(c, Key, q);
    }
    CandidatesSound(lines, rough, |lines|);
    AllFromLinesSubset(lines, rough, c, r);
  }

  lemma AllFromLinesSubset(lines: seq<Line>, rough: bool, a: seq<Pair>, b: seq<Pair>)
    requires Sloped(lines) && AllFromLines(lines, rough, a) && forall q :: q in b ==> q in a
    ensures AllFromLines(lines, rough, b)
  {
  }

  /** Reversing brings in no new pair. */
  lemma ReverseMembers(s: seq<Pair>, q: Pair)
    requires q in Reverse(s)
    ensures q in s
  {
    var r := Reverse(s);
    var k :| 0 <= k < |r| && r[k] == q;
    assert s[|s| - 1 - k] == q;
  }

  /** Sorting brings in no new pair. */
  lemma SortByYMembers(f: seq<Pair>, q: Pair)
    requires q in SortByY(f)
    ensures q in f
  {
    assert q in multiset(SortByY(f));
  }

  /** What GetPairs (rough == false) and GetRoughPairs (rough == true) return. */
  function PairsOf(lines: seq<Line>, rough: bool): seq<Pair>
    requires Sloped(lines)
  {
    ArrangedFacts(lines, rough);
    Unique(Arranged(lines, rough))
  }

  /** The promise of the pairing: every returned pair is two unequal input
      lines (padded by 100 in the rough variant) meeting at or above the top
      row, the list runs from the lowest such intersection upwards (descending
      y), and no two returned intersections round to the same y. */
  lemma PairsOfFacts(lines: seq<Line>, rough: bool)
    requires Sloped(lines)
    ensures AllFromLines(lines, rough, PairsOf(lines, rough))
    ensures forall q :: q in PairsOf(lines, rough) ==> !Positive(q.iy)
    ensures Descending(PairsOf(lines, rough))
    ensures DistinctKeys(PairsOf(lines, rough))
  {
    ArrangedFacts(lines, rough);
    var a := Arranged(lines, rough);
    UniqueOrdered(a);
    forall q | q in PairsOf(lines, rough) ensures FromLines(lines, rough, q) && !Positive(q.iy) {
      assert q in a;
      assert FromLines(lines, rough, q);
    }
  }

  /** The shared body of GetPairs and GetRoughPairs (the loop over an empty
      `result` list that follows in the source never runs and is left out). */
  method PairLines(lines: seq<Line>, height: int, rough: bool) returns (sorted: seq<Pair>)
    requires Sloped(lines)
    ensures sorted == PairsOf(lines, rough)
    ensures AllFromLines(lines, rough, sorted)
    ensures Descending(sorted) && DistinctKeys(sorted)
  {
    var potentialPairs := CollectPairs(lines, rough);
    var filtered := FirstPerKey(potentialPairs, Key);
    sorted := Reverse(SortByY(filtered));
    ArrangedFacts(lines, rough);
    sorted := UniqueFilter(sorted, height);
    PairsOfFacts(lines, rough);
  }

  /** HoughExtensions.GetPairs. */
  method GetPairs(lines: seq<Line>, height: int) returns (sorted: seq<Pair>)
    requires Sloped(lines)
    ensures sorted == PairsOf(lines, false)
    ensures forall q :: q in sorted ==> FromLines(lines, false, q) && !Positive(q.iy)
    ensures Descending(sorted) && DistinctKeys(sorted)
  {
    sorted := PairLines(lines, height, false);
    PairsOfFacts(lines, false);
  }

  /** HoughExtensions.GetRoughPairs. */
  method GetRoughPairs(lines: seq<Line>, height: int) returns (sorted: seq<Pair>)
    requires Sloped(lines)
    ensures sorted == PairsOf(lines, true)
    ensures forall q :: q in sorted ==> FromLines(lines, true, q) && !Positive(q.iy)
    ensures Descending(sorted) && DistinctKeys(sorted)
  {
    sorted := PairLines(lines, height, true);
    PairsOfFacts(lines, true);
  }

  // ---------------------------------------------------------------------------
  // CleanOutsidePairs

  /** Pixel (x, y) lies between the two lines of `p` on row y: at or left of the
      first line and at or right of the second. */
  predicate Between(p: Pair, x: int, y: int)
    requires p.L1.A != 0.0 && p.l2.A != 0.0
  {
    x as real <= XAt(p.L1, y as real) && x as real >= XAt(p.l2, y as real)
  }

  /** Some pair has (x, y) between its lines. */
  predicate InsideSome(pairs: seq<Pair>, x: int, y: int)
    requires PairsSloped(pairs)
  {
    exists k :: 0 <= k < |pairs| && Between(pairs[k], x, y)
  }

  /** The image CleanOutsidePairs returns: pixels between the lines of some pair
      keep their value, all others are 0. */
  function Cleaned(g: Grid<byte>, w: nat, h: nat, pairs: seq<Pair>): (r: Grid<byte>)
    requires IsGrid(g, w, h) && PairsSloped(pairs)
    ensures IsGrid(r, w, h)
  {
    seq(w, x requires 0 <= x < w => seq(h, y requires 0 <= y < h => if InsideSome(pairs, x, y) then g[x][y] else 0))
  }

  /** Cleaning only blanks pixels: each pixel is kept or zeroed, and it is kept
      exactly when some pair encloses it. */
  lemma CleanedKeepsOrZeroes(g: Grid<byte>, w: nat, h: nat, pairs: seq<Pair>)
    requires IsGrid(g, w, h) && PairsSloped(pairs)
    ensures forall x, y :: 0 <= x < w && 0 <= y < h ==>
      (InsideSome(pairs, x, y) ==> Cleaned(g, w, h, pairs)[x][y] == g[x][y]) &&
      (!InsideSome(pairs, x, y) ==> Cleaned(g, w, h, pairs)[x][y] == 0)
  {
  }

  /** With no pairs the whole image is blanked. */
  lemma CleanedNoPairs(g: Grid<byte>, w: nat, h: nat)
    requires IsGrid(g, w, h)
    ensures forall x, y :: 0 <= x < w && 0 <= y < h ==> Cleaned(g, w, h, [])[x][y] == 0
  {
  }

  /** More pairs keep more: a pixel kept for `pairs` is kept for `pairs + more`. */
  lemma CleanedMonotone(g: Grid<byte>, w: nat, h: nat, pairs: seq<Pair>, more: seq<Pair>, x: int, y: int)
    requires IsGrid(g, w, h) && PairsSloped(pairs) && PairsSloped(more) && 0 <= x < w && 0 <= y < h
    requires InsideSome(pairs, x, y)
    ensures PairsSloped(pairs + more)
    ensures Cleaned(g, w, h, pairs + more)[x][y] == g[x][y]
  {
    var all := pairs + more;
    forall k | 0 <= k < |all| ensures all[k].L1.A != 0.0 && all[k].l2.A != 0.0 {
      if k < |pairs| {
        assert all[k] == pairs[k];
      } else {
        assert all[k] == more[k - |pairs|];
      }
    }
    var k :| 0 <= k < |pairs| && Between(pairs[k], x, y);
    assert all[k] == pairs[k];
  }

  /** The inner loop of CleanOutsidePairs: whether some pair encloses (x, y). */
  method InsideAny(pairs: seq<Pair>, x: int, y: int) returns (inBetween: bool)
    requires PairsSloped(pairs)
    ensures inBetween <==> InsideSome(pairs, x, y)
  {
    inBetween := false;
    for i := 0 to |pairs|
      invariant inBetween <==> exists k :: 0 <= k < i && Between(pairs[k], x, y)
    {
      var xl0 := -((pairs[i].L1.B - y as real) / pairs[i].L1.A);
      var xl1 := -((pairs[i].l2.B - y as real) / pairs[i].l2.A);
      if x as real <= xl0 && x as real >= xl1 {
        inBetween := true;
      }
    }
  }

  /** HoughExtensions.CleanOutsidePairs. */
  method CleanOutsidePairs(image: array2<byte>, pairs: seq<Pair>) returns (result: array2<byte>)
    requires PairsSloped(pairs)
    ensures fresh(result)
    ensures result.Length0 == image.Length0 && result.Length1 == image.Length1
    ensures Cells(result) == Cleaned(Cells(image), image.Length0, image.Length1, pairs)
  {
    result := new byte[image.Length0, image.Length1]((_, _) => 0);
    for x := 0 to image.Length0
      invariant forall i, j :: 0 <= i < x && 0 <= j < image.Length1 ==>
        result[i, j] == if InsideSome(pairs, i, j) then image[i, j] else 0
      invariant forall i, j :: x <= i < image.Length0 && 0 <= j < image.Length1 ==> result[i, j] == 0
    {
      for y := 0 to image.Length1
        invariant forall i, j :: 0 <= j < image.Length1 && (0 <= i < x || (i == x && j < y)) ==>
          result[i, j] == if InsideSome(pairs, i, j) then image[i, j] else 0
        invariant forall i, j :: 0 <= j < image.Length1 && (x < i < image.Length0 || (i == x && y <= j)) ==> result[i, j] == 0
      {
        var inBetween := InsideAny(pairs, x, y);
        if inBetween {
          result[x, y] := image[x, y];
        }
      }
    }
    CellsOf(result, Cleaned(Cells(image), image.Length0, image.Length1, pairs));
  }
}

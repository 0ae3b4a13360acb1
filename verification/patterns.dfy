/**
 * Boards given by the list of their living squares, and what one generation
 * does to them: the living-neighbour count of a square is the number of
 * listed squares touching it, and a three-cell bar (the pattern the game is
 * seeded with) turns by a quarter each generation.
 */
module Patterns {
  import opened Cells
  import opened Grids
  import opened Rules
  import Arith

  /** A rows×cols board whose living squares are exactly those listed in `live`. */
  function Pattern(rows: nat, cols: nat, live: seq<Coord>): (cells: seq<Cell>)
    ensures |cells| == rows * cols
    ensures forall x: Coord :: x.0 < rows && x.1 < cols ==>
              (cells[Offset(rows, cols, x)].Living() <==> x in live)
  {
    seq(rows * cols, i requires 0 <= i < rows * cols =>
      Arith.QuotientInRange(i, rows, cols);
      if (i / cols, i % cols) in live then Cell(Alive) else Cell(Dead))
  }

  /** How many of the listed squares touch `x`. */
  function AdjacentCount(live: seq<Coord>, x: Coord): nat
  {
    if live == [] then 0
    else AdjacentCount(live[..|live| - 1], x) + (if Adjacent(live[|live| - 1], x) then 1 else 0)
  }

  /** How many elements of `s` belong to `members`. */
  function CountIn(s: seq<Coord>, members: set<Coord>): nat
  {
    if s == [] then 0
    else CountIn(s[..|s| - 1], members) + (if s[|s| - 1] in members then 1 else 0)
  }

  predicate Distinct(s: seq<Coord>)
  {
    forall i, j :: 0 <= i < j < |s| ==> s[i] != s[j]
  }

  function Elements(s: seq<Coord>): set<Coord>
  {
    set x | x in s
  }

  lemma DistinctSnoc(s: seq<Coord>)
    requires Distinct(s) && s != []
    ensures Distinct(s[..|s| - 1]) && s[|s| - 1] !in Elements(s[..|s| - 1])
    ensures Elements(s) == Elements(s[..|s| - 1]) + {s[|s| - 1]}
  {
    var p := s[..|s| - 1];
    assert s == p + [s[|s| - 1]];
    forall i | 0 <= i < |p| ensures p[i] != s[|s| - 1] {
      assert p[i] == s[i];
    }
  }

  lemma MeetSnoc(a: set<Coord>, y: Coord, members: set<Coord>)
    requires y !in a
    ensures |(a + {y}) * members| == |a * members| + (if y in members then 1 else 0)
  {
    if y in members {
      assert (a + {y}) * members == a * members + {y};
    } else {
      assert (a + {y}) * members == a * members;
    }
  }

  lemma {:induction false} CountInIsCardinality(s: seq<Coord>, members: set<Coord>)
    requires Distinct(s)
    ensures CountIn(s, members) == |Elements(s) * members|
  {
    if s != [] {
      DistinctSnoc(s);
      CountInIsCardinality(s[..|s| - 1], members);
      MeetSnoc(Elements(s[..|s| - 1]), s[|s| - 1], members);
    }
  }

  lemma {:induction false} LivingCountOfPattern(rows: nat, cols: nat, live: seq<Coord>, coords: seq<Coord>)
    requires InGrid(coords, rows, cols)
    ensures LivingCount(CellsAt(Pattern(rows, cols, live), rows, cols, coords)) == CountIn(coords, Elements(live))
  {
    if coords != [] {
      var p := coords[..|coords| - 1];
      LivingCountOfPattern(rows, cols, live, p);
      var board := Pattern(rows, cols, live);
      var s := CellsAt(board, rows, cols, coords);
      assert s[..|s| - 1] == CellsAt(board, rows, cols, p);
    }
  }

  lemma {:induction false} AdjacentCountIsCountIn(rows: nat, cols: nat, live: seq<Coord>, row: nat, col: nat)
    requires 1 <= rows && 1 <= cols && InGrid(live, rows, cols)
    ensures AdjacentCount(live, (row, col)) == CountIn(live, Elements(NeighbourCoords(rows, cols, row, col)))
  {
    NeighbourWindow(rows, cols, row, col);
    if live != [] {
      AdjacentCountIsCountIn(rows, cols, live[..|live| - 1], row, col);
    }
  }

  lemma SortedIsDistinct(s: seq<Coord>)
    requires RowMajorSorted(s)
    ensures Distinct(s)
  {
  }

  /**
   * On a board whose living squares are those listed (without repeats), a
   * square's living-neighbour count is the number of listed squares touching it.
   */
  lemma LivingNeighboursOfPattern(rows: nat, cols: nat, live: seq<Coord>, row: nat, col: nat)
    requires 1 <= rows && 1 <= cols && InGrid(live, rows, cols) && Distinct(live)
    ensures LivingCount(NeighbourCells(Pattern(rows, cols, live), rows, cols, row, col)) == AdjacentCount(live, (row, col))
  {
    var n := NeighbourCoords(rows, cols, row, col);
    NeighbourWindow(rows, cols, row, col);
    SortedIsDistinct(n);
    LivingCountOfPattern(rows, cols, live, n);
    CountInIsCardinality(n, Elements(live));
    AdjacentCountIsCountIn(rows, cols, live, row, col);
    CountInIsCardinality(live, Elements(n));
    assert Elements(n) * Elements(live) == Elements(live) * Elements(n);
  }

  /** Three living squares in a row, centred on `(r, c)`. */
  function HorizontalBar(r: nat, c: nat): seq<Coord>
    requires 1 <= c
  {
    [(r, c - 1), (r, c), (r, c + 1)]
  }

  /** Three living squares in a column, centred on `(r, c)`. */
  function VerticalBar(r: nat, c: nat): seq<Coord>
    requires 1 <= r
  {
    [(r - 1, c), (r, c), (r + 1, c)]
  }

  function Indicator(b: bool): nat
  {
    if b then 1 else 0
  }

  lemma AdjacentCountOfThree(a: Coord, b: Coord, c: Coord, x: Coord)
    ensures AdjacentCount([a, b, c], x) == Indicator(Adjacent(a, x)) + Indicator(Adjacent(b, x)) + Indicator(Adjacent(c, x))
  {
    assert [a, b, c][..2] == [a, b];
    assert AdjacentCount([a, b, c], x) == AdjacentCount([a, b], x) + Indicator(Adjacent(c, x));
    assert [a, b][..1] == [a];
    assert AdjacentCount([a, b], x) == AdjacentCount([a], x) + Indicator(Adjacent(b, x));
    assert [a][..0] == [];
    assert AdjacentCount([a], x) == AdjacentCount([], x) + Indicator(Adjacent(a, x));
  }

  /**
   * Around a horizontal bar, a bar square has 2 or 3 bar neighbours only at
   * the centre, and any other square has 3 only just above or below the centre.
   */
  lemma HorizontalBarCounts(r: nat, c: nat, x: Coord)
    requires 1 <= r && 1 <= c
    ensures x in HorizontalBar(r, c) ==>
              (AdjacentCount(HorizontalBar(r, c), x) in {2, 3} <==> x == (r, c))
    ensures x !in HorizontalBar(r, c) ==>
              (AdjacentCount(HorizontalBar(r, c), x) == 3 <==> x == (r - 1, c) || x == (r + 1, c))
  {
    AdjacentCountOfThree((r, c - 1), (r, c), (r, c + 1), x);
  }

  /** The same for a vertical bar, with rows and columns exchanged. */
  lemma VerticalBarCounts(r: nat, c: nat, x: Coord)
    requires 1 <= r && 1 <= c
    ensures x in VerticalBar(r, c) ==>
              (AdjacentCount(VerticalBar(r, c), x) in {2, 3} <==> x == (r, c))
    ensures x !in VerticalBar(r, c) ==>
              (AdjacentCount(VerticalBar(r, c), x) == 3 <==> x == (r, c - 1) || x == (r, c + 1))
  {
    AdjacentCountOfThree((r - 1, c), (r, c), (r + 1, c), x);
  }

  /** Both bars about an inner square lie on the board, without repeats. */
  lemma BarsOnBoard(rows: nat, cols: nat, r: nat, c: nat)
    requires 1 <= r && r + 1 < rows && 1 <= c && c + 1 < cols
    ensures InGrid(HorizontalBar(r, c), rows, cols) && Distinct(HorizontalBar(r, c))
    ensures InGrid(VerticalBar(r, c), rows, cols) && Distinct(VerticalBar(r, c))
  {
  }

  lemma HorizontalToVertical(rows: nat, cols: nat, r: nat, c: nat, x: Coord)
    requires 1 <= r && r + 1 < rows && 1 <= c && c + 1 < cols && x.0 < rows && x.1 < cols
    ensures NextGeneration(Pattern(rows, cols, HorizontalBar(r, c)), rows, cols)[Offset(rows, cols, x)]
            == Pattern(rows, cols, VerticalBar(r, c))[Offset(rows, cols, x)]
  {
    var before, after := Pattern(rows, cols, HorizontalBar(r, c)), Pattern(rows, cols, VerticalBar(r, c));
    var i := Offset(rows, cols, x);
    var n := LivingCount(NeighbourCells(before, rows, cols, x.0, x.1));
    BarsOnBoard(rows, cols, r, c);
    LivingNeighboursOfPattern(rows, cols, HorizontalBar(r, c), x.0, x.1);
    HorizontalBarCounts(r, c, x);
    var s := NextState(before[i], n);
    assert before[i].Living() <==> x in HorizontalBar(r, c);
    if x in HorizontalBar(r, c) {
      assert s == Alive <==> x == (r, c);
    } else {
      assert s == Alive <==> x == (r - 1, c) || x == (r + 1, c);
    }
    assert s == Alive <==> x in VerticalBar(r, c);
    assert NextGeneration(before, rows, cols)[i] == Cell(s);
    assert after[i].Living() <==> x in VerticalBar(r, c);
  }

  lemma VerticalToHorizontal(rows: nat, cols: nat, r: nat, c: nat, x: Coord)
    requires 1 <= r && r + 1 < rows && 1 <= c && c + 1 < cols && x.0 < rows && x.1 < cols
    ensures NextGeneration(Pattern(rows, cols, VerticalBar(r, c)), rows, cols)[Offset(rows, cols, x)]
            == Pattern(rows, cols, HorizontalBar(r, c))[Offset(rows, cols, x)]
  {
    var before, after := Pattern(rows, cols, VerticalBar(r, c)), Pattern(rows, cols, HorizontalBar(r, c));
    var i := Offset(rows, cols, x);
    var n := LivingCount(NeighbourCells(before, rows, cols, x.0, x.1));
    BarsOnBoard(rows, cols, r, c);
    LivingNeighboursOfPattern(rows, cols, VerticalBar(r, c), x.0, x.1);
    VerticalBarCounts(r, c, x);
    var s := NextState(before[i], n);
    assert before[i].Living() <==> x in VerticalBar(r, c);
    if x in VerticalBar(r, c) {
      assert s == Alive <==> x == (r, c);
    } else {
      assert s == Alive <==> x == (r, c - 1) || x == (r, c + 1);
    }
    assert s == Alive <==> x in HorizontalBar(r, c);
    assert NextGeneration(before, rows, cols)[i] == Cell(s);
    assert after[i].Living() <==> x in HorizontalBar(r, c);
  }

  lemma HorizontalBecomesVertical(rows: nat, cols: nat, r: nat, c: nat)
    requires 1 <= r && r + 1 < rows && 1 <= c && c + 1 < cols
    ensures NextGeneration(Pattern(rows, cols, HorizontalBar(r, c)), rows, cols) == Pattern(rows, cols, VerticalBar(r, c))
  {
    var next, v := NextGeneration(Pattern(rows, cols, HorizontalBar(r, c)), rows, cols), Pattern(rows, cols, VerticalBar(r, c));
    forall x: Coord | x.0 < rows && x.1 < cols ensures next[Offset(rows, cols, x)] == v[Offset(rows, cols, x)] {
      HorizontalToVertical(rows, cols, r, c, x);
    }
    EqualBySquares(next, v, rows, cols);
  }

  lemma VerticalBecomesHorizontal(rows: nat, cols: nat, r: nat, c: nat)
    requires 1 <= r && r + 1 < rows && 1 <= c && c + 1 < cols
    ensures NextGeneration(Pattern(rows, cols, VerticalBar(r, c)), rows, cols) == Pattern(rows, cols, HorizontalBar(r, c))
  {
    var next, h := NextGeneration(Pattern(rows, cols, VerticalBar(r, c)), rows, cols), Pattern(rows, cols, HorizontalBar(r, c));
    forall x: Coord | x.0 < rows && x.1 < cols ensures next[Offset(rows, cols, x)] == h[Offset(rows, cols, x)] {
      VerticalToHorizontal(rows, cols, r, c, x);
    }
    EqualBySquares(next, h, rows, cols);
  }

  /**
   * The blinker: a horizontal bar of three turns into a vertical one about the
   * same centre, and back, wherever it lies strictly inside the board.
   */
  lemma BlinkerOscillates(rows: nat, cols: nat, r: nat, c: nat)
    requires 1 <= r && r + 1 < rows && 1 <= c && c + 1 < cols
    ensures NextGeneration(Pattern(rows, cols, HorizontalBar(r, c)), rows, cols) == Pattern(rows, cols, VerticalBar(r, c))
    ensures NextGeneration(NextGeneration(Pattern(rows, cols, HorizontalBar(r, c)), rows, cols), rows, cols)
            == Pattern(rows, cols, HorizontalBar(r, c))
  {
    HorizontalBecomesVertical(rows, cols, r, c);
    VerticalBecomesHorizontal(rows, cols, r, c);
  }
}

/** Geometry of the square minefield: coordinates, the Moore neighbourhood,
    the adjacency count each non-mine cell holds, and the cardinality facts
    the engine's win test relies on. */
module Grid {

  /** A cell address; `x` indexes the first dimension of the engine's arrays. */
  datatype Cords = Cords(x: int, y: int)

  /** The sentinel a mine cell holds in place of an adjacency count. */
  const MINE: int := -1

  predicate InBounds(c: Cords, size: int) {
    0 <= c.x < size && 0 <= c.y < size
  }

  function Abs(n: int): nat {
    if n < 0 then -n else n
  }

  /** Chebyshev distance at most 1: the same cell or one of its Moore neighbours. */
  predicate Near(a: Cords, b: Cords) {
    Abs(a.x - b.x) <= 1 && Abs(a.y - b.y) <= 1
  }

  /** All cells of a `size` by `size` grid. */
  ghost function Cells(size: nat): set<Cords> {
    set x, y | 0 <= x < size && 0 <= y < size :: Cords(x, y)
  }

  lemma CellsMembership(size: nat, c: Cords)
    ensures c in Cells(size) <==> InBounds(c, size)
  {
  }

  /** The mines among the (up to eight) Moore neighbours of `c`. */
  ghost function MinesAround(mines: set<Cords>, c: Cords): set<Cords> {
    set m | m in mines && m != c && Near(m, c)
  }

  /** What a fully generated field holds at `c`: the sentinel on a mine,
      otherwise the number of mines in the Moore neighbourhood. */
  ghost function CellValue(mines: set<Cords>, c: Cords): int {
    if c in mines then MINE else |MinesAround(mines, c)|
  }

  /** The eight Moore neighbours of `c`, written out. */
  ghost function Ring(c: Cords): set<Cords> {
    {Cords(c.x - 1, c.y - 1), Cords(c.x - 1, c.y), Cords(c.x - 1, c.y + 1),
     Cords(c.x, c.y - 1), Cords(c.x, c.y + 1),
     Cords(c.x + 1, c.y - 1), Cords(c.x + 1, c.y), Cords(c.x + 1, c.y + 1)}
  }

  /** An adjacency count never exceeds 8, so every cell of a generated
      field holds MINE or a value in 0..8. */
  lemma CellValueRange(mines: set<Cords>, c: Cords)
    ensures c in mines <==> CellValue(mines, c) == MINE
    ensures c !in mines ==> 0 <= CellValue(mines, c) <= 8
  {
    var around := MinesAround(mines, c);
    forall m | m in around ensures m in Ring(c) {
      assert m.x - c.x in {-1, 0, 1} && m.y - c.y in {-1, 0, 1};
    }
    SubsetCard(around, Ring(c));
  }

  lemma SubsetCard<T>(a: set<T>, b: set<T>)
    requires a <= b
    ensures |a| <= |b|
  {
    assert b == a + (b - a);
  }

  /** Placing one more mine `s` raises the count of exactly the cells next to it. */
  lemma MinesAroundInsert(mines: set<Cords>, s: Cords, c: Cords)
    requires s !in mines && c != s
    ensures |MinesAround(mines + {s}, c)| == |MinesAround(mines, c)| + (if Near(s, c) then 1 else 0)
  {
    if Near(s, c) {
      assert MinesAround(mines + {s}, c) == MinesAround(mines, c) + {s};
    } else {
      assert MinesAround(mines + {s}, c) == MinesAround(mines, c);
    }
  }

  /** A cell whose count is 0 has no mine among its neighbours: the fact
      that keeps the reveal cascade from opening a mine. */
  lemma ZeroCellHasSafeNeighbours(mines: set<Cords>, c: Cords, n: Cords)
    requires CellValue(mines, c) == 0 && Near(n, c)
    ensures n !in mines
  {
    if n != c {
      assert n in mines ==> n in MinesAround(mines, c);
    }
  }

  /** The cells of row `x` with column below `k`. */
  ghost function RowPrefix(x: int, k: nat): set<Cords> {
    set y | 0 <= y < k :: Cords(x, y)
  }

  /** The cells of the first `k` rows of a grid `n` wide, row by row. */
  ghost function Rows(k: nat, n: nat): set<Cords> {
    if k == 0 then {} else Rows(k - 1, n) + RowPrefix(k - 1, n)
  }

  lemma {:induction false} RowPrefixCard(x: int, k: nat)
    ensures |RowPrefix(x, k)| == k
  {
    if k > 0 {
      RowPrefixCard(x, k - 1);
      assert RowPrefix(x, k) == RowPrefix(x, k - 1) + {Cords(x, k - 1)};
    }
  }

  lemma {:induction false} RowsMembership(k: nat, n: nat, c: Cords)
    ensures c in Rows(k, n) <==> 0 <= c.x < k && 0 <= c.y < n
  {
    if k > 0 {
      RowsMembership(k - 1, n, c);
      if c.x == k - 1 && 0 <= c.y < n {
        assert c == Cords(k - 1, c.y);
      }
    }
  }

  lemma {:induction false} RowsCard(k: nat, n: nat)
    ensures |Rows(k, n)| == k * n
  {
    if k > 0 {
      RowsCard(k - 1, n);
      RowPrefixCard(k - 1, n);
      var row, above := RowPrefix(k - 1, n), Rows(k - 1, n);
      forall c | c in row ensures c !in above {
        RowsMembership(k - 1, n, c);
      }
      calc {
        |Rows(k, n)|;
        == |above + row|;
        == { assert above !! row; }
        |above| + |row|;
        == (k - 1) * n + n;
        == k * n;
      }
    }
  }

  /** A grid of side `size` has `size * size` cells. */
  lemma CellsCard(size: nat)
    ensures |Cells(size)| == size * size
  {
    RowsCard(size, size);
    forall c | c in Cells(size) + Rows(size, size)
      ensures c in Cells(size) && c in Rows(size, size)
    {
      CellsMembership(size, c);
      RowsMembership(size, size, c);
    }
    assert Cells(size) == Rows(size, size);
  }

  /** The win test by counting: with no mine revealed, the number of revealed
      cells reaches `size * size - |mines|` exactly when every safe cell is revealed. */
  lemma WonIffAllSafeRevealed(size: nat, mines: set<Cords>, revealed: set<Cords>)
    requires mines <= Cells(size) && revealed <= Cells(size) && revealed !! mines
    ensures |revealed| == size * size - |mines| <==> revealed == Cells(size) - mines
  {
    var safe := Cells(size) - mines;
    CellsCard(size);
    assert Cells(size) == safe + mines;
    assert |safe| == size * size - |mines|;
    assert revealed <= safe;
    assert safe == revealed + (safe - revealed);
    if |revealed| == |safe| {
      assert safe - revealed == {};
    }
  }
}

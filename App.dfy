/** The reveal cascade of the game window's click handler, with the button,
    sound, timer and dialog calls taken out: what remains is the recursion
    over the engine. */
module App {
  import opened Grid
  import opened Game

  /** Every in-bounds Moore neighbour of `d` is revealed or flagged. */
  ghost predicate Covered(size: nat, revealed: set<Cords>, flagged: set<Cords>, d: Cords) {
    forall n :: InBounds(n, size) && Near(n, d) ==> n in revealed || n in flagged
  }

  /** Reveals `c` and, when that reveal succeeded on a safe cell with count 0
      and did not win the game, recursively every in-bounds Moore neighbour.
      A live game has no revealed mine: the window starts a new game as soon
      as one is revealed. */
  method HandleReveal(game: GameMan, c: Cords, samples: seq<Cords>) returns (ghost order: seq<Cords>)
    requires game.Valid() && InBounds(c, game.size)
    requires game.firstClick ==> SamplesSuffice(samples, c, game.size, game.numMines)
    requires game.Revealed !! game.Mines
    modifies game, game.field, game.revealed
    decreases Cells(game.size) - game.Revealed, 2
    ensures game.Valid()
    ensures game.Flagged == old(game.Flagged) && game.flagsPlaced == old(game.flagsPlaced)
    ensures old(game.Revealed) <= game.Revealed
    ensures !old(game.firstClick) ==> game.Mines == old(game.Mines) && game.Anchor == old(game.Anchor)
    // the first successful click generates the field around `c`
    ensures old(game.firstClick) && c !in old(game.Flagged) ==>
      game.Anchor == c && exists k :: 0 <= k <= |samples| && game.Mines == AcceptedSamples(samples[..k], c)
    // the cascade proceeds only from a cell the engine agreed to reveal
    ensures c in old(game.Revealed) || c in old(game.Flagged) ==> unchanged(game, game.field, game.revealed)
    ensures c !in old(game.Revealed) && c !in old(game.Flagged) ==> c in game.Revealed
    // no mine is revealed as a side effect
    ensures forall d :: d in game.Revealed && d != c ==> d !in game.Mines
    // a mine, a nonzero count or a winning reveal stops the cascade at `c`
    ensures CellValue(game.Mines, c) != 0 ==> game.Revealed <= old(game.Revealed) + {c}
    ensures old(game.revealedCount) + 1 == game.size * game.size - game.numMines ==>
      game.Revealed <= old(game.Revealed) + {c}
    // every cell the cascade opened with count 0 has all its neighbours open or flagged
    ensures forall d :: d in game.Revealed - old(game.Revealed) && CellValue(game.Mines, d) == 0 ==>
      Covered(game.size, game.Revealed, game.Flagged, d)
    // `order` lists the opened cells, `c` first, each later one next to an
    // earlier opened count-0 cell: the cascade stays in the region of `c`
    ensures forall d :: d in game.Revealed - old(game.Revealed) <==> d in order
    ensures |order| > 0 ==> order[0] == c
    ensures Chained(order, game.Mines)
  {
    order := [];
    var ok := game.Reveal(c, samples);
    if !ok { return; }
    order := [c];

    if game.IsMine(c) { return; }

    if game.HasWon() {
      forall n | InBounds(n, game.size) && Near(n, c) && CellValue(game.Mines, c) == 0
        ensures n in game.Revealed
      {
        ZeroCellHasSafeNeighbours(game.Mines, c, n);
        CellsMembership(game.size, n);
      }
      return;
    }

    if game.GetCell(c) == 0 {
      if old(game.firstClick) {
        assert old(game.Revealed) == {};
      }
      order := Cascade(game, c, samples, old(game.Revealed));
    }
  }

  /** A click opens only cells joined to the clicked cell by a walk of Moore
      neighbours that leaves only count-0 cells opened by that same click. */
  method ClickOpensRegion(game: GameMan, c: Cords, samples: seq<Cords>)
    requires game.Valid() && InBounds(c, game.size)
    requires game.firstClick ==> SamplesSuffice(samples, c, game.size, game.numMines)
    requires game.Revealed !! game.Mines
    modifies game, game.field, game.revealed
    ensures game.Valid()
    ensures forall d :: d in game.Revealed - old(game.Revealed) ==>
      exists p ::
        (ZeroWalk(p, game.Mines) && p[0] == c && p[|p| - 1] == d &&
         forall k :: 0 <= k < |p| ==> p[k] in game.Revealed - old(game.Revealed))
  {
    ghost var before := game.Revealed;
    ghost var order := HandleReveal(game, c, samples);
    forall d | d in game.Revealed - before
      ensures exists p ::
        (ZeroWalk(p, game.Mines) && p[0] == c && p[|p| - 1] == d &&
         forall k :: 0 <= k < |p| ==> p[k] in game.Revealed - before)
    {
      var i :| 0 <= i < |order| && order[i] == d;
      ChainedWalk(order, game.Mines, i);
    }
  }

  /** The double loop over the offsets -1..1 of the count-0 cell `c` that
      `HandleReveal` has just opened; `was` is the revealed set before. */
  method Cascade(game: GameMan, c: Cords, samples: seq<Cords>, ghost was: set<Cords>)
    returns (ghost order: seq<Cords>)
    requires game.Valid() && !game.firstClick
    requires InBounds(c, game.size) && CellValue(game.Mines, c) == 0
    requires game.Revealed == was + {c} && c !in was
    requires game.Revealed !! game.Mines
    modifies game, game.field, game.revealed
    decreases Cells(game.size) - was, 1
    ensures game.Valid() && !game.firstClick
    ensures game.Flagged == old(game.Flagged) && game.Mines == old(game.Mines)
    ensures game.Anchor == old(game.Anchor)
    ensures old(game.Revealed) <= game.Revealed && game.Revealed !! game.Mines
    ensures Covered(game.size, game.Revealed, game.Flagged, c)
    ensures forall d :: d in game.Revealed - old(game.Revealed) && CellValue(game.Mines, d) == 0 ==>
      Covered(game.size, game.Revealed, game.Flagged, d)
    ensures forall d :: d in game.Revealed - was <==> d in order
    ensures |order| > 0 && order[0] == c && Chained(order, game.Mines)
  {
    ghost var start := game.Revealed;
    order := [c];
    for dx := -1 to 2
      invariant game.Valid() && !game.firstClick
      invariant game.Flagged == old(game.Flagged) && game.Mines == old(game.Mines)
      invariant game.Anchor == old(game.Anchor)
      invariant start <= game.Revealed && game.Revealed !! game.Mines
      invariant Spreading(game.size, game.Mines, game.Flagged, start, game.Revealed, c, dx, -1)
      invariant forall d :: d in game.Revealed - was <==> d in order
      invariant |order| > 0 && order[0] == c && Chained(order, game.Mines)
    {
      for dy := -1 to 2
        invariant game.Valid() && !game.firstClick
        invariant game.Flagged == old(game.Flagged) && game.Mines == old(game.Mines)
        invariant game.Anchor == old(game.Anchor)
        invariant start <= game.Revealed && game.Revealed !! game.Mines
        invariant Spreading(game.size, game.Mines, game.Flagged, start, game.Revealed, c, dx, dy)
        invariant forall d :: d in game.Revealed - was <==> d in order
        invariant |order| > 0 && order[0] == c && Chained(order, game.Mines)
      {
        ghost var mid := game.Revealed;
        ghost var sub := VisitNeighbour(game, c, dx, dy, samples, was, start);
        ChainedAppend(order, sub, game.Mines);
        OrderExtends(was, mid, game.Revealed, order, sub);
        order := order + sub;
      }
      SpreadingNextRow(game.size, game.Mines, game.Flagged, start, game.Revealed, c, dx);
    }
  }

  /** One iteration of the cascade's double loop: the neighbour of the
      count-0 cell `c` at offset (dx, dy) is handed to `HandleReveal` when it
      lies on the board. `was` is the revealed set before `c` was opened. */
  method VisitNeighbour(game: GameMan, c: Cords, dx: int, dy: int, samples: seq<Cords>,
                        ghost was: set<Cords>, ghost start: set<Cords>)
    returns (ghost sub: seq<Cords>)
    requires game.Valid() && !game.firstClick
    requires InBounds(c, game.size) && CellValue(game.Mines, c) == 0
    requires -1 <= dx <= 1 && -1 <= dy <= 1
    requires was <= start && c in start && c !in was
    requires start <= game.Revealed && game.Revealed !! game.Mines
    requires Spreading(game.size, game.Mines, game.Flagged, start, game.Revealed, c, dx, dy)
    modifies game, game.field, game.revealed
    decreases Cells(game.size) - was, 0
    ensures game.Valid() && !game.firstClick
    ensures game.Flagged == old(game.Flagged) && game.Mines == old(game.Mines)
    ensures old(game.Revealed) <= game.Revealed && game.Revealed !! game.Mines
    ensures game.Anchor == old(game.Anchor)
    ensures Spreading(game.size, game.Mines, game.Flagged, start, game.Revealed, c, dx, dy + 1)
    // the cells the visit opened, the neighbour first
    ensures forall d :: d in game.Revealed - old(game.Revealed) <==> d in sub
    ensures |sub| > 0 ==> Near(sub[0], c)
    ensures Chained(sub, game.Mines)
  {
    sub := [];
    var nx, ny := c.x + dx, c.y + dy;
    var n := Cords(nx, ny);
    if nx >= 0 && ny >= 0 && nx < game.GetSize() && ny < game.GetSize() {
      ZeroCellHasSafeNeighbours(game.Mines, c, n);
      CascadeShrinks(game.size, was, game.Revealed, c);
      ghost var before := game.Revealed;
      sub := HandleReveal(game, n, samples);
      SpreadingStep(game.size, game.Mines, game.Flagged, start, before, game.Revealed, c, n, dx, dy);
    } else {
      SpreadingStep(game.size, game.Mines, game.Flagged, start, game.Revealed, game.Revealed, c, n, dx, dy);
    }
  }

  /** The loop state of the cascade from the count-0 cell `c`: cells opened
      since `start` are not mines and are closed under the cascade rule, and
      the neighbours of `c` already visited in row-major order up to offset
      (dx, dy) are revealed or flagged. */
  ghost predicate Spreading(size: nat, mines: set<Cords>, flagged: set<Cords>, start: set<Cords>,
                            revealed: set<Cords>, c: Cords, dx: int, dy: int)
  {
    (forall d :: d in revealed - start && CellValue(mines, d) == 0 ==>
       Covered(size, revealed, flagged, d)) &&
    (forall n :: InBounds(n, size) && Near(n, c) && Processed(n.x - c.x, n.y - c.y, dx, dy) ==>
       n in revealed || n in flagged)
  }

  /** One recursive call on the neighbour at offset (dx, dy) keeps the loop state. */
  lemma SpreadingStep(size: nat, mines: set<Cords>, flagged: set<Cords>, start: set<Cords>,
                      before: set<Cords>, after: set<Cords>, c: Cords, n: Cords, dx: int, dy: int)
    requires Spreading(size, mines, flagged, start, before, c, dx, dy)
    requires start <= before
    requires -1 <= dx <= 1 && -1 <= dy <= 1
    requires before <= after
    requires n.x == c.x + dx && n.y == c.y + dy
    requires InBounds(n, size) ==> n in after || n in flagged
    requires forall d :: d in after - before && CellValue(mines, d) == 0 ==>
      Covered(size, after, flagged, d)
    ensures Spreading(size, mines, flagged, start, after, c, dx, dy + 1)
  {
  }

  /** Every cell of `order` after the first lies next to an earlier cell of
      `order` whose count is 0. */
  ghost predicate Chained(order: seq<Cords>, mines: set<Cords>) {
    forall i :: 0 < i < |order| ==> Linked(order, mines, i)
  }

  /** `order[i]` lies next to an earlier count-0 cell of `order`. */
  ghost predicate Linked(order: seq<Cords>, mines: set<Cords>, i: int)
    requires 0 <= i < |order|
  {
    exists j :: 0 <= j < i && CellValue(mines, order[j]) == 0 && Near(order[i], order[j])
  }

  /** The cells a neighbour's visit opened, appended to the opening order of
      the count-0 cell `a[0]`, keep the order chained. */
  lemma ChainedAppend(a: seq<Cords>, b: seq<Cords>, mines: set<Cords>)
    requires |a| > 0 && CellValue(mines, a[0]) == 0
    requires Chained(a, mines) && Chained(b, mines)
    requires |b| > 0 ==> Near(b[0], a[0])
    ensures Chained(a + b, mines)
  {
    var ab := a + b;
    forall i | 0 < i < |ab|
      ensures Linked(ab, mines, i)
    {
      if i < |a| {
        assert Linked(a, mines, i);
        var j :| 0 <= j < i && CellValue(mines, a[j]) == 0 && Near(a[i], a[j]);
        assert ab[j] == a[j] && ab[i] == a[i];
      } else if i == |a| {
        assert ab[0] == a[0] && ab[i] == b[0];
      } else {
        assert Linked(b, mines, i - |a|);
        var j :| 0 <= j < i - |a| && CellValue(mines, b[j]) == 0 && Near(b[i - |a|], b[j]);
        assert ab[|a| + j] == b[j] && ab[i] == b[i - |a|];
      }
    }
  }

  /** The cells opened after `mid`, listed by `sub`, extend the listing
      `order` of the cells opened after `was`. */
  lemma OrderExtends(was: set<Cords>, mid: set<Cords>, after: set<Cords>,
                     order: seq<Cords>, sub: seq<Cords>)
    requires was <= mid <= after
    requires forall d :: d in mid - was <==> d in order
    requires forall d :: d in after - mid <==> d in sub
    ensures forall d :: d in after - was <==> d in order + sub
  {
  }

  /** A walk through Moore neighbours that leaves only count-0 cells. */
  ghost predicate ZeroWalk(p: seq<Cords>, mines: set<Cords>) {
    |p| > 0 &&
    forall k :: 0 <= k < |p| - 1 ==> CellValue(mines, p[k]) == 0 && Near(p[k + 1], p[k])
  }

  /** In a chained opening order every cell is joined to the first one by a
      walk through count-0 cells of the order: together with `HandleReveal`'s
      contract, the cascade opens only the count-0 region around the clicked
      cell and that region's border. */
  lemma {:induction false} ChainedWalk(order: seq<Cords>, mines: set<Cords>, i: nat)
    requires Chained(order, mines) && i < |order|
    ensures exists p ::
      (ZeroWalk(p, mines) && p[0] == order[0] && p[|p| - 1] == order[i] &&
       forall k :: 0 <= k < |p| ==> p[k] in order)
  {
    if i == 0 {
      var p := [order[0]];
      assert ZeroWalk(p, mines) && p[0] == order[0] && p[|p| - 1] == order[i];
    } else {
      assert Linked(order, mines, i);
      var j :| 0 <= j < i && CellValue(mines, order[j]) == 0 && Near(order[i], order[j]);
      ChainedWalk(order, mines, j);
      var p :| ZeroWalk(p, mines) && p[0] == order[0] && p[|p| - 1] == order[j] &&
        (forall k :: 0 <= k < |p| ==> p[k] in order);
      var q := p + [order[i]];
      forall k | 0 <= k < |q| - 1
        ensures CellValue(mines, q[k]) == 0 && Near(q[k + 1], q[k])
      {
        if k < |p| - 1 {
          assert q[k] == p[k] && q[k + 1] == p[k + 1];
        }
      }
      assert ZeroWalk(q, mines) && q[0] == order[0] && q[|q| - 1] == order[i];
      assert forall k :: 0 <= k < |q| ==> q[k] in order by {
        forall k | 0 <= k < |q| ensures q[k] in order {
          if k < |p| { assert q[k] == p[k]; }
        }
      }
    }
  }

  /** Finishing a row of offsets moves the loop state to the next row. */
  lemma SpreadingNextRow(size: nat, mines: set<Cords>, flagged: set<Cords>, start: set<Cords>,
                         revealed: set<Cords>, c: Cords, dx: int)
    requires Spreading(size, mines, flagged, start, revealed, c, dx, 2)
    ensures Spreading(size, mines, flagged, start, revealed, c, dx + 1, -1)
  {
  }

  /** Each recursive call follows a successful reveal, so the set of
      unrevealed cells has strictly shrunk. */
  lemma CascadeShrinks(size: nat, was: set<Cords>, now: set<Cords>, c: Cords)
    requires was <= now && c in now && c !in was && InBounds(c, size)
    ensures Cells(size) - now < Cells(size) - was
  {
  }
}

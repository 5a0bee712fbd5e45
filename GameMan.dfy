/** The minefield engine: a square field of adjacency counts and mines that is
    generated lazily around the first revealed cell, with revealed and flagged
    marks kept in step with two counters. */
module Game {
  import opened Grid
  import opened Difficulties

  /** The distinct cells of the sample stream that the placement loop turns
      into mines: every sample outside the 3x3 safe zone around `anchor`. */
  function AcceptedSamples(samples: seq<Cords>, anchor: Cords): set<Cords> {
    set s | s in samples && !Near(s, anchor)
  }

  /** The injected stream of random coordinates stays inside the field and
      holds enough distinct acceptable cells for the placement loop to finish. */
  predicate SamplesSuffice(samples: seq<Cords>, anchor: Cords, size: nat, mines: nat) {
    (forall k :: 0 <= k < |samples| ==> InBounds(samples[k], size)) &&
    |AcceptedSamples(samples, anchor)| >= mines
  }

  /** One more sample adds itself to the accepted cells unless it lies in the safe zone. */
  lemma AcceptedSamplesStep(samples: seq<Cords>, i: nat, anchor: Cords)
    requires i < |samples|
    ensures Near(samples[i], anchor) ==>
      AcceptedSamples(samples[..i + 1], anchor) == AcceptedSamples(samples[..i], anchor)
    ensures !Near(samples[i], anchor) ==>
      AcceptedSamples(samples[..i + 1], anchor) == AcceptedSamples(samples[..i], anchor) + {samples[i]}
  {
  }

  /** Accepted cells lie on the field and outside the safe zone. */
  lemma AcceptedSamplesInside(samples: seq<Cords>, k: nat, anchor: Cords, size: nat)
    requires k <= |samples| && forall j :: 0 <= j < |samples| ==> InBounds(samples[j], size)
    ensures forall m :: m in AcceptedSamples(samples[..k], anchor) ==> InBounds(m, size) && !Near(m, anchor)
  {
  }

  /** Offset (ox, oy) comes before (dx, dy) in the row-major order of the
      neighbour loops. */
  ghost predicate Processed(ox: int, oy: int, dx: int, dy: int) {
    ox < dx || (ox == dx && oy < dy)
  }

  /** 1 for a safe neighbour of the new mine `s` whose count the neighbour
      loops have not incremented yet at position (dx, dy), otherwise 0. */
  ghost function Owed(mines: set<Cords>, s: Cords, c: Cords, dx: int, dy: int): int {
    if c !in mines && Near(c, s) && !Processed(c.x - s.x, c.y - s.y, dx, dy) then 1 else 0
  }

  class GameMan {
    const size: nat
    const numMines: nat
    const field: array2<int>
    const revealed: array2<bool>
    const flagged: array2<bool>
    var revealedCount: int
    var flagsPlaced: int
    var firstClick: bool

    // Abstract view of the arrays: the mine cells, the revealed cells, the
    // flagged cells, and the first-click cell the field was generated around.
    ghost var Mines: set<Cords>
    ghost var Revealed: set<Cords>
    ghost var Flagged: set<Cords>
    ghost var Anchor: Cords

    /** Dimensions and configuration, fixed at construction. */
    ghost predicate Shape()
      reads this
    {
      field.Length0 == size && field.Length1 == size &&
      revealed.Length0 == size && revealed.Length1 == size &&
      flagged.Length0 == size && flagged.Length1 == size &&
      revealed != flagged &&
      0 < numMines < size * size - 9
    }

    /** Every cell holds MINE or the exact count of mines around it. */
    ghost predicate FieldHolds(mines: set<Cords>)
      reads this, field
    {
      forall x, y {:trigger field[x, y]} :: 0 <= x < field.Length0 && 0 <= y < field.Length1 ==>
        field[x, y] == CellValue(mines, Cords(x, y))
    }

    /** The boolean arrays agree with the abstract sets. */
    ghost predicate MarksMirror()
      reads this, revealed, flagged
    {
      (forall x, y {:trigger revealed[x, y]} :: 0 <= x < revealed.Length0 && 0 <= y < revealed.Length1 ==>
         (revealed[x, y] <==> Cords(x, y) in Revealed)) &&
      (forall x, y {:trigger flagged[x, y]} :: 0 <= x < flagged.Length0 && 0 <= y < flagged.Length1 ==>
         (flagged[x, y] <==> Cords(x, y) in Flagged))
    }

    ghost predicate Valid()
      reads this, field, revealed, flagged
    {
      Shape() && FieldHolds(Mines) && MarksMirror() &&
      (forall c :: c in Mines ==> InBounds(c, size)) &&
      (forall c :: c in Revealed ==> InBounds(c, size)) &&
      (forall c :: c in Flagged ==> InBounds(c, size)) &&
      // the counters count the marks; mines that were revealed count too
      revealedCount == |Revealed| && flagsPlaced == |Flagged| &&
      // no cell is both revealed and flagged
      Revealed !! Flagged &&
      // the field is generated on the first successful reveal, around that cell
      (firstClick <==> Revealed == {}) &&
      (firstClick ==> Mines == {}) &&
      (!firstClick ==>
         |Mines| == numMines && Anchor in Revealed &&
         (forall m :: m in Mines ==> !Near(m, Anchor)))
    }

    constructor (difficulty: Difficulty)
      ensures Valid()
      ensures size == difficulty.Size() && numMines == difficulty.Mines()
      ensures firstClick && Mines == {} && Revealed == {} && Flagged == {}
      ensures fresh(field) && fresh(revealed) && fresh(flagged)
    {
      var n := difficulty.Size();
      size := n;
      numMines := difficulty.Mines();
      field := new int[n, n]((_, _) => 0);
      revealed := new bool[n, n]((_, _) => false);
      flagged := new bool[n, n]((_, _) => false);
      revealedCount, flagsPlaced := 0, 0;
      firstClick := true;
      Mines, Revealed, Flagged := {}, {}, {};
      Anchor := Cords(0, 0);
      new;
      forall x, y | 0 <= x < n && 0 <= y < n
        ensures field[x, y] == CellValue({}, Cords(x, y))
      {
        assert MinesAround({}, Cords(x, y)) == {};
      }
    }

    function GetSize(): (n: nat)
      reads this, field, revealed, flagged
      requires Valid()
      ensures n == field.Length0 == field.Length1 && n * n > numMines + 9
    {
      size
    }

    function IsMine(c: Cords): (b: bool)
      reads this, field, revealed, flagged
      requires Valid() && InBounds(c, size)
      ensures b <==> c in Mines
    {
      CellValueRange(Mines, c);
      field[c.x, c.y] == MINE
    }

    function GetCell(c: Cords): (v: int)
      reads this, field, revealed, flagged
      requires Valid() && InBounds(c, size)
      ensures v == MINE <==> c in Mines
      ensures c !in Mines ==> v == |MinesAround(Mines, c)| && 0 <= v <= 8
    {
      CellValueRange(Mines, c);
      field[c.x, c.y]
    }

    function GetFlagsPlaced(): (n: int)
      reads this, field, revealed, flagged
      requires Valid()
      ensures n == |Flagged|
    {
      flagsPlaced
    }

    function IsRevealed(c: Cords): (b: bool)
      reads this, field, revealed, flagged
      requires Valid() && InBounds(c, size)
      ensures b <==> c in Revealed
    {
      revealed[c.x, c.y]
    }

    function IsFlagged(c: Cords): (b: bool)
      reads this, field, revealed, flagged
      requires Valid() && InBounds(c, size)
      ensures b <==> c in Flagged
    {
      flagged[c.x, c.y]
    }

    /** Flips the flag of an unrevealed cell; a revealed cell is left alone. */
    method ToggleFlag(c: Cords)
      requires Valid() && InBounds(c, size)
      modifies this`flagsPlaced, this`Flagged, flagged
      ensures Valid()
      ensures c in old(Revealed) ==>
        Flagged == old(Flagged) && flagsPlaced == old(flagsPlaced) && unchanged(flagged)
      ensures c !in old(Revealed) && c in old(Flagged) ==>
        Flagged == old(Flagged) - {c} && flagsPlaced == old(flagsPlaced) - 1
      ensures c !in old(Revealed) && c !in old(Flagged) ==>
        Flagged == old(Flagged) + {c} && flagsPlaced == old(flagsPlaced) + 1
      ensures c !in old(Revealed) ==> flagged[c.x, c.y] == !old(flagged[c.x, c.y])
    {
      if revealed[c.x, c.y] { return; }

      flagged[c.x, c.y] := !flagged[c.x, c.y];
      if flagged[c.x, c.y] {
        flagsPlaced := flagsPlaced + 1;
        Flagged := Flagged + {c};
      } else {
        flagsPlaced := flagsPlaced - 1;
        Flagged := Flagged - {c};
      }
    }

    /** Reveals an unflagged, unrevealed cell, generating the field around it
        first when it is the first such reveal. Returns whether it did. */
    method Reveal(c: Cords, samples: seq<Cords>) returns (ok: bool)
      requires Valid() && InBounds(c, size)
      requires firstClick ==> SamplesSuffice(samples, c, size, numMines)
      modifies this`revealedCount, this`firstClick, this`Revealed, this`Mines, this`Anchor,
        field, revealed
      ensures Valid()
      ensures ok <==> c !in old(Flagged) && c !in old(Revealed)
      ensures !ok ==> unchanged(this, field, revealed)
      ensures ok ==> Revealed == old(Revealed) + {c} && revealedCount == old(revealedCount) + 1
      ensures ok && old(firstClick) ==>
        Anchor == c && exists k :: 0 <= k <= |samples| && Mines == AcceptedSamples(samples[..k], c)
      ensures !(ok && old(firstClick)) ==> Mines == old(Mines) && Anchor == old(Anchor) && unchanged(field)
    {
      if flagged[c.x, c.y] || revealed[c.x, c.y] { return false; }

      if firstClick {
        GenerateField(c, samples);
        firstClick := false;
        Anchor := c;
      }

      revealed[c.x, c.y] := true;
      Revealed := Revealed + {c};
      revealedCount := revealedCount + 1;
      return true;
    }

    /** The reveal counter has reached the number of safe cells. */
    function HasWon(): (w: bool)
      reads this, field, revealed, flagged
      requires Valid()
      ensures w ==> !firstClick
      ensures Revealed !! Mines ==> (w <==> Revealed == Cells(size) - Mines)
    {
      WonCharacterised();
      revealedCount == size * size - numMines
    }

    /** With no mine revealed, the win test's counter comparison means
        that the revealed cells are exactly the safe ones. */
    lemma WonCharacterised()
      requires Valid()
      ensures Revealed !! Mines ==>
        (revealedCount == size * size - numMines <==> Revealed == Cells(size) - Mines)
    {
      if Revealed !! Mines {
        forall c | c in Mines ensures c in Cells(size) { CellsMembership(size, c); }
        forall c | c in Revealed ensures c in Cells(size) { CellsMembership(size, c); }
        assert Cords(0, 0) in Cells(size) by { CellsMembership(size, Cords(0, 0)); }
        WonIffAllSafeRevealed(size, Mines, Revealed);
      }
    }

    /** Places `numMines` mines by rejection sampling: a sample that already
        holds a mine or lies within Chebyshev distance 1 of `safe` is skipped. */
    method GenerateField(safe: Cords, samples: seq<Cords>)
      requires Shape() && InBounds(safe, size) && Mines == {} && FieldHolds(Mines)
      requires SamplesSuffice(samples, safe, size, numMines)
      modifies this`Mines, field
      ensures FieldHolds(Mines) && |Mines| == numMines
      ensures forall m :: m in Mines ==> InBounds(m, size) && !Near(m, safe)
      ensures exists k :: 0 <= k <= |samples| && Mines == AcceptedSamples(samples[..k], safe)
    {
      var placed := 0;
      var i := 0;
      while placed < numMines
        invariant 0 <= i <= |samples|
        invariant Mines == AcceptedSamples(samples[..i], safe) && placed == |Mines| <= numMines
        invariant FieldHolds(Mines)
        decreases |samples| - i
      {
        assert samples[..|samples|] == samples;
        assert i < |samples|;
        var s := samples[i];
        AcceptedSamplesStep(samples, i, safe);
        i := i + 1;

        assert field[s.x, s.y] == MINE <==> s in Mines by { CellValueRange(Mines, s); }
        if field[s.x, s.y] == MINE { continue; }
        if Abs(s.x - safe.x) <= 1 && Abs(s.y - safe.y) <= 1 { continue; }

        PlaceMine(s);
        placed := placed + 1;
      }
      AcceptedSamplesInside(samples, i, safe, size);
    }

    /** Turns the safe cell `s` into a mine and increments the count of each
        safe cell in its Moore neighbourhood. */
    method PlaceMine(s: Cords)
      requires Shape() && InBounds(s, size) && s !in Mines && FieldHolds(Mines)
      modifies this`Mines, field
      ensures Mines == old(Mines) + {s} && FieldHolds(Mines)
    {
      ghost var before := Mines;
      field[s.x, s.y] := MINE;
      Mines := Mines + {s};
      ghost var mines := Mines;
      forall x, y | 0 <= x < size && 0 <= y < size
        ensures field[x, y] == CellValue(mines, Cords(x, y)) - Owed(mines, s, Cords(x, y), -1, -1)
      {
        if Cords(x, y) != s {
          MinesAroundInsert(before, s, Cords(x, y));
        }
      }

      for dx := -1 to 2
        modifies field
        invariant forall x, y {:trigger field[x, y]} :: 0 <= x < size && 0 <= y < size ==>
          field[x, y] == CellValue(mines, Cords(x, y)) - Owed(mines, s, Cords(x, y), dx, -1)
      {
        for dy := -1 to 2
          modifies field
          invariant forall x, y {:trigger field[x, y]} :: 0 <= x < size && 0 <= y < size ==>
            field[x, y] == CellValue(mines, Cords(x, y)) - Owed(mines, s, Cords(x, y), dx, dy)
        {
          var nx, ny := s.x + dx, s.y + dy;
          OnlyMinesHoldSentinel(mines, s, Cords(nx, ny), dx, dy);
          if nx >= 0 && ny >= 0 && nx < size && ny < size && field[nx, ny] != MINE {
            field[nx, ny] := field[nx, ny] + 1;
          }
          forall x, y | 0 <= x < size && 0 <= y < size
            ensures field[x, y] == CellValue(mines, Cords(x, y)) - Owed(mines, s, Cords(x, y), dx, dy + 1)
          {
            OwedStep(mines, s, Cords(x, y), dx, dy);
          }
        }
        forall x, y | 0 <= x < size && 0 <= y < size
          ensures Owed(mines, s, Cords(x, y), dx, 2) == Owed(mines, s, Cords(x, y), dx + 1, -1)
        {
        }
      }
    }
  }

  /** Moving the neighbour loops one step past offset (dx, dy) settles the
      debt of exactly the cell at that offset. */
  lemma OwedStep(mines: set<Cords>, s: Cords, c: Cords, dx: int, dy: int)
    requires -1 <= dx <= 1 && -1 <= dy <= 1
    ensures Owed(mines, s, c, dx, dy + 1) ==
      Owed(mines, s, c, dx, dy) - (if c == Cords(s.x + dx, s.y + dy) && c !in mines then 1 else 0)
  {
  }

  /** While the counts around the new mine `s` are being raised, a cell
      holds the sentinel exactly when it is a mine. */
  lemma OnlyMinesHoldSentinel(mines: set<Cords>, s: Cords, c: Cords, dx: int, dy: int)
    requires s in mines
    ensures CellValue(mines, c) - Owed(mines, s, c, dx, dy) == MINE <==> c in mines
  {
    CellValueRange(mines, c);
    if c !in mines && Near(c, s) {
      assert s in MinesAround(mines, c);
    }
  }

  /** Two toggles of the same cell restore its flag and the flag counter. */
  method ToggleFlagTwice(game: GameMan, c: Cords)
    requires game.Valid() && InBounds(c, game.size)
    modifies game`flagsPlaced, game`Flagged, game.flagged
    ensures game.Valid()
    ensures game.Flagged == old(game.Flagged) && game.flagsPlaced == old(game.flagsPlaced)
    ensures forall x, y :: 0 <= x < game.size && 0 <= y < game.size ==>
      game.flagged[x, y] == old(game.flagged[x, y])
  {
    ghost var flags := game.Flagged;
    game.ToggleFlag(c);
    game.ToggleFlag(c);
    assert game.Flagged == flags;
  }
}

/**
 * The board that `generate_word_search_grid` (backend/crud.py) builds, as a value:
 * cells, the eight directions, a placement's path, the bounds test on its end
 * cell, the "blank or same letter" test on its path and the write that commits it.
 */
module Grid {

  /** One cell while words are being laid: blank (the source's empty string) or one letter. */
  datatype Cell = Blank | Letter(ch: char)

  /** A board as a value: a list of rows. */
  type Board = seq<seq<Cell>>

  /** `G` is an n-by-n board. */
  predicate IsBoard(G: Board, n: nat)
  {
    |G| == n && forall r :: 0 <= r < n ==> |G[r]| == n
  }

  predicate IsSquare(G: Board)
  {
    IsBoard(G, |G|)
  }

  /** The n-by-n board with every cell blank. */
  function EmptyBoard(n: nat): (G: Board)
    ensures IsBoard(G, n)
    ensures forall r, c :: 0 <= r < n && 0 <= c < n ==> G[r][c] == Blank
  {
    seq(n, _ => seq(n, _ => Blank))
  }

  /** A step (dr, dc) between neighbouring cells. */
  datatype Direction = Direction(dr: int, dc: int)

  /** The eight directions, in the source's order: right, down, down-right, down-left, left, up, up-left, up-right. */
  const Directions: seq<Direction> :=
    [Direction(0, 1), Direction(1, 0), Direction(1, 1), Direction(1, -1),
     Direction(0, -1), Direction(-1, 0), Direction(-1, -1), Direction(-1, 1)]

  /** A step to one of the eight neighbours. */
  predicate IsUnit(d: Direction)
  {
    -1 <= d.dr <= 1 && -1 <= d.dc <= 1 && (d.dr != 0 || d.dc != 0)
  }

  /** The table holds exactly the eight unit steps, each once. */
  lemma DirectionsAreUnitSteps()
    ensures |Directions| == 8
    ensures forall k :: 0 <= k < |Directions| ==> IsUnit(Directions[k])
    ensures forall d :: IsUnit(d) ==> d in Directions
    ensures forall k, l :: 0 <= k < l < |Directions| ==> Directions[k] != Directions[l]
  {
  }

  /** A word's start cell and direction. */
  datatype Placement = Placement(row: int, col: int, dir: Direction)

  /** Row and column of the word's i-th letter: `start + i * direction`. */
  function RowAt(p: Placement, i: int): int
  {
    p.row + i * p.dir.dr
  }

  function ColAt(p: Placement, i: int): int
  {
    p.col + i * p.dir.dc
  }

  predicate StartInBounds(n: int, p: Placement)
  {
    0 <= p.row < n && 0 <= p.col < n
  }

  /** The source's only bounds test: the cell `start + (len - 1) * direction` is on the board. */
  predicate EndInBounds(n: int, len: int, p: Placement)
  {
    0 <= RowAt(p, len - 1) < n && 0 <= ColAt(p, len - 1) < n
  }

  /** Every cell the word would occupy is on the board. */
  predicate PathInBounds(n: int, len: int, p: Placement)
  {
    forall i :: 0 <= i < len ==> 0 <= RowAt(p, i) < n && 0 <= ColAt(p, i) < n
  }

  lemma UnitScale(i: int, d: int)
    requires -1 <= d <= 1
    ensures i * d == if d == 1 then i else if d == 0 then 0 else -i
  {
  }

  /** Checking the end cell is enough: with the start on the board, the whole path is. */
  lemma EndCellBoundsPath(n: int, len: int, p: Placement)
    requires StartInBounds(n, p) && IsUnit(p.dir) && EndInBounds(n, len, p)
    ensures PathInBounds(n, len, p)
  {
    forall i | 0 <= i < len
      ensures 0 <= RowAt(p, i) < n && 0 <= ColAt(p, i) < n
    {
      UnitScale(i, p.dir.dr);
      UnitScale(len - 1, p.dir.dr);
      UnitScale(i, p.dir.dc);
      UnitScale(len - 1, p.dir.dc);
    }
  }

  /** A word longer than the board never passes the end-cell test: every direction moves in some axis. */
  lemma LongWordLeavesBoard(n: int, len: int, p: Placement)
    requires StartInBounds(n, p) && IsUnit(p.dir) && len > n
    ensures !EndInBounds(n, len, p)
  {
    UnitScale(len - 1, p.dir.dr);
    UnitScale(len - 1, p.dir.dc);
  }

  /** Distinct letters of one word land on distinct cells. */
  lemma PathCellsDistinct(p: Placement, i: int, j: int)
    requires IsUnit(p.dir) && i != j
    ensures RowAt(p, i) != RowAt(p, j) || ColAt(p, i) != ColAt(p, j)
  {
    UnitScale(i, p.dir.dr);
    UnitScale(j, p.dir.dr);
    UnitScale(i, p.dir.dc);
    UnitScale(j, p.dir.dc);
  }

  /** The path of a word of length `len` lies on the square board `G`. */
  predicate OnBoard(G: Board, len: int, p: Placement)
  {
    IsSquare(G) && PathInBounds(|G|, len, p)
  }

  /** A cell accepts letter `ch` when it is blank or already holds `ch`. */
  predicate Compatible(x: Cell, ch: char)
  {
    x == Blank || x == Letter(ch)
  }

  /** The path check: no cell of the path holds a different letter. */
  predicate Fits(G: Board, w: string, p: Placement)
    requires OnBoard(G, |w|, p)
  {
    forall i :: 0 <= i < |w| ==> Compatible(G[RowAt(p, i)][ColAt(p, i)], w[i])
  }

  /** `G` with cell (r, c) set to `x`. */
  function Set(G: Board, r: int, c: int, x: Cell): (H: Board)
    requires IsSquare(G) && 0 <= r < |G| && 0 <= c < |G|
    ensures IsSquare(H) && |H| == |G|
    ensures forall r', c' :: 0 <= r' < |G| && 0 <= c' < |G| ==>
              H[r'][c'] == if r' == r && c' == c then x else G[r'][c']
  {
    G[r := G[r][c := x]]
  }

  /** The commit: the letters of `w` written along the path, first to last. */
  function Write(G: Board, w: string, p: Placement): (H: Board)
    requires OnBoard(G, |w|, p)
    ensures IsSquare(H) && |H| == |G|
    decreases |w|
  {
    if |w| == 0 then G
    else
      var i := |w| - 1;
      Set(Write(G, w[..i], p), RowAt(p, i), ColAt(p, i), Letter(w[i]))
  }

  /** After the commit, the i-th cell of the path holds the word's i-th letter. */
  lemma {:induction false} WriteOnPath(G: Board, w: string, p: Placement, i: int)
    requires OnBoard(G, |w|, p) && IsUnit(p.dir) && 0 <= i < |w|
    ensures Write(G, w, p)[RowAt(p, i)][ColAt(p, i)] == Letter(w[i])
    decreases |w|
  {
    var j := |w| - 1;
    if i < j {
      WriteOnPath(G, w[..j], p, i);
      PathCellsDistinct(p, i, j);
    }
  }

  /** The commit changes no cell off the path. */
  lemma {:induction false} WriteOffPath(G: Board, w: string, p: Placement, r: int, c: int)
    requires OnBoard(G, |w|, p) && 0 <= r < |G| && 0 <= c < |G|
    requires forall i :: 0 <= i < |w| ==> RowAt(p, i) != r || ColAt(p, i) != c
    ensures Write(G, w, p)[r][c] == G[r][c]
    decreases |w|
  {
    if |w| > 0 {
      WriteOffPath(G, w[..|w| - 1], p, r, c);
    }
  }

  /** Every letter already on `G` is still on `H`: no letter is overwritten and nothing is cleared. */
  predicate Extends(G: Board, H: Board)
  {
    IsSquare(G) && IsSquare(H) && |G| == |H| &&
    forall r, c :: 0 <= r < |G| && 0 <= c < |G| && G[r][c] != Blank ==> H[r][c] == G[r][c]
  }

  /** `w` reads along the path of `p` on `G`. */
  predicate Readable(G: Board, w: string, p: Placement)
  {
    IsSquare(G) && PathInBounds(|G|, |w|, p) &&
    forall i :: 0 <= i < |w| ==> G[RowAt(p, i)][ColAt(p, i)] == Letter(w[i])
  }

  /** A commit that passed the path check never overwrites a letter with a different one. */
  lemma WriteExtends(G: Board, w: string, p: Placement)
    requires OnBoard(G, |w|, p) && IsUnit(p.dir) && Fits(G, w, p)
    ensures Extends(G, Write(G, w, p))
  {
    var H := Write(G, w, p);
    forall r, c | 0 <= r < |G| && 0 <= c < |G| && G[r][c] != Blank
      ensures H[r][c] == G[r][c]
    {
      if i :| 0 <= i < |w| && RowAt(p, i) == r && ColAt(p, i) == c {
        WriteOnPath(G, w, p, i);
      } else {
        WriteOffPath(G, w, p, r, c);
      }
    }
  }

  /** After a commit the word reads along its path. */
  lemma WriteReadable(G: Board, w: string, p: Placement)
    requires OnBoard(G, |w|, p) && IsUnit(p.dir)
    ensures Readable(Write(G, w, p), w, p)
  {
    forall i | 0 <= i < |w|
      ensures Write(G, w, p)[RowAt(p, i)][ColAt(p, i)] == Letter(w[i])
    {
      WriteOnPath(G, w, p, i);
    }
  }

  /** Only the cells of the path may change, and each of them ends up holding its letter. */
  lemma WriteCell(G: Board, w: string, p: Placement, r: int, c: int)
    requires OnBoard(G, |w|, p) && IsUnit(p.dir) && 0 <= r < |G| && 0 <= c < |G|
    ensures Write(G, w, p)[r][c] != G[r][c] ==>
              exists i :: 0 <= i < |w| && RowAt(p, i) == r && ColAt(p, i) == c && Write(G, w, p)[r][c] == Letter(w[i])
  {
    if i :| 0 <= i < |w| && RowAt(p, i) == r && ColAt(p, i) == c {
      WriteOnPath(G, w, p, i);
    } else {
      WriteOffPath(G, w, p, r, c);
    }
  }

  lemma ExtendsReflexive(G: Board)
    requires IsSquare(G)
    ensures Extends(G, G)
  {
  }

  lemma ExtendsTransitive(F: Board, G: Board, H: Board)
    requires Extends(F, G) && Extends(G, H)
    ensures Extends(F, H)
  {
  }

  /** A word that reads on a board still reads on any board that extends it. */
  lemma ExtendsKeepsReadable(G: Board, H: Board, w: string, p: Placement)
    requires Extends(G, H) && Readable(G, w, p)
    ensures Readable(H, w, p)
  {
  }
}

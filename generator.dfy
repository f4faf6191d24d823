/**
 * `generate_word_search_grid` (backend/crud.py) as the source runs it: a
 * mutable n-by-n grid, nested bounded loops with `continue` and `break`, the
 * path check and the commit, then the row-major flattening that fills blanks.
 * Each method is proved to compute what the functions of module Generation say.
 */
module Generator {
  import opened Grid
  import opened WordCase
  import opened LengthOrder
  import opened Generation

  /** The array holds exactly the board value `G`. */
  ghost predicate Matches(g: array2<Cell>, G: Board)
    reads g
  {
    IsSquare(G) && g.Length0 == |G| && g.Length1 == |G| &&
    forall r, c :: 0 <= r < |G| && 0 <= c < |G| ==> g[r, c] == G[r][c]
  }

  /** The path check: true exactly when every path cell is blank or already holds the word's letter. */
  method CanPlace(g: array2<Cell>, ghost G: Board, w: string, p: Placement) returns (ok: bool)
    requires Matches(g, G) && PathInBounds(|G|, |w|, p)
    ensures ok == Fits(G, w, p)
  {
    ok := true;
    for i := 0 to |w|
      invariant forall k :: 0 <= k < i ==> Compatible(G[RowAt(p, k)][ColAt(p, k)], w[k])
    {
      var row, col := RowAt(p, i), ColAt(p, i);
      if g[row, col] != Blank && g[row, col] != Letter(w[i]) {
        ok := false;
        break;
      }
    }
  }

  /** The commit: writes the word's letters along the path. */
  method Commit(g: array2<Cell>, ghost G: Board, w: string, p: Placement)
    requires Matches(g, G) && PathInBounds(|G|, |w|, p)
    modifies g
    ensures Matches(g, Write(G, w, p))
  {
    for i := 0 to |w|
      invariant Matches(g, Write(G, w[..i], p))
    {
      assert w[..i + 1][..i] == w[..i];
      g[RowAt(p, i), ColAt(p, i)] := Letter(w[i]);
    }
    assert w[..|w|] == w;
  }

  /** One trial on the array: the end-cell bound check, the fit check, and the write when it fits. */
  method RunTrial(g: array2<Cell>, ghost G: Board, w: string, t: Trial) returns (placed: bool)
    requires Matches(g, G) && ValidTrial(t, |G|)
    modifies g
    ensures placed == TryTrial(G, w, t).Some?
    ensures Matches(g, if placed then TryTrial(G, w, t).value else G)
  {
    var n := g.Length0;
    var d := Directions[t.dir];
    var p := Placement(t.row, t.col, d);
    assert p == PlacementOf(t);
    var endRow := t.row + (|w| - 1) * d.dr;
    var endCol := t.col + (|w| - 1) * d.dc;
    if !(0 <= endRow < n && 0 <= endCol < n) {
      assert !EndInBounds(n, |w|, p);
      return false;
    }
    assert EndInBounds(n, |w|, p);
    DirectionsAreUnitSteps();
    EndCellBoundsPath(n, |w|, p);
    placed := CanPlace(g, G, w, p);
    if placed {
      Commit(g, G, w, p);
    }
  }

  /**
   * Up to `budget` trials for one word (the generator passes `MaxTrials`), drawing
   * `trials[k]`, `trials[k + 1]`, ...; the first trial that succeeds ends the search.
   */
  method PlaceWordIn(g: array2<Cell>, ghost G: Board, w: string, trials: seq<Trial>, k: nat, budget: nat)
    returns (placed: bool, next: nat)
    requires Matches(g, G) && ValidTrials(trials, |G|) && k + budget <= |trials|
    modifies g
    ensures var a := PlaceWord(G, w, trials, k, budget);
            placed == a.Placed? && next == a.next &&
            Matches(g, if a.Placed? then a.board else G)
  {
    placed, next := false, k;
    ghost var a := PlaceWord(G, w, trials, k, budget);
    for t := 0 to budget
      invariant next == k + t && !placed
      invariant Matches(g, G)
      invariant a == PlaceWord(G, w, trials, next, budget - t)
    {
      var trial := trials[next];
      PlaceWordStep(G, w, trials, next, budget - t);
      ghost var tried := TryTrial(G, w, trial);
      placed := RunTrial(g, G, w, trial);
      next := next + 1;
      if placed {
        assert a == Placed(tried.value, next);
        assert Matches(g, a.board);
        break;
      }
      assert a == PlaceWord(G, w, trials, next, budget - t - 1);
    }
    if !placed {
      assert a == Exhausted(next);
    }
  }

  /** One row of the flattening: a letter cell gives its letter, a blank cell the next random letter. */
  method FillRow(g: array2<Cell>, ghost G: Board, picks: nat -> nat, r: nat, f0: nat) returns (row: seq<char>, f: nat)
    requires Matches(g, G) && ValidPicks(picks)
    requires r < |G|
    ensures FillFrom(G, r, 0, picks, f0) == row + FillFrom(G, r + 1, 0, picks, f)
  {
    var n := g.Length0;
    row, f := [], f0;
    for c := 0 to n
      invariant FillFrom(G, r, 0, picks, f0) == row + FillFrom(G, r, c, picks, f)
    {
      FillFromCell(G, r, c, picks, f, row);
      var cell := g[r, c];
      assert cell == G[r][c];
      if cell == Blank {
        row := row + [Alphabet[picks(f)]];
        f := f + 1;
      } else {
        row := row + [cell.ch];
      }
    }
    assert FillFrom(G, r, n, picks, f) == FillFrom(G, r + 1, 0, picks, f);
  }

  /** The flattening: row by row, each letter cell kept and each blank cell given the next random letter. */
  method FillBlanks(g: array2<Cell>, ghost G: Board, picks: nat -> nat) returns (cells: seq<char>)
    requires Matches(g, G) && ValidPicks(picks)
    ensures cells == Fill(G, picks)
  {
    var n := g.Length0;
    cells := [];
    var f: nat := 0;
    for r := 0 to n
      invariant Fill(G, picks) == cells + FillFrom(G, r, 0, picks, f)
    {
      var row;
      row, f := FillRow(g, G, picks, r, f);
      cells := cells + row;
    }
  }

  /**
   * The whole generation: upper-case, order longest first, place each word or
   * fail naming it, then fill and flatten. It computes exactly `GenerateSpec`.
   */
  method Generate(words: seq<string>, n: nat, trials: seq<Trial>, picks: nat -> nat) returns (out: Outcome)
    requires ValidOracle(n, |words|, trials, picks)
    ensures out == GenerateSpec(words, n, trials, picks)
  {
    var g := new Cell[n, n]((_, _) => Blank);
    ghost var G := EmptyBoard(n);
    var order := SortByLength(UpperAll(words));
    var k: nat := 0;
    for wi := 0 to |order|
      invariant Matches(g, G) && |G| == n
      invariant k + MaxTrials * (|order| - wi) <= |trials|
      invariant PlaceAll(EmptyBoard(n), order, trials, 0) == PlaceAll(G, order[wi..], trials, k)
    {
      var word := order[wi];
      assert order[wi..][1..] == order[wi + 1..];
      ghost var a := PlaceWord(G, word, trials, k, MaxTrials);
      var placed, next := PlaceWordIn(g, G, word, trials, k, MaxTrials);
      if !placed {
        return GridGenerationError(word);
      }
      G := a.board;
      k := next;
    }
    var cells := FillBlanks(g, G, picks);
    return Generated(cells);
  }
}

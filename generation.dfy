/**
 * What `generate_word_search_grid` (backend/crud.py) computes, as functions of
 * its inputs and of the random choices it makes. Randomness is an oracle:
 * `trials` lists the (direction index, start row, start column) triples that
 * `random.choice(directions)` and the two `random.randint` calls return, in
 * the order the trials are made; `picks(k)` is the alphabet index that the
 * k-th call of `random.choice(alphabet)` returns (one call per blank cell, in
 * row-major order).
 * Every property below holds for every such oracle.
 */
module Generation {
  import opened Wrappers
  import opened Grid
  import opened WordCase
  import opened LengthOrder

  /** Trials allowed per word. */
  const MaxTrials: nat := 200

  /** Letters that fill the cells no word uses. */
  const Alphabet: string := "ABCDEFGHIJKLMNOPQRSTUVWXYZ"

  /** One trial's random draws: an index into `Directions`, a start row and a start column. */
  datatype Trial = Trial(dir: nat, row: int, col: int)

  /** What `random.choice(directions)` and `random.randint(0, n - 1)` can return. */
  predicate ValidTrial(t: Trial, n: int)
  {
    t.dir < |Directions| && 0 <= t.row < n && 0 <= t.col < n
  }

  predicate ValidTrials(trials: seq<Trial>, n: int)
  {
    forall k :: 0 <= k < |trials| ==> ValidTrial(trials[k], n)
  }

  ghost predicate ValidPicks(picks: nat -> nat)
  {
    forall k :: picks(k) < |Alphabet|
  }

  /** An oracle for an n-by-n board and `count` words: enough valid draws for every trial and every blank cell. */
  ghost predicate ValidOracle(n: nat, count: nat, trials: seq<Trial>, picks: nat -> nat)
  {
    ValidTrials(trials, n) && MaxTrials * count <= |trials| &&
    ValidPicks(picks)
  }

  function PlacementOf(t: Trial): Placement
    requires t.dir < |Directions|
  {
    Placement(t.row, t.col, Directions[t.dir])
  }

  /**
   * One trial: rejected when the end cell is off the board, rejected when a
   * path cell holds another letter, otherwise the word is written along the path.
   */
  function TryTrial(G: Board, w: string, t: Trial): (r: Option<Board>)
    requires IsSquare(G) && ValidTrial(t, |G|)
    ensures r.Some? ==> IsSquare(r.value) && |r.value| == |G|
  {
    var p := PlacementOf(t);
    if !EndInBounds(|G|, |w|, p) then None
    else
      DirectionsAreUnitSteps();
      EndCellBoundsPath(|G|, |w|, p);
      if Fits(G, w, p) then Some(Write(G, w, p)) else None
  }

  /** The result of trying to place one word: the new board and the next unused draw, or all trials spent. */
  datatype Attempt = Placed(board: Board, next: nat) | Exhausted(next: nat)

  /** Trials `trials[k]`, `trials[k + 1]`, ... until one succeeds or `budget` of them have failed. */
  function PlaceWord(G: Board, w: string, trials: seq<Trial>, k: nat, budget: nat): (a: Attempt)
    requires IsSquare(G) && ValidTrials(trials, |G|) && k + budget <= |trials|
    ensures a.Exhausted? ==> a.next == k + budget
    ensures a.Placed? ==> k < a.next <= k + budget && IsSquare(a.board) && |a.board| == |G|
    decreases budget
  {
    if budget == 0 then Exhausted(k)
    else
      match TryTrial(G, w, trials[k])
      case Some(H) => Placed(H, k + 1)
      case None => PlaceWord(G, w, trials, k + 1, budget - 1)
  }

  /** One step of `PlaceWord`: the trial at `k` decides, or the search moves on with one trial fewer. */
  lemma PlaceWordStep(G: Board, w: string, trials: seq<Trial>, k: nat, budget: nat)
    requires IsSquare(G) && ValidTrials(trials, |G|) && k + budget <= |trials| && budget > 0
    ensures var tried := TryTrial(G, w, trials[k]);
            PlaceWord(G, w, trials, k, budget) ==
              if tried.Some? then Placed(tried.value, k + 1) else PlaceWord(G, w, trials, k + 1, budget - 1)
  {
  }

  /** The outcome of laying every word: the board and the next unused draw, or the first word that could not be placed. */
  datatype Layout = Laid(board: Board, next: nat) | Unplaceable(word: string)

  /** Words in `order` are placed one after another; the first that exhausts its trials stops everything. */
  function PlaceAll(G: Board, order: seq<string>, trials: seq<Trial>, k: nat): (l: Layout)
    requires IsSquare(G) && ValidTrials(trials, |G|) && k + MaxTrials * |order| <= |trials|
    ensures l.Laid? ==> IsSquare(l.board) && |l.board| == |G| && l.next <= k + MaxTrials * |order|
    ensures l.Unplaceable? ==> l.word in order
    decreases |order|
  {
    if |order| == 0 then Laid(G, k)
    else
      match PlaceWord(G, order[0], trials, k, MaxTrials)
      case Exhausted(_) => Unplaceable(order[0])
      case Placed(H, next) => PlaceAll(H, order[1..], trials, next)
  }

  /**
   * The flat grid from cell (r, c) on, row-major: a letter cell gives its letter,
   * a blank cell gives the next pick's letter; `f` picks have been used so far.
   */
  function FillFrom(G: Board, r: nat, c: nat, picks: nat -> nat, f: nat): seq<char>
    requires IsSquare(G) && r <= |G| && c <= |G| && ValidPicks(picks)
    decreases |G| - r, |G| - c
  {
    var n := |G|;
    if r == n then []
    else if c == n then
      FillFrom(G, r + 1, 0, picks, f)
    else
      match G[r][c]
      case Letter(ch) => [ch] + FillFrom(G, r, c + 1, picks, f)
      case Blank => [Alphabet[picks(f)]] + FillFrom(G, r, c + 1, picks, f + 1)
  }

  /** The flat grid: the row-major walk from the top-left cell with no pick used yet. */
  function Fill(G: Board, picks: nat -> nat): seq<char>
    requires IsSquare(G) && ValidPicks(picks)
  {
    FillFrom(G, 0, 0, picks, 0)
  }

  /** The cells in the first r rows of an n-wide board, counted row by row: r * n. */
  function RowStart(r: nat, n: nat): nat
  {
    if r == 0 then 0 else RowStart(r - 1, n) + n
  }

  lemma {:induction false} RowStartIsProduct(r: nat, n: nat)
    ensures RowStart(r, n) == r * n
  {
    if r > 0 {
      RowStartIsProduct(r - 1, n);
      assert (r - 1) * n + n == r * n;
    }
  }

  lemma {:induction false} RowStartMono(a: nat, b: nat, n: nat)
    requires a < b
    ensures RowStart(a, n) + n <= RowStart(b, n)
    decreases b
  {
    if a + 1 < b {
      RowStartMono(a, b - 1, n);
    }
  }

  /** The walk from (r, c) produces exactly the cells not yet visited. */
  lemma {:induction false} FillFromLength(G: Board, r: nat, c: nat, picks: nat -> nat, f: nat)
    requires IsSquare(G) && r <= |G| && c <= |G| && ValidPicks(picks) && (r < |G| || c == 0)
    ensures RowStart(r, |G|) + c + |FillFrom(G, r, c, picks, f)| == RowStart(|G|, |G|)
    decreases |G| - r, |G| - c
  {
    var n := |G|;
    if r == n {
      assert FillFrom(G, r, c, picks, f) == [];
    } else if c == n {
      assert FillFrom(G, r, c, picks, f) == FillFrom(G, r + 1, 0, picks, f);
      FillFromLength(G, r + 1, 0, picks, f);
      assert RowStart(r + 1, n) == RowStart(r, n) + n;
    } else {
      var f' := if G[r][c].Blank? then f + 1 else f;
      FillFromCell(G, r, c, picks, f, []);
      FillFromLength(G, r, c + 1, picks, f');
    }
  }

  /** Row-major positions are ordered like (row, column) pairs. */
  lemma RowMajorOrder(r: nat, c: nat, i: nat, j: nat, n: nat)
    requires c < n && j < n
    ensures RowStart(r, n) + c <= RowStart(i, n) + j <==> r < i || (r == i && c <= j)
  {
    if r < i {
      RowStartMono(r, i, n);
    } else if i < r {
      RowStartMono(i, r, n);
    }
  }

  /** The cell after (r, c) in row-major order. */
  function NextRow(r: int, c: int, n: int): int
  {
    if c + 1 < n then r else r + 1
  }

  function NextCol(r: int, c: int, n: int): int
  {
    if c + 1 < n then c + 1 else 0
  }

  /** One step of the row-major walk: the cell's character, then the rest from the next cell. */
  lemma FillFromStep(G: Board, r: nat, c: nat, picks: nat -> nat, f: nat)
    requires IsSquare(G) && r < |G| && c < |G| && ValidPicks(picks)
    ensures RowStart(NextRow(r, c, |G|), |G|) + NextCol(r, c, |G|) == RowStart(r, |G|) + c + 1
    ensures var f' := if G[r][c].Letter? then f else f + 1;
            |FillFrom(G, r, c, picks, f)| > 0 &&
            FillFrom(G, r, c, picks, f)[1..] == FillFrom(G, NextRow(r, c, |G|), NextCol(r, c, |G|), picks, f') &&
            match G[r][c]
            case Letter(ch) => FillFrom(G, r, c, picks, f)[0] == ch
            case Blank => FillFrom(G, r, c, picks, f)[0] in Alphabet
  {
    var n := |G|;
    var f' := if G[r][c].Letter? then f else f + 1;
    var x := if G[r][c].Letter? then G[r][c].ch else Alphabet[picks(f)];
    assert FillFrom(G, r, c, picks, f) == [x] + FillFrom(G, r, c + 1, picks, f');
    if c + 1 == n {
      assert FillFrom(G, r, c + 1, picks, f') == FillFrom(G, r + 1, 0, picks, f');
    }
  }

  /** The letter the fill writes at cell (r, c) when the next pick to use is number f. */
  function CellLetter(G: Board, r: nat, c: nat, picks: nat -> nat, f: nat): char
    requires IsSquare(G) && r < |G| && c < |G| && ValidPicks(picks)
  {
    match G[r][c]
    case Letter(ch) => ch
    case Blank => Alphabet[picks(f)]
  }

  /** One cell of a row walk: what has been written so far, then the cell's letter, then the rest. */
  lemma FillFromCell(G: Board, r: nat, c: nat, picks: nat -> nat, f: nat, done: seq<char>)
    requires IsSquare(G) && r < |G| && c < |G| && ValidPicks(picks)
    ensures done + FillFrom(G, r, c, picks, f) ==
              (done + [CellLetter(G, r, c, picks, f)]) +
              FillFrom(G, r, c + 1, picks, if G[r][c].Blank? then f + 1 else f)
  {
    var f' := if G[r][c].Blank? then f + 1 else f;
    var x := CellLetter(G, r, c, picks, f);
    var tail := FillFrom(G, r, c + 1, picks, f');
    assert FillFrom(G, r, c, picks, f) == [x] + tail;
    assert done + ([x] + tail) == (done + [x]) + tail;
  }

  /** From (r, c) on, the cell of (i, j) sits at its row-major distance, holding the board's letter or an alphabet letter. */
  lemma {:induction false} FillFromAt(G: Board, r: nat, c: nat, picks: nat -> nat, f: nat, i: nat, j: nat)
    requires IsSquare(G) && r < |G| && c < |G| && ValidPicks(picks)
    requires i < |G| && j < |G| && (r < i || (r == i && c <= j))
    ensures 0 <= (RowStart(i, |G|) + j) - (RowStart(r, |G|) + c) < |FillFrom(G, r, c, picks, f)|
    ensures var x := FillFrom(G, r, c, picks, f)[(RowStart(i, |G|) + j) - (RowStart(r, |G|) + c)];
            match G[i][j]
            case Letter(ch) => x == ch
            case Blank => x in Alphabet
    decreases |G| - r, |G| - c
  {
    var n := |G|;
    var s := FillFrom(G, r, c, picks, f);
    var d := (RowStart(i, n) + j) - (RowStart(r, n) + c);
    RowMajorOrder(r, c, i, j, n);
    RowStartMono(i, n, n);
    FillFromLength(G, r, c, picks, f);
    FillFromStep(G, r, c, picks, f);
    if i == r && j == c {
      assert d == 0;
    } else {
      var r', c' := NextRow(r, c, n), NextCol(r, c, n);
      var f' := if G[r][c].Letter? then f else f + 1;
      assert r' < i || (r' == i && c' <= j) by {
        RowMajorOrder(r', c', i, j, n);
      }
      FillFromAt(G, r', c', picks, f', i, j);
      assert d - 1 == (RowStart(i, n) + j) - (RowStart(r', n) + c');
      assert s[d] == s[1..][d - 1];
    }
  }

  /**
   * The flat grid has n * n cells; cell r * n + c is the board's letter at (r, c),
   * or, where the board is blank, a letter of the alphabet.
   */
  lemma FillAt(G: Board, picks: nat -> nat, r: int, c: int)
    requires IsSquare(G) && ValidPicks(picks)
    requires 0 <= r < |G| && 0 <= c < |G|
    ensures |Fill(G, picks)| == |G| * |G| && 0 <= r * |G| + c < |G| * |G|
    ensures match G[r][c]
            case Letter(ch) => Fill(G, picks)[r * |G| + c] == ch
            case Blank => Fill(G, picks)[r * |G| + c] in Alphabet
  {
    FillLength(G, picks);
    RowStartIsProduct(r, |G|);
    RowStartMono(r, |G|, |G|);
    FillFromAt(G, 0, 0, picks, 0, r, c);
  }

  lemma FillLength(G: Board, picks: nat -> nat)
    requires IsSquare(G) && ValidPicks(picks)
    ensures |Fill(G, picks)| == |G| * |G|
  {
    FillFromLength(G, 0, 0, picks, 0);
    RowStartIsProduct(|G|, |G|);
  }

  /** `w` reads along the path of `p` in the flat n-by-n grid `cells`. */
  predicate ReadsAlong(cells: seq<char>, n: nat, w: string, p: Placement)
  {
    |cells| == n * n && PathInBounds(n, |w|, p) &&
    forall i :: 0 <= i < |w| ==>
      0 <= RowAt(p, i) * n + ColAt(p, i) < |cells| && cells[RowAt(p, i) * n + ColAt(p, i)] == w[i]
  }

  /** Filling the blanks keeps every word that reads on the board. */
  lemma FillKeepsWords(G: Board, picks: nat -> nat, w: string, p: Placement)
    requires IsSquare(G) && ValidPicks(picks) && Readable(G, w, p)
    ensures ReadsAlong(Fill(G, picks), |G|, w, p)
  {
    FillLength(G, picks);
    forall i | 0 <= i < |w|
      ensures 0 <= RowAt(p, i) * |G| + ColAt(p, i) < |Fill(G, picks)|
      ensures Fill(G, picks)[RowAt(p, i) * |G| + ColAt(p, i)] == w[i]
    {
      FillAt(G, picks, RowAt(p, i), ColAt(p, i));
    }
  }

  /** `w` reads on `G` along the path of some trial the oracle could draw. */
  ghost predicate PlacedSomewhere(G: Board, w: string)
  {
    exists t :: ValidTrial(t, |G|) && Readable(G, w, PlacementOf(t))
  }

  /** A trial that succeeds keeps every letter already on the board and makes its word readable. */
  lemma TryTrialSound(G: Board, w: string, t: Trial)
    requires IsSquare(G) && ValidTrial(t, |G|) && TryTrial(G, w, t).Some?
    ensures Extends(G, TryTrial(G, w, t).value)
    ensures Readable(TryTrial(G, w, t).value, w, PlacementOf(t))
  {
    var p := PlacementOf(t);
    DirectionsAreUnitSteps();
    EndCellBoundsPath(|G|, |w|, p);
    WriteExtends(G, w, p);
    WriteReadable(G, w, p);
  }

  /**
   * A trial succeeds exactly when its end cell is on the board and no cell of
   * its path holds a different letter; a rejected trial leaves the board as it was.
   */
  lemma TryTrialExact(G: Board, w: string, t: Trial)
    requires IsSquare(G) && ValidTrial(t, |G|)
    ensures TryTrial(G, w, t).Some? <==>
              EndInBounds(|G|, |w|, PlacementOf(t)) && OnBoard(G, |w|, PlacementOf(t)) && Fits(G, w, PlacementOf(t))
  {
    DirectionsAreUnitSteps();
    if EndInBounds(|G|, |w|, PlacementOf(t)) {
      EndCellBoundsPath(|G|, |w|, PlacementOf(t));
    }
  }

  /** A placed word is readable on the new board, and the new board keeps every earlier letter. */
  lemma {:induction false} PlaceWordSound(G: Board, w: string, trials: seq<Trial>, k: nat, budget: nat)
    requires IsSquare(G) && ValidTrials(trials, |G|) && k + budget <= |trials|
    requires PlaceWord(G, w, trials, k, budget).Placed?
    ensures Extends(G, PlaceWord(G, w, trials, k, budget).board)
    ensures PlacedSomewhere(PlaceWord(G, w, trials, k, budget).board, w)
    decreases budget
  {
    var t := trials[k];
    if TryTrial(G, w, t).Some? {
      TryTrialSound(G, w, t);
    } else {
      PlaceWordSound(G, w, trials, k + 1, budget - 1);
    }
  }

  /** A word is given up exactly when every one of its trials fails. */
  lemma {:induction false} PlaceWordExhausted(G: Board, w: string, trials: seq<Trial>, k: nat, budget: nat)
    requires IsSquare(G) && ValidTrials(trials, |G|) && k + budget <= |trials|
    ensures PlaceWord(G, w, trials, k, budget).Exhausted? <==>
              forall j :: k <= j < k + budget ==> TryTrial(G, w, trials[j]).None?
    decreases budget
  {
    if budget > 0 {
      PlaceWordExhausted(G, w, trials, k + 1, budget - 1);
    }
  }

  /** The first trial that succeeds is the one committed: every trial before it failed. */
  lemma {:induction false} PlaceWordFirstFit(G: Board, w: string, trials: seq<Trial>, k: nat, budget: nat)
    requires IsSquare(G) && ValidTrials(trials, |G|) && k + budget <= |trials|
    requires PlaceWord(G, w, trials, k, budget).Placed?
    ensures var a := PlaceWord(G, w, trials, k, budget);
            TryTrial(G, w, trials[a.next - 1]) == Some(a.board) &&
            forall j :: k <= j < a.next - 1 ==> TryTrial(G, w, trials[j]).None?
    decreases budget
  {
    if TryTrial(G, w, trials[k]).None? {
      PlaceWordFirstFit(G, w, trials, k + 1, budget - 1);
    }
  }

  /** A word longer than the board is never placed, whatever the draws. */
  lemma LongWordExhausts(G: Board, w: string, trials: seq<Trial>, k: nat, budget: nat)
    requires IsSquare(G) && ValidTrials(trials, |G|) && k + budget <= |trials| && |w| > |G|
    ensures PlaceWord(G, w, trials, k, budget) == Exhausted(k + budget)
  {
    forall j | k <= j < k + budget
      ensures TryTrial(G, w, trials[j]).None?
    {
      DirectionsAreUnitSteps();
      LongWordLeavesBoard(|G|, |w|, PlacementOf(trials[j]));
    }
    PlaceWordExhausted(G, w, trials, k, budget);
  }

  /**
   * A complete layout keeps every letter of the starting board, and every word
   * of `order` reads on it along some path (crossing words agree on shared cells).
   */
  lemma {:induction false} PlaceAllSound(G: Board, order: seq<string>, trials: seq<Trial>, k: nat)
    requires IsSquare(G) && ValidTrials(trials, |G|) && k + MaxTrials * |order| <= |trials|
    requires PlaceAll(G, order, trials, k).Laid?
    ensures Extends(G, PlaceAll(G, order, trials, k).board)
    ensures forall w :: w in order ==> PlacedSomewhere(PlaceAll(G, order, trials, k).board, w)
    decreases |order|
  {
    if |order| == 0 {
      ExtendsReflexive(G);
    } else {
      var a := PlaceWord(G, order[0], trials, k, MaxTrials);
      PlaceWordSound(G, order[0], trials, k, MaxTrials);
      PlaceAllSound(a.board, order[1..], trials, a.next);
      var F := PlaceAll(G, order, trials, k).board;
      ExtendsTransitive(G, a.board, F);
      var t :| ValidTrial(t, |a.board|) && Readable(a.board, order[0], PlacementOf(t));
      ExtendsKeepsReadable(a.board, F, order[0], PlacementOf(t));
      forall w | w in order
        ensures PlacedSomewhere(F, w)
      {
        if w != order[0] {
          assert w in order[1..];
        }
      }
    }
  }

  /**
   * Word `order[i]` is the one that stops the layout: the words before it were
   * all placed, and each of its trials fails on the board they left.
   */
  ghost predicate StopsAt(G: Board, order: seq<string>, trials: seq<Trial>, k: nat, i: nat)
    requires IsSquare(G) && ValidTrials(trials, |G|) && k + MaxTrials * |order| <= |trials|
    requires i < |order|
  {
    var pre := PlaceAll(G, order[..i], trials, k);
    pre.Laid? &&
    forall j :: pre.next <= j < pre.next + MaxTrials ==> TryTrial(pre.board, order[i], trials[j]).None?
  }

  /** A failed layout names the first word whose trials all failed once the words before it were placed. */
  lemma {:induction false} PlaceAllFailure(G: Board, order: seq<string>, trials: seq<Trial>, k: nat)
    requires IsSquare(G) && ValidTrials(trials, |G|) && k + MaxTrials * |order| <= |trials|
    requires PlaceAll(G, order, trials, k).Unplaceable?
    ensures exists i :: 0 <= i < |order| && order[i] == PlaceAll(G, order, trials, k).word &&
                        StopsAt(G, order, trials, k, i)
    decreases |order|
  {
    var a := PlaceWord(G, order[0], trials, k, MaxTrials);
    if a.Exhausted? {
      assert order[..0] == [];
      PlaceWordExhausted(G, order[0], trials, k, MaxTrials);
      assert StopsAt(G, order, trials, k, 0);
    } else {
      PlaceAllFailure(a.board, order[1..], trials, a.next);
      var i :| 0 <= i < |order[1..]| && order[1..][i] == PlaceAll(a.board, order[1..], trials, a.next).word &&
               StopsAt(a.board, order[1..], trials, a.next, i);
      var prefix := order[..i + 1];
      assert prefix[0] == order[0] && prefix[1..] == order[1..][..i];
      assert PlaceAll(G, prefix, trials, k) == PlaceAll(a.board, order[1..][..i], trials, a.next);
      assert StopsAt(G, order, trials, k, i + 1);
    }
  }

  /** How a generation ends: the flat grid, or `GridGenerationError` naming the word that could not be placed. */
  datatype Outcome = Generated(cells: seq<char>) | GridGenerationError(word: string)

  /** `generate_word_search_grid(words, n)` under the oracle (before JSON encoding). */
  function GenerateSpec(words: seq<string>, n: nat, trials: seq<Trial>, picks: nat -> nat): Outcome
    requires ValidOracle(n, |words|, trials, picks)
  {
    var order := SortByLength(UpperAll(words));
    match PlaceAll(EmptyBoard(n), order, trials, 0)
    case Unplaceable(w) => GridGenerationError(w)
    case Laid(G, _) => Generated(Fill(G, picks))
  }

  /**
   * On success the flat grid has n * n cells and every upper-cased word reads
   * along a straight path of one of the eight directions; on failure the word
   * named is one of the upper-cased words.
   */
  lemma GenerateSound(words: seq<string>, n: nat, trials: seq<Trial>, picks: nat -> nat)
    requires ValidOracle(n, |words|, trials, picks)
    ensures var out := GenerateSpec(words, n, trials, picks);
            out.Generated? ==>
              |out.cells| == n * n &&
              forall w :: w in UpperAll(words) ==>
                exists t :: ValidTrial(t, n) && ReadsAlong(out.cells, n, w, PlacementOf(t))
    ensures var out := GenerateSpec(words, n, trials, picks);
            out.GridGenerationError? ==> out.word in UpperAll(words)
  {
    var order := SortByLength(UpperAll(words));
    var E := EmptyBoard(n);
    var l := PlaceAll(E, order, trials, 0);
    if l.Laid? {
      PlaceAllSound(E, order, trials, 0);
      var G := l.board;
      FillLength(G, picks);
      forall w | w in UpperAll(words)
        ensures exists t :: ValidTrial(t, n) && ReadsAlong(Fill(G, picks), n, w, PlacementOf(t))
      {
        assert w in multiset(order);
        assert PlacedSomewhere(G, w);
        var t :| ValidTrial(t, |G|) && Readable(G, w, PlacementOf(t));
        FillKeepsWords(G, picks, w, PlacementOf(t));
      }
    } else {
      assert l.word in multiset(order);
    }
  }

  /**
   * On failure the word named is the first, in attempt order, whose 200 trials
   * all failed on the board that the words before it left.
   */
  lemma GenerateFailure(words: seq<string>, n: nat, trials: seq<Trial>, picks: nat -> nat)
    requires ValidOracle(n, |words|, trials, picks)
    requires GenerateSpec(words, n, trials, picks).GridGenerationError?
    ensures exists i :: 0 <= i < |words| && SortByLength(UpperAll(words))[i] == GenerateSpec(words, n, trials, picks).word &&
                        StopsAt(EmptyBoard(n), SortByLength(UpperAll(words)), trials, 0, i)
  {
    var order := SortByLength(UpperAll(words));
    var E := EmptyBoard(n);
    var l := PlaceAll(E, order, trials, 0);
    assert GenerateSpec(words, n, trials, picks) == GridGenerationError(l.word);
    PlaceAllFailure(E, order, trials, 0);
    var i :| 0 <= i < |order| && order[i] == l.word && StopsAt(E, order, trials, 0, i);
    assert order[i] == GenerateSpec(words, n, trials, picks).word;
  }

  /** A word longer than the board always fails the whole generation, naming a longest word, whatever the draws. */
  lemma LongWordFailsGeneration(words: seq<string>, n: nat, trials: seq<Trial>, picks: nat -> nat, w: string)
    requires ValidOracle(n, |words|, trials, picks)
    requires w in words && |w| > n
    ensures var out := GenerateSpec(words, n, trials, picks);
            out.GridGenerationError? && |out.word| > n &&
            forall v :: v in words ==> |out.word| >= |v|
  {
    var ups := UpperAll(words);
    UpperAllShape(words);
    var order := SortByLength(ups);
    var iw :| 0 <= iw < |words| && words[iw] == w;
    FirstIsLongest(ups, ups[iw]);
    forall v | v in words
      ensures |order[0]| >= |v|
    {
      var iv :| 0 <= iv < |words| && words[iv] == v;
      FirstIsLongest(ups, ups[iv]);
    }
    var E := EmptyBoard(n);
    LongWordExhausts(E, order[0], trials, 0, MaxTrials);
    assert PlaceAll(E, order, trials, 0) == Unplaceable(order[0]);
  }
}

/**
 * The game and comment operations of backend/crud.py that decide something:
 * creating a game (a 10-by-10 grid generated from the word list, the word list
 * stored upper-cased in input order) and the authorisation decision behind
 * deleting a comment. The database itself is a map from ids to rows.
 */
module Crud {
  import opened Wrappers
  import opened WordCase
  import opened Grid
  import opened Generation
  import Generator

  /** Every game board is 10 by 10. */
  const GridSize: nat := 10

  /** The stored game row: the word list upper-cased, the flat grid, its size and its creator; the description is optional. */
  datatype GameRecord = GameRecord(
    title: string, description: Option<string>, wordList: seq<string>,
    grid: seq<char>, gridSize: nat, createdBy: int)

  /** A created game, or the generator's error naming the word that could not be placed. */
  datatype Creation = Created(game: GameRecord) | Rejected(word: string)

  /**
   * `create_game`: generates the grid at size 10 and builds the row. A grid
   * generation error is passed on to the caller, and no row is built.
   */
  method CreateGame(title: string, description: Option<string>, words: seq<string>, createdBy: int,
                    trials: seq<Trial>, picks: nat -> nat) returns (c: Creation)
    requires ValidOracle(GridSize, |words|, trials, picks)
    ensures var out := GenerateSpec(words, GridSize, trials, picks);
            (c.Rejected? <==> out.GridGenerationError?) &&
            (c.Rejected? ==> c.word == out.word && c.word in UpperAll(words)) &&
            (c.Created? ==> c.game == GameRecord(title, description, UpperAll(words), out.cells, GridSize, createdBy))
    ensures c.Created? ==>
              |c.game.grid| == 100 && |c.game.wordList| == |words| &&
              forall w :: w in c.game.wordList ==>
                exists t :: ValidTrial(t, GridSize) && ReadsAlong(c.game.grid, GridSize, w, PlacementOf(t))
  {
    GenerateSound(words, GridSize, trials, picks);
    UpperAllShape(words);
    var out := Generator.Generate(words, GridSize, trials, picks);
    match out
    case GridGenerationError(w) =>
      c := Rejected(w);
    case Generated(cells) =>
      c := Created(GameRecord(title, description, UpperAll(words), cells, GridSize, createdBy));
  }

  /** `DeleteResult` of backend/crud.py. */
  datatype DeleteResult = Success | NotFound | NotAuthorized

  /** A comment row with what the decision reads: its author and its game's creator (a nullable column). */
  datatype CommentRow = CommentRow(userId: int, gameCreatedBy: Option<int>)

  /** The caller wrote the comment, or created the game it belongs to. */
  predicate MayDelete(c: CommentRow, userId: int)
  {
    c.userId == userId || c.gameCreatedBy == Some(userId)
  }

  /** `delete_comment_crud`'s decision for the looked-up comment (`None` when there is none). */
  function DeleteDecision(comment: Option<CommentRow>, userId: int): (r: DeleteResult)
    ensures r == NotFound <==> comment.None?
    ensures r == NotAuthorized <==> comment.Some? && !MayDelete(comment.value, userId)
    ensures r == Success <==> comment.Some? && MayDelete(comment.value, userId)
  {
    match comment
    case None => NotFound
    case Some(c) =>
      if !MayDelete(c, userId) then NotAuthorized else Success
  }

  /** `delete_comment_crud` on the comment table: the row is removed exactly when the decision is `Success`. */
  function DeleteComment(comments: map<int, CommentRow>, commentId: int, userId: int)
    : (r: (DeleteResult, map<int, CommentRow>))
  {
    var found := if commentId in comments then Some(comments[commentId]) else None;
    var result := DeleteDecision(found, userId);
    if result == Success then (result, comments - {commentId}) else (result, comments)
  }

  /**
   * The comment is gone afterwards exactly when it was missing or the caller may delete it,
   * the result says which case happened, and no other comment is touched.
   */
  lemma DeleteCommentGuarded(comments: map<int, CommentRow>, commentId: int, userId: int)
    ensures var (res, after) := DeleteComment(comments, commentId, userId);
            (res == NotFound <==> commentId !in comments) &&
            (res == Success <==> commentId in comments && commentId !in after) &&
            (commentId !in after <==> commentId !in comments || MayDelete(comments[commentId], userId)) &&
            (forall id :: id != commentId ==> (id in after <==> id in comments)) &&
            (forall id :: id in after ==> after[id] == comments[id])
  {
    var (res, after) := DeleteComment(comments, commentId, userId);
    if commentId in comments && MayDelete(comments[commentId], userId) {
      assert res == Success;
    }
  }
}

/**
 * The two delete endpoints of backend/main.py, as functions from the stored
 * rows and the caller's id to the HTTP answer and the rows afterwards. Only
 * what the decisions read is kept of each row.
 */
module Endpoints {
  import opened Wrappers
  import opened Crud

  /** An HTTP answer: the status code and the message or error detail. */
  datatype Response = Response(status: int, message: string)

  /**
   * `delete_game_endpoint`: `games` maps each game id to its creator (a nullable
   * column). A missing game is 404, a game created by someone else (or by
   * nobody) is 403, otherwise the game is removed.
   */
  function DeleteGameEndpoint(games: map<int, Option<int>>, gameId: int, userId: int)
    : (r: (Response, map<int, Option<int>>))
  {
    if gameId !in games then (Response(404, "Game not found"), games)
    else if games[gameId] != Some(userId) then (Response(403, "Not authorized to delete this game"), games)
    else (Response(200, "Game deleted successfully"), games - {gameId})
  }

  /**
   * Only a game's creator removes it: 404 exactly for a missing game, 403 exactly
   * for a game with another creator or none, and the game is gone afterwards
   * exactly on 200; every other game is untouched.
   */
  lemma DeleteGameGuarded(games: map<int, Option<int>>, gameId: int, userId: int)
    ensures var (resp, after) := DeleteGameEndpoint(games, gameId, userId);
            (resp.status == 404 <==> gameId !in games) &&
            (resp.status == 403 <==> gameId in games && games[gameId] != Some(userId)) &&
            (resp.status == 200 <==> gameId in games && games[gameId] == Some(userId)) &&
            (gameId !in after <==> resp.status != 403) &&
            (forall id :: id != gameId ==> (id in after <==> id in games)) &&
            (forall id :: id in after ==> after[id] == games[id])
  {
    var (resp, after) := DeleteGameEndpoint(games, gameId, userId);
    if gameId in games && games[gameId] == Some(userId) {
      assert after == games - {gameId};
    }
  }

  /** The Python values the comment endpoint compares: a member of a plain `Enum` class, or a `str`. */
  datatype PyValue = EnumMember(enumClass: string, name: string) | Str(s: string)

  /**
   * Python's `==` on these values: an enum member equals only itself, strings
   * compare by contents, and a member of an `Enum` that does not derive from
   * `str` never equals a string.
   */
  function PyEq(a: PyValue, b: PyValue): bool
  {
    match (a, b)
    case (EnumMember(c1, n1), EnumMember(c2, n2)) => c1 == c2 && n1 == n2
    case (Str(s1), Str(s2)) => s1 == s2
    case _ => false
  }

  /** `DeleteResult.SUCCESS`, `DeleteResult.NOT_FOUND`, `DeleteResult.NOT_AUTHORIZED` as Python values. */
  function AsPython(r: DeleteResult): PyValue
  {
    match r
    case Success => EnumMember("DeleteResult", "SUCCESS")
    case NotFound => EnumMember("DeleteResult", "NOT_FOUND")
    case NotAuthorized => EnumMember("DeleteResult", "NOT_AUTHORIZED")
  }

  /** The answer `delete_comment` builds as written: it compares the enum member with the strings of its values. */
  function DeleteCommentResponseAsWritten(r: DeleteResult): (h: Response)
    ensures h == Response(200, "Comment deleted successfully")
  {
    var v := AsPython(r);
    if PyEq(v, Str("not_found")) then Response(404, "Comment not found")
    else if PyEq(v, Str("not_authorized")) then Response(403, "Not authorized or comment not found")
    else Response(200, "Comment deleted successfully")
  }

  /** A request for a comment that does not exist is answered as a successful deletion. */
  lemma MissingCommentReportedDeleted()
    ensures var (res, after) := DeleteComment(map[], 7, 1);
            res == NotFound && after == map[] &&
            DeleteCommentResponseAsWritten(res).status == 200
  {
    var (res, after) := DeleteComment(map[], 7, 1);
    assert res == NotFound;
  }

  /** A request by someone who may not delete the comment is answered as a successful deletion, and the comment stays. */
  lemma ForbiddenCommentReportedDeleted()
    ensures var comments := map[7 := CommentRow(2, Some(3))];
            var (res, after) := DeleteComment(comments, 7, 1);
            res == NotAuthorized && 7 in after &&
            DeleteCommentResponseAsWritten(res).status == 200
  {
    var comments := map[7 := CommentRow(2, Some(3))];
    var (res, after) := DeleteComment(comments, 7, 1);
    assert !MayDelete(comments[7], 1);
  }

  /** The answer `delete_comment` evidently intends: the result compared with the enum's own members. */
  function DeleteCommentResponse(r: DeleteResult): (h: Response)
    ensures h.status == 404 <==> r == NotFound
    ensures h.status == 403 <==> r == NotAuthorized
    ensures h.status == 200 <==> r == Success
  {
    var v := AsPython(r);
    if PyEq(v, AsPython(NotFound)) then Response(404, "Comment not found")
    else if PyEq(v, AsPython(NotAuthorized)) then Response(403, "Not authorized or comment not found")
    else Response(200, "Comment deleted successfully")
  }

  /** `delete_comment` with the corrected comparison: the decision of `delete_comment_crud`, then the answer. */
  function DeleteCommentEndpoint(comments: map<int, CommentRow>, commentId: int, userId: int)
    : (r: (Response, map<int, CommentRow>))
  {
    var (res, after) := DeleteComment(comments, commentId, userId);
    (DeleteCommentResponse(res), after)
  }

  /**
   * With the corrected comparison the answer is truthful: 200 exactly when the
   * comment existed and is gone, 404 exactly when it was missing, 403 exactly
   * when the caller is neither its author nor its game's creator.
   */
  lemma DeleteCommentEndpointTruthful(comments: map<int, CommentRow>, commentId: int, userId: int)
    ensures var (resp, after) := DeleteCommentEndpoint(comments, commentId, userId);
            (resp.status == 200 <==> commentId in comments && commentId !in after) &&
            (resp.status == 404 <==> commentId !in comments) &&
            (resp.status == 403 <==> commentId in comments && !MayDelete(comments[commentId], userId))
  {
    var (res, after) := DeleteComment(comments, commentId, userId);
    DeleteCommentGuarded(comments, commentId, userId);
    assert DeleteCommentEndpoint(comments, commentId, userId) == (DeleteCommentResponse(res), after);
    match res
    case Success =>
      assert DeleteCommentResponse(res).status == 200;
    case NotFound =>
      assert DeleteCommentResponse(res).status == 404;
    case NotAuthorized =>
      assert DeleteCommentResponse(res).status == 403;
  }
}

# Word-search game backend: a verified model

This project models the parts of the word-search game backend that decide something. Everything else in the backend is storage, HTTP plumbing or cryptography.

- **Grid generation.** `generate_word_search_grid` upper-cases the words and sorts them longest first. It lays each word into an empty square grid by up to 200 random trials. A trial draws one of eight directions and a start cell. It is skipped when the word's end cell is off the board, and rejected when a path cell holds another letter; otherwise the word is written along the path. When a word exhausts its trials, `GridGenerationError` names it. Otherwise the blank cells get random letters A–Z and the grid is flattened row by row.
- **Game creation.** `create_game` always uses a 10-by-10 grid. It stores the word list upper-cased, in input order.
- **Comment deletion.** `delete_comment_crud` answers not-found, not-authorised (neither the comment's author nor its game's creator) or success; only on success is the comment removed. The `delete_comment` endpoint turns that answer into an HTTP response.
- **Game deletion.** The `delete_game_endpoint` check answers 404 for a missing game, 403 for a game whose creator is not the caller, and otherwise deletes the game.
- **Live results.** `game_connections` maps a game id to the list of open websocket connections watching it. A connection is appended on connect and removed on disconnect. `broadcast_result` sends to one game's list, in order.

Randomness is an oracle passed in as parameters:

- `trials` is the sequence of (direction index, start row, start column) draws, consumed in order across all words.
- `picks(k)` is the alphabet index of the k-th filler letter.

Every property holds for every oracle whose draws lie in the ranges of `random.choice` and `random.randint`.

The generator exists twice:

- as functions on board values (modules `Grid` and `Generation`), where the properties are proved;
- as the loops the source runs over a mutable 2-D array (module `Generator`), each method proved to compute exactly the corresponding function.

Module `Crud` models game creation and the comment decision. `Endpoints` models the two delete endpoints. `LiveResults` models the connection registry, as a class whose methods update its table in place.

## Model

| member | source | states |
|---|---|---|
| WordCase.Upper | backend/crud.py:18 | an upper-cased word has the input's length, and each character is the input character upper-cased (ASCII a–z to A–Z) |
| WordCase.UpperAll | backend/crud.py:18 | reference definition of the upper-cased word list (also stored at crud.py:91); `UpperAllShape` states its shape |
| WordCase.UpperHasNoLowercase | backend/crud.py:18 | no lower-case letter a–z remains after upper-casing, and characters outside a–z are unchanged |
| WordCase.UpperIdempotent | backend/crud.py:18 | upper-casing an upper-cased word changes nothing |
| WordCase.UpperAllShape | backend/crud.py:91 | the upper-cased word list has the input's length, and word i is input word i upper-cased, with its length |
| LengthOrder.SortByLength | backend/crud.py:28 | the attempt order is a permutation of the words, never gets longer from left to right, and keeps words of equal length in input order (stable) |
| LengthOrder.Insert | backend/crud.py:28 | reference definition of one step of the stable longest-first sort; `InsertPermutes`, `InsertKeepsOrder` and `InsertIsStable` state what it does |
| LengthOrder.InsertFront | backend/crud.py:28 | inserting a word into a sorted arrangement yields a sorted, stable arrangement of the list with that word in front |
| LengthOrder.InsertPermutes | backend/crud.py:28 | one insertion step adds exactly the inserted word to the multiset of words |
| LengthOrder.InsertKeepsOrder | backend/crud.py:28 | one insertion step keeps a longest-first list longest-first |
| LengthOrder.InsertIsStable | backend/crud.py:28 | one insertion step keeps, for each length, the words of that length in input order |
| LengthOrder.OfLengthCons | backend/crud.py:28 | proof helper (unfolding of the per-length filter): the words of a given length in a list with a word in front are that word, if it has the length, followed by the rest's words of that length |
| LengthOrder.FirstIsLongest | backend/crud.py:28 | the first word attempted is at least as long as every input word |
| Grid.EmptyBoard | backend/crud.py:16 | the initial grid is n by n and every cell is blank |
| Grid.DirectionsAreUnitSteps | backend/crud.py:21-24 | the direction table has 8 distinct entries; each is a unit step that is not (0, 0); every such step is in the table |
| Grid.EndInBounds | backend/crud.py:40-43 | reference definition of the source's only bounds test: the end cell `start + (len - 1) * direction` lies in `[0, n)` in both coordinates |
| Grid.Compatible | backend/crud.py:51 | reference definition: a cell accepts a letter when it is blank or already holds that letter |
| Grid.Fits | backend/crud.py:47-53 | reference definition of the path check: every path cell accepts the word's letter; `Generator.CanPlace` and `Generation.TryTrialExact` are proved against it |
| Grid.EndCellBoundsPath | backend/crud.py:40-44 | for a unit direction, an in-bounds start cell and end cell put every path cell in bounds, so the single end-cell test keeps all writes on the board |
| Grid.LongWordLeavesBoard | backend/crud.py:40-44 | a word longer than the board always has its end cell off the board, since no direction is (0, 0) |
| Grid.PathCellsDistinct | backend/crud.py:48-49 | two different letters of a word on a unit-step path occupy different cells |
| Grid.Set | backend/crud.py:59 | setting a cell changes that cell and no other |
| Grid.Write | backend/crud.py:56-59 | writing a word keeps the board square and of the same size |
| Grid.WriteOnPath | backend/crud.py:56-59 | after a commit, path cell i holds letter i of the word |
| Grid.WriteOffPath | backend/crud.py:56-59 | a commit leaves every cell off the path as it was |
| Grid.WriteCell | backend/crud.py:56-59 | a cell that a commit changes lies on the path and holds the word's letter for that position |
| Grid.WriteExtends | backend/crud.py:47-59 | committing a word whose path check passed keeps every letter already on the board (no conflicting overwrite) |
| Grid.WriteReadable | backend/crud.py:56-59 | after a commit the word reads along its path |
| Grid.ExtendsReflexive | backend/crud.py:16 | a board keeps all of its own letters |
| Grid.ExtendsTransitive | backend/crud.py:28-61 | letters kept from one placement to the next are kept through all placements |
| Grid.ExtendsKeepsReadable | backend/crud.py:28-61 | a word placed earlier still reads on every later board |
| Generation.TryTrial | backend/crud.py:32-59 | a trial that succeeds yields a square board of the same size |
| Generation.TryTrialSound | backend/crud.py:47-59 | a successful trial keeps every earlier letter and makes its word readable along the drawn path |
| Generation.TryTrialExact | backend/crud.py:40-56 | a trial succeeds exactly when the end cell is in bounds and every path cell is blank or already holds the word's letter |
| Generation.PlaceWord | backend/crud.py:29-61 | a word's trials end either exhausted after exactly the budget, or placed after at least one and at most the budget, on a same-size board |
| Generation.PlaceWordStep | backend/crud.py:31-61 | proof helper (unfolding of one loop iteration): the current trial decides the word if it succeeds, and otherwise the search goes on with one trial fewer |
| Generation.PlaceWordSound | backend/crud.py:29-61 | a placed word reads along the path of some valid trial, and every earlier letter is kept |
| Generation.PlaceWordExhausted | backend/crud.py:31-65 | a word is given up exactly when every one of its trials fails |
| Generation.PlaceWordFirstFit | backend/crud.py:56-61 | the committed trial is the first that succeeds, and every trial before it failed |
| Generation.LongWordExhausts | backend/crud.py:31-65 | a word longer than the board exhausts all its trials, whatever the draws |
| Generation.PlaceAll | backend/crud.py:28-65 | placing all words ends with a same-size board after consuming at most 200 draws for each word in total (k + 200·|order|), or fails naming one of the words; `PlaceAllFailure` says which |
| Generation.PlaceAllFailure | backend/crud.py:28-65 | a failed layout names a word `order[i]` such that the words before it were all placed, and every one of its 200 trials fails on the board they left |
| Generation.PlaceAllSound | backend/crud.py:28-65 | when every word is placed, the final board keeps the starting letters and every word reads on it along some path |
| Generation.RowStartIsProduct | backend/crud.py:70 | the row-major offset of row r is r times the grid size |
| Generation.RowStartMono | backend/crud.py:70 | a later row starts at least one full row after an earlier one |
| Generation.RowMajorOrder | backend/crud.py:70 | row-major positions compare like (row, column) pairs |
| Generation.FillFrom | backend/crud.py:70 | reference definition of the row-major flattening from a given cell, each blank consuming the next pick; `FillFromLength`, `FillFromStep` and `FillFromAt` state its meaning |
| Generation.Fill | backend/crud.py:68-70 | reference definition of the flat grid; `FillAt`, `FillLength` and `FillKeepsWords` state its meaning |
| Generation.FillFromLength | backend/crud.py:70 | the flattening from a cell on produces exactly the cells not yet visited |
| Generation.FillFromStep | backend/crud.py:68-70 | each flattening step emits the cell's letter, or a letter of the alphabet for a blank cell, and moves to the next cell in row-major order |
| Generation.FillFromCell | backend/crud.py:70 | proof helper (unfolding of one cell): one cell of a row: what was emitted so far, then this cell's letter or next pick, then the rest |
| Generation.FillFromAt | backend/crud.py:68-70 | from a cell on, each later cell sits at its row-major distance and holds the board's letter, or an alphabet letter if blank |
| Generation.FillAt | backend/crud.py:68-70 | the flat grid has n*n cells, and cell r*n+c is the board's letter at (r, c), or a letter A–Z where that cell was blank |
| Generation.FillLength | backend/crud.py:70 | the flat grid has exactly n*n cells |
| Generation.FillKeepsWords | backend/crud.py:68-70 | filling blanks keeps every placed word readable in the flat grid |
| Generation.GenerateSpec | backend/crud.py:14-73 | reference definition of the whole generator under the oracle; `GenerateSound`, `GenerateFailure` and `LongWordFailsGeneration` state its meaning, and `Generator.Generate` is proved equal to it |
| Generation.GenerateSound | backend/crud.py:14-73 | on success the flat grid has n*n cells and every upper-cased word reads along a path of one of the 8 directions; on failure the error names one of the upper-cased words |
| Generation.GenerateFailure | backend/crud.py:28-65 | on failure the named word is the first, in attempt order, whose 200 trials all failed on the board the earlier words left |
| Generation.LongWordFailsGeneration | backend/crud.py:28-65 | if any word is longer than the grid, generation fails, whatever the draws, naming a word longer than the grid and at least as long as every input word |
| Generator.CanPlace | backend/crud.py:47-53 | the path-check loop with its early break returns true exactly when every path cell is blank or already holds the word's letter |
| Generator.Commit | backend/crud.py:56-59 | the write loop leaves the array holding the board with the word written along its path |
| Generator.RunTrial | backend/crud.py:40-60 | one trial on the array succeeds exactly when the trial function does; a skipped or rejected trial leaves the array unchanged |
| Generator.PlaceWordIn | backend/crud.py:29-61 | the 200-trial loop with `continue` and `break` reports placement and the next draw as the word-placement function does, and the array then holds that board, or the old one |
| Generator.FillRow | backend/crud.py:70 | one row of the flattening emits exactly the function's cells for that row and consumes the picks of its blank cells |
| Generator.FillBlanks | backend/crud.py:68-70 | the flattening loop returns exactly the flat grid the fill function defines |
| Generator.Generate | backend/crud.py:14-73 | the imperative generator returns exactly the outcome the generation function defines, for every oracle |
| Crud.CreateGame | backend/crud.py:77-99 | the grid is generated at size 10; a generation error is passed on with the word it names; otherwise the game row holds the title, the optional description, the upper-cased words in input order, the 100-cell grid, size 10 and the creator, and every stored word reads on the grid |
| Crud.DeleteDecision | backend/crud.py:160-177 | not-found exactly when the comment is missing; not-authorised exactly when the caller is neither the author nor the game's creator; success exactly otherwise |
| Crud.DeleteComment | backend/crud.py:160-177 | reference definition of `delete_comment_crud` over the comment table; `DeleteCommentGuarded` states its meaning |
| Crud.DeleteCommentGuarded | backend/crud.py:160-177 | the comment is removed exactly when it existed and the caller may delete it; no other comment changes |
| Endpoints.DeleteGameEndpoint | backend/main.py:114-124 | reference definition of the delete-game endpoint over the game table; `DeleteGameGuarded` states its meaning |
| Endpoints.DeleteGameGuarded | backend/main.py:114-124 | 404 exactly for a missing game; 403 exactly when the game's creator is not the caller (including a game with no creator); 200 and removal exactly otherwise; other games untouched |
| Endpoints.DeleteCommentResponseAsWritten | backend/main.py:204-210 | as written, the endpoint answers 200 "Comment deleted successfully" whatever the decision was |
| Endpoints.MissingCommentReportedDeleted | backend/main.py:204-210 | a request for a missing comment is decided not-found, yet answered 200 |
| Endpoints.ForbiddenCommentReportedDeleted | backend/main.py:204-210 | a request by someone not allowed is decided not-authorised and the comment stays, yet the answer is 200 |
| Endpoints.DeleteCommentResponse | backend/main.py:204-210 | with the comparison fixed, the answer is 404 exactly for not-found, 403 exactly for not-authorised, 200 exactly for success |
| Endpoints.DeleteCommentEndpoint | backend/main.py:204-210 | the endpoint with the corrected comparison over the comment table; `DeleteCommentEndpointTruthful` states its meaning |
| Endpoints.DeleteCommentEndpointTruthful | backend/main.py:204-210 | with the fix, 200 exactly when the comment existed and is gone, 404 exactly when missing, 403 exactly when the caller may not delete it |
| LiveResults.Connected | backend/main.py:168-170 | connecting creates the game's list when missing and appends the connection at its end; the key set gains only that id; no other game's list changes |
| LiveResults.FirstIndex | backend/main.py:178 | the position found holds the connection, and no earlier position does |
| LiveResults.RemoveFirst | backend/main.py:178 | removal drops the first occurrence and keeps the rest in order: the result is the list before the first `c` followed by the list after it; the length shrinks by one and the multiset loses one copy |
| LiveResults.RemoveLastAppended | backend/main.py:170-178 | removing a connection just appended, and not present before, gives back the previous list |
| LiveResults.Disconnected | backend/main.py:178 | disconnecting keeps the key set and every other game's list; the game's list loses the first occurrence of the connection and keeps the rest in order |
| LiveResults.DisconnectUndoesConnect | backend/main.py:168-178 | a connection that joins and then leaves, not having been there before, restores its game's list (a first connect leaves an empty list behind) |
| LiveResults.Registry.constructor | backend/main.py:160 | the registry starts with no game |
| LiveResults.Registry.Connect | backend/main.py:168-170 | the table afterwards is the old table with the connection appended to the game's list |
| LiveResults.Registry.Disconnect | backend/main.py:178 | the table afterwards is the old table with the connection's first occurrence removed from the game's list |
| LiveResults.Registry.Broadcast | backend/main.py:181-184 | sends go to a prefix of the game's list, in list order, one per occurrence; all of it exactly when every send succeeds; otherwise the loop stops right after the first failed send; a game with no entry gets no sends |

## Left out

- Database sessions, commits, ORM relationships and the other CRUD operations are not modelled. The store is a map from ids to the fields the decisions read.
- JSON encoding of the grid and the word list is not modelled. The model keeps the flat sequence of one-character cells and the list of words.
- HTTP routing, request schemas, CORS, and authentication (password hashing, tokens) are not modelled. The caller's id is a parameter.
- The distribution of `random.choice` and `random.randint` is not modelled. The draws are an arbitrary oracle, so no probability of success is stated.
- The websocket accept, the receive loop, `send_json` and background tasks are not modelled, as they are network I/O. Whether a send succeeds is a parameter.
- A disconnect or connect that happens while a broadcast is iterating the same list (concurrent mutation under `await`) is not modelled.
- WordCase.Upper: covers ASCII a–z only. Python's full Unicode upper-casing, where one character can become several (`ß` to `SS`), is not modelled.
- Generation.GenerateSpec: requires enough valid draws, 200 per word. On a 0-by-0 grid with at least one word, Python's `randint(0, -1)` raises `ValueError`. The model excludes that case rather than modelling the exception.
- LiveResults.Registry.Disconnect: requires the connection to be in its game's list. `list.remove` raises `ValueError` on a miss, and the source never checks, so the model does not model that exception.
- Crud.DeleteDecision: assumes every comment has its game loaded. The foreign key is not nullable, so a comment without a game would raise `AttributeError`; that case is not modelled.
- The source behaves in ways that can look unexpected; the model follows the source here:
  - A failed send raises out of the broadcast loop, so the later connections get nothing.
  - The same connection can be in a list twice, and one disconnect removes only its first occurrence.
  - An empty word passes the end-cell test whenever the cell one step before the start is on the board. It is then placed without writing anything.

## Findings

| source | as written | input that shows it | evidently intended | confidence | as-written member | corrected member |
|---|---|---|---|---|---|---|
| backend/main.py:206-209 | The endpoint compares the `DeleteResult` member with the strings `"not_found"` and `"not_authorized"`. `DeleteResult` is a plain `Enum`, not a `str` subclass, so both comparisons are always false and the endpoint always answers 200 "Comment deleted successfully". | Deleting comment 7 when no comment 7 exists: the decision is not-found, yet the answer is 200. Deleting another user's comment on another user's game: the decision is not-authorised and the comment stays, yet the answer is 200. | Compare with `DeleteResult.NOT_FOUND` and `DeleteResult.NOT_AUTHORIZED`, or the members' values: 404 for a missing comment, 403 for a caller not allowed to delete it. | not executed | Endpoints.DeleteCommentResponseAsWritten | Endpoints.DeleteCommentResponse |

# Snake game core in Dafny

A model of the logic of a single-file pygame snake game (`main.py`), with proofs about it.
The game runs a snake on a 30 by 20 torus of cells. It reads a player name and a difficulty
tier, then runs rounds. Each round polls the keyboard, advances the snake on a fixed
timestep and grows it when it eats. The tick rate rises with the snake's length. When a
round ends, the final score is merged into a top-7 leaderboard.

The model has five modules, one file each:

- `grid.dfy` (`Grid`): cells, the four directions, the reversal test and the wrap-around
  move.
- `clock.dfy` (`Clock`): the speed rule. The game's float update interval is kept as an
  exact integer tick rate, and a lemma shows that the float formula is its reciprocal.
- `menus.dfy` (`Menus`): the difficulty tiers, the difficulty cursor loop and the
  name-entry loop with its key editing, its strip test and its default name.
- `highscores.dfy` (`HighScores`): the in-memory half of loading and saving the
  leaderboard. Entries are recorded, stably sorted by descending score and cut to 7.
- `game.dfy` (`Game`): the `Snake` and `Food` classes, whose methods update their fields
  in place, and a `Round` class holding one pass of the round loop and its tick.

Inputs the game takes from its environment become parameters:

- The current time is a `real` parameter `now`.
- The random food positions are a sequence `draws` of in-range cells, consumed in order.
- The keyboard is a sequence of events, one batch per poll of the event queue in the
  name prompt.
- The leaderboard file is the sequence of its entries in file order.

The game's source comments and an on-screen title speak of a "top 10". The code keeps 7,
and so does the model.

## Model

| member | source | states |
|---|---|---|
| Grid.Reverse | main.py:28-31 | the opposite direction negates both deltas and differs from the direction |
| Grid.IsReversal | main.py:285 | the delta test of `update_direction` holds exactly when the requested direction is the reverse of the current one |
| Grid.Move | main.py:293-296 | the moved cell is on the grid and differs from any starting cell on the grid |
| Grid.MoveIsStep | main.py:295-296 | the modulo move equals an independent ring step: leaving at an edge re-enters at the opposite edge, otherwise the coordinate moves by the delta |
| Grid.MoveThenReverse | main.py:28-31 | moving back in the reverse direction returns to the starting cell |
| Clock.TickRate | main.py:426-427 | the rate lies between f and 2f, is 2f once the length reaches 3f, and is f below length 3 |
| Clock.IntervalIsReciprocalOfRate | main.py:426-427 | the float interval max(1/(2f), 1/(f + length div 3)) equals 1/min(2f, f + length div 3) |
| Clock.Interval | main.py:426-427 | the float interval lies between 1/(2f) and 1/f |
| Clock.Due | main.py:414 | a tick is due exactly when the time since the last tick, times the rate, reaches one |
| Clock.DueIsIntervalTest | main.py:414 | for any tier and length, a tick is due exactly when the time since the last tick reaches the interval of main.py:426-427 |
| Clock.TickRateMonotonic | main.py:426-427 | a longer snake never gets a lower tick rate |
| Clock.TickRateSamples | main.py:390 | for f = 10 the rate is 10 at length 1, 11 at length 3 and 20 at length 30, and the intervals are 1/11 and 1/20 |
| Menus.PlayableTiers | main.py:78-81 | a playable tier has at least the base rate and a multiplier from 1 to 3, and is not the leaderboard entry |
| Menus.CursorUp | main.py:95-96 | moving up stays within the four entries and is undone by moving down |
| Menus.CursorDown | main.py:97-98 | moving down stays within the four entries |
| Menus.CursorDownThenUp | main.py:95-98 | moving down and then up returns to the entry |
| Menus.CursorAfter | main.py:89-98 | after any run of keys the cursor is on one of the four entries |
| Menus.CursorIsNetCount | main.py:84-98 | the cursor is the start plus the down keys minus the up keys, taken modulo 4 |
| Menus.SelectDifficulty | main.py:76-105 | the result is MenuOutcome of the keys from the Normal entry; a chosen tier is playable and is the entry under the cursor at a Return before which no key ended the screen; waiting leaves the cursor where the keys put it, after no quit and only Returns on the leaderboard entry that carried on; closing comes at the first quit, or at a Return on the leaderboard entry whose screen was closed |
| Menus.MenuOutcome | main.py:84-105 | the screen read key by key from the first: a waiting screen's cursor is on one of the four entries |
| Menus.IsAlnum | main.py:56 | a letter or digit is never whitespace |
| Menus.TrimLeft | main.py:52 | the result is a suffix of the input that does not start with whitespace |
| Menus.TrimLeftCutsSpaces | main.py:52 | every character cut from the front is whitespace |
| Menus.TrimRight | main.py:52 | the result is a prefix of the input that does not end with whitespace |
| Menus.TrimRightCutsSpaces | main.py:52 | every character cut from the end is whitespace |
| Menus.Strip | main.py:52 | the stripped name is no longer than the name and neither starts nor ends with whitespace |
| Menus.StripCutsSpaces | main.py:52 | the stripped name is one contiguous stretch of the name, and everything cut on either side is whitespace |
| Menus.TrimLeftAllSpace | main.py:52 | an all-whitespace name trims to nothing |
| Menus.StripBlankIff | main.py:52 | the stripped name is empty exactly when the name is all whitespace |
| Menus.Accepts | main.py:52 | only Return on a buffer that is not empty is accepted |
| Menus.AcceptsTypedName | main.py:52-57 | on a buffer of letters and digits, Return is accepted exactly when something has been typed |
| Menus.AcceptsIsStripTest | main.py:52 | Return is accepted exactly when the key is Return and the stripped name is not empty |
| Menus.StripAlnum | main.py:74 | a name of letters and digits strips to itself |
| Menus.EditName | main.py:51-57 | Backspace drops the last character or keeps an empty buffer; another key appends its character exactly when it is alphanumeric and fewer than 15 are typed, and otherwise leaves the buffer; the buffer stays within 15 letters and digits |
| Menus.BackspaceUndoesTyping | main.py:54-57 | Backspace after typing an accepted character restores the buffer |
| Menus.ApplyBatch | main.py:46-57 | one poll's events: closed exactly when the batch holds a quit; otherwise the buffer and the accepted flag are those of Feed, the keys applied in order; accepted implies a Return; the buffer stays within 15 letters and digits |
| Menus.Key | main.py:52-57 | one key of a poll: acceptance, once reached, is kept; a key that gives acceptance is a Return and leaves the buffer as it was |
| Menus.Feed | main.py:46-57 | the keys of one poll applied in order: each key adds at most one character to the buffer |
| Menus.FeedKeepsNameValid | main.py:53-57 | whatever keys are typed, the buffer stays at most 15 letters and digits |
| Menus.FeedAcceptsIff | main.py:52-53 | a poll ends accepted exactly when it started so or one of its Returns met a buffer that was not blank at that point |
| Menus.FeedKeepsAccepted | main.py:52-53 | once accepted, a poll stays accepted whatever keys follow |
| Menus.FeedAcceptedAt | main.py:52-53 | a Return that meets a buffer that is not blank leaves the poll accepted |
| Menus.FeedAcceptedWitness | main.py:52-53 | a poll that ends accepted from an unaccepted start has a Return that met a buffer that was not blank |
| Menus.FinalName | main.py:74 | the prompt hands on the buffer, or "Player" when it is empty |
| Menus.PromptOutcome | main.py:40-74 | the prompt read poll by poll: a waiting prompt's buffer is at most 15 letters and digits |
| Menus.PromptOutcomeCases | main.py:40-74 | a name entered is a 1-15 character alphanumeric name or "Player" and came with a Return; a waiting prompt saw no quit; a closed prompt saw one |
| Menus.GetPlayerName | main.py:40-74 | the result is PromptOutcome of the polls from an empty buffer: the first poll with a quit closes, the first poll that accepts ends with FinalName of its final buffer, and otherwise the buffer is carried on; a name entered is a 1-15 character alphanumeric name or "Player" and came after a Return; a closed prompt saw a quit; a waiting prompt saw none |
| HighScores.Insert | main.py:146 | insertion adds one element, at the front or after the first entry |
| HighScores.InsertPermutes | main.py:146 | insertion adds exactly the new entry |
| HighScores.InsertKeepsSorted | main.py:146 | inserting into a table sorted by descending score keeps it sorted |
| HighScores.SortByScore | main.py:130 | sorting keeps the table's length |
| HighScores.SortPermutes | main.py:130 | the sorted table is a permutation of the input |
| HighScores.SortSorts | main.py:130 | the sorted table is in descending order of score |
| HighScores.InsertWithScore | main.py:146 | among the entries with any one score, insertion puts the new entry first and keeps the others in their order |
| HighScores.SortIsStable | main.py:146 | for every score, the entries with that score keep their input order |
| HighScores.SortSortedIsIdentity | main.py:130 | sorting a table already in descending order changes nothing |
| HighScores.Top | main.py:131 | the cut keeps the first min(n, 7) entries |
| HighScores.LoadHighScores | main.py:125-133 | the loaded table has at most 7 entries from the file, sorted, and exactly 7 when the file has at least 7 |
| HighScores.LoadDropsNotBetter | main.py:130-131 | an entry of the file that is not loaded leaves the table full and scores no more than any loaded entry |
| HighScores.CutNotBetter | main.py:131 | cutting a sorted table to 7 drops only entries that score no more than every entry kept |
| HighScores.IndexOf | main.py:139 | the index of the entry with the name, or -1 when no entry has it |
| HighScores.Record | main.py:139-143 | a new name is appended; an existing entry is replaced in place only by a strictly higher score; nothing else changes |
| HighScores.SaveHighScore | main.py:135-147 | the written table has at most 7 entries and is sorted by descending score |
| HighScores.RecordKeepsNamesDistinct | main.py:139-143 | recording keeps the names distinct |
| HighScores.RecordKeepsBest | main.py:139-143 | a known name ends with the better of its old and new scores and the difficulty that goes with it; every other entry stays |
| HighScores.InsertKeepsNamesDistinct | main.py:146 | inserting a new name into a table of distinct names keeps them distinct |
| HighScores.SortKeepsNamesDistinct | main.py:146 | sorting keeps the names distinct |
| HighScores.LoadKeepsNamesDistinct | main.py:130-131 | loading a file of distinct names gives distinct names |
| HighScores.SaveKeepsBest | main.py:135-147 | a name still in the saved table has the better of its loaded score and the new score, and its entry is the new one with the new difficulty when the new score is higher and the loaded one otherwise |
| HighScores.SaveKeepsRecorded | main.py:135-147 | the saved table holds only entries of the recorded table, the loaded ones and the new one |
| HighScores.NewcomerBehindTies | main.py:143-146 | a new name tied with existing entries is ordered after all of them |
| HighScores.LoadAfterSave | main.py:130-131 | reading back the saved table gives the same table |
| HighScores.DroppedNotBetter | main.py:146-147 | an entry cut from the table leaves it full, and it scores no more than any kept entry |
| HighScores.BestOfTwoRounds | main.py:139-147 | saving 50 and then 30 for the same player keeps the single entry with 50 |
| Game.PrependKeepsDistinct | main.py:303 | putting a cell in front of a body it is not in keeps the cells distinct |
| Game.Snake.constructor | main.py:265-266 | a new snake is in its reset state and satisfies the invariant |
| Game.Snake.Reset | main.py:268-278 | one cell at the centre, heading right with right queued, length 1, score 0, the tier's rate and multiplier, no growth pending; the invariant holds |
| Game.Snake.GetHeadPosition | main.py:280-281 | the head is on the grid, in the body, and not repeated behind it |
| Game.Snake.NextHead | main.py:293-296 | the next head is on the grid and is not the current head |
| Game.Snake.UpdateDirection | main.py:283-286 | a reversing request leaves the queued direction unchanged, any other request becomes it; the queued direction is never the reverse of the committed one |
| Game.Snake.Update | main.py:288-312 | the queued direction is committed and never reverses the previous one; the move fails exactly when the new head is on the body behind the head, the tail included, and then nothing else changes; otherwise the head goes in front and the tail is dropped unless growth is pending; the body stays distinct and on the grid, and length = body + pending, score = 10 x multiplier x (length - 1) |
| Game.Snake.Grow | main.py:314-317 | length and pending growth go up by one and the score by 10 x multiplier, keeping the invariant |
| Game.GrowthIsDeferred | main.py:303-317 | a new snake that grows and then moves twice is two cells long after each move |
| Game.StraightRun | main.py:293-303 | three moves from the start heading right put the single cell three columns right |
| Game.GrowAlongRow | main.py:303-310 | with three cells of growth pending, three moves right lay the body out along the row |
| Game.TurnIntoTail | main.py:299-300 | a four-cell snake that turns down, left and up meets its own tail cell and stops |
| Game.TailIsAnObstacle | main.py:299-300 | a snake can run into the cell its tail occupies, and that ends the move |
| Game.Food.constructor | main.py:347-351 | the first food is the first draw, whatever the snake covers |
| Game.Food.RandomizePosition | main.py:353-355 | the food moves to the draw and its spawn time is reset |
| Game.Round.constructor | main.py:386-390 | a round starts with a new snake (one cell at the centre, heading right with right queued, length 1, score 0, no growth pending, the tier's name), unchecked food at the first draw, the round running, the last tick at now and the base tick rate |
| Game.Round.RelocateFood | main.py:421-423 | redrawing stops at the first draw off the body; every earlier draw was on the body |
| Game.Round.EatFood | main.py:419-423 | when the head is on the food the snake grows and the food moves to the first draw off the body, the result counting the draws used, every earlier one on the body; otherwise nothing changes and no draw is used |
| Game.Round.MoveSnake | main.py:414-416 | the tick's move: the time of the last tick becomes now; the queued direction is committed; the running flag is true exactly when the new head misses the body behind the head; then the head goes in front and the tail is dropped unless growth is pending, and pending growth goes down by one; otherwise body and pending growth stay; the food stays off the body behind the head; the snake keeps its tier's name, speed and multiplier |
| Game.Round.HandleEvents | main.py:396-409 | the event half of a pass: it reports a window close exactly when the pass holds one; otherwise the queued direction is TurnsQueued of the pass's turns and the running flag is cleared exactly when the pass holds an Escape |
| Game.Round.Tick | main.py:414-427 | the tick: the queued direction is committed; the running flag is the move's result and the body is the move's; pending growth is the move's plus one when the head lands on the food; eating adds one to the length and 10 x multiplier to the score and moves the food to the first draw off the body, the result counting the draws used; otherwise length, score and food stay and no draw is used; the food ends off the body; the rate is recomputed and never drops; the round invariant, which ties the snake's difficulty name to the tier played, is kept |
| Game.TurnsQueued | main.py:401-409 | the direction the pass's turns queue, while the committed one stays put: it is the earlier queued direction or one of the turns of the pass |
| Game.TurnsQueuedNeverReverses | main.py:283-286 | however the keys fall, the queued direction never reverses the committed one |
| Game.TurnsQueuedKeepsQueue | main.py:396-409 | a pass whose every turn reverses the committed direction leaves the queued direction as it was |
| Game.TurnsQueuedIsLastAllowedTurn | main.py:396-409 | the queued direction is the last turn of the pass that is not a reversal |
| Game.Round.Iteration | main.py:393-427 | a closed window quits at once; with no tick due, nothing moves, the queued direction is TurnsQueued of the pass's turns and Escape alone decides the running flag; with a tick due, that direction is committed and the tick's body, growth, eating, food (first draw off the body, draws used returned) and rate clauses hold for it, and the move's result decides the running flag whatever Escape said; the score never drops; the round invariant, which ties the snake's difficulty name to the tier played, is kept |

## Left out

- Rendering is not modelled: every `draw` method, `draw_grid`, the text blits and the colour gradient of the body. It is pixel output.
- The leaderboard screen (`show_high_scores`) is reduced to its outcome. It ends on a key press or a mouse click, which carries on, or on a window close, which quits. The difficulty menu receives that outcome as the flag of the Return event that opens it.
- The game-over screen (`show_game_over`) and the outer restart loop of `main` are not modelled. Only one round is, and the leaderboard save that follows a round is `HighScores.SaveHighScore`.
- Event polling, `pygame.init`/`quit`, icon loading and `clock.tick` are not modelled. Keyboard input arrives as event sequences. Events other than key presses and quits are not represented, because every modelled handler ignores them. The leaderboard screen also ends on a mouse click; it is reduced to its flag, as said above.
- JSON reading and writing are not modelled. The file is the sequence of its entries. A file that fails to parse is not modelled, and neither is a JSON object with a repeated key.
- `random.randint` and `time.time` become parameters: a sequence of in-range draws and a real `now`.
- Food.RandomizePosition: every food draw in one pass of the round loop uses the same `now`. The game reads the clock again for each draw, but the spawn time only drives the pulsing animation.
- Menus.IsAlnum: covers ASCII letters and digits only. Python's Unicode `isalnum` is wider, and there is no Unicode database here.
- Menus.Strip: strips the ASCII characters Python counts as whitespace (tab to carriage return, 0x1C to 0x1F, and the space), not the non-ASCII ones such as U+0085 and U+00A0. The prompt behaves the same either way, because its buffer only ever holds letters and digits.
- Game.Round.Tick: requires a draw off the body and off the cell the head moves to. The game only needs a cell that is free after the move, and this pair is what guarantees one. A full grid, on which the game's redraw loop would never end, is excluded with it.
- Game.Round.Iteration: requires a draw off the body and off every cell next to the head, because the turns of the pass choose the direction only inside it. It also requires that the round is running.
- Float arithmetic is not modelled. The update interval is the exact integer tick rate, and `Clock.IntervalIsReciprocalOfRate` relates the two.

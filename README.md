# Word search engine, modelled in Dafny

This project models the engine behind a browser word-search puzzle: the
`WordSearchGame` class. The class does the following:

- It chooses a square grid size from its word list.
- It hides each word along one of eight directions at random positions, where
  a word may cross another only on an equal letter.
- It fills the remaining cells with random letters A–Z.
- It follows the player's drag from an anchor cell, snapping it to a
  horizontal, vertical or diagonal run of cells.
- It compares the letters under the drag, forwards and backwards, with the
  words not yet found.
- It keeps the set of found words and the start and end timestamps, and
  reports the elapsed whole seconds and whether the game is complete.

The model is split into five modules:

- `Seqs` (`seqs.dfy`): sequence reversal. The source uses it for the letters
  of a selection and the model also uses it for the cells of a run.
- `Sizing` (`sizing.dfy`): `calculateOptimalGridSize`, with an integer
  ceiling square root.
- `Geometry` (`geometry.dfy`): cells, the eight directions, straight runs,
  and `getLineCells`.
- `Grids` (`grids.dfy`): the grid as a value. It holds what `placeWords`, `canPlaceWord`,
  `placeWord`, `fillEmptySpaces`, `getSelectedWord` and `checkWord` do to the
  grid or to the list of placed words, written as pure functions with their
  properties proved as lemmas.
- `Game` (`game.dfy`): the class `WordSearchGame`. Its fields are updated in
  place by methods whose postconditions tie the new state to the functions of
  `Grids`. The attempt loop inside `placeWords` is the method `AttemptWord`,
  which `PlaceWords` calls once per word; a fitting attempt is handled by
  `PlaceHit`, and the loop then returns in place of setting the `placed`
  flag. The constructor and `reset()` both leave the board that `Board`
  describes: the words placed on an empty grid from draw 0, then the noise
  fill. The shared steps are `Generate` (initializeGrid, placeWords,
  fillEmptySpaces) and `Deal` (Generate on cleared fields), and `Clear` is
  the field resets at the head of `reset()`. The class invariant `Valid()` covers all of the following:
  - the grid size chosen for the list;
  - a filled square grid in which every placed entry reads back;
  - entries that follow the word list in order;
  - `foundWords` equal to the words of the entries marked found;
  - a selection that is a straight run of grid cells;
  - for a non-empty word list, an end time that is set exactly when the
    found set is as large as the word list. For an empty list the found set
    is full from the start and the end time stays unset.

`Math.random()` is an oracle `rand: nat -> nat`. Draw `k` stands for
`Math.floor(Math.random() * m)` and is written `rand(k) % m`. Placement uses
three draws per attempt, for direction, row and column. The noise fill that
follows uses one draw per cell, row by row. `Date.now()` is a `now` argument.
A timestamp field is an `Option<int>`. The JavaScript test `!this.startTime`
treats `null` and `0` alike, and the model's `Unset` does the same.

Three behaviours of the code deserve a note:

- **Completion.** `isGameComplete` compares the size of `foundWords` with
  `words.length`, not with the number of words actually placed.
  - `CompletionIsAllFound` proves that completion is reached only when every
    word was placed and every entry found, and, for a list of distinct words,
    whenever that holds.
  - A word that placement dropped after 100 failed attempts therefore keeps
    the game from ever completing.
  - So does a repeated word in the list.
- **End time.** `checkWord` stamps `endTime` on every match that leaves the
  found set as large as the list. It does not check whether `endTime` was
  already set. `StampedGameMatchesNothing` proves that once the end time is
  set no selection matches any more, so the stamp is never repeated.
- **Return value.** `checkWord` and `endSelection` return the matched entry
  object. The model returns its index in `placedWords`.

## Model

| member | source | states |
|---|---|---|
| Seqs.Reverse | src/game/WordSearchGame.js:224 | the reversal has the same length and element i is element n-1-i of the input |
| Seqs.ReverseReverse | src/game/WordSearchGame.js:224 | reversing twice gives the original back |
| Sizing.Longest | src/game/WordSearchGame.js:43 | the longest word length: every word is at most that long, one word reaches it, and the empty list gives 0 |
| Sizing.CeilSqrt | src/game/WordSearchGame.js:52 | Math.ceil(Math.sqrt(n)) as the least r with r*r >= n |
| Sizing.CeilSqrtFrom | src/game/WordSearchGame.js:52 | an upward search from a root that does not overshoot ends at the least r with r*r >= n |
| Sizing.CeilSqrtIs | src/game/WordSearchGame.js:52 | the two defining bounds determine the ceiling square root uniquely |
| Sizing.GridSize | src/game/WordSearchGame.js:41-55 | the size lies in [12, 20]; it is at least min(20, longest + 2) and at least min(20, ceil(sqrt(2n)) + longest), and at most max(12, longest + 2, ceil(sqrt(2n)) + longest), which together pin it to min(20, max(12, longest + 2, ceil(sqrt(2n)) + longest)); the empty list gives 12 |
| Sizing.EveryWordFits | src/game/WordSearchGame.js:48 | when no word exceeds 18 letters, every word is at least two cells shorter than the grid side |
| Sizing.DefaultGridSize | src/game/WordSearchGame.js:16-28 | the shipped ten-word list has a longest word of 16 letters and gets a 20-cell grid |
| Sizing.TenWordsOfTenLetters | src/game/WordSearchGame.js:41-55 | ten words with a longest of 10 letters give a 15-cell grid, because the word-count term wins |
| Geometry.Directions | src/game/WordSearchGame.js:65-74 | the eight placement directions, in the order the source lists them |
| Geometry.DirectionsAreUnitSteps | src/game/WordSearchGame.js:65-74 | the direction table holds exactly the eight unit steps (both directions of the iff) |
| Geometry.RayIsRun | src/game/WordSearchGame.js:125-130 | the cells of a word laid along a unit step form a straight run along that step |
| Geometry.LineCells | src/game/WordSearchGame.js:186-217 | the selection starts at the anchor and is a straight run; it ends at the current cell iff the two are on a row, column or diagonal, and then has distance + 1 cells; otherwise it is the anchor alone |
| Geometry.LineCellsInGrid | src/game/WordSearchGame.js:160-166 | a drag between two grid cells selects only grid cells |
| Geometry.LineCellsOfRun | src/game/WordSearchGame.js:186-217 | a drag from the first to the last cell of any straight run selects exactly that run |
| Geometry.LineCellsOfRunBackwards | src/game/WordSearchGame.js:186-217 | a drag from the last to the first cell of a run selects the run reversed |
| Geometry.HorizontalDragExample | src/game/WordSearchGame.js:190-197 | (2,2) to (2,5) selects four cells left to right |
| Geometry.DiagonalDragExample | src/game/WordSearchGame.js:206-214 | (5,5) to (3,3) selects the diagonal up and to the left |
| Geometry.CrookedDragExample | src/game/WordSearchGame.js:215-216 | (0,0) to (1,2) is on no line and keeps only the anchor |
| Grids.Fits | src/game/WordSearchGame.js:98-118 | canPlaceWord's condition: every letter position is inside the grid and is empty or holds that same letter |
| Grids.Commit | src/game/WordSearchGame.js:125-129 | placeWord's writes, letter i of the word to the cell i steps along the direction; the grid stays square |
| Grids.PlacedWord | src/game/WordSearchGame.js:132-136 | a placedWords entry: the word, the cells written, and the found flag |
| Grids.EmptyGrid | src/game/WordSearchGame.js:57-61 | a size-by-size grid in which every cell is empty |
| Grids.CommitWrites | src/game/WordSearchGame.js:125-129 | after placement, position i holds letter i of the word |
| Grids.CommitElsewhere | src/game/WordSearchGame.js:125-129 | placement leaves every cell off the word's positions unchanged |
| Grids.CommitKeepsLetters | src/game/WordSearchGame.js:111-116 | when the word fits, placement never changes a cell that already holds a letter |
| Grids.CommitKeepsShape | src/game/WordSearchGame.js:128 | placement keeps every cell at one letter at most |
| Grids.CommitReadsBack | src/game/WordSearchGame.js:121-137 | the new entry's positions are a run of one cell per letter that spells the word; every earlier entry still reads back |
| Grids.CommitPreservesPlacement | src/game/WordSearchGame.js:121-137 | placement keeps cells at one letter at most, keeps every earlier entry and every letter already on the grid, and the new entry reads back |
| Grids.SpotAt | src/game/WordSearchGame.js:81-84 | an attempt's direction comes from the direction table and its start cell lies in the grid |
| Grids.Attempts | src/game/WordSearchGame.js:80-91 | one word's attempts: at most 100 are made; none fits only after exactly 100; a fitting attempt is the last one made and its spot is the one returned |
| Grids.AttemptsFirstFit | src/game/WordSearchGame.js:80-91 | every attempt before the one that fits failed, so a word is dropped only when all 100 attempts fail |
| Grids.Record | src/game/WordSearchGame.js:86-89 | a fitting spot has the word committed and one entry appended, earlier entries kept; draws move on by three per attempt |
| Grids.PlaceFrom | src/game/WordSearchGame.js:76-92 | the words from index w on, in list order: earlier entries are kept as a prefix, at most one entry is added per remaining word, and the remaining words use between 3 and 300 draws each on average (at least 3 and at most 300 times their number in total); the per-word facts are those of Record and Attempts |
| Grids.NoiseLetter | src/game/WordSearchGame.js:140-146 | a noise letter is a single letter from A–Z |
| Grids.Fill | src/game/WordSearchGame.js:139-150 | non-empty cells are unchanged, and every empty cell becomes a single letter from A–Z |
| Grids.FillKeepsWords | src/game/WordSearchGame.js:139-150 | after the fill every cell holds one letter and every placed word still reads back |
| Grids.Matches | src/game/WordSearchGame.js:227-229 | checkWord's test of one entry: not yet found, and equal to the selection or its reverse |
| Grids.Spell | src/game/WordSearchGame.js:219-221 | over one-letter cells, the selected word has one letter per cell, letter i being the content of cell i |
| Grids.SpellPlacedWord | src/game/WordSearchGame.js:219-224 | reading a placed entry's cells forwards gives its word, and reading them backwards gives the reversed word |
| Grids.FirstMatchFrom | src/game/WordSearchGame.js:226-240 | a found index lies at or after the start and names an unfound entry equal to the selection or to its reverse |
| Grids.FirstMatch | src/game/WordSearchGame.js:223-243 | a found index names an unfound entry that spells the selection forwards or backwards |
| Grids.FirstMatchFromIsFirst | src/game/WordSearchGame.js:226-240 | the search skips only non-matching entries and returns nothing iff no entry from the start on matches |
| Grids.FirstMatchIsFirst | src/game/WordSearchGame.js:223-243 | the match is the earliest matching entry in placement order, and there is none iff no entry matches |
| Grids.DragFindsWord | src/game/WordSearchGame.js:186-229 | a drag over a placed, unfound word's cells, in either direction, stays in the grid and matches that entry |
| Grids.FoundSet | src/game/WordSearchGame.js:232 | the found set contains the word of every entry marked found and has no more words than there are entries |
| Grids.FoundSetMember | src/game/WordSearchGame.js:232 | every word in the found set belongs to an entry marked found |
| Grids.MarkFound | src/game/WordSearchGame.js:231 | the matched entry's found flag is set, and every other entry is unchanged |
| Grids.MarkedNotMatchedAgain | src/game/WordSearchGame.js:227-231 | after the match is marked, the same selection can match only a later entry, so each entry is found at most once |
| Grids.FoundSetMark | src/game/WordSearchGame.js:231-232 | marking an entry found adds exactly its word to the found set |
| Grids.FullFoundSetMeansAllFound | src/game/WordSearchGame.js:252 | a found set as large as the entry list means every entry is found |
| Grids.AllFoundDistinctFillsFoundSet | src/game/WordSearchGame.js:252 | with distinct words, finding every entry makes the found set as large as the entry list |
| Grids.NoneFound | src/game/WordSearchGame.js:30 | with no entry found the found set is empty |
| Game.Unset | src/game/WordSearchGame.js:246-247 | JavaScript truthiness of a timestamp: null and 0 both count as unset |
| Game.Board | src/game/WordSearchGame.js:36-38 | the board built for the words is square of the given size, holds no more entries than there are words, and placement used at least 3 and at most 300 draws per word in total |
| Game.CommitKeepsPlacement | src/game/WordSearchGame.js:86-88 | committing word w where it fits keeps the placement invariant: entries in list order, the new unfound entry appended, every letter already on the grid kept |
| Game.FillKeepsPlacement | src/game/WordSearchGame.js:36-38 | the noise fill keeps every placed entry reading back and leaves no cell empty |
| Game.CompletionNeedsEveryWord | src/game/WordSearchGame.js:251-253 | a complete game has every word of the list placed and every entry found |
| Game.EveryWordFoundCompletes | src/game/WordSearchGame.js:251-253 | with distinct words, all placed and all found, the game is complete |
| Game.CompletionIsAllFound | src/game/WordSearchGame.js:251-253 | the found set never exceeds the word list; it reaches it only when every word was placed and found, and it does reach it when the words are distinct |
| Game.FreshGameOk | src/game/WordSearchGame.js:29-38 | a freshly generated board with nothing found, selected or timed satisfies the invariant |
| Game.StampedGameMatchesNothing | src/game/WordSearchGame.js:234-235 | once the end time is set no selection matches, so the end time never changes again |
| Game.MarkKeepsPlacement | src/game/WordSearchGame.js:231 | marking an entry found keeps the placement invariant |
| Game.AddKeepsTiming | src/game/WordSearchGame.js:232-236 | adding the matched word, and stamping the end time when the set reaches the list size, keeps the end time set exactly at completion |
| Game.MatchKeepsGameOk | src/game/WordSearchGame.js:231-236 | checkWord's update of flag, found set and end time keeps the engine invariant |
| Game.MarkKeepsValid | src/game/WordSearchGame.js:231-236 | the same update, performed on the object's fields, keeps Valid() |
| Game.WordSearchGame.constructor | src/game/WordSearchGame.js:2-39 | the grid size is GridSize(words), and the game is Dealt: grid and entries are exactly Board of the words (placement on the empty grid from draw 0, then the noise fill), the invariant holds, no entry is found, nothing is selected or timed, the game time is 0 and, for a non-empty list, the game is not complete |
| Game.WordSearchGame.Generate | src/game/WordSearchGame.js:36-38 | initializeGrid, placeWords and fillEmptySpaces together leave exactly the grid and entries of Board: a filled grid in which every entry reads back, none of them found |
| Game.WordSearchGame.Deal | src/game/WordSearchGame.js:29-38 | on cleared fields, the board generation leaves the game Dealt: exactly Board of the words, with the invariant and nothing found, selected or timed |
| Game.WordSearchGame.InitializeGrid | src/game/WordSearchGame.js:57-61 | the grid becomes gridSize by gridSize empty cells |
| Game.WordSearchGame.PlaceWords | src/game/WordSearchGame.js:63-93 | grid, entries and next draw are exactly PlaceFrom of the grid as it was on entry, from draw t0 on; the entries follow the word list in order, each word at most once, each reading back and unfound |
| Game.WordSearchGame.AttemptWord | src/game/WordSearchGame.js:77-91 | the attempt loop for one word leaves grid, entries and next draw exactly as Record of the outcome of Attempts, and keeps the placement invariant |
| Game.WordSearchGame.PlaceHit | src/game/WordSearchGame.js:86-88 | a fitting attempt writes the word and records its index, keeping the placement invariant and giving exactly the state Record describes for the word's attempts |
| Game.WordSearchGame.CanPlaceWord | src/game/WordSearchGame.js:95-119 | true iff every letter position is in the grid and is empty or holds that same letter |
| Game.WordSearchGame.PlaceWord | src/game/WordSearchGame.js:121-137 | the grid becomes the commit of the word, and one unfound entry with the written run of cells is appended |
| Game.WordSearchGame.FillEmptySpaces | src/game/WordSearchGame.js:139-150 | the grid becomes Fill of the old grid: letters kept, empty cells filled with A–Z |
| Game.WordSearchGame.StartSelection | src/game/WordSearchGame.js:152-158 | a drag begins with the anchor cell alone; the start time is set only when it was unset |
| Game.WordSearchGame.UpdateSelection | src/game/WordSearchGame.js:160-166 | while dragging, the selection becomes LineCells from the kept anchor; otherwise nothing changes |
| Game.WordSearchGame.EndSelection | src/game/WordSearchGame.js:168-184 | the drag ends; with no drag or an empty selection, nothing is found and the selection is cleared; otherwise the first match is marked found, and on no match the selection is cleared |
| Game.WordSearchGame.GetSelectedWord | src/game/WordSearchGame.js:219-221 | one letter per selected cell, letter i being the content of cell i |
| Game.WordSearchGame.CheckWord | src/game/WordSearchGame.js:223-243 | returns the first unfound entry matching forwards or backwards, and marks it; its word joins foundWords; the end time is stamped when the set reaches the list size; with no match nothing changes |
| Game.WordSearchGame.RecordMatch | src/game/WordSearchGame.js:231-236 | the entry is marked found, its word is added, the end time is stamped at completion, and the invariant is kept |
| Game.WordSearchGame.GetGameTime | src/game/WordSearchGame.js:245-249 | 0 while the start time is unset; otherwise the whole seconds elapsed, floored, up to the end time or now |
| Game.WordSearchGame.IsGameComplete | src/game/WordSearchGame.js:251-253 | complete only when every word was placed and found, and complete whenever that holds for distinct words; for a non-empty list, complete iff the end time is set |
| Game.WordSearchGame.Reset | src/game/WordSearchGame.js:255-267 | the game is Dealt again: grid and entries are exactly Board of the words for the given draws, the invariant holds, nothing is found, selected or timed, the game time is 0 and, for a non-empty list, the game is not complete |
| Game.WordSearchGame.Clear | src/game/WordSearchGame.js:256-262 | grid and entries empty, found set empty, no selection, both timestamps unset |

## Left out

- The user interface (`src/ui/UIManager.js`) and the entry point (`src/main.js`) are not part of this model.
- Randomness: `Math.random()` is an oracle of natural numbers, and a draw scaled to `m` is taken modulo `m`. The floating-point distribution is not modelled.
- The noise fill reads draw `t + r*size + c` for cell (r, c). The source draws only for empty cells. The draws the fill actually uses are therefore renumbered, but every cell still gets an arbitrary letter.
- The clock: `Date.now()` is the `now` argument of StartSelection, EndSelection, CheckWord and GetGameTime.
- Floating point: `Math.ceil(Math.sqrt(n))` is the integer ceiling root `CeilSqrt`. `Math.floor(x / 1000)` is integer division. Both agree with the source for the integers the source works with.
- Game.WordSearchGame.constructor: the source hard-codes its word list. The model takes the list as a parameter, and `DefaultWords` with `DefaultGridSize` covers the shipped list.
- Game.WordSearchGame.constructor: `displayWords`, the display form of the words with spaces, is only read by the user interface and is left out.
- Game.WordSearchGame.CheckWord: returns the index of the matched entry rather than the entry object itself.
- Game.WordSearchGame.EndSelection: returns the index of the matched entry rather than the entry object itself.
- Game.WordSearchGame.StartSelection: requires the cell to be inside the grid. The source accepts any cell, but its user interface only passes cells of the grid.
- Game.WordSearchGame.UpdateSelection: requires the cell to be inside the grid, for the same reason.
- Game.WordSearchGame.Reset: requires `gridSize == GridSize(words)`. The constructor establishes this and nothing changes it, because both fields are constants.
- Characters: `word.length` and `split('').reverse()` count UTF-16 code units, while the model works on Dafny characters. The two agree on the upper-case A–Z words and noise letters the engine uses.
- Aliasing: the entry objects returned to the caller are shared with `placedWords` in the source. The model's entries are values.

/** The puzzle engine (class WordSearchGame): it sizes and fills the grid,
    places the words, follows the player's selection and checks it against
    the placed words, and keeps the found set and the timestamps.

    Math.random() is an oracle `rand: nat -> nat`: draw k stands for
    Math.floor(Math.random() * m) as rand(k) % m. Date.now() is a `now`
    argument. */
module Game {
  import opened Seqs
  import opened Geometry
  import opened Grids
  import opened Sizing

  /** JavaScript truthiness of a timestamp field: null and 0 both read as
      unset (`!this.startTime`, `this.endTime || Date.now()`). */
  predicate Unset(t: Option<int>) {
    t.None? || t.value == 0
  }

  predicate Increasing(s: seq<nat>) {
    forall i, j :: 0 <= i < j < |s| ==> s[i] < s[j]
  }

  predicate Distinct(words: seq<string>) {
    forall i, j :: 0 <= i < j < |words| ==> words[i] != words[j]
  }

  /** What placement keeps: a square grid of empty or one-letter cells in
      which every entry reads back, and entries that follow the word list
      in order, each word at most once (origin[k] is the index in words of
      entry k). */
  predicate WellPlaced(g: Grid, size: int, entries: seq<PlacedWord>, origin: seq<nat>, words: seq<string>) {
    IsSquare(g, size) && AtMostOneLetter(g) &&
    (forall k :: 0 <= k < |entries| ==> ReadsBack(g, entries[k])) &&
    |origin| == |entries| && Increasing(origin) &&
    (forall k :: 0 <= k < |origin| ==> origin[k] < |words| && entries[k].word == words[origin[k]])
  }

  /** placeWords' loop invariant before word w: the placement invariant,
      every entry recording one of the words before w, none found yet. */
  predicate PlacedBefore(g: Grid, size: int, entries: seq<PlacedWord>, origin: seq<nat>,
                         words: seq<string>, w: int) {
    WellPlaced(g, size, entries, origin, words) &&
    (forall k :: 0 <= k < |origin| ==> origin[k] < w) &&
    (forall k :: 0 <= k < |entries| ==> !entries[k].found)
  }

  /** The board that initializeGrid, placeWords and fillEmptySpaces build
      together: the words placed on an empty size x size grid from draw 0,
      then the noise fill from the first draw placement left unused. */
  function Board(words: seq<string>, size: nat, rand: nat -> nat): (b: Placed)
    requires size > 0
    ensures IsSquare(b.grid, size) && |b.entries| <= |words|
    ensures 3 * |words| <= b.next <= 300 * |words|
  {
    var p := PlaceFrom(EmptyGrid(size), [], words, rand, 0, 0);
    Placed(Fill(p.grid, rand, p.next), p.entries, p.next)
  }

  /** Before the first word is tried nothing is placed, and the placement
      invariant holds of any square grid of empty or one-letter cells. */
  lemma NothingPlacedYet(g: Grid, size: int, words: seq<string>)
    requires IsSquare(g, size) && AtMostOneLetter(g)
    ensures PlacedBefore(g, size, [], [], words, 0)
  {
  }

  /** Committing word w where it fits, after every earlier word, keeps the
      placement invariant with the new, unfound entry appended, and keeps
      every letter already on the grid. */
  lemma CommitKeepsPlacement(g: Grid, size: int, entries: seq<PlacedWord>, origin: seq<nat>,
                             words: seq<string>, w: nat, s: Cell, d: Dir)
    requires PlacedBefore(g, size, entries, origin, words, w)
    requires w < |words| && IsUnit(d) && Fits(g, words[w], s, d)
    ensures PlacedBefore(Commit(g, words[w], s, d), size,
                         entries + [PlacedWord(words[w], Ray(s, d, |words[w]|), false)], origin + [w], words, w + 1)
    ensures forall r, c :: 0 <= r < |g| && 0 <= c < |g| && g[r][c] != "" ==>
              Commit(g, words[w], s, d)[r][c] == g[r][c]
  {
    CommitPreservesPlacement(g, words[w], s, d, entries);
    var after := entries + [PlacedWord(words[w], Ray(s, d, |words[w]|), false)];
    assert forall k :: 0 <= k < |entries| ==> after[k] == entries[k];
  }

  /** Attempt n for word w fits at cell s along d: committing the word there
      keeps the placement invariant and gives the state that Record
      describes for the word's attempts. */
  lemma HitKeepsPlacement(g: Grid, size: int, entries: seq<PlacedWord>, origin: seq<nat>, words: seq<string>,
                          w: nat, spots: nat -> Spot, n: nat, t0: nat, s: Cell, d: Dir)
    requires PlacedBefore(g, size, entries, origin, words, w) && w < |words|
    requires n < MaxAttempts && Attempts(g, words[w], spots, n) == Attempts(g, words[w], spots, 0)
    requires spots(n) == Spot(s, d) && IsUnit(d) && Fits(g, words[w], s, d)
    ensures PlacedBefore(Commit(g, words[w], s, d), size,
                         entries + [PlacedWord(words[w], Ray(s, d, |words[w]|), false)], origin + [w], words, w + 1)
    ensures Placed(Commit(g, words[w], s, d), entries + [PlacedWord(words[w], Ray(s, d, |words[w]|), false)],
                   t0 + 3 * (n + 1)) ==
            Record(g, entries, words[w], Attempts(g, words[w], spots, 0), t0)
  {
    AttemptHit(g, entries, words[w], spots, n, t0);
    CommitKeepsPlacement(g, size, entries, origin, words, w, s, d);
  }

  /** The noise fill keeps the placement invariant and leaves no cell
      empty. */
  lemma FillKeepsPlacement(g: Grid, size: int, entries: seq<PlacedWord>, origin: seq<nat>,
                           words: seq<string>, rand: nat -> nat, t: nat)
    requires WellPlaced(g, size, entries, origin, words)
    ensures WellPlaced(Fill(g, rand, t), size, entries, origin, words)
    ensures Filled(Fill(g, rand, t))
  {
    FillKeepsWords(g, rand, t, entries);
  }

  /** A strictly increasing sequence of indices below n has at most n
      elements. */
  lemma {:induction false} IncreasingBounded(s: seq<nat>, n: nat)
    requires Increasing(s)
    requires forall k :: 0 <= k < |s| ==> s[k] < n
    ensures |s| <= n
  {
    if s != [] {
      var last := |s| - 1;
      var prefix := s[..last];
      assert forall k :: 0 <= k < last ==> prefix[k] == s[k] && prefix[k] < s[last];
      IncreasingBounded(prefix, s[last]);
    }
  }

  /** The game can only be complete once every word of the list was placed
      and every entry found: a word dropped by placement makes completion
      impossible. */
  lemma CompletionNeedsEveryWord(words: seq<string>, entries: seq<PlacedWord>, origin: seq<nat>)
    requires |origin| == |entries| && Increasing(origin)
    requires forall k :: 0 <= k < |origin| ==> origin[k] < |words|
    requires |FoundSet(entries)| == |words|
    ensures |entries| == |words|
    ensures forall k :: 0 <= k < |entries| ==> entries[k].found
  {
    IncreasingBounded(origin, |words|);
    FullFoundSetMeansAllFound(entries);
  }

  /** Conversely, with distinct words, every word placed and every entry
      found, the found set reaches the size of the word list. */
  lemma EveryWordFoundCompletes(words: seq<string>, entries: seq<PlacedWord>, origin: seq<nat>)
    requires Distinct(words)
    requires |origin| == |entries| && Increasing(origin)
    requires forall k :: 0 <= k < |origin| ==> origin[k] < |words| && entries[k].word == words[origin[k]]
    requires |entries| == |words|
    requires forall k :: 0 <= k < |entries| ==> entries[k].found
    ensures |FoundSet(entries)| == |words|
  {
    forall i, j | 0 <= i < j < |entries| ensures entries[i].word != entries[j].word {
      assert origin[i] < origin[j];
    }
    AllFoundDistinctFillsFoundSet(entries);
  }

  /** isGameComplete compares the found set with the whole word list: it is
      reached only when every word was placed and every entry found, and, for
      a list of distinct words, whenever that holds. */
  lemma CompletionIsAllFound(words: seq<string>, entries: seq<PlacedWord>, origin: seq<nat>)
    requires |origin| == |entries| && Increasing(origin)
    requires forall k :: 0 <= k < |origin| ==> origin[k] < |words| && entries[k].word == words[origin[k]]
    ensures |FoundSet(entries)| <= |words|
    ensures |FoundSet(entries)| == |words| ==>
              |entries| == |words| && forall k :: 0 <= k < |entries| ==> entries[k].found
    ensures Distinct(words) && |entries| == |words| && (forall k :: 0 <= k < |entries| ==> entries[k].found) ==>
              |FoundSet(entries)| == |words|
  {
    IncreasingBounded(origin, |words|);
    if |FoundSet(entries)| == |words| {
      CompletionNeedsEveryWord(words, entries, origin);
    }
    if Distinct(words) && |entries| == |words| && (forall k :: 0 <= k < |entries| ==> entries[k].found) {
      EveryWordFoundCompletes(words, entries, origin);
    }
  }

  /** The selection: while a drag is on it holds at least the anchor, and
      it is always a straight run of grid cells. */
  predicate SelectionOk(selecting: bool, cells: seq<Cell>, size: int) {
    (selecting ==> |cells| >= 1) && IsRun(cells) &&
    forall i :: 0 <= i < |cells| ==> InGrid(cells[i], size)
  }

  /** The end time is set exactly when the whole list has been found (for a
      non-empty list). */
  predicate TimingOk(endTime: Option<int>, found: nat, total: nat) {
    (endTime.Some? ==> found == total) &&
    (found == total && total > 0 ==> endTime.Some?)
  }

  /** The engine's invariant on its fields: the size chosen for the list,
      a filled grid in which every entry reads back, the found set drawn
      from the entries, a well-formed selection and consistent timing. */
  predicate GameOk(words: seq<string>, size: int, g: Grid, entries: seq<PlacedWord>, origin: seq<nat>,
                   found: set<string>, selecting: bool, cells: seq<Cell>, endTime: Option<int>) {
    size == GridSize(words) &&
    WellPlaced(g, size, entries, origin, words) && Filled(g) &&
    found == FoundSet(entries) &&
    SelectionOk(selecting, cells, size) &&
    TimingOk(endTime, |found|, |words|)
  }

  /** A freshly generated board with nothing found, selected or timed
      satisfies the invariant. */
  lemma FreshGameOk(words: seq<string>, size: int, g: Grid, entries: seq<PlacedWord>, origin: seq<nat>,
                     found: set<string>, selecting: bool, cells: seq<Cell>, endTime: Option<int>)
    requires size == GridSize(words)
    requires WellPlaced(g, size, entries, origin, words) && Filled(g)
    requires forall k :: 0 <= k < |entries| ==> !entries[k].found
    requires found == {} && !selecting && cells == [] && endTime == None
    ensures GameOk(words, size, g, entries, origin, found, selecting, cells, endTime)
  {
    NoneFound(entries);
  }

  /** Once the end time is stamped every entry is found, so no selection
      matches any more: checkWord's re-stamp of endTime can never fire and
      the end time stays as first set. */
  lemma StampedGameMatchesNothing(words: seq<string>, size: int, g: Grid, entries: seq<PlacedWord>,
                                  origin: seq<nat>, found: set<string>, selecting: bool, cells: seq<Cell>,
                                  endTime: Option<int>, selected: string)
    requires GameOk(words, size, g, entries, origin, found, selecting, cells, endTime)
    requires endTime.Some?
    ensures FirstMatch(entries, selected) == None
  {
    CompletionIsAllFound(words, entries, origin);
    FirstMatchIsFirst(entries, selected);
  }

  /** Setting an entry's found flag changes neither its word nor its cells,
      so the placement invariant survives it. */
  lemma MarkKeepsPlacement(g: Grid, size: int, entries: seq<PlacedWord>, origin: seq<nat>,
                           words: seq<string>, m: nat)
    requires WellPlaced(g, size, entries, origin, words) && m < |entries|
    ensures WellPlaced(g, size, MarkFound(entries, m), origin, words)
  {
    var after := MarkFound(entries, m);
    forall k | 0 <= k < |after| ensures ReadsBack(g, after[k]) && after[k].word == entries[k].word {
      assert ReadsBack(g, entries[k]);
    }
  }

  /** Adding a word to a found set that stays within the list, and stamping
      the end time when the set reaches the size of the list, keeps the
      timing consistent: a repeated word changes neither the set nor (short
      of a re-stamp at completion) the end time. */
  lemma AddKeepsTiming(found: set<string>, w: string, total: nat, endTime: Option<int>, now: int)
    requires TimingOk(endTime, |found|, total)
    requires |found + {w}| <= total
    ensures TimingOk(if |found + {w}| == total then Some(now) else endTime, |found + {w}|, total)
  {
    if w in found {
      assert found + {w} == found;
    } else {
      assert |found + {w}| == |found| + 1;
    }
  }

  /** Marking the matched entry found, adding its word to the found set and
      stamping the end time once the found set covers the word list keeps
      the invariant. */
  lemma MatchKeepsGameOk(words: seq<string>, size: int, g: Grid, entries: seq<PlacedWord>, origin: seq<nat>,
                         found: set<string>, selecting: bool, cells: seq<Cell>, endTime: Option<int>,
                         m: nat, now: int, after: seq<PlacedWord>, found': set<string>, endTime': Option<int>)
    requires GameOk(words, size, g, entries, origin, found, selecting, cells, endTime)
    requires m < |entries| && after == MarkFound(entries, m) && found' == found + {entries[m].word}
    requires endTime' == if |found'| == |words| then Some(now) else endTime
    ensures GameOk(words, size, g, after, origin, found', selecting, cells, endTime')
  {
    FoundSetMark(entries, m);
    MarkKeepsPlacement(g, size, entries, origin, words, m);
    CompletionIsAllFound(words, after, origin);
    AddKeepsTiming(found, entries[m].word, |words|, endTime, now);
  }

  /** checkWord's update keeps the class invariant: marking the first
      match found, adding its word to foundWords and stamping the end time
      when the set is complete, with the board and the selection left as
      they were. */
  twostate lemma MarkKeepsValid(game: WordSearchGame, new m: nat, new now: int)
    requires old(game.Valid())
    requires m < |old(game.placedWords)|
    requires game.placedWords == MarkFound(old(game.placedWords), m)
    requires game.foundWords == old(game.foundWords) + {old(game.placedWords)[m].word}
    requires game.endTime == if |game.foundWords| == |game.words| then Some(now) else old(game.endTime)
    requires unchanged(game`grid, game`origin, game`isSelecting, game`selectedCells)
    ensures game.Valid()
  {
    MatchKeepsGameOk(game.words, game.gridSize, game.grid, old(game.placedWords), game.origin,
                     old(game.foundWords), game.isSelecting, game.selectedCells, old(game.endTime),
                     m, now, game.placedWords, game.foundWords, game.endTime);
  }

  class WordSearchGame {
    /** The canonical words to hide, in placement order. */
    const words: seq<string>
    /** Side length of the square grid, fixed for the game's lifetime. */
    const gridSize: int

    var grid: Grid
    var placedWords: seq<PlacedWord>
    var foundWords: set<string>
    var isSelecting: bool
    var selectedCells: seq<Cell>
    var startTime: Option<int>
    var endTime: Option<int>

    /** For each entry of placedWords, the index in words of the word it
        records. */
    ghost var origin: seq<nat>

    /** The placement part of the invariant, as placeWords builds it. */
    ghost predicate Placement()
      reads this
    {
      WellPlaced(grid, gridSize, placedWords, origin, words)
    }

    /** The engine's invariant between calls. */
    ghost predicate Valid()
      reads this
    {
      GameOk(words, gridSize, grid, placedWords, origin, foundWords, isSelecting, selectedCells, endTime)
    }

    /** A freshly dealt game: the board is the one rand deals for the words,
        the invariant holds, and nothing is selected, found or timed. */
    ghost predicate Dealt(rand: nat -> nat)
      reads this
    {
      gridSize > 0 && Valid() &&
      grid == Board(words, gridSize, rand).grid && placedWords == Board(words, gridSize, rand).entries &&
      (forall k :: 0 <= k < |placedWords| ==> !placedWords[k].found) &&
      foundWords == {} && !isSelecting && selectedCells == [] &&
      startTime == None && endTime == None &&
      (|words| > 0 ==> !IsGameComplete()) && (forall now :: GetGameTime(now) == 0)
    }

    /** constructor: size the grid, place the words, fill the rest with
        noise letters; nothing is selected, found or timed yet. */
    constructor (words: seq<string>, rand: nat -> nat)
      ensures this.words == words && gridSize == GridSize(words)
      ensures Dealt(rand)
    {
      this.words := words;
      gridSize := GridSize(words);
      grid := [];
      placedWords := [];
      foundWords := {};
      isSelecting := false;
      selectedCells := [];
      startTime := None;
      endTime := None;
      origin := [];
      new;
      Deal(rand);
    }

    /** The board generation that the constructor and reset() both run:
        initializeGrid, placeWords, fillEmptySpaces. Placement uses draws
        0 .. t - 1 and the noise fill the draws from t on. */
    method Generate(rand: nat -> nat)
      requires gridSize == GridSize(words)
      modifies this`grid, this`placedWords, this`origin
      ensures grid == Board(words, gridSize, rand).grid && placedWords == Board(words, gridSize, rand).entries
      ensures WellPlaced(grid, gridSize, placedWords, origin, words) && Filled(grid)
      ensures forall k :: 0 <= k < |placedWords| ==> !placedWords[k].found
    {
      InitializeGrid();
      var t := PlaceWords(rand, 0);
      FillKeepsPlacement(grid, gridSize, placedWords, origin, words, rand, t);
      FillEmptySpaces(rand, t);
    }

    /** A fresh board on cleared fields, as the constructor and reset() make
        it: after Generate the engine invariant holds. */
    method Deal(rand: nat -> nat)
      requires gridSize == GridSize(words)
      requires foundWords == {} && !isSelecting && selectedCells == []
      requires startTime == None && endTime == None
      modifies this`grid, this`placedWords, this`origin
      ensures Dealt(rand)
    {
      Generate(rand);
      FreshGameOk(words, gridSize, grid, placedWords, origin, foundWords, isSelecting, selectedCells, endTime);
    }

    /** initializeGrid: every cell empty. */
    method InitializeGrid()
      requires gridSize >= 0
      modifies this`grid
      ensures grid == EmptyGrid(gridSize)
    {
      grid := seq(gridSize, _ => seq(gridSize, _ => ""));
    }

    /** placeWords: each word in list order gets up to 100 attempts, each
        drawing a direction, a row and a column (three draws, from t0 on);
        the first attempt that fits is committed and a word that never fits
        is dropped. Returns the index of the next unused draw. */
    method PlaceWords(rand: nat -> nat, t0: nat) returns (t: nat)
      requires IsSquare(grid, gridSize) && AtMostOneLetter(grid) && gridSize > 0
      modifies this`grid, this`placedWords, this`origin
      ensures Placed(grid, placedWords, t) == PlaceFrom(old(grid), [], words, rand, t0, 0)
      ensures Placement()
      ensures forall k :: 0 <= k < |placedWords| ==> !placedWords[k].found
    {
      placedWords := [];
      origin := [];
      t := t0;
      var w := 0;
      NothingPlacedYet(grid, gridSize, words);
      while w < |words|
        invariant 0 <= w <= |words|
        invariant PlacedBefore(grid, gridSize, placedWords, origin, words, w)
        invariant PlaceFrom(grid, placedWords, words, rand, t, w) == PlaceFrom(old(grid), [], words, rand, t0, 0)
      {
        PlaceFromStep(grid, placedWords, words, rand, t, w);
        t := AttemptWord(w, rand, t);
        w := w + 1;
      }
      assert PlaceFrom(grid, placedWords, words, rand, t, w) == Placed(grid, placedWords, t);
    }

    /** The attempt loop of placeWords for words[w], from draw t0 on: stops
        at the first attempt that fits, committing the word there, or after
        100 attempts. Returns the index of the next unused draw. */
    method AttemptWord(w: nat, rand: nat -> nat, t0: nat) returns (t: nat)
      requires w < |words| && gridSize > 0
      requires PlacedBefore(grid, gridSize, placedWords, origin, words, w)
      modifies this`grid, this`placedWords, this`origin
      ensures PlacedBefore(grid, gridSize, placedWords, origin, words, w + 1)
      ensures Placed(grid, placedWords, t) ==
              Record(old(grid), old(placedWords), words[w], Attempts(old(grid), words[w], Spots(rand, gridSize, t0), 0), t0)
    {
      var word := words[w];
      var attempts := 0;
      t := t0;
      ghost var spots := Spots(rand, gridSize, t0);
      // The source's `placed` flag ends the loop after a hit; here the hit
      // returns at once, so the loop only ever runs over misses.
      while attempts < 100
        invariant 0 <= attempts <= MaxAttempts
        invariant t == t0 + 3 * attempts
        invariant grid == old(grid) && placedWords == old(placedWords) && origin == old(origin)
        invariant Attempts(old(grid), word, spots, attempts) == Attempts(old(grid), word, spots, 0)
      {
        var direction := Directions[rand(t) % |Directions|];
        DirectionIsUnit(rand(t) % |Directions|);
        var startRow := rand(t + 1) % gridSize;
        var startCol := rand(t + 2) % gridSize;
        SpotDraws(rand, gridSize, t0, attempts, t);
        t := t + 3;
        var fits := CanPlaceWord(word, startRow, startCol, direction);
        if fits {
          PlaceHit(w, spots, attempts, t0, startRow, startCol, direction);
          return;
        }
        AttemptMiss(grid, word, spots, attempts);
        attempts := attempts + 1;
      }
      AttemptsExhausted(grid, placedWords, word, spots, t0);
    }

    /** The hit branch of the attempt loop: attempt n of word w fits, so the
        word is written there and its index recorded; the state is then the
        one Record gives for the word's attempts. */
    method PlaceHit(w: nat, ghost spots: nat -> Spot, n: nat, t0: nat, row: int, col: int, direction: Dir)
      requires w < |words| && n < MaxAttempts
      requires PlacedBefore(grid, gridSize, placedWords, origin, words, w)
      requires Attempts(grid, words[w], spots, n) == Attempts(grid, words[w], spots, 0)
      requires spots(n) == Spot(Cell(row, col), direction) && IsUnit(direction)
      requires Fits(grid, words[w], Cell(row, col), direction)
      modifies this`grid, this`placedWords, this`origin
      ensures PlacedBefore(grid, gridSize, placedWords, origin, words, w + 1)
      ensures Placed(grid, placedWords, t0 + 3 * (n + 1)) ==
              Record(old(grid), old(placedWords), words[w], Attempts(old(grid), words[w], spots, 0), t0)
    {
      HitKeepsPlacement(grid, gridSize, placedWords, origin, words, w, spots, n, t0, Cell(row, col), direction);
      PlaceWord(words[w], row, col, direction);
      origin := origin + [w];
    }

    /** canPlaceWord: walks the word's positions and stops at the first one
        that leaves the grid or holds a different letter. */
    method CanPlaceWord(word: string, row: int, col: int, direction: Dir) returns (ok: bool)
      requires IsSquare(grid, gridSize)
      ensures ok == Fits(grid, word, Cell(row, col), direction)
    {
      var i := 0;
      while i < |word|
        invariant 0 <= i <= |word|
        invariant forall j :: 0 <= j < i ==>
          InGrid(Offset(Cell(row, col), direction, j), gridSize) &&
          (At(grid, Offset(Cell(row, col), direction, j)) == "" ||
           At(grid, Offset(Cell(row, col), direction, j)) == [word[j]])
      {
        var newRow := row + i * direction.dr;
        var newCol := col + i * direction.dc;
        if newRow < 0 || newRow >= gridSize || newCol < 0 || newCol >= gridSize {
          assert !InGrid(Offset(Cell(row, col), direction, i), |grid|);
          return false;
        }
        if grid[newRow][newCol] != "" && grid[newRow][newCol] != [word[i]] {
          assert At(grid, Offset(Cell(row, col), direction, i)) == grid[newRow][newCol];
          return false;
        }
        i := i + 1;
      }
      return true;
    }

    /** placeWord: writes the letters along the direction and appends an
        unfound entry recording the cells written. */
    method PlaceWord(word: string, row: int, col: int, direction: Dir)
      requires IsSquare(grid, gridSize) && IsUnit(direction)
      requires Fits(grid, word, Cell(row, col), direction)
      modifies this`grid, this`placedWords
      ensures grid == Commit(old(grid), word, Cell(row, col), direction)
      ensures placedWords == old(placedWords) + [PlacedWord(word, Ray(Cell(row, col), direction, |word|), false)]
    {
      var start := Cell(row, col);
      var positions: seq<Cell> := [];
      var i := 0;
      while i < |word|
        invariant 0 <= i <= |word|
        invariant IsSquare(grid, gridSize)
        invariant grid == Commit(old(grid), word[..i], start, direction)
        invariant positions == Ray(start, direction, i)
        invariant placedWords == old(placedWords)
      {
        var newRow := row + i * direction.dr;
        var newCol := col + i * direction.dc;
        assert Cell(newRow, newCol) == Offset(start, direction, i);
        ghost var prefix := word[..i + 1];
        assert prefix[..i] == word[..i] && prefix[i] == word[i];
        assert Commit(old(grid), prefix, start, direction)
            == Put(grid, Cell(newRow, newCol), [word[i]]);
        assert Ray(start, direction, i + 1) == Ray(start, direction, i) + [Cell(newRow, newCol)];
        grid := grid[newRow := grid[newRow][newCol := [word[i]]]];
        positions := positions + [Cell(newRow, newCol)];
        i := i + 1;
      }
      assert word[..i] == word;
      assert positions == Ray(start, direction, |word|);
      placedWords := placedWords + [PlacedWord(word, positions, false)];
    }

    /** fillEmptySpaces: every cell still empty, row by row, gets a noise
        letter; cells holding a letter are left alone. */
    method FillEmptySpaces(rand: nat -> nat, t: nat)
      requires IsSquare(grid, gridSize)
      modifies this`grid
      ensures grid == Fill(old(grid), rand, t)
    {
      ghost var target := Fill(grid, rand, t);
      var row := 0;
      while row < gridSize
        invariant 0 <= row <= gridSize
        invariant IsSquare(grid, gridSize)
        invariant forall r, c :: 0 <= r < gridSize && 0 <= c < gridSize ==>
          grid[r][c] == if r < row then target[r][c] else old(grid)[r][c]
      {
        var col := 0;
        while col < gridSize
          invariant 0 <= col <= gridSize
          invariant IsSquare(grid, gridSize)
          invariant forall r, c :: 0 <= r < gridSize && 0 <= c < gridSize ==>
            grid[r][c] == if r < row || (r == row && c < col) then target[r][c] else old(grid)[r][c]
        {
          if grid[row][col] == "" {
            grid := grid[row := grid[row][col := NoiseLetter(rand, DrawIndex(t, gridSize, row, col))]];
          }
          col := col + 1;
        }
        row := row + 1;
      }
      assert forall r :: 0 <= r < gridSize ==> grid[r] == target[r];
    }

    /** startSelection: a drag begins at (row, col); the clock starts on the
        first drag of the game only. */
    method StartSelection(row: int, col: int, now: int)
      requires Valid() && InGrid(Cell(row, col), gridSize)
      modifies this`isSelecting, this`selectedCells, this`startTime
      ensures Valid()
      ensures isSelecting && selectedCells == [Cell(row, col)]
      ensures startTime == if Unset(old(startTime)) then Some(now) else old(startTime)
    {
      isSelecting := true;
      selectedCells := [Cell(row, col)];
      if Unset(startTime) {
        startTime := Some(now);
      }
    }

    /** updateSelection: while dragging, the selection becomes the run from
        the anchor towards (row, col); otherwise nothing happens. */
    method UpdateSelection(row: int, col: int)
      requires Valid() && InGrid(Cell(row, col), gridSize)
      modifies this`selectedCells
      ensures Valid()
      ensures !old(isSelecting) ==> selectedCells == old(selectedCells)
      ensures old(isSelecting) ==>
                selectedCells == LineCells(old(selectedCells)[0], Cell(row, col)) &&
                selectedCells[0] == old(selectedCells)[0]
    {
      if !isSelecting {
        return;
      }
      var start := selectedCells[0];
      var cells := LineCells(start, Cell(row, col));
      LineCellsInGrid(start, Cell(row, col), gridSize);
      selectedCells := cells;
    }

    /** endSelection: the drag ends; a selection that matches a placed word
        stays on the board, anything else is cleared. */
    method EndSelection(now: int) returns (m: Option<nat>)
      requires Valid()
      modifies this`isSelecting, this`selectedCells, this`placedWords, this`foundWords, this`endTime
      ensures Valid()
      ensures !isSelecting
      ensures !old(isSelecting) || old(selectedCells) == [] ==>
                m == None && selectedCells == [] &&
                placedWords == old(placedWords) && foundWords == old(foundWords) && endTime == old(endTime)
      ensures old(isSelecting) && old(selectedCells) != [] ==>
                m == FirstMatch(old(placedWords), old(GetSelectedWord())) &&
                selectedCells == (if m.Some? then old(selectedCells) else [])
      ensures m.Some? ==>
                m.value < |old(placedWords)| &&
                placedWords == MarkFound(old(placedWords), m.value) &&
                foundWords == old(foundWords) + {old(placedWords)[m.value].word} &&
                endTime == (if |foundWords| == |words| then Some(now) else old(endTime))
      ensures m.None? ==> placedWords == old(placedWords) && foundWords == old(foundWords) && endTime == old(endTime)
    {
      if !isSelecting || |selectedCells| == 0 {
        isSelecting := false;
        selectedCells := [];
        return None;
      }
      isSelecting := false;
      var selectedWord := GetSelectedWord();
      m := CheckWord(selectedWord, now);
      if m.None? {
        selectedCells := [];
      }
    }

    /** getSelectedWord: the letters under the selected cells, in order. */
    function GetSelectedWord(): (w: string)
      reads this
      requires Valid()
      ensures |w| == |selectedCells|
      ensures forall i :: 0 <= i < |selectedCells| ==> [w[i]] == At(grid, selectedCells[i])
    {
      Spell(grid, selectedCells)
    }

    /** checkWord: the first entry, in placement order, that is not found
        yet and spells the selection forwards or backwards is marked found
        and its word added to foundWords; when foundWords reaches the size
        of the word list the end time is stamped. */
    method CheckWord(selected: string, now: int) returns (m: Option<nat>)
      requires Valid()
      modifies this`placedWords, this`foundWords, this`endTime
      ensures Valid()
      ensures m == FirstMatch(old(placedWords), selected)
      ensures m.None? ==> placedWords == old(placedWords) && foundWords == old(foundWords) && endTime == old(endTime)
      ensures m.Some? ==>
                m.value < |old(placedWords)| &&
                placedWords == MarkFound(old(placedWords), m.value) &&
                foundWords == old(foundWords) + {old(placedWords)[m.value].word} &&
                endTime == (if |foundWords| == |words| then Some(now) else old(endTime))
    {
      var reversed := Reverse(selected);
      var i := 0;
      while i < |placedWords| &&
            !(!placedWords[i].found && (placedWords[i].word == selected || placedWords[i].word == reversed))
        invariant 0 <= i <= |placedWords|
        invariant FirstMatchFrom(placedWords, selected, i) == FirstMatch(placedWords, selected)
      {
        i := i + 1;
      }
      if i == |placedWords| {
        return None;
      }
      RecordMatch(i, now);
      return Some(i);
    }

    /** The body of checkWord's match branch: the entry is marked found, its
        word joins foundWords, and the end time is stamped once foundWords
        is as large as the word list. */
    method RecordMatch(i: nat, now: int)
      requires Valid()
      requires i < |placedWords|
      modifies this`placedWords, this`foundWords, this`endTime
      ensures Valid()
      ensures placedWords == MarkFound(old(placedWords), i)
      ensures foundWords == old(foundWords) + {old(placedWords)[i].word}
      ensures endTime == (if |foundWords| == |words| then Some(now) else old(endTime))
    {
      var word := placedWords[i].word;
      placedWords := MarkFound(placedWords, i);
      foundWords := foundWords + {word};
      if |foundWords| == |words| {
        endTime := Some(now);
      }
      MarkKeepsValid(this, i, now);
    }

    /** getGameTime: whole seconds from the first drag to the end time, or
        to now while the game is running; 0 before the first drag. */
    function GetGameTime(now: int): (secs: int)
      reads this
      ensures Unset(startTime) ==> secs == 0
      ensures !Unset(startTime) ==>
                var stop := if Unset(endTime) then now else endTime.value;
                secs * 1000 <= stop - startTime.value < secs * 1000 + 1000
    {
      if Unset(startTime) then 0
      else
        var stop := if Unset(endTime) then now else endTime.value;
        (stop - startTime.value) / 1000
    }

    /** isGameComplete: the found set has as many words as the word list.
        That happens only when every word was placed and found (and, for a
        list of distinct words, whenever that holds), so a word dropped by
        placement keeps the game from ever completing. */
    function IsGameComplete(): (done: bool)
      reads this
      requires Valid()
      ensures done ==> |placedWords| == |words| && forall k :: 0 <= k < |placedWords| ==> placedWords[k].found
      ensures (Distinct(words) && |placedWords| == |words| &&
               forall k :: 0 <= k < |placedWords| ==> placedWords[k].found) ==> done
      ensures |words| > 0 ==> (done <==> endTime.Some?)
    {
      CompletionIsAllFound(words, placedWords, origin);
      |foundWords| == |words|
    }

    /** reset: a new board for the same words; nothing selected, found or
        timed. */
    method Reset(rand: nat -> nat)
      requires gridSize == GridSize(words)
      modifies this`grid, this`placedWords, this`origin, this`foundWords, this`isSelecting,
               this`selectedCells, this`startTime, this`endTime
      ensures Dealt(rand)
    {
      Clear();
      Deal(rand);
    }

    /** The field resets at the head of reset(). */
    method Clear()
      modifies this`grid, this`placedWords, this`foundWords, this`isSelecting,
               this`selectedCells, this`startTime, this`endTime
      ensures grid == [] && placedWords == []
      ensures foundWords == {} && !isSelecting && selectedCells == []
      ensures startTime == None && endTime == None
    {
      grid := [];
      placedWords := [];
      foundWords := {};
      isSelecting := false;
      selectedCells := [];
      startTime := None;
      endTime := None;
    }
  }
}

/** The letter grid as a value, and what placement, noise filling and
    reading a selection do to it. The engine class keeps its grid in this
    form and states every change to it through the functions here. */
module Grids {
  import opened Seqs
  import opened Geometry

  datatype Option<T> = None | Some(value: T)

  /** Rows of cells; each cell is "" while empty, otherwise one letter. */
  type Grid = seq<seq<string>>

  predicate IsSquare(g: Grid, size: int) {
    |g| == size && forall r :: 0 <= r < |g| ==> |g[r]| == size
  }

  function At(g: Grid, c: Cell): string
    requires IsSquare(g, |g|) && InGrid(c, |g|)
  {
    g[c.row][c.col]
  }

  /** The grid with one cell overwritten. */
  function Put(g: Grid, c: Cell, v: string): (h: Grid)
    requires IsSquare(g, |g|) && InGrid(c, |g|)
    ensures IsSquare(h, |g|)
    ensures At(h, c) == v
    ensures forall x :: InGrid(x, |g|) && x != c ==> At(h, x) == At(g, x)
  {
    g[c.row := g[c.row][c.col := v]]
  }

  /** Every cell holds "" or a single letter. */
  predicate AtMostOneLetter(g: Grid)
    requires IsSquare(g, |g|)
  {
    forall r, c :: 0 <= r < |g| && 0 <= c < |g| ==> |g[r][c]| <= 1
  }

  /** Every cell holds exactly one letter. */
  predicate Filled(g: Grid)
    requires IsSquare(g, |g|)
  {
    forall r, c :: 0 <= r < |g| && 0 <= c < |g| ==> |g[r][c]| == 1
  }

  /** initializeGrid: a size-by-size grid of empty cells. */
  function EmptyGrid(size: nat): (g: Grid)
    ensures IsSquare(g, size) && AtMostOneLetter(g)
    ensures forall r, c :: 0 <= r < size && 0 <= c < size ==> g[r][c] == ""
  {
    seq(size, _ => seq(size, _ => ""))
  }

  // ----- placement -------------------------------------------------------

  /** canPlaceWord's condition: every letter position is inside the grid and
      holds either nothing or that very letter. */
  predicate Fits(g: Grid, word: string, s: Cell, d: Dir)
    requires IsSquare(g, |g|)
  {
    forall i :: 0 <= i < |word| ==>
      InGrid(Offset(s, d, i), |g|) &&
      (At(g, Offset(s, d, i)) == "" || At(g, Offset(s, d, i)) == [word[i]])
  }

  /** placeWord's writes: letter i of word goes to the cell i steps along d
      from s, in order of i. */
  function Commit(g: Grid, word: string, s: Cell, d: Dir): (h: Grid)
    requires IsSquare(g, |g|)
    requires forall i :: 0 <= i < |word| ==> InGrid(Offset(s, d, i), |g|)
    ensures IsSquare(h, |g|)
    decreases |word|
  {
    if word == [] then g
    else
      var k := |word| - 1;
      Put(Commit(g, word[..k], s, d), Offset(s, d, k), [word[k]])
  }

  /** Distinct indices along a unit step name distinct cells. */
  lemma OffsetInjective(s: Cell, d: Dir, i: int, j: int)
    requires IsUnit(d) && i != j
    ensures Offset(s, d, i) != Offset(s, d, j)
  {
    if d.dr == 1 { } else if d.dr == -1 { } else if d.dc == 1 { } else { }
  }

  /** After the commit, position i holds letter i of the word. */
  lemma {:induction false} CommitWrites(g: Grid, word: string, s: Cell, d: Dir, i: nat)
    requires IsSquare(g, |g|) && IsUnit(d)
    requires forall j :: 0 <= j < |word| ==> InGrid(Offset(s, d, j), |g|)
    requires i < |word|
    ensures At(Commit(g, word, s, d), Offset(s, d, i)) == [word[i]]
  {
    var k := |word| - 1;
    if i < k {
      CommitWrites(g, word[..k], s, d, i);
      OffsetInjective(s, d, i, k);
    }
  }

  /** The commit leaves every cell off the word's positions unchanged. */
  lemma {:induction false} CommitElsewhere(g: Grid, word: string, s: Cell, d: Dir, c: Cell)
    requires IsSquare(g, |g|)
    requires forall j :: 0 <= j < |word| ==> InGrid(Offset(s, d, j), |g|)
    requires InGrid(c, |g|) && c !in Ray(s, d, |word|)
    ensures At(Commit(g, word, s, d), c) == At(g, c)
  {
    if word != [] {
      var k := |word| - 1;
      assert Ray(s, d, k) <= Ray(s, d, |word|);
      assert c != Ray(s, d, |word|)[k];
      CommitElsewhere(g, word[..k], s, d, c);
    }
  }

  /** When the word fits, committing it changes only empty cells: a cell
      that already held a letter still holds it, so every word placed
      earlier still reads back. */
  lemma CommitKeepsLetters(g: Grid, word: string, s: Cell, d: Dir, c: Cell)
    requires IsSquare(g, |g|) && IsUnit(d) && Fits(g, word, s, d)
    requires InGrid(c, |g|) && At(g, c) != ""
    ensures At(Commit(g, word, s, d), c) == At(g, c)
  {
    if c in Ray(s, d, |word|) {
      var i :| 0 <= i < |word| && Ray(s, d, |word|)[i] == c;
      CommitWrites(g, word, s, d, i);
    } else {
      CommitElsewhere(g, word, s, d, c);
    }
  }

  /** Committing letters never puts more than one letter in a cell. */
  lemma CommitKeepsShape(g: Grid, word: string, s: Cell, d: Dir)
    requires IsSquare(g, |g|) && IsUnit(d) && Fits(g, word, s, d) && AtMostOneLetter(g)
    ensures AtMostOneLetter(Commit(g, word, s, d))
  {
    var h := Commit(g, word, s, d);
    forall r, c | 0 <= r < |g| && 0 <= c < |g| ensures |h[r][c]| <= 1 {
      var x := Cell(r, c);
      if x in Ray(s, d, |word|) {
        var i :| 0 <= i < |word| && Ray(s, d, |word|)[i] == x;
        CommitWrites(g, word, s, d, i);
      } else {
        CommitElsewhere(g, word, s, d, x);
      }
    }
  }

  // ----- placed words ----------------------------------------------------

  /** One entry of placedWords: the word, the cells it was written to, and
      whether the player has found it. */
  datatype PlacedWord = PlacedWord(word: string, positions: seq<Cell>, found: bool)

  /** The entry's positions form a straight run inside the grid, one per
      letter, and reading them off the grid gives the word letter by letter. */
  predicate ReadsBack(g: Grid, e: PlacedWord)
    requires IsSquare(g, |g|)
  {
    |e.positions| == |e.word| && IsRun(e.positions) &&
    forall i :: 0 <= i < |e.positions| ==>
      InGrid(e.positions[i], |g|) && At(g, e.positions[i]) == [e.word[i]]
  }

  /** A fitting commit records an entry that reads back, and keeps every
      entry that read back before. */
  lemma CommitReadsBack(g: Grid, word: string, s: Cell, d: Dir, others: seq<PlacedWord>)
    requires IsSquare(g, |g|) && IsUnit(d) && Fits(g, word, s, d)
    requires forall k :: 0 <= k < |others| ==> ReadsBack(g, others[k])
    ensures ReadsBack(Commit(g, word, s, d), PlacedWord(word, Ray(s, d, |word|), false))
    ensures forall k :: 0 <= k < |others| ==> ReadsBack(Commit(g, word, s, d), others[k])
  {
    var h := Commit(g, word, s, d);
    RayIsRun(s, d, |word|);
    forall i | 0 <= i < |word| ensures At(h, Offset(s, d, i)) == [word[i]] {
      CommitWrites(g, word, s, d, i);
    }
    forall k, i | 0 <= k < |others| && 0 <= i < |others[k].positions|
      ensures At(h, others[k].positions[i]) == At(g, others[k].positions[i])
    {
      CommitKeepsLetters(g, word, s, d, others[k].positions[i]);
    }
  }

  /** Everything placeWord's commit keeps: cells of at most one letter,
      every earlier entry and the new one reading back, and every letter
      already on the grid. */
  lemma CommitPreservesPlacement(g: Grid, word: string, s: Cell, d: Dir, others: seq<PlacedWord>)
    requires IsSquare(g, |g|) && IsUnit(d) && Fits(g, word, s, d) && AtMostOneLetter(g)
    requires forall k :: 0 <= k < |others| ==> ReadsBack(g, others[k])
    ensures AtMostOneLetter(Commit(g, word, s, d))
    ensures forall k :: 0 <= k < |others| ==> ReadsBack(Commit(g, word, s, d), others[k])
    ensures ReadsBack(Commit(g, word, s, d), PlacedWord(word, Ray(s, d, |word|), false))
    ensures forall r, c :: 0 <= r < |g| && 0 <= c < |g| && g[r][c] != "" ==>
              Commit(g, word, s, d)[r][c] == g[r][c]
  {
    CommitReadsBack(g, word, s, d, others);
    CommitKeepsShape(g, word, s, d);
    forall r, c | 0 <= r < |g| && 0 <= c < |g| && g[r][c] != ""
      ensures Commit(g, word, s, d)[r][c] == g[r][c]
    {
      CommitKeepsLetters(g, word, s, d, Cell(r, c));
    }
  }

  // ----- placement attempts ----------------------------------------------

  /** Where one attempt tries to put a word: a start cell and a direction. */
  datatype Spot = Spot(start: Cell, dir: Dir)

  /** placeWords tries each word at most this many times. */
  const MaxAttempts: nat := 100

  /** The spot an attempt draws from draw t on: rand(t) picks the direction,
      rand(t + 1) the row and rand(t + 2) the column. */
  function SpotAt(rand: nat -> nat, size: nat, t: nat): (a: Spot)
    requires size > 0
    ensures a.dir in Directions && InGrid(a.start, size)
  {
    Spot(Cell(rand(t + 1) % size, rand(t + 2) % size), Directions[rand(t) % |Directions|])
  }

  /** The spots of a word's attempts when they start at draw t0: attempt j
      uses draws t0 + 3j, t0 + 3j + 1 and t0 + 3j + 2. */
  function Spots(rand: nat -> nat, size: nat, t0: nat): nat -> Spot
    requires size > 0
  {
    (j: nat) => SpotAt(rand, size, t0 + 3 * j)
  }

  /** Attempt j lands on a spot where the word fits. */
  predicate AttemptFits(g: Grid, word: string, spots: nat -> Spot, j: nat)
    requires IsSquare(g, |g|)
  {
    Fits(g, word, spots(j).start, spots(j).dir)
  }

  /** How the attempts for one word end: the spot of the attempt that fit,
      if any, and the number of attempts made. */
  datatype Outcome = Outcome(spot: Option<Spot>, tries: nat)

  /** placeWords' attempt loop for one word, from attempt n on: it stops at
      the first attempt that fits, or after the last allowed attempt. */
  function Attempts(g: Grid, word: string, spots: nat -> Spot, n: nat): (o: Outcome)
    requires IsSquare(g, |g|) && n <= MaxAttempts
    ensures n <= o.tries <= MaxAttempts
    ensures o.spot.None? ==> o.tries == MaxAttempts
    ensures o.spot.Some? ==>
              n < o.tries && o.spot.value == spots(o.tries - 1) && AttemptFits(g, word, spots, o.tries - 1)
    decreases MaxAttempts - n
  {
    if n == MaxAttempts then Outcome(None, n)
    else if AttemptFits(g, word, spots, n) then Outcome(Some(spots(n)), n + 1)
    else Attempts(g, word, spots, n + 1)
  }

  /** Attempts n .. k - 1 of the word all fail. */
  predicate FailsBetween(g: Grid, word: string, spots: nat -> Spot, n: nat, k: nat)
    requires IsSquare(g, |g|)
  {
    forall j :: n <= j < k ==> !AttemptFits(g, word, spots, j)
  }

  /** The loop stops at the first attempt that fits: every attempt before it
      failed, so a word is dropped only after all 100 attempts failed. */
  lemma {:induction false} AttemptsFirstFit(g: Grid, word: string, spots: nat -> Spot, n: nat)
    requires IsSquare(g, |g|) && n <= MaxAttempts
    ensures var o := Attempts(g, word, spots, n);
            FailsBetween(g, word, spots, n, if o.spot.Some? then o.tries - 1 else o.tries)
    decreases MaxAttempts - n
  {
    if n < MaxAttempts && !AttemptFits(g, word, spots, n) {
      AttemptsFirstFit(g, word, spots, n + 1);
    }
  }

  /** The grid, the entries and the next unused draw while placeWords runs. */
  datatype Placed = Placed(grid: Grid, entries: seq<PlacedWord>, next: nat)

  /** The state after one word's attempts, which started at draw t, ended
      with outcome o: a fitting spot has the word committed there and its
      unfound entry appended; otherwise grid and entries stay. */
  function Record(g: Grid, entries: seq<PlacedWord>, word: string, o: Outcome, t: nat): (p: Placed)
    requires IsSquare(g, |g|)
    requires o.spot.Some? ==> Fits(g, word, o.spot.value.start, o.spot.value.dir)
    ensures IsSquare(p.grid, |g|) && p.next == t + 3 * o.tries
    ensures |entries| <= |p.entries| <= |entries| + 1 && p.entries[..|entries|] == entries
  {
    match o.spot
    case None => Placed(g, entries, t + 3 * o.tries)
    case Some(a) =>
      Placed(Commit(g, word, a.start, a.dir),
             entries + [PlacedWord(word, Ray(a.start, a.dir, |word|), false)], t + 3 * o.tries)
  }

  /** placeWords from word w on, with the grid and the entries so far and
      the next draw t: each word in order gets its attempts and the outcome
      is recorded. Each word uses between 3 and 300 draws (at least one and
      at most MaxAttempts attempts of three draws). */
  function PlaceFrom(g: Grid, entries: seq<PlacedWord>, words: seq<string>, rand: nat -> nat, t: nat, w: nat)
    : (p: Placed)
    requires IsSquare(g, |g|) && |g| > 0 && w <= |words|
    ensures IsSquare(p.grid, |g|)
    ensures |entries| <= |p.entries| <= |entries| + (|words| - w) && p.entries[..|entries|] == entries
    ensures t + 3 * (|words| - w) <= p.next <= t + 300 * (|words| - w)
    decreases |words| - w
  {
    if w == |words| then Placed(g, entries, t)
    else
      var r := Record(g, entries, words[w], Attempts(g, words[w], Spots(rand, |g|, t), 0), t);
      var rest := PlaceFrom(r.grid, r.entries, words, rand, r.next, w + 1);
      assert rest.entries[..|entries|] == r.entries[..|r.entries|][..|entries|];
      rest
  }

  /** An attempt that fits ends the loop: the word is committed at its
      spot and the entry appended. */
  lemma AttemptHit(g: Grid, entries: seq<PlacedWord>, word: string, spots: nat -> Spot, n: nat, t0: nat)
    requires IsSquare(g, |g|) && n < MaxAttempts && AttemptFits(g, word, spots, n)
    ensures Attempts(g, word, spots, n) == Outcome(Some(spots(n)), n + 1)
    ensures Record(g, entries, word, Outcome(Some(spots(n)), n + 1), t0) ==
            Placed(Commit(g, word, spots(n).start, spots(n).dir),
                   entries + [PlacedWord(word, Ray(spots(n).start, spots(n).dir, |word|), false)], t0 + 3 * (n + 1))
  {
  }

  /** An attempt that does not fit passes on to the next one. */
  lemma AttemptMiss(g: Grid, word: string, spots: nat -> Spot, n: nat)
    requires IsSquare(g, |g|) && n < MaxAttempts && !AttemptFits(g, word, spots, n)
    ensures Attempts(g, word, spots, n) == Attempts(g, word, spots, n + 1)
  {
  }

  /** After the last allowed attempt the word is dropped: grid and entries
      stay, and all the attempts' draws are used. */
  lemma AttemptsExhausted(g: Grid, entries: seq<PlacedWord>, word: string, spots: nat -> Spot, t0: nat)
    requires IsSquare(g, |g|)
    ensures Attempts(g, word, spots, MaxAttempts) == Outcome(None, MaxAttempts)
    ensures Record(g, entries, word, Outcome(None, MaxAttempts), t0) == Placed(g, entries, t0 + 3 * MaxAttempts)
  {
  }

  /** placeWords moves on from word w by recording its outcome. */
  lemma PlaceFromStep(g: Grid, entries: seq<PlacedWord>, words: seq<string>, rand: nat -> nat, t: nat, w: nat)
    requires IsSquare(g, |g|) && |g| > 0 && w < |words|
    ensures var r := Record(g, entries, words[w], Attempts(g, words[w], Spots(rand, |g|, t), 0), t);
            PlaceFrom(g, entries, words, rand, t, w) == PlaceFrom(r.grid, r.entries, words, rand, r.next, w + 1)
  {
  }

  /** Attempt j draws its direction, row and column from draws t, t + 1
      and t + 2, where t = t0 + 3j. */
  lemma SpotDraws(rand: nat -> nat, size: nat, t0: nat, j: nat, t: nat)
    requires size > 0 && t == t0 + 3 * j
    ensures Spots(rand, size, t0)(j) ==
            Spot(Cell(rand(t + 1) % size, rand(t + 2) % size), Directions[rand(t) % |Directions|])
  {
  }

  // ----- noise fill ------------------------------------------------------

  const Letters: string := "ABCDEFGHIJKLMNOPQRSTUVWXYZ"

  /** The noise letter drawn with random number rand(k), as
      letters[Math.floor(Math.random() * letters.length)]. */
  function NoiseLetter(rand: nat -> nat, k: nat): (v: string)
    ensures |v| == 1 && v[0] in Letters
  {
    [Letters[rand(k) % |Letters|]]
  }

  /** The draw that fills cell (r, c) of a size-by-size grid when the fill
      starts at draw t: one draw per cell, row by row. */
  function DrawIndex(t: nat, size: nat, r: nat, c: nat): nat {
    t + r * size + c
  }

  /** fillEmptySpaces: every empty cell gets a noise letter, cell (r, c)
      from draw DrawIndex(t, |g|, r, c). */
  function Fill(g: Grid, rand: nat -> nat, t: nat): (h: Grid)
    requires IsSquare(g, |g|)
    ensures IsSquare(h, |g|)
    ensures forall r, c :: 0 <= r < |g| && 0 <= c < |g| && g[r][c] != "" ==> h[r][c] == g[r][c]
    ensures forall r, c :: 0 <= r < |g| && 0 <= c < |g| && g[r][c] == "" ==>
              |h[r][c]| == 1 && h[r][c][0] in Letters
  {
    seq(|g|, r requires 0 <= r < |g| =>
      seq(|g|, c requires 0 <= c < |g| =>
        if g[r][c] == "" then NoiseLetter(rand, DrawIndex(t, |g|, r, c)) else g[r][c]))
  }

  /** After the fill every cell holds one letter and every placed word still
      reads back. */
  lemma FillKeepsWords(g: Grid, rand: nat -> nat, t: nat, entries: seq<PlacedWord>)
    requires IsSquare(g, |g|) && AtMostOneLetter(g)
    requires forall k :: 0 <= k < |entries| ==> ReadsBack(g, entries[k])
    ensures Filled(Fill(g, rand, t))
    ensures forall k :: 0 <= k < |entries| ==> ReadsBack(Fill(g, rand, t), entries[k])
  {
    var h := Fill(g, rand, t);
    forall k, i | 0 <= k < |entries| && 0 <= i < |entries[k].positions|
      ensures At(h, entries[k].positions[i]) == At(g, entries[k].positions[i])
    {
      assert At(g, entries[k].positions[i]) == [entries[k].word[i]];
    }
  }

  // ----- reading a selection ---------------------------------------------

  /** getSelectedWord: the letters at the cells, in order, joined. */
  function Spell(g: Grid, cells: seq<Cell>): (w: string)
    requires IsSquare(g, |g|)
    requires forall i :: 0 <= i < |cells| ==> InGrid(cells[i], |g|)
    ensures (forall i :: 0 <= i < |cells| ==> |At(g, cells[i])| == 1) ==>
              |w| == |cells| && forall i :: 0 <= i < |cells| ==> [w[i]] == At(g, cells[i])
  {
    if cells == [] then "" else At(g, cells[0]) + Spell(g, cells[1..])
  }

  /** Cells holding the letters of w one by one spell w. */
  lemma SpellLetters(g: Grid, cells: seq<Cell>, w: string)
    requires IsSquare(g, |g|) && |w| == |cells|
    requires forall i :: 0 <= i < |cells| ==> InGrid(cells[i], |g|) && At(g, cells[i]) == [w[i]]
    ensures Spell(g, cells) == w
  {
    var v := Spell(g, cells);
    forall i | 0 <= i < |cells| ensures v[i] == w[i] {
      assert [v[i]] == [w[i]];
    }
  }

  /** Reading an entry's positions forwards gives its word; reading them
      backwards gives the word reversed. */
  lemma SpellPlacedWord(g: Grid, e: PlacedWord)
    requires IsSquare(g, |g|) && ReadsBack(g, e)
    ensures forall i :: 0 <= i < |e.positions| ==> InGrid(Reverse(e.positions)[i], |g|)
    ensures Spell(g, e.positions) == e.word
    ensures Spell(g, Reverse(e.positions)) == Reverse(e.word)
  {
    var p := e.positions;
    var n := |p|;
    SpellLetters(g, p, e.word);
    var q := Reverse(p);
    var rw := Reverse(e.word);
    forall i | 0 <= i < n ensures InGrid(q[i], |g|) && At(g, q[i]) == [rw[i]] {
      var j := n - 1 - i;
      assert q[i] == p[j];
      assert rw[i] == e.word[j];
      assert At(g, p[j]) == [e.word[j]];
    }
    SpellLetters(g, q, rw);
  }

  // ----- matching --------------------------------------------------------

  /** checkWord's test for one entry: not yet found, and equal to the
      selection read forwards or backwards. */
  predicate Matches(e: PlacedWord, selected: string) {
    !e.found && (e.word == selected || e.word == Reverse(selected))
  }

  /** checkWord's search from entry i on: the index of the first entry at
      or after i that matches the selection, or None when none does. */
  function FirstMatchFrom(entries: seq<PlacedWord>, selected: string, i: nat): (m: Option<nat>)
    ensures m.Some? ==> i <= m.value < |entries| && Matches(entries[m.value], selected)
    decreases |entries| - i
  {
    if i >= |entries| then None
    else if Matches(entries[i], selected) then Some(i)
    else FirstMatchFrom(entries, selected, i + 1)
  }

  /** checkWord's search: the first entry, in placement order, that matches
      the selection, or None when no entry does. */
  function FirstMatch(entries: seq<PlacedWord>, selected: string): (m: Option<nat>)
    ensures m.Some? ==> m.value < |entries| && Matches(entries[m.value], selected)
  {
    FirstMatchFrom(entries, selected, 0)
  }

  /** The search from i skips only entries that do not match, and finds
      nothing exactly when no entry from i on matches. */
  lemma {:induction false} FirstMatchFromIsFirst(entries: seq<PlacedWord>, selected: string, i: nat)
    ensures var m := FirstMatchFrom(entries, selected, i);
            (m.Some? ==> forall j :: i <= j < m.value ==> !Matches(entries[j], selected)) &&
            (m.None? <==> forall j :: i <= j < |entries| ==> !Matches(entries[j], selected))
    decreases |entries| - i
  {
    if i < |entries| && !Matches(entries[i], selected) {
      FirstMatchFromIsFirst(entries, selected, i + 1);
    }
  }

  /** FirstMatch returns the earliest matching entry: no entry before it
      matches, and it returns None exactly when no entry matches at all. */
  lemma FirstMatchIsFirst(entries: seq<PlacedWord>, selected: string)
    ensures var m := FirstMatch(entries, selected);
            (m.Some? ==> forall j :: 0 <= j < m.value ==> !Matches(entries[j], selected)) &&
            (m.None? <==> forall j :: 0 <= j < |entries| ==> !Matches(entries[j], selected))
  {
    FirstMatchFromIsFirst(entries, selected, 0);
  }

  /** The entry of a placed, not yet found word is matched by a drag over
      its cells in either direction. */
  lemma DragFindsWord(g: Grid, e: PlacedWord)
    requires IsSquare(g, |g|) && ReadsBack(g, e) && !e.found && |e.word| >= 1
    ensures var first, last := e.positions[0], e.positions[|e.positions| - 1];
            (forall c :: c in LineCells(first, last) ==> InGrid(c, |g|)) &&
            (forall c :: c in LineCells(last, first) ==> InGrid(c, |g|)) &&
            Matches(e, Spell(g, LineCells(first, last))) &&
            Matches(e, Spell(g, LineCells(last, first)))
  {
    var p := e.positions;
    LineCellsOfRun(p);
    LineCellsOfRunBackwards(p);
    SpellPlacedWord(g, e);
    ReverseReverse(e.word);
  }

  /** foundWords as the set of words of the entries marked found. */
  function FoundSet(entries: seq<PlacedWord>): (s: set<string>)
    ensures forall k :: 0 <= k < |entries| && entries[k].found ==> entries[k].word in s
    ensures |s| <= |entries|
  {
    if entries == [] then {}
    else
      var k := |entries| - 1;
      var rest := FoundSet(entries[..k]);
      assert forall j :: 0 <= j < k ==> entries[..k][j] == entries[j];
      if entries[k].found then rest + {entries[k].word} else rest
  }

  /** Every word in the found set belongs to an entry marked found. */
  lemma {:induction false} FoundSetMember(entries: seq<PlacedWord>, w: string)
    requires w in FoundSet(entries)
    ensures exists k :: 0 <= k < |entries| && entries[k].found && entries[k].word == w
  {
    var k := |entries| - 1;
    if !(entries[k].found && entries[k].word == w) {
      var prefix := entries[..k];
      FoundSetMember(prefix, w);
      var j :| 0 <= j < k && prefix[j].found && prefix[j].word == w;
      assert entries[j] == prefix[j];
    }
  }

  /** checkWord's update of the matched entry: its found flag is set. */
  function MarkFound(entries: seq<PlacedWord>, m: nat): (r: seq<PlacedWord>)
    requires m < |entries|
    ensures |r| == |entries|
    ensures r[m] == PlacedWord(entries[m].word, entries[m].positions, true)
    ensures forall k :: 0 <= k < |entries| && k != m ==> r[k] == entries[k]
  {
    entries[m := entries[m].(found := true)]
  }

  /** Once checkWord has marked the first match, the same selection can no
      longer match that entry or any before it: each entry is found at most
      once. */
  lemma MarkedNotMatchedAgain(entries: seq<PlacedWord>, selected: string)
    requires FirstMatch(entries, selected).Some?
    ensures var m := FirstMatch(entries, selected).value;
            var next := FirstMatch(MarkFound(entries, m), selected);
            next.Some? ==> next.value > m
  {
    var m := FirstMatch(entries, selected).value;
    var after := MarkFound(entries, m);
    FirstMatchIsFirst(entries, selected);
    FirstMatchIsFirst(after, selected);
    assert forall j :: 0 <= j < m ==> after[j] == entries[j];
  }

  /** Marking an entry found adds its word to the found set and nothing
      else. */
  lemma FoundSetMark(entries: seq<PlacedWord>, m: nat)
    requires m < |entries|
    ensures FoundSet(MarkFound(entries, m)) == FoundSet(entries) + {entries[m].word}
  {
    var after := MarkFound(entries, m);
    var x := entries[m].word;
    forall w | w in FoundSet(after) ensures w in FoundSet(entries) + {x} {
      FoundSetMember(after, w);
      var k :| 0 <= k < |after| && after[k].found && after[k].word == w;
      if k != m { assert entries[k] == after[k]; }
    }
    forall w | w in FoundSet(entries) + {x} ensures w in FoundSet(after) {
      if w == x {
        assert after[m].found && after[m].word == w;
      } else {
        FoundSetMember(entries, w);
        var k :| 0 <= k < |entries| && entries[k].found && entries[k].word == w;
        assert k != m ==> after[k] == entries[k];
        assert after[k].found && after[k].word == w;
      }
    }
  }

  /** The found set is as large as the list of entries only when every
      entry is found. */
  lemma {:induction false} FullFoundSetMeansAllFound(entries: seq<PlacedWord>)
    requires |FoundSet(entries)| == |entries|
    ensures forall k :: 0 <= k < |entries| ==> entries[k].found
  {
    if entries != [] {
      var k := |entries| - 1;
      var prefix := entries[..k];
      var rest := FoundSet(prefix);
      var x := entries[k].word;
      assert FoundSet(entries) <= rest + {x};
      assert |rest + {x}| <= |rest| + 1;
      assert |rest| == k;
      assert FoundSet(entries) != rest;
      FullFoundSetMeansAllFound(prefix);
      assert forall j :: 0 <= j < k ==> prefix[j] == entries[j];
    }
  }

  /** With pairwise distinct words, finding every entry fills the found set
      to the number of entries. */
  lemma {:induction false} AllFoundDistinctFillsFoundSet(entries: seq<PlacedWord>)
    requires forall k :: 0 <= k < |entries| ==> entries[k].found
    requires forall i, j :: 0 <= i < j < |entries| ==> entries[i].word != entries[j].word
    ensures |FoundSet(entries)| == |entries|
  {
    if entries != [] {
      var k := |entries| - 1;
      var prefix := entries[..k];
      assert forall j :: 0 <= j < k ==> prefix[j] == entries[j];
      AllFoundDistinctFillsFoundSet(prefix);
      NotInFoundSet(prefix, entries[k].word);
      assert FoundSet(entries) == FoundSet(prefix) + {entries[k].word};
    }
  }

  /** A word that no entry carries is not in the found set. */
  lemma {:induction false} NotInFoundSet(entries: seq<PlacedWord>, w: string)
    requires forall k :: 0 <= k < |entries| ==> entries[k].word != w
    ensures w !in FoundSet(entries)
  {
    if entries != [] {
      var k := |entries| - 1;
      var prefix := entries[..k];
      assert forall j :: 0 <= j < k ==> prefix[j] == entries[j];
      NotInFoundSet(prefix, w);
    }
  }

  /** Before anything is found the found set is empty. */
  lemma NoneFound(entries: seq<PlacedWord>)
    requires forall k :: 0 <= k < |entries| ==> !entries[k].found
    ensures FoundSet(entries) == {}
  {
    forall w | w in FoundSet(entries) ensures false {
      FoundSetMember(entries, w);
    }
  }
}

/** The puzzle builder: a 12 x 12 grid of letters in which three target words
    sit on hand-authored paths and every other cell holds a random letter. */
module Crossword {

  /** A grid cell as (row, column). */
  type Pos = (int, int)

  /** A target word bound to its ordered cells and its clue; never changed once built. */
  datatype WordPlacement = WordPlacement(word: string, positions: seq<Pos>, clue: string)

  const GridSize: nat := 12

  predicate InGrid(grid: array2<string>, q: Pos) {
    0 <= q.0 < grid.Length0 && 0 <= q.1 < grid.Length1
  }

  /** The first n cells of the path lie inside the grid. */
  predicate PathInGrid(grid: array2<string>, positions: seq<Pos>, n: nat) {
    n <= |positions| && forall i :: 0 <= i < n ==> InGrid(grid, positions[i])
  }

  predicate Distinct(cells: seq<Pos>) {
    forall i, j :: 0 <= i < j < |cells| ==> cells[i] != cells[j]
  }

  /** A cell that holds exactly one letter 'A'..'Z'. */
  predicate IsUpperLetter(cell: string) {
    |cell| == 1 && 'A' <= cell[0] <= 'Z'
  }

  predicate IsUpperWord(word: string) {
    forall i :: 0 <= i < |word| ==> 'A' <= word[i] <= 'Z'
  }

  /** How many (cell, letter) pairs zip(positions, word) yields: the shorter length. */
  function ZipLength(positions: seq<Pos>, word: string): (n: nat)
    ensures n <= |positions| && n <= |word|
    ensures n == |positions| || n == |word|
  {
    if |positions| < |word| then |positions| else |word|
  }

  /** The crossing check of place_word: every zipped cell is still empty or
      already holds the letter the word puts there. */
  predicate Fits(grid: array2<string>, positions: seq<Pos>, word: string)
    reads grid
    requires PathInGrid(grid, positions, ZipLength(positions, word))
  {
    forall i :: 0 <= i < ZipLength(positions, word) ==>
      grid[positions[i].0, positions[i].1] == "" || grid[positions[i].0, positions[i].1] == [word[i]]
  }

  /** Which of the first n in-order writes lands last on cell q (-1 if none does). */
  function LastWrite(positions: seq<Pos>, n: nat, q: Pos): (k: int)
    requires n <= |positions|
    ensures -1 <= k < n
    ensures k >= 0 ==> positions[k] == q
    ensures forall j :: k < j < n ==> positions[j] != q
  {
    if n == 0 then -1
    else if positions[n - 1] == q then n - 1
    else LastWrite(positions, n - 1, q)
  }

  /** What cell q holds after the first n zipped letters have been written in order
      over a grid in which it held `before`. */
  function CellAfter(before: string, positions: seq<Pos>, word: string, n: nat, q: Pos): string
    requires n <= |positions| && n <= |word|
  {
    var k := LastWrite(positions, n, q);
    if k < 0 then before else [word[k]]
  }

  /** place_word: an all-or-nothing write. Nothing is written unless every zipped
      cell passes the crossing check; then the letters are written in path order. */
  method PlaceWord(grid: array2<string>, positions: seq<Pos>, word: string) returns (ok: bool)
    requires PathInGrid(grid, positions, ZipLength(positions, word))
    modifies grid
    ensures ok == old(Fits(grid, positions, word))
    ensures forall r, c :: 0 <= r < grid.Length0 && 0 <= c < grid.Length1 ==>
      grid[r, c] == if ok then CellAfter(old(grid[r, c]), positions, word, ZipLength(positions, word), (r, c))
                    else old(grid[r, c])
  {
    var n := ZipLength(positions, word);
    var i := 0;
    while i < n
      invariant 0 <= i <= n
      invariant forall j :: 0 <= j < i ==>
        grid[positions[j].0, positions[j].1] == "" || grid[positions[j].0, positions[j].1] == [word[j]]
    {
      var existing := grid[positions[i].0, positions[i].1];
      if existing != "" && existing != [word[i]] {
        return false;
      }
      i := i + 1;
    }
    i := 0;
    while i < n
      invariant 0 <= i <= n
      invariant forall r, c :: 0 <= r < grid.Length0 && 0 <= c < grid.Length1 ==>
        grid[r, c] == CellAfter(old(grid[r, c]), positions, word, i, (r, c))
    {
      grid[positions[i].0, positions[i].1] := [word[i]];
      i := i + 1;
    }
    return true;
  }

  /** On a path without repeated cells, each of the first n cells ends up holding
      its own letter, whatever it held before. */
  lemma CellAfterOnPath(before: string, positions: seq<Pos>, word: string, n: nat, i: nat)
    requires n <= |positions| && n <= |word| && i < n
    requires Distinct(positions[..n])
    ensures CellAfter(before, positions, word, n, positions[i]) == [word[i]]
  {
    var k := LastWrite(positions, n, positions[i]);
    assert positions[..n][k] == positions[..n][i];
  }

  /** A cell the first n writes do not touch keeps its value. */
  lemma CellAfterOffPath(before: string, positions: seq<Pos>, word: string, n: nat, q: Pos)
    requires n <= |positions| && n <= |word|
    requires q !in positions[..n]
    ensures CellAfter(before, positions, word, n, q) == before
  {
  }

  /** Why the path must not repeat a cell: a path that visits (0, 0) twice passes the
      crossing check on an empty grid, yet the later letter overwrites the earlier. */
  lemma RepeatedCellKeepsLastLetter(grid: array2<string>)
    requires grid.Length0 >= 1 && grid.Length1 >= 1 && grid[0, 0] == ""
    ensures Fits(grid, [(0, 0), (0, 0)], "AB")
    ensures CellAfter("", [(0, 0), (0, 0)], "AB", 2, (0, 0)) == "B"
  {
  }

  /** The letters read off the grid along a path, joined in path order. */
  function ReadAlong(grid: array2<string>, cells: seq<Pos>): string
    reads grid
    requires PathInGrid(grid, cells, |cells|)
  {
    if cells == [] then ""
    else ReadAlong(grid, cells[..|cells| - 1]) + grid[cells[|cells| - 1].0, cells[|cells| - 1].1]
  }

  /** On a path of one-letter cells, the text read off has one character per cell,
      the cell's letter. */
  lemma {:induction false} ReadAlongOneLetterPerCell(grid: array2<string>, cells: seq<Pos>)
    requires PathInGrid(grid, cells, |cells|)
    requires forall k :: 0 <= k < |cells| ==> IsUpperLetter(grid[cells[k].0, cells[k].1])
    ensures |ReadAlong(grid, cells)| == |cells|
    ensures forall k :: 0 <= k < |cells| ==> [ReadAlong(grid, cells)[k]] == grid[cells[k].0, cells[k].1]
  {
    if cells != [] {
      var n := |cells| - 1;
      ReadAlongOneLetterPerCell(grid, cells[..n]);
      var last := grid[cells[n].0, cells[n].1];
      assert last == [last[0]];
      forall k | 0 <= k < n
        ensures [ReadAlong(grid, cells)[k]] == grid[cells[k].0, cells[k].1]
      {
        assert cells[..n][k] == cells[k];
      }
    }
  }

  /** The grid holds the word's letters along its path, one letter per cell. */
  predicate SpellsAlong(grid: array2<string>, cells: seq<Pos>, word: string)
    reads grid
  {
    |cells| == |word| && PathInGrid(grid, cells, |cells|) &&
    forall k :: 0 <= k < |cells| ==> grid[cells[k].0, cells[k].1] == [word[k]]
  }

  predicate Spells(grid: array2<string>, p: WordPlacement)
    reads grid
  {
    SpellsAlong(grid, p.positions, p.word)
  }

  /** Reading a spelled path back gives the word. */
  lemma {:induction false} ReadAlongSpells(grid: array2<string>, cells: seq<Pos>, word: string)
    requires SpellsAlong(grid, cells, word)
    ensures ReadAlong(grid, cells) == word
  {
    if cells != [] {
      var n := |cells| - 1;
      assert SpellsAlong(grid, cells[..n], word[..n]);
      ReadAlongSpells(grid, cells[..n], word[..n]);
      assert word == word[..n] + [word[n]];
    }
  }

  /** The fill loop of build_puzzle: every empty cell gets an arbitrary letter
      'A'..'Z' (the program draws it at random); every other cell is left alone. */
  method FillBlanks(grid: array2<string>)
    requires grid.Length0 == GridSize && grid.Length1 == GridSize
    modifies grid
    ensures forall r, c :: 0 <= r < GridSize && 0 <= c < GridSize ==>
      if old(grid[r, c]) == "" then IsUpperLetter(grid[r, c]) else grid[r, c] == old(grid[r, c])
  {
    for r := 0 to GridSize
      invariant forall r', c' :: 0 <= r' < r && 0 <= c' < GridSize ==>
        if old(grid[r', c']) == "" then IsUpperLetter(grid[r', c']) else grid[r', c'] == old(grid[r', c'])
      invariant forall r', c' :: r <= r' < GridSize && 0 <= c' < GridSize ==> grid[r', c'] == old(grid[r', c'])
    {
      for c := 0 to GridSize
        invariant forall r', c' :: 0 <= r' < r && 0 <= c' < GridSize ==>
          if old(grid[r', c']) == "" then IsUpperLetter(grid[r', c']) else grid[r', c'] == old(grid[r', c'])
        invariant forall c' :: 0 <= c' < c ==>
          if old(grid[r, c']) == "" then IsUpperLetter(grid[r, c']) else grid[r, c'] == old(grid[r, c'])
        invariant forall r', c' :: r <= r' < GridSize && (r' > r || c <= c') && 0 <= c' < GridSize ==>
          grid[r', c'] == old(grid[r', c'])
      {
        if grid[r, c] == "" {
          var letter :| 'A' <= letter <= 'Z';
          grid[r, c] := [letter];
        }
      }
    }
  }

  const PerdonPath: seq<Pos> := [(1, 9), (2, 8), (3, 7), (4, 6), (5, 5), (6, 4)]
  const JazminPath: seq<Pos> := [(0, 1), (1, 1), (2, 1), (3, 1), (4, 1), (5, 1)]
  const TeamoPath: seq<Pos> := [(9, 8), (9, 9), (9, 10), (10, 10), (11, 10)]

  const Perdon: WordPlacement :=
    WordPlacement("PERDON", PerdonPath, "1\U{FE0F}\U{20E3} Diagonal: Lo que digo sin excusas.")
  const Jazmin: WordPlacement :=
    WordPlacement("JAZMIN", JazminPath, "2\U{FE0F}\U{20E3} Vertical: Tu nombre.")
  const Teamo: WordPlacement :=
    WordPlacement("TEAMO", TeamoPath, "3\U{FE0F}\U{20E3} Forma rara: Lo que siento, aunque me equivoqu\U{E9}.")

  predicate Disjoint(a: seq<Pos>, b: seq<Pos>) {
    forall i, j :: 0 <= i < |a| && 0 <= j < |b| ==> a[i] != b[j]
  }

  /** The path lies inside the GridSize x GridSize grid that build_puzzle allocates. */
  predicate InSquare(cells: seq<Pos>) {
    forall i :: 0 <= i < |cells| ==> 0 <= cells[i].0 < GridSize && 0 <= cells[i].1 < GridSize
  }

  /** A placement build_puzzle can write into an empty part of its grid. */
  predicate Writable(p: WordPlacement) {
    |p.positions| == |p.word| && Distinct(p.positions) && IsUpperWord(p.word) && InSquare(p.positions)
  }

  /** Each hard-coded path is free of repeats, inside the grid and as long as its
      word, and each word is spelled in capitals. */
  lemma PathsAreWritable()
    ensures Writable(Perdon) && Writable(Jazmin) && Writable(Teamo)
  {
    PerdonIsWritable();
    JazminIsWritable();
    TeamoIsWritable();
  }

  lemma PerdonIsWritable()
    ensures Writable(Perdon)
  {
  }

  lemma JazminIsWritable()
    ensures Writable(Jazmin)
  {
  }

  lemma TeamoIsWritable()
    ensures Writable(Teamo)
  {
  }

  /** No two hard-coded paths share a cell. */
  lemma PathsAreDisjoint()
    ensures Disjoint(PerdonPath, JazminPath) && Disjoint(PerdonPath, TeamoPath) && Disjoint(JazminPath, TeamoPath)
  {
  }

  predicate OffPaths(q: Pos, placed: seq<WordPlacement>) {
    forall i :: 0 <= i < |placed| ==> q !in placed[i].positions
  }

  /** The grid while build_puzzle places its words: every placement so far is
      spelled along its path and every cell off those paths is still empty. */
  ghost predicate Staged(grid: array2<string>, placed: seq<WordPlacement>)
    reads grid
  {
    (forall i :: 0 <= i < |placed| ==> Writable(placed[i]) && Spells(grid, placed[i])) &&
    (forall r, c :: 0 <= r < grid.Length0 && 0 <= c < grid.Length1 && OffPaths((r, c), placed) ==> grid[r, c] == "")
  }

  /** One place_word call of build_puzzle, on a path that crosses none placed
      before: the call succeeds, and the word joins the spelled placements. */
  method PlaceOnFreePath(grid: array2<string>, ghost placed: seq<WordPlacement>, p: WordPlacement) returns (ok: bool)
    requires Staged(grid, placed) && Writable(p) && grid.Length0 == GridSize && grid.Length1 == GridSize
    requires forall i :: 0 <= i < |placed| ==> Disjoint(placed[i].positions, p.positions)
    modifies grid
    ensures ok && Staged(grid, placed + [p])
  {
    assert p.positions[..|p.positions|] == p.positions;
    forall k | 0 <= k < |p.positions|
      ensures grid[p.positions[k].0, p.positions[k].1] == ""
    {
      assert OffPaths(p.positions[k], placed);
    }
    ok := PlaceWord(grid, p.positions, p.word);
    forall k | 0 <= k < |p.positions|
      ensures grid[p.positions[k].0, p.positions[k].1] == [p.word[k]]
    {
      CellAfterOnPath(old(grid[p.positions[k].0, p.positions[k].1]), p.positions, p.word, |p.positions|, k);
    }
    forall r, c | 0 <= r < grid.Length0 && 0 <= c < grid.Length1 && (r, c) !in p.positions
      ensures grid[r, c] == old(grid[r, c])
    {
      CellAfterOffPath(old(grid[r, c]), p.positions, p.word, |p.positions|, (r, c));
    }
    assert forall i, k :: 0 <= i < |placed| && 0 <= k < |placed[i].positions| ==>
      placed[i].positions[k] !in p.positions;
    var all := placed + [p];
    assert forall i :: 0 <= i < |placed| ==> all[i] == placed[i];
    forall r, c | 0 <= r < grid.Length0 && 0 <= c < grid.Length1 && OffPaths((r, c), all)
      ensures grid[r, c] == ""
    {
      assert all[|placed|] == p;
      assert OffPaths((r, c), placed);
    }
  }

  /** While the words are being placed, each cell is still empty or holds a capital. */
  lemma StagedCellsBlankOrLetter(grid: array2<string>, placed: seq<WordPlacement>, r: int, c: int)
    requires Staged(grid, placed)
    requires 0 <= r < grid.Length0 && 0 <= c < grid.Length1
    ensures grid[r, c] == "" || IsUpperLetter(grid[r, c])
  {
    if !OffPaths((r, c), placed) {
      var i :| 0 <= i < |placed| && (r, c) in placed[i].positions;
      var k :| 0 <= k < |placed[i].positions| && placed[i].positions[k] == (r, c);
      assert grid[r, c] == [placed[i].word[k]];
    }
  }

  /** The body of build_puzzle before the fill: three place_word calls on an empty grid, each
      followed by appending its placement record, for placements whose paths are
      sound and pairwise disjoint (as the three hard-coded ones are). */
  method PlaceThree(grid: array2<string>, first: WordPlacement, second: WordPlacement, third: WordPlacement)
    returns (placements: seq<WordPlacement>)
    requires grid.Length0 == GridSize && grid.Length1 == GridSize
    requires forall r, c :: 0 <= r < GridSize && 0 <= c < GridSize ==> grid[r, c] == ""
    requires Writable(first) && Writable(second) && Writable(third)
    requires Disjoint(first.positions, second.positions)
    requires Disjoint(first.positions, third.positions) && Disjoint(second.positions, third.positions)
    modifies grid
    ensures placements == [first, second, third]
    ensures Staged(grid, placements)
  {
    placements := [];
    var placed := PlaceOnFreePath(grid, placements, first);
    placements := placements + [first];
    placed := PlaceOnFreePath(grid, placements, second);
    placements := placements + [second];
    placed := PlaceOnFreePath(grid, placements, third);
    placements := placements + [third];
  }

  /** build_puzzle: three words on their fixed paths, then random filler. The
      placement records are appended whatever place_word answers; on these paths
      it always answers true, so every record's word can be read off the grid. */
  method BuildPuzzle() returns (grid: array2<string>, isBlock: array2<bool>, placements: seq<WordPlacement>)
    ensures fresh(grid) && fresh(isBlock)
    ensures grid.Length0 == GridSize && grid.Length1 == GridSize
    ensures isBlock.Length0 == GridSize && isBlock.Length1 == GridSize
    ensures forall r, c :: 0 <= r < GridSize && 0 <= c < GridSize ==> IsUpperLetter(grid[r, c]) && !isBlock[r, c]
    ensures placements == [Perdon, Jazmin, Teamo]
    ensures forall i :: 0 <= i < |placements| ==> Spells(grid, placements[i])
  {
    grid := new string[GridSize, GridSize]((r, c) => "");
    isBlock := new bool[GridSize, GridSize]((r, c) => false);
    PathsAreWritable();
    PathsAreDisjoint();
    placements := PlaceThree(grid, Perdon, Jazmin, Teamo);
    forall r, c | 0 <= r < GridSize && 0 <= c < GridSize
      ensures grid[r, c] == "" || IsUpperLetter(grid[r, c])
    {
      StagedCellsBlankOrLetter(grid, placements, r, c);
    }
    label BeforeFill:
    FillBlanks(grid);
    forall r, c | 0 <= r < GridSize && 0 <= c < GridSize
      ensures IsUpperLetter(grid[r, c])
    {
      assert old@BeforeFill(grid[r, c]) == "" || IsUpperLetter(old@BeforeFill(grid[r, c]));
    }
  }
}

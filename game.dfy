/** The selection game played on a built puzzle: the player picks grid cells one
    by one, then confirms; a selection that runs along a target word's path,
    forwards or backwards, marks that word found. The game is won once every
    target word is found. */
module SelectionGame {
  import opened Crossword

  datatype Option<T> = None | Some(value: T)

  /** The words the player must find. */
  const Targets: set<string> := {"JAZMIN", "PERDON", "TEAMO"}

  /** The order in which confirm tries the targets: sorted(TARGETS). */
  const SortedTargets: seq<string> := ["JAZMIN", "PERDON", "TEAMO"]

  /** Python's ordering of str values: code point by code point, a proper prefix first. */
  predicate StrLess(a: string, b: string) {
    if a == [] then b != []
    else if b == [] then false
    else if a[0] != b[0] then a[0] < b[0]
    else StrLess(a[1..], b[1..])
  }

  /** SortedTargets is sorted(TARGETS): every target exactly once, ascending. */
  lemma SortedTargetsIsSorted()
    ensures forall w :: w in SortedTargets <==> w in Targets
    ensures forall i, j :: 0 <= i < j < |SortedTargets| ==> StrLess(SortedTargets[i], SortedTargets[j])
  {
  }

  /** list(reversed(s)) */
  function Reverse<T>(s: seq<T>): (r: seq<T>)
    ensures |r| == |s|
    ensures forall i :: 0 <= i < |s| ==> r[i] == s[|s| - 1 - i]
  {
    if s == [] then [] else Reverse(s[1..]) + [s[0]]
  }

  lemma ReverseReverse<T>(s: seq<T>)
    ensures Reverse(Reverse(s)) == s
  {
    assert forall i :: 0 <= i < |s| ==> Reverse(Reverse(s))[i] == s[i];
  }

  /** matches_word: the selection is the target path, read forwards or backwards. */
  predicate MatchesWord(selection: seq<Pos>, target: seq<Pos>) {
    selection == target || selection == Reverse(target)
  }

  /** Reversing both the selection and the path does not change whether they match. */
  lemma MatchesWordReversedBoth(selection: seq<Pos>, target: seq<Pos>)
    ensures MatchesWord(Reverse(selection), Reverse(target)) <==> MatchesWord(selection, target)
  {
    ReverseReverse(selection);
    ReverseReverse(target);
  }

  /** A selection matches a path exactly when its reversal does: the direction
      in which the player picks the cells does not matter. */
  lemma MatchesEitherDirection(selection: seq<Pos>, target: seq<Pos>)
    ensures MatchesWord(Reverse(selection), target) <==> MatchesWord(selection, target)
  {
    ReverseReverse(selection);
    ReverseReverse(target);
  }

  /** Only a selection as long as the path can match it; in particular no proper
      part of a path does. */
  lemma MatchesOnlyFullLength(selection: seq<Pos>, target: seq<Pos>)
    requires MatchesWord(selection, target)
    ensures |selection| == |target|
    ensures forall i :: 0 <= i < |selection| ==> selection[i] in target
  {
    if selection != target {
      forall i | 0 <= i < |selection| ensures selection[i] in target {
        assert selection[i] == target[|target| - 1 - i];
      }
    }
  }

  // ---------------------------------------------------------------------------
  // Normalising a placement's word: (p.word or "").strip().upper()

  /** Python's str.isspace for one character. */
  predicate IsSpace(ch: char) {
    ('\t' <= ch <= '\r') || ('\U{1C}' <= ch <= ' ') || ch == '\U{85}' || ch == '\U{A0}' ||
    ch == '\U{1680}' || ('\U{2000}' <= ch <= '\U{200A}') || ch == '\U{2028}' || ch == '\U{2029}' ||
    ch == '\U{202F}' || ch == '\U{205F}' || ch == '\U{3000}'
  }

  /** str.lstrip(): drops leading whitespace. */
  function TrimStart(s: string): string {
    if s != [] && IsSpace(s[0]) then TrimStart(s[1..]) else s
  }

  /** str.rstrip(): drops trailing whitespace. */
  function TrimEnd(s: string): string {
    if s != [] && IsSpace(s[|s| - 1]) then TrimEnd(s[..|s| - 1]) else s
  }

  /** str.strip() */
  function Strip(s: string): string {
    TrimEnd(TrimStart(s))
  }

  function UpperChar(ch: char): char {
    if 'a' <= ch <= 'z' then (ch as int - 32) as char else ch
  }

  /** str.upper() on the ASCII letters. */
  function Upper(s: string): string {
    if s == [] then [] else [UpperChar(s[0])] + Upper(s[1..])
  }

  /** The normal form under which a placement's word is looked up. */
  function Normalize(word: string): string {
    Upper(Strip(word))
  }

  /** TrimStart leaves the suffix that starts at the first non-space character. */
  lemma {:induction false} TrimStartIsSuffix(s: string)
    ensures |TrimStart(s)| <= |s| && TrimStart(s) == s[|s| - |TrimStart(s)|..]
    ensures forall i :: 0 <= i < |s| - |TrimStart(s)| ==> IsSpace(s[i])
    ensures TrimStart(s) != [] ==> !IsSpace(TrimStart(s)[0])
  {
    if s != [] && IsSpace(s[0]) {
      var rest := s[1..];
      TrimStartIsSuffix(rest);
      var r := TrimStart(rest);
      assert TrimStart(s) == r;
      assert rest[|rest| - |r|..] == s[|s| - |r|..];
      forall i | 0 <= i < |s| - |r| ensures IsSpace(s[i]) {
        if i > 0 {
          assert s[i] == rest[i - 1];
        }
      }
    }
  }

  /** TrimEnd leaves the prefix that ends at the last non-space character. */
  lemma {:induction false} TrimEndIsPrefix(s: string)
    ensures |TrimEnd(s)| <= |s| && TrimEnd(s) == s[..|TrimEnd(s)|]
    ensures forall i :: |TrimEnd(s)| <= i < |s| ==> IsSpace(s[i])
    ensures TrimEnd(s) != [] ==> !IsSpace(TrimEnd(s)[|TrimEnd(s)| - 1])
  {
    if s != [] && IsSpace(s[|s| - 1]) {
      var rest := s[..|s| - 1];
      TrimEndIsPrefix(rest);
      var r := TrimEnd(rest);
      assert TrimEnd(s) == r;
      assert rest[..|r|] == s[..|r|];
      forall i | |r| <= i < |s| ensures IsSpace(s[i]) {
        if i < |s| - 1 {
          assert s[i] == rest[i];
        }
      }
    }
  }

  /** Upper maps each character on its own and keeps the length. */
  lemma {:induction false} UpperPointwise(s: string)
    ensures |Upper(s)| == |s|
    ensures forall i :: 0 <= i < |s| ==> Upper(s)[i] == UpperChar(s[i])
  {
    if s != [] {
      UpperPointwise(s[1..]);
    }
  }

  /** A word already in capitals with no surrounding space is its own normal form. */
  lemma NormalizeKeepsCapitals(word: string)
    requires IsUpperWord(word)
    ensures Normalize(word) == word
  {
    assert TrimStart(word) == word;
    assert TrimEnd(word) == word;
    UpperPointwise(word);
  }

  // ---------------------------------------------------------------------------
  // word_to_positions and missing

  /** Which of the first n placements is the last whose normalised word is w (-1 if none). */
  function LastNamed(placements: seq<WordPlacement>, n: nat, w: string): (k: int)
    requires n <= |placements|
    ensures -1 <= k < n
    ensures k >= 0 ==> Normalize(placements[k].word) == w
    ensures forall j :: k < j < n ==> Normalize(placements[j].word) != w
  {
    if n == 0 then -1
    else if Normalize(placements[n - 1].word) == w then n - 1
    else LastNamed(placements, n - 1, w)
  }

  /** The dictionary word -> positions built from the first n placements: a key
      for each target some placement names, holding the path of the last one. */
  ghost predicate IndexesTargets(placements: seq<WordPlacement>, n: nat, m: map<string, seq<Pos>>)
    requires n <= |placements|
  {
    forall w :: IndexesTarget(placements, n, m, w)
  }

  /** The entry of word w in that dictionary. */
  ghost predicate IndexesTarget(placements: seq<WordPlacement>, n: nat, m: map<string, seq<Pos>>, w: string)
    requires n <= |placements|
  {
    (w in m <==> w in Targets && LastNamed(placements, n, w) >= 0) &&
    (w in m ==> m[w] == placements[LastNamed(placements, n, w)].positions)
  }

  /** The loop that fills word_to_positions: later placements overwrite earlier ones. */
  method BuildWordToPositions(placements: seq<WordPlacement>) returns (m: map<string, seq<Pos>>)
    ensures IndexesTargets(placements, |placements|, m)
  {
    m := map[];
    var i := 0;
    while i < |placements|
      invariant 0 <= i <= |placements|
      invariant IndexesTargets(placements, i, m)
    {
      var w := Normalize(placements[i].word);
      ghost var before := m;
      if w in Targets {
        m := m[w := placements[i].positions];
      }
      i := i + 1;
      forall v ensures IndexesTarget(placements, i, m, v) {
        assert IndexesTarget(placements, i - 1, before, v);
      }
    }
  }

  /** missing: the targets no placement supplies. */
  function Missing(m: map<string, seq<Pos>>): set<string> {
    Targets - m.Keys
  }

  /** Nothing is missing exactly when every target is named by some placement. */
  lemma MissingIffUnnamed(placements: seq<WordPlacement>, m: map<string, seq<Pos>>)
    requires IndexesTargets(placements, |placements|, m)
    ensures forall w :: w in Missing(m) <==> w in Targets && LastNamed(placements, |placements|, w) < 0
  {
    forall w ensures w in Missing(m) <==> w in Targets && LastNamed(placements, |placements|, w) < 0 {
      assert IndexesTarget(placements, |placements|, m, w);
    }
  }

  /** The words build_puzzle places are their own normal forms. */
  lemma BuiltWordsAreNormal()
    ensures Normalize(Perdon.word) == "PERDON"
    ensures Normalize(Jazmin.word) == "JAZMIN"
    ensures Normalize(Teamo.word) == "TEAMO"
  {
    PathsAreWritable();
    NormalizeKeepsCapitals(Perdon.word);
    NormalizeKeepsCapitals(Jazmin.word);
    NormalizeKeepsCapitals(Teamo.word);
  }

  /** Three placements named PERDON, JAZMIN and TEAMO give a dictionary with
      exactly those keys, each holding its own placement's path. */
  lemma WordMapOfThree(placements: seq<WordPlacement>, m: map<string, seq<Pos>>)
    requires |placements| == 3 && IndexesTargets(placements, 3, m)
    requires Normalize(placements[0].word) == "PERDON"
    requires Normalize(placements[1].word) == "JAZMIN"
    requires Normalize(placements[2].word) == "TEAMO"
    ensures m == map["PERDON" := placements[0].positions, "JAZMIN" := placements[1].positions,
                     "TEAMO" := placements[2].positions]
  {
    var built := map["PERDON" := placements[0].positions, "JAZMIN" := placements[1].positions,
                     "TEAMO" := placements[2].positions];
    forall w ensures (w in m <==> w in built) && (w in m ==> m[w] == built[w]) {
      assert IndexesTarget(placements, 3, m, w);
      assert LastNamed(placements, 3, "PERDON") == 0;
      assert LastNamed(placements, 3, "JAZMIN") == 1;
      assert LastNamed(placements, 3, "TEAMO") == 2;
    }
  }

  /** The dictionary the page builds from build_puzzle's placements. */
  const BuiltWordMap: map<string, seq<Pos>> :=
    map["PERDON" := PerdonPath, "JAZMIN" := JazminPath, "TEAMO" := TeamoPath]

  /** For the placements build_puzzle returns, the dictionary maps each target to
      its hard-coded path and nothing is missing. */
  lemma WordMapOfBuiltPuzzle(m: map<string, seq<Pos>>)
    requires IndexesTargets([Perdon, Jazmin, Teamo], 3, m)
    ensures m == BuiltWordMap
    ensures Missing(m) == {}
  {
    BuiltWordsAreNormal();
    WordMapOfThree([Perdon, Jazmin, Teamo], m);
  }

  // ---------------------------------------------------------------------------
  // found_cells_set

  /** The cells of the paths of the found words: they are locked on the board. */
  ghost function FoundCellsOf(found: set<string>, m: map<string, seq<Pos>>): set<Pos> {
    set w, q | w in found && w in m && q in m[w] :: q
  }

  /** found_cells_set: the union, over the found words, of their paths. */
  method FoundCells(found: set<string>, m: map<string, seq<Pos>>) returns (cells: set<Pos>)
    ensures forall q :: q in cells <==> exists w :: w in found && w in m && q in m[w]
  {
    cells := {};
    var todo := found;
    while todo != {}
      invariant todo <= found
      invariant cells == FoundCellsOf(found - todo, m)
      decreases todo
    {
      var w :| w in todo;
      var positions := if w in m then m[w] else [];
      for k := 0 to |positions|
        invariant cells == FoundCellsOf(found - todo, m) + set j | 0 <= j < k :: positions[j]
      {
        cells := cells + {positions[k]};
      }
      assert (set j | 0 <= j < |positions| :: positions[j]) == set q | q in positions;
      todo := todo - {w};
    }
  }

  /** Finding more words never unlocks a cell. */
  lemma FoundCellsGrow(found: set<string>, more: set<string>, m: map<string, seq<Pos>>)
    requires found <= more
    ensures FoundCellsOf(found, m) <= FoundCellsOf(more, m)
  {
  }

  // ---------------------------------------------------------------------------
  // confirm_selection

  /** Target w is one confirm may accept: not yet found, supplied with a non-empty
      path, and matched by the selection. */
  predicate Matchable(selection: seq<Pos>, found: set<string>, m: map<string, seq<Pos>>, w: string) {
    w !in found && w in m && m[w] != [] && MatchesWord(selection, m[w])
  }

  /** The first target, in the given order, that confirm accepts. */
  function FirstMatch(selection: seq<Pos>, found: set<string>, m: map<string, seq<Pos>>, order: seq<string>)
    : (r: Option<string>)
    ensures r.Some? ==> exists i :: (0 <= i < |order| && order[i] == r.value &&
      Matchable(selection, found, m, r.value) &&
      forall j :: 0 <= j < i ==> !Matchable(selection, found, m, order[j]))
    ensures r.None? ==> forall j :: 0 <= j < |order| ==> !Matchable(selection, found, m, order[j])
  {
    if order == [] then None
    else if Matchable(selection, found, m, order[0]) then Some(order[0])
    else FirstMatch(selection, found, m, order[1..])
  }

  /** The loop of confirm_selection over sorted(TARGETS): the unfound targets are
      tried in sorted order and the first one the selection matches is returned. */
  method FindFirstMatch(selection: seq<Pos>, found: set<string>, m: map<string, seq<Pos>>)
    returns (accepted: Option<string>)
    ensures accepted == FirstMatch(selection, found, m, SortedTargets)
  {
    var i := 0;
    while i < |SortedTargets|
      invariant 0 <= i <= |SortedTargets|
      invariant forall j :: 0 <= j < i ==> !Matchable(selection, found, m, SortedTargets[j])
    {
      var w := SortedTargets[i];
      if w in found {
        i := i + 1;
        continue;
      }
      if w in m && m[w] != [] && MatchesWord(selection, m[w]) {
        FirstMatchAt(selection, found, m, SortedTargets, i);
        return Some(w);
      }
      i := i + 1;
    }
    return None;
  }

  /** The target at index i is the first match once every earlier one is rejected. */
  lemma FirstMatchAt(selection: seq<Pos>, found: set<string>, m: map<string, seq<Pos>>, order: seq<string>, i: nat)
    requires i < |order| && Matchable(selection, found, m, order[i])
    requires forall j :: 0 <= j < i ==> !Matchable(selection, found, m, order[j])
    ensures FirstMatch(selection, found, m, order) == Some(order[i])
  {
    var r := FirstMatch(selection, found, m, order);
    var k :| 0 <= k < |order| && order[k] == r.value && Matchable(selection, found, m, r.value) &&
      forall j :: 0 <= j < k ==> !Matchable(selection, found, m, order[j]);
    assert k == i;
  }

  /** A found word is never accepted again, so a repeated confirm cannot re-add it. */
  lemma FoundWordNotRematched(selection: seq<Pos>, found: set<string>, m: map<string, seq<Pos>>, w: string)
    requires w in found
    ensures FirstMatch(selection, found, m, SortedTargets) != Some(w)
  {
  }

  /** What confirm reports back to the page (its warning, success and error messages). */
  datatype ConfirmOutcome = NothingSelected | Found(word: string) | NoMatch

  /** An example on the built puzzle: with its dictionary and nothing found,
      the PERDON path picked in order finds PERDON, ... */
  lemma PerdonPickedForward()
    ensures FirstMatch(PerdonPath, {}, BuiltWordMap, SortedTargets) == Some("PERDON")
  {
    assert PerdonPath != JazminPath && PerdonPath != Reverse(JazminPath) by {
      assert PerdonPath[0] != JazminPath[0] && PerdonPath[0] != Reverse(JazminPath)[0];
    }
    FirstMatchAt(PerdonPath, {}, BuiltWordMap, SortedTargets, 1);
  }

  /** ... picked in reverse order it finds PERDON too, ... */
  lemma PerdonPickedBackward()
    ensures FirstMatch(Reverse(PerdonPath), {}, BuiltWordMap, SortedTargets) == Some("PERDON")
  {
    var back := Reverse(PerdonPath);
    assert back != JazminPath && back != Reverse(JazminPath) by {
      assert back[0] != JazminPath[0] && back[0] != Reverse(JazminPath)[0];
    }
    FirstMatchAt(back, {}, BuiltWordMap, SortedTargets, 1);
  }

  /** ... and five of its six cells find nothing. */
  lemma PerdonPartlyPicked()
    ensures FirstMatch(PerdonPath[..5], {}, BuiltWordMap, SortedTargets) == None
  {
    var part := PerdonPath[..5];
    var m := BuiltWordMap;
    assert m["JAZMIN"] == JazminPath && m["PERDON"] == PerdonPath && m["TEAMO"] == TeamoPath;
    if MatchesWord(part, JazminPath) {
      MatchesOnlyFullLength(part, JazminPath);
    }
    if MatchesWord(part, PerdonPath) {
      MatchesOnlyFullLength(part, PerdonPath);
    }
    assert !MatchesWord(part, TeamoPath) by {
      assert part[0] != TeamoPath[0] && part[0] != Reverse(TeamoPath)[0];
    }
  }

  /** A selection that matches one path matches no path disjoint from it. */
  lemma MatchesNoDisjointPath(selection: seq<Pos>, path: seq<Pos>, other: seq<Pos>)
    requires path != [] && MatchesWord(selection, path)
    requires Disjoint(path, other) || Disjoint(other, path)
    ensures !MatchesWord(selection, other)
  {
    MatchesOnlyFullLength(selection, path);
    var i :| 0 <= i < |path| && path[i] == selection[0];
    assert selection[0] !in other;
  }

  /** A selection matching the path of order[i] is accepted as order[i] when that
      word is unfound and every earlier word's path is disjoint from it. */
  lemma FirstMatchPastDisjointPaths(selection: seq<Pos>, found: set<string>, m: map<string, seq<Pos>>,
                                    order: seq<string>, i: nat)
    requires i < |order| && Matchable(selection, found, m, order[i])
    requires forall j :: 0 <= j < i && order[j] in m ==> Disjoint(m[order[i]], m[order[j]])
    ensures FirstMatch(selection, found, m, order) == Some(order[i])
  {
    forall j | 0 <= j < i
      ensures !Matchable(selection, found, m, order[j])
    {
      if order[j] in m {
        MatchesNoDisjointPath(selection, m[order[i]], m[order[j]]);
      }
    }
    FirstMatchAt(selection, found, m, order, i);
  }

  /** On the built puzzle, any selection matching an unfound target's path is
      accepted as that target. */
  lemma MatchingSelectionFindsIt(w: string, found: set<string>, selection: seq<Pos>)
    requires w in Targets && w !in found && MatchesWord(selection, BuiltWordMap[w])
    ensures FirstMatch(selection, found, BuiltWordMap, SortedTargets) == Some(w)
  {
    var m := BuiltWordMap;
    PathsAreDisjoint();
    if w == "JAZMIN" {
      FirstMatchAt(selection, found, m, SortedTargets, 0);
    } else if w == "PERDON" {
      assert m[SortedTargets[0]] == JazminPath;
      FirstMatchPastDisjointPaths(selection, found, m, SortedTargets, 1);
    } else {
      assert m[SortedTargets[0]] == JazminPath && m[SortedTargets[1]] == PerdonPath;
      FirstMatchPastDisjointPaths(selection, found, m, SortedTargets, 2);
    }
  }

  /** Every target can be found: selecting a target's path of the built puzzle,
      in order or exactly reversed, finds that target as long as it is not yet found. */
  lemma SelectingAnyPathFindsIt(w: string, found: set<string>, back: bool)
    requires w in Targets && w !in found
    ensures FirstMatch(if back then Reverse(BuiltWordMap[w]) else BuiltWordMap[w],
                       found, BuiltWordMap, SortedTargets) == Some(w)
  {
    var path := BuiltWordMap[w];
    ReverseReverse(path);
    MatchingSelectionFindsIt(w, found, if back then Reverse(path) else path);
  }

  // ---------------------------------------------------------------------------
  // The session: the state the page keeps between interactions

  /** What the page holds after build_puzzle: the 12 x 12 grid spelling every
      placement, the three placements, and the dictionary built from them. */
  ghost predicate BuiltPuzzle(grid: array2<string>, placements: seq<WordPlacement>, m: map<string, seq<Pos>>)
    reads grid
  {
    grid.Length0 == GridSize && grid.Length1 == GridSize &&
    (forall r, c :: 0 <= r < GridSize && 0 <= c < GridSize ==> IsUpperLetter(grid[r, c])) &&
    placements == [Perdon, Jazmin, Teamo] &&
    (forall i :: 0 <= i < |placements| ==> Spells(grid, placements[i])) &&
    m == BuiltWordMap
  }

  /** A selection never repeats a cell and stays on the board. */
  predicate SelectionOnBoard(selected: seq<Pos>) {
    Distinct(selected) && InSquare(selected)
  }

  /** A new puzzle as the page sets it up, on first load and on the new-game
      button: build_puzzle, then the word_to_positions dictionary. */
  method NewPuzzle() returns (grid: array2<string>, placements: seq<WordPlacement>, m: map<string, seq<Pos>>)
    ensures fresh(grid) && BuiltPuzzle(grid, placements, m)
  {
    var isBlock;
    grid, isBlock, placements := BuildPuzzle();
    m := BuildWordToPositions(placements);
    WordMapOfBuiltPuzzle(m);
  }

  /** Reversing a spelled path spells the reversed word. */
  lemma SpellsAlongReversed(grid: array2<string>, cells: seq<Pos>, word: string)
    requires SpellsAlong(grid, cells, word)
    ensures SpellsAlong(grid, Reverse(cells), Reverse(word))
  {
    var back, drow := Reverse(cells), Reverse(word);
    forall k | 0 <= k < |back| ensures grid[back[k].0, back[k].1] == [drow[k]] {
      assert back[k] == cells[|cells| - 1 - k];
    }
  }

  /** What the player sees when confirm accepts a word: the letters of the
      selection, read in selection order, spell the word forwards or backwards. */
  lemma AcceptedSelectionSpellsWord(grid: array2<string>, placements: seq<WordPlacement>,
                                    m: map<string, seq<Pos>>, selection: seq<Pos>, found: set<string>, w: string)
    requires BuiltPuzzle(grid, placements, m)
    requires FirstMatch(selection, found, m, SortedTargets) == Some(w)
    ensures PathInGrid(grid, selection, |selection|)
    ensures ReadAlong(grid, selection) == w || ReadAlong(grid, selection) == Reverse(w)
  {
    var i := if w == "PERDON" then 0 else if w == "JAZMIN" then 1 else 2;
    var p := placements[i];
    assert Spells(grid, p) && p.word == w && m[w] == p.positions;
    if selection == p.positions {
      ReadAlongSpells(grid, selection, w);
    } else {
      SpellsAlongReversed(grid, p.positions, w);
      ReadAlongSpells(grid, selection, Reverse(w));
    }
  }

  class Session {
    var grid: array2<string>
    var placements: seq<WordPlacement>
    var wordToPositions: map<string, seq<Pos>>
    var selected: seq<Pos>
    var found: set<string>

    ghost predicate Valid()
      reads this, grid
    {
      BuiltPuzzle(grid, placements, wordToPositions) &&
      found <= Targets &&
      SelectionOnBoard(selected)
    }

    /** The first load of the page: build a puzzle and start with nothing
        selected and nothing found. */
    constructor ()
      ensures Valid() && fresh(grid)
      ensures selected == [] && found == {}
    {
      var g, ps, m := NewPuzzle();
      grid, placements, wordToPositions := g, ps, m;
      selected, found := [], {};
    }

    /** selected_string: the letters of the selected cells, in selection order,
        one character per selected cell. */
    function SelectedString(): (shown: string)
      reads this, grid
      requires Valid()
      ensures |shown| == |selected|
      ensures forall k :: 0 <= k < |selected| ==> [shown[k]] == grid[selected[k].0, selected[k].1]
    {
      ReadAlongOneLetterPerCell(grid, selected);
      ReadAlong(grid, selected)
    }

    /** A click on board cell `cell`. Cells of found words are disabled, so a
        click on one does nothing; a cell already selected is not added twice. */
    method Pick(cell: Pos)
      requires Valid()
      requires 0 <= cell.0 < GridSize && 0 <= cell.1 < GridSize
      modifies this
      ensures Valid()
      ensures grid == old(grid) && placements == old(placements) && wordToPositions == old(wordToPositions)
      ensures found == old(found)
      ensures selected ==
        if cell in FoundCellsOf(old(found), old(wordToPositions)) || cell in old(selected) then old(selected)
        else old(selected) + [cell]
    {
      var locked := FoundCells(found, wordToPositions);
      if cell !in locked && cell !in selected {
        selected := selected + [cell];
      }
    }

    /** The undo button: drop the last selected cell, if any. */
    method Undo()
      requires Valid()
      modifies this
      ensures Valid()
      ensures grid == old(grid) && placements == old(placements) && wordToPositions == old(wordToPositions)
      ensures found == old(found)
      ensures old(selected) == [] ==> selected == []
      ensures old(selected) != [] ==> old(selected) == selected + [old(selected)[|old(selected)| - 1]]
    {
      if selected != [] {
        selected := selected[..|selected| - 1];
      }
    }

    /** The clear button. */
    method Clear()
      requires Valid()
      modifies this
      ensures Valid()
      ensures grid == old(grid) && placements == old(placements) && wordToPositions == old(wordToPositions)
      ensures found == old(found) && selected == []
    {
      selected := [];
    }

    /** The new-game button: a freshly built puzzle, nothing selected, nothing found. */
    method NewGame()
      requires Valid()
      modifies this
      ensures Valid() && fresh(grid)
      ensures selected == [] && found == {}
    {
      grid, placements, wordToPositions := NewPuzzle();
      selected, found := [], {};
    }

    /** confirm_selection: try the unfound targets in sorted order; the first whose
        path the selection matches, forwards or backwards, is found and the
        selection is emptied. Without a match nothing changes. */
    method Confirm() returns (outcome: ConfirmOutcome)
      requires Valid()
      modifies this
      ensures Valid()
      ensures grid == old(grid) && placements == old(placements) && wordToPositions == old(wordToPositions)
      ensures old(selected) == [] ==> outcome == NothingSelected && selected == old(selected) && found == old(found)
      ensures old(selected) != [] ==>
        match FirstMatch(old(selected), old(found), wordToPositions, SortedTargets)
        case Some(w) => outcome == Found(w) && found == old(found) + {w} && selected == []
        case None => outcome == NoMatch && found == old(found) && selected == old(selected)
    {
      if selected == [] {
        return NothingSelected;
      }
      var accepted := FindFirstMatch(selected, found, wordToPositions);
      match accepted {
        case Some(w) =>
          found := found + {w};
          selected := [];
          return Found(w);
        case None =>
          return NoMatch;
      }
    }

    /** The win check TARGETS <= found. Since found never leaves the targets, the
        game is won exactly when every target is found, never on a strict subset. */
    function Won(): (won: bool)
      reads this, grid
      requires Valid()
      ensures won <==> found == Targets
    {
      Targets <= found
    }
  }
}

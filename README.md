# Word search: a verified model

This project models the core of a small word-search game written for the web.
`crossword.py` builds a 12 x 12 puzzle: it writes three words (PERDON, JAZMIN, TEAMO)
along fixed paths, checks that the letters agree where paths cross, and fills the
remaining cells with random capital letters. `app.py` keeps the game state between
interactions: the grid and the placements, the cells the player has selected so far,
and the set of words already found. It rebuilds a dictionary from each target word to
its path on every run; `Session` stores it as a field, which its invariant fixes to the
dictionary built from the placements.
The player clicks cells, undoes, clears, confirms a selection or starts a new game.
The game accepts a selection when it equals some unfound target's path, read forwards
or backwards, and the game is won once every target is found.

The model is in two modules:

- `Crossword` (`crossword.dfy`) covers `crossword.py`. The grid is an `array2<string>`,
  each cell holding `""` or a one-letter string. `PlaceWord` and `FillBlanks` are methods
  that change the grid in place. `BuildPuzzle` is proved to produce a grid of capital
  letters in which every placement's path spells its word.
- `SelectionGame` (`game.dfy`) covers the game logic of `app.py`. The dictionary, the
  locked cells and the confirm loop are methods, each proved against a specification
  function. The page's session state is the class `Session`, whose methods are the
  buttons. Its invariant `Valid` says that the grid is the built puzzle, that the
  dictionary maps each target to its path, that every found word is a target, and that
  the selection stays on the board and never repeats a cell.

Some behaviour of the code worth knowing:

- `build_puzzle` ignores `place_word`'s result and appends every placement. The model
  does the same and proves that all three calls succeed.
- The block mask `build_puzzle` returns is all `False`, and the page never reads it.
  The model returns it all `False`.
- The win check is `TARGETS.issubset(found)`. The model states it with `Won`, which holds
  exactly when `found` equals the target set.
- `place_word` checks every cell before writing any, so a path that visits an empty cell
  twice passes the check, and the later letter wins (`RepeatedCellKeepsLastLetter`). The three
  hard-coded paths repeat no cell.
- `SelectingAnyPathFindsIt` shows that every target can be found: selecting its path in
  order, or exactly reversed, is accepted while the word is unfound.

`LastWrite` and `LastNamed` are the same search, for the last index satisfying a test,
written once for grid writes and once for placement names. They stay separate because
each is stated in the terms of its own data.

## Model

| member | source | states |
|---|---|---|
| Crossword.Fits | crossword.py:19-22 | the crossing check: every zipped cell is still empty or already holds the letter the word puts there; `PlaceWord` answers exactly this |
| Crossword.ZipLength | crossword.py:19 | `zip` pairs exactly as many cells and letters as the shorter of the path and the word |
| Crossword.LastWrite | crossword.py:23-24 | among the in-order writes, the last one that lands on a cell: it lands there and no later write does, or none lands there |
| Crossword.PlaceWord | crossword.py:17-25 | answers true exactly when every zipped cell is empty or already holds its letter; on false the grid is unchanged; on true every cell holds the letter of the last write that landed on it and all other cells keep their contents |
| Crossword.CellAfterOnPath | crossword.py:23-24 | on a path that repeats no cell, each zipped cell ends up holding its own letter |
| Crossword.CellAfterOffPath | crossword.py:23-24 | a cell off the zipped path keeps its contents |
| Crossword.RepeatedCellKeepsLastLetter | crossword.py:19-24 | on a grid whose cell (0, 0) is empty, the path visiting (0, 0) twice passes the crossing check for "AB", and the later letter "B" is the one left in the cell |
| Crossword.ReadAlong | app.py:139 | the join of the cells' strings along the selection, in selection order; its meaning is stated by `ReadAlongOneLetterPerCell` and `ReadAlongSpells` |
| Crossword.ReadAlongOneLetterPerCell | app.py:138-139 | on cells of one letter each, the joined string has one character per cell, that cell's letter |
| Crossword.ReadAlongSpells | app.py:138-139 | joining the letters along a path that spells a word gives back exactly that word |
| Crossword.FillBlanks | crossword.py:66-70 | every empty cell receives a capital letter A-Z and every other cell is unchanged |
| Crossword.PathsAreWritable | crossword.py:33-64 | each of the three hard-coded paths is on the board, repeats no cell and is as long as its capital-letter word |
| Crossword.PathsAreDisjoint | crossword.py:33-64 | the three hard-coded paths share no cell |
| Crossword.PlaceOnFreePath | crossword.py:34-41 | placing a word on a path disjoint from the words already placed succeeds, and afterwards every placed word, the new one included, is spelled on the grid while all cells off the paths stay empty |
| Crossword.StagedCellsBlankOrLetter | crossword.py:28-64 | after the placements, every cell is empty or a capital letter |
| Crossword.PlaceThree | crossword.py:30-64 | three writable, pairwise disjoint placements on an empty grid all succeed; the list holds all three in order and each is spelled on the grid |
| Crossword.BuildPuzzle | crossword.py:27-72 | a fresh 12 x 12 grid of capital letters and an all-false block mask; the placements are PERDON, JAZMIN and TEAMO in that order, and each is spelled along its path |
| SelectionGame.SortedTargetsIsSorted | app.py:157 | the iteration order holds each target exactly once, in ascending string order |
| SelectionGame.Reverse | app.py:142 | `reversed` gives a list of the same length with element i equal to element len-1-i |
| SelectionGame.ReverseReverse | app.py:142 | reversing twice gives back the original list |
| SelectionGame.MatchesWord | app.py:141-142 | `matches_word`: the selection equals the path or its reversal; its properties are stated by the three lemmas that follow |
| SelectionGame.MatchesWordReversedBoth | app.py:141-142 | reversing both the selection and the path does not change whether they match |
| SelectionGame.MatchesEitherDirection | app.py:141-142 | a selection matches a path exactly when its reversal does |
| SelectionGame.MatchesOnlyFullLength | app.py:141-142 | a matching selection is as long as the path and uses only the path's cells, so no proper part of a path matches |
| SelectionGame.TrimStart | app.py:120 | the leading-space half of `strip`; stated by `TrimStartIsSuffix` |
| SelectionGame.TrimEnd | app.py:120 | the trailing-space half of `strip`; stated by `TrimEndIsPrefix` |
| SelectionGame.Strip | app.py:120 | `strip`: leading whitespace, then trailing whitespace, removed |
| SelectionGame.Upper | app.py:120 | `upper`, character by character; stated by `UpperPointwise` |
| SelectionGame.Normalize | app.py:120 | `strip().upper()` of a placement's word; stated by `NormalizeKeepsCapitals` |
| SelectionGame.TrimStartIsSuffix | app.py:120 | stripping leading space leaves a suffix whose first character, if any, is not space, and everything removed was space |
| SelectionGame.TrimEndIsPrefix | app.py:120 | stripping trailing space leaves a prefix whose last character, if any, is not space, and everything removed was space |
| SelectionGame.UpperPointwise | app.py:120 | upper-casing keeps the length and maps each character a-z to A-Z, leaving the others alone |
| SelectionGame.NormalizeKeepsCapitals | app.py:120 | a word of capitals is its own normal form |
| SelectionGame.LastNamed | app.py:118-122 | the last placement whose normalised word is w: it is named w and no later one is, or none is |
| SelectionGame.BuildWordToPositions | app.py:118-122 | the dictionary has a key exactly for each target that some placement names, and it maps that key to the path of the last such placement |
| SelectionGame.Missing | app.py:124 | `missing`: the targets that are not keys of the dictionary; stated by `MissingIffUnnamed` |
| SelectionGame.MissingIffUnnamed | app.py:124 | a target is missing exactly when no placement names it |
| SelectionGame.BuiltWordsAreNormal | app.py:120 | the three built words normalise to the target names |
| SelectionGame.WordMapOfThree | app.py:118-122 | placements named PERDON, JAZMIN and TEAMO give a dictionary with exactly those keys, each mapped to its own placement's path |
| SelectionGame.WordMapOfBuiltPuzzle | app.py:106-124 | the dictionary built from build_puzzle's placements maps each target to its hard-coded path, and nothing is missing |
| SelectionGame.FoundCells | app.py:144-149 | a cell is locked exactly when it lies on the path of some found word |
| SelectionGame.FoundCellsGrow | app.py:144-149 | finding more words never unlocks a cell |
| SelectionGame.FirstMatch | app.py:157-165 | the result is the first target in the given order that is unfound, has a non-empty path and is matched by the selection; no target is returned when none qualifies |
| SelectionGame.FindFirstMatch | app.py:157-165 | the confirm loop, which skips found words, returns exactly the first qualifying target in sorted order |
| SelectionGame.FirstMatchAt | app.py:157-165 | a qualifying target preceded only by rejected ones is the one the loop returns |
| SelectionGame.FoundWordNotRematched | app.py:158-159 | a word already found is never accepted again |
| SelectionGame.PerdonPickedForward | app.py:151-167 | on a new puzzle, selecting PERDON's cells in order finds PERDON |
| SelectionGame.PerdonPickedBackward | app.py:151-167 | selecting PERDON's cells in reverse order also finds PERDON |
| SelectionGame.PerdonPartlyPicked | app.py:151-167 | five of PERDON's six cells find nothing |
| SelectionGame.MatchesNoDisjointPath | app.py:141-142 | a selection that matches one path matches no path that shares no cell with it |
| SelectionGame.FirstMatchPastDisjointPaths | app.py:157-165 | a selection matching an unfound target's path is accepted as that target when every earlier target's path is disjoint from it |
| SelectionGame.MatchingSelectionFindsIt | app.py:151-165 | on the built puzzle, any selection matching an unfound target's path is accepted as that target |
| SelectionGame.SelectingAnyPathFindsIt | app.py:151-165 | on the built puzzle, selecting an unfound target's path in order or exactly reversed finds that target |
| SelectionGame.NewPuzzle | app.py:106-124 | a fresh grid of capital letters spelling every placement, the three placements, and the dictionary mapping each target to its path |
| SelectionGame.SpellsAlongReversed | app.py:138-142 | a path read backwards spells the word reversed |
| SelectionGame.AcceptedSelectionSpellsWord | app.py:138-165 | when confirm accepts word w, the selected letters read in selection order spell w or w reversed |
| SelectionGame.Session.constructor | app.py:106-136 | the first load builds a puzzle that satisfies the invariant, with nothing selected and nothing found |
| SelectionGame.Session.SelectedString | app.py:138-139 | the displayed selection has one character per selected cell, that cell's letter, in selection order |
| SelectionGame.Session.Pick | app.py:208-234 | a click on a board cell appends it unless it is locked or already selected; nothing else changes and the invariant is kept |
| SelectionGame.Session.Undo | app.py:188-191 | drops the last selected cell, if there is one, and changes nothing else |
| SelectionGame.Session.Clear | app.py:193-195 | empties the selection and changes nothing else |
| SelectionGame.Session.NewGame | app.py:197-203 | a freshly built puzzle with nothing selected and nothing found |
| SelectionGame.Session.Confirm | app.py:151-167 | with nothing selected, nothing changes; otherwise the first qualifying target in sorted order is added to found and the selection is emptied; without one, nothing changes; the outcome tells which case happened |
| SelectionGame.Session.Won | app.py:237 | the game is won exactly when every target has been found |

## Left out

- The page itself is not modelled: the Streamlit layout, CSS, the SVG and iframe, and the pills. The warning, success and error messages of `confirm_selection` are reduced to the three cases of `ConfirmOutcome`.
- `st.rerun` and the way `st.session_state` survives a rerun are not modelled. A `Session` object stands for the state kept between interactions.
- The image display at app.py:246-251 is not modelled. It runs once the game is won, and it fails there because `Image` is never imported.
- The warning shown for missing targets (app.py:125-129) is not modelled. `Missing` states which targets it would list, and `WordMapOfBuiltPuzzle` proves that none are missing for the built puzzle.
- FillBlanks: `random.choice` is modelled as an arbitrary choice of a capital letter, so the model says nothing about the distribution of letters.
- PlaceWord: requires every zipped cell to be inside the grid. Python would also accept negative indices (counting from the end) and raise an error past the end; no caller in the source passes such a path.
- The grid is modelled as a rectangular `array2`, not as a list of lists that could be ragged. `build_puzzle` always builds it 12 x 12.
- SelectionGame.Upper: upper-cases only the ASCII letters a-z. Python's `str.upper` also maps other letters (for example accented ones); the placed words are plain capitals, so this changes nothing here.
- SelectionGame.Normalize: the `p.word or ""` fallback for a missing word is not modelled, because a `WordPlacement` word is always a string.
- Clue strings are carried in the placements unchanged; nothing reads them.
- SelectionGame.Session.Pick: requires the clicked cell to be on the board, because the page only offers buttons for board cells. Disabled buttons are modelled as clicks that change nothing.
- Only the selection game exists in the code; there is no fill-in-the-word game to model.

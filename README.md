# Word search engine of `wordsearch.js`

`wordsearch.js` is a React component for an interactive word search: a
letter grid (`GRID`) and a word list (`WORDS`). The player drags from one
cell to another along a row, a column or a diagonal. On release, the letters
under the drag are checked against the words not yet found, in either
reading direction. A "Reveal all" button runs a solver that places every
word it can find. This project models the engine under the JSX:

- `Grid`: the board (`ROWS`, `COLS`, `letters`), built from rows of one
  common length, and the index conversions `idx` and `rc`. `rc` is written
  with floor division and JavaScript's truncating `%`.
- `Trace`: the straight line of cells that `handleMouseEnter` selects
  between the start cell and the cell under the pointer.
- `Matcher`: `selectionString` and the search of `checkSelection`.
- `Solver`: `revealAll`. It scans the origins in row-major order and, at
  each origin, the eight directions in a fixed order. It tries each word
  forwards, then backwards, and keeps the first placement it finds.
- `App`: the component's state (`mouseDownRef`, `startRef`, `selected`,
  `found`) as a class. Each event handler is a method on it. The class
  invariant is that every word in `found` appears there once, is a listed
  word, and is spelled by its cells forwards or backwards.

The loops of the source (the trace loop, the match loop, the nested solver
loops and the inner walk) are methods. The trace loop, the match loop, the
per-word search and the loop over `WORDS` are each proved equal to a
recursive specification function, and the properties are proved about those
functions. The inner walk (`Solver.Walk`) is pinned down only in part: it
reads the whole word exactly when `Reads` holds, and then its path is
`PathFrom`; where it stops, and the path it builds, after a failed read are
not stated, because the search uses only the outcome of a full read.
`GRID` and `WORDS` are parameters, not the fixture's letters.

## Model

| member | source | states |
|---|---|---|
| Grid.FromRows | wordsearch.js:26-52 | The board built from rectangular rows has `ROWS` = number of rows and `COLS` = length of the first row (:26-27). Its `letters` (:52) has `ROWS*COLS` entries, and position `idx(r, c)` holds row r's letter c. |
| Grid.JoinLength | wordsearch.js:52 | Joining rows of length `cols` gives a string of length rows*cols. |
| Grid.JoinAt | wordsearch.js:52 | Position r*cols+c of the joined rows is letter c of row r. |
| Grid.Join | wordsearch.js:52 | `GRID.join("")`: the rows one after the other, in order. |
| Grid.JsRem | wordsearch.js:54 | JavaScript `%` by a positive divisor: the result m satisfies `a == q*b + m` for some integer q. It lies in [0, b) for a non-negative dividend, where it is Dafny's remainder, and in (-b, 0] for a negative one. Together these fix m as `a - b*trunc(a/b)`. |
| Grid.Idx | wordsearch.js:53 | `idx(r, c) = r*COLS + c`: the flat position of cell (r, c). |
| Grid.InBounds | wordsearch.js:111 | The bounds test `0 <= r < ROWS && 0 <= c < COLS` (negated in the breaks at :111, :138 and :152). |
| Grid.Rc | wordsearch.js:54 | For a non-negative index, `rc` gives a non-negative row, a column in [0, COLS), and `idx` of the pair is the index again. |
| Grid.IdxInRange | wordsearch.js:53 | `idx(r, c)` of an on-grid cell lies in [0, ROWS*COLS). |
| Grid.RcOfIdx | wordsearch.js:53-54 | `rc(idx(r, c)) == (r, c)` for r >= 0 and 0 <= c < COLS. |
| Grid.IdxOfRc | wordsearch.js:53-54 | For 0 <= i < ROWS*COLS, `rc(i)` is on the grid and `idx(rc(i)) == i`. |
| Grid.CellIndexUnique | wordsearch.js:53-54 | For an on-grid index i and an on-grid cell (r, c): `rc(i) == (r, c)` exactly when `i == idx(r, c)`. |
| Trace.Delta | wordsearch.js:99-102 | `dr` and `dc`: the row and column offsets from the start cell to the current cell, each read through `rc`. |
| Trace.Sign | wordsearch.js:103-104 | `d === 0 ? 0 : d / Math.abs(d)`: 0, 1 or -1 by the sign of d. |
| Trace.Straight | wordsearch.js:105 | The negation of the early-return test: the drag is horizontal, vertical, or has row and column offsets of equal size. |
| Trace.PointR | wordsearch.js:109 | Row of step k: `sr + k*stepR`. |
| Trace.PointC | wordsearch.js:110 | Column of step k: `sc + k*stepC`. |
| Trace.LineOf | wordsearch.js:99-106 | The line from the start cell: its (row, column), the unit steps `Sign(dr)` and `Sign(dc)`, and `max(abs(dr), abs(dc)) + 1` steps. It is none for a drag that is not straight (the early return at :105). |
| Trace.Cells | wordsearch.js:107-113 | The cells pushed from step k on: `idx` of each step, stopping at the end of the line or before the first step off the grid. |
| Trace.Traced | wordsearch.js:99-114 | What `handleMouseEnter` stores in `selected`: none for the early return, otherwise the cells of the line from step 0. |
| Trace.TraceLine | wordsearch.js:99-114 | The loop that builds `newSel` computes the clipped line `Traced`. It gives no selection exactly when the drag is not horizontal, vertical or a true diagonal. |
| Trace.CellsAre | wordsearch.js:108-113 | From step k on, the pushed cells are `idx(sr+j*stepR, sc+j*stepC)` for consecutive on-grid steps j. They run until the end of the line or the first step off the grid. |
| Trace.TraceClipped | wordsearch.js:108-112 | Every traced cell is on the grid and is `idx` of its step. The trace is cut exactly at the first step that leaves the grid, or runs the whole line. |
| Trace.StepsOnGrid | wordsearch.js:106-111 | Between two on-grid endpoints, every step of a straight line is on the grid, so the break never fires. |
| Trace.LastStepIsEnd | wordsearch.js:101-110 | The last step of a straight line is the end cell's (row, column). |
| Trace.TraceLength | wordsearch.js:106-113 | A straight drag between on-grid cells is traced in full: `max(abs(dr), abs(dc)) + 1` cells. |
| Trace.TraceEnds | wordsearch.js:101-114 | That trace has `max(abs(dr), abs(dc)) + 1` on-grid cells, starts at the start cell and ends at the end cell. When start equals end it is exactly `[start]`. |
| Trace.TraceSteps | wordsearch.js:103-110 | The steps lie in {-1, 0, 1}, and consecutive traced cells differ in (row, column) by exactly (stepR, stepC). |
| Matcher.WordsOf | wordsearch.js:82 | The words of `found`, one per entry and in order. |
| Matcher.Reverse | wordsearch.js:81 | `s.split("").reverse().join("")`: the string read backwards. |
| Matcher.CharAt | wordsearch.js:75 | `letters[i]` as `join("")` prints it: the letter for an index on the board, the empty string for `undefined` off it. |
| Matcher.Spell | wordsearch.js:74-76 | `selectionString(sel)`: the printed letters of the selected cells, in selection order. |
| Matcher.Remaining | wordsearch.js:82 | The listed words, in order, that are not a word of `found`. |
| Matcher.FirstMatch | wordsearch.js:83-88 | The first candidate equal to the string or to its reverse, or none. |
| Matcher.Matched | wordsearch.js:79-88 | The word `checkSelection` records: none for an empty selection, else the first match among the remaining words. |
| Matcher.ReverseAt | wordsearch.js:81 | `sRev` has the length of `s`, and its letter k is letter `abs(s)-1-k` of `s`. |
| Matcher.ReverseReverse | wordsearch.js:81 | Reversing twice is the identity, so `reverse(s) == w` exactly when `s == reverse(w)`. |
| Matcher.SpellOnBoard | wordsearch.js:74-76 | For on-board cells, `selectionString` has one letter per cell: the letter of that cell. |
| Matcher.MatchSelection | wordsearch.js:78-89 | The search of `checkSelection`: nothing for an empty selection, otherwise the first remaining word equal to the string or to its reverse. |
| Matcher.RemainingFirst | wordsearch.js:82-88 | Searching the not-yet-found words finds nothing exactly when no listed word is matchable. Otherwise it finds the first matchable word in list order. |
| Matcher.MatchedIsFirstMatchable | wordsearch.js:78-88 | `checkSelection` records nothing exactly when the selection is empty or no word is matchable, that is, not yet found and spelled forwards or backwards. Otherwise it records the first matchable word in `WORDS` order. |
| Matcher.MatchedWord | wordsearch.js:79-85 | A recorded word comes from a non-empty selection, is listed, was not found before, and the selection spells it or its reverse. |
| Solver.SearchDirs | wordsearch.js:132-157 | A placement found at an origin has that origin and a direction index in range. |
| Solver.SearchCols | wordsearch.js:131-159 | A placement found in a row has that row and a column in range. |
| Solver.SearchRows | wordsearch.js:130-160 | A placement found has an on-grid origin and a valid direction. |
| Solver.Dirs | wordsearch.js:122-125 | `dirs`, in the order tried: east, south, west, north, south-east, south-west, north-east, north-west. |
| Solver.HasLetter | wordsearch.js:140 | `letters[i] === ch`: an index off the array reads `undefined` and equals no letter. |
| Solver.Reads | wordsearch.js:137-144 | Walking from (r, c) by `d`, every cell visited is on the grid and holds the next letter, so the walk reaches `k === w.length`. |
| Solver.PathFrom | wordsearch.js:137-143 | The n cells visited from (r, c) by `d`: the `path` a full walk pushes. |
| Solver.FirstHit | wordsearch.js:129-160 | The placement the nested loops settle on, found by searching from row 0. A placement has an on-grid origin and a valid direction index. |
| Solver.WordPath | wordsearch.js:129-161 | `foundPath`: the cells of the first placement, read along its direction for `abs(w)` steps, or none. |
| Solver.Step | wordsearch.js:128-161 | One round of the loop over `WORDS`: skip a word already in the results, else append its path if it has one. |
| Solver.Solve | wordsearch.js:126-162 | `results` after the loop over the given words, one round per word in order. |
| Solver.Walk | wordsearch.js:133-144 | The inner walk reads at most `abs(w)` letters. It reads them all exactly when every cell is on the grid and holds the next letter, and then its path is the cells visited. |
| Solver.FindWord | wordsearch.js:129-160 | The nested loops over rows, columns, directions and the two reading orders compute the first placement's path, or none. |
| Solver.Reveal | wordsearch.js:121-162 | The loop over `WORDS` computes `Solve`: skip words already in the results, append each other word's first path if it has one. |
| Solver.ReadPath | wordsearch.js:137-143 | A full walk's path has one cell per letter. Each cell is on the grid and holds that letter. Each step is the direction, and the first cell is the origin. |
| Solver.ReadPathValid | wordsearch.js:137-157 | A full walk's path is on the grid, steps by one direction, and spells the string read. |
| Solver.SearchDirsFirst | wordsearch.js:132-157 | At one origin: no placement exactly when no direction reads the word either way. Otherwise the first direction that does, forwards before backwards. |
| Solver.SearchColsFirst | wordsearch.js:131-159 | The same along one row: the first column, then the first direction. |
| Solver.SearchRowsFirst | wordsearch.js:130-160 | The same over the rows from r on, in row-major order. |
| Solver.FirstHitIsFirst | wordsearch.js:130-161 | A word is unplaced exactly when no origin and direction reads it either way. Otherwise the placement reads it (backwards only if forwards fails there), and no earlier origin/direction reads it. |
| Solver.FirstIndex | wordsearch.js:127 | The position of a word's first occurrence in the list. |
| Solver.FirstIndexAppend | wordsearch.js:127 | Appending a word keeps the first positions of listed words; a new word is first found at the end. |
| Solver.SolveEntries | wordsearch.js:127-161 | The results hold each word at most once. A word is in them exactly when it is listed and placed somewhere. Each entry's cells are its first placement's path. |
| Solver.SolveOrder | wordsearch.js:127-161 | The results follow `WORDS` order: earlier entries are words first listed earlier. |
| Solver.RevealedPathsValid | wordsearch.js:137-161 | Every revealed path has `abs(w)` on-grid cells and steps by one direction of `dirs`. Its letters spell `w` or `reverse(w)`. |
| App.RecordKeepsWellFound | wordsearch.js:82-86 | `checkSelection` leaves `found` as it was or appends one entry whose cells are the selection. Words stay unique, listed, and spelled by their cells. |
| App.RevealIsWellFound | wordsearch.js:121-163 | The results of reveal-all are unique listed words, each spelled by its cells forwards or backwards. |
| App.Record | wordsearch.js:78-86 | `found` after `checkSelection(sel)`: unchanged when nothing is recorded, else with `{word, indices: sel}` appended. |
| App.WordSearch.constructor | wordsearch.js:52-59 | The first render: the board from `GRID`, nothing selected or found, no drag and no start cell. |
| App.WordSearch.MouseDown | wordsearch.js:91-95 | Sets the drag flag and the start cell, and selects just that cell. |
| App.WordSearch.MouseEnter | wordsearch.js:97-115 | Only during a drag with a start cell: `selected` becomes the traced line. A drag that is not straight, or no drag, leaves it unchanged. |
| App.WordSearch.CheckSelection | wordsearch.js:78-89 | `found` becomes the recorded result of the selection, and the invariant holds. |
| App.WordSearch.MouseUp | wordsearch.js:62-68 | During a drag: ends the drag, records the selection, clears it and the start cell. Otherwise nothing changes. |
| App.WordSearch.TouchEnd | wordsearch.js:206-210 | Always ends the drag, records and clears the selection, and keeps the start cell. |
| App.WordSearch.RevealAll | wordsearch.js:121-163 | `found` is replaced by the solver's results, and the invariant holds. |
| App.WordSearch.ResetAll | wordsearch.js:166-171 | Clears `found`, `selected`, the start cell and the drag flag. |

## Left out

- The JSX, CSS classes and the word-list strike-through (wordsearch.js:173-248) are presentation only.
- The DOM and event wiring is not modelled: `useEffect` and `addEventListener` registration, `elementFromPoint` hit-testing, `getAttribute` and `parseInt` of `data-idx`, `preventDefault`, and the root render. Those browser calls become plain method calls with the cell index as a parameter.
- React's asynchronous state batching and stale closures are not modelled. Every `setX` is an immediate assignment, and `setFound(prev => ...)` appends to the current `found`.
- Strings are modelled as sequences of characters. These match JavaScript's UTF-16 splitting (`split("")`, `w[k]`, `reverse()` at wordsearch.js:52, 81, 140 and 154) only for characters in the Basic Multilingual Plane. A row holding a character above U+FFFF would give a different `COLS` and different cells in the source.
- JavaScript numbers are modelled as unbounded integers. Cell indices are plain integers. Every handler in the source receives the index of a grid cell, but an off-grid index would be handled the way the source handles it: it spells as an empty string.
- `GRID` and `WORDS` are parameters. The board is built only from rectangular rows (a requirement on `Grid.FromRows` and the constructor). The letters of the fixture grid (wordsearch.js:8-24) are not checked against the word list.
- `App.WordSearch.InFound` (`inFound`) has no contract. It is only used for highlighting.
- Running reveal-all twice gives the same result. This is immediate because `Solve` is a function of the board and the word list, so there is no separate lemma.
- Solver.Walk: after a failed read, neither the position where the walk stops nor the partial path is stated; only a full read is characterised.
- App.WordSearch.MouseDown: any index is accepted, as the source does. The model does not restrict `selected` to cells of the grid.

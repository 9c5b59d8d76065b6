/** The component's state and its event handlers: `mouseDownRef`,
    `startRef`, `selected` and `found`, changed by mouse-down, mouse-enter
    (also reached from touch-move), the window's mouse-up, touch-end,
    reveal-all and reset-all. React's `setX` calls are taken as immediate
    assignments. */
module App {
  import opened Wrappers
  import opened Grid
  import opened Trace
  import opened Matcher
  import opened Solver

  /** What `found` always satisfies: no word twice, and every entry is a
      listed word that its cells spell forwards or backwards. */
  predicate WellFound(b: Board, words: seq<string>, found: seq<Entry>) {
    (forall i, j :: 0 <= i < j < |found| ==> found[i].word != found[j].word) &&
    (forall e :: e in found ==>
       e.word in words && (Spell(b, e.indices) == e.word || Spell(b, e.indices) == Reverse(e.word)))
  }

  /** `found` after `checkSelection(sel)`. */
  function Record(b: Board, words: seq<string>, found: seq<Entry>, sel: seq<int>): seq<Entry> {
    match Matched(b, words, found, sel)
    case None => found
    case Some(w) => found + [Entry(w, sel)]
  }

  /** `checkSelection` appends at most one entry, whose cells are the
      selection, and keeps `found` well formed. */
  lemma RecordKeepsWellFound(b: Board, words: seq<string>, found: seq<Entry>, sel: seq<int>)
    requires WellFound(b, words, found)
    ensures var f := Record(b, words, found, sel);
            WellFound(b, words, f) &&
            (f == found || (f == found + [f[|found|]] && f[|found|].indices == sel))
  {
    var m := Matched(b, words, found, sel);
    if m.Some? {
      var w := m.value;
      MatchedWord(b, words, found, sel);
      var f := found + [Entry(w, sel)];
      forall i, j | 0 <= i < j < |f| ensures f[i].word != f[j].word {
        if j == |found| {
          assert WordsOf(found)[i] == found[i].word;
        }
      }
    }
  }

  /** What reveal-all stores is well formed too. */
  lemma RevealIsWellFound(b: Board, words: seq<string>)
    requires b.Valid()
    ensures WellFound(b, words, Solve(b, words))
  {
    var res := Solve(b, words);
    SolveEntries(b, words);
    RevealedPathsValid(b, words);
    forall e | e in res ensures e.word in words {
      var i :| 0 <= i < |res| && res[i] == e;
      assert WordsOf(res)[i] == e.word;
    }
  }

  class WordSearch {
    /** `GRID` as `ROWS`, `COLS` and `letters`, and `WORDS`. */
    const board: Board
    const words: seq<string>
    /** `mouseDownRef.current`. */
    var mouseDown: bool
    /** `startRef.current`; None stands for `null`. */
    var start: Option<int>
    var selected: seq<int>
    var found: seq<Entry>

    ghost predicate Valid()
      reads this
    {
      board.Valid() && WellFound(board, words, found)
    }

    /** The state on first render: nothing selected, nothing found. */
    constructor (grid: seq<string>, words: seq<string>)
      requires Rectangular(grid)
      ensures Valid()
      ensures board == FromRows(grid) && this.words == words
      ensures !mouseDown && start == None && selected == [] && found == []
    {
      board := FromRows(grid);
      this.words := words;
      mouseDown := false;
      start := None;
      selected := [];
      found := [];
    }

    /** `handleMouseDown(i)` (also the touch-start handler). */
    method MouseDown(i: int)
      requires Valid()
      modifies this
      ensures Valid()
      ensures mouseDown && start == Some(i) && selected == [i] && found == old(found)
    {
      mouseDown := true;
      start := Some(i);
      selected := [i];
    }

    /** `handleMouseEnter(i)` (also reached from touch-move): while a drag
        is on, `selected` becomes the traced line from the start cell to
        `i`; a drag that is not straight, or no drag at all, leaves it as
        it was. */
    method MouseEnter(i: int)
      requires Valid()
      modifies this`selected
      ensures Valid()
      ensures if old(mouseDown) && old(start).Some? && Traced(board, old(start).value, i).Some?
              then selected == Traced(board, old(start).value, i).value
              else selected == old(selected)
    {
      if !mouseDown || start.None? {
        return;
      }
      var line := TraceLine(board, start.value, i);
      if line.None? {
        return;
      }
      selected := line.value;
    }

    /** `checkSelection(sel)`. */
    method CheckSelection(sel: seq<int>)
      requires Valid()
      modifies this`found
      ensures Valid()
      ensures found == Record(board, words, old(found), sel)
    {
      var m := MatchSelection(board, words, found, sel);
      RecordKeepsWellFound(board, words, found, sel);
      if m.Some? {
        found := found + [Entry(m.value, sel)];
      }
    }

    /** The window's mouse-up handler: only while a drag is on, it ends
        the drag, checks the selection, clears it and forgets the start
        cell. */
    method MouseUp()
      requires Valid()
      modifies this
      ensures Valid()
      ensures if old(mouseDown)
              then !mouseDown && start == None && selected == [] &&
                   found == Record(board, words, old(found), old(selected))
              else mouseDown == old(mouseDown) && start == old(start) &&
                   selected == old(selected) && found == old(found)
    {
      if mouseDown {
        mouseDown := false;
        if |selected| > 0 {
          CheckSelection(selected);
        }
        selected := [];
        start := None;
      }
    }

    /** The touch-end handler: whether or not a drag is on, it ends it,
        checks the selection and clears it; the start cell is kept. */
    method TouchEnd()
      requires Valid()
      modifies this
      ensures Valid()
      ensures !mouseDown && start == old(start) && selected == [] &&
              found == Record(board, words, old(found), old(selected))
    {
      mouseDown := false;
      if |selected| > 0 {
        CheckSelection(selected);
      }
      selected := [];
    }

    /** `revealAll`: `found` is replaced by the solver's results. */
    method RevealAll()
      requires Valid()
      modifies this`found
      ensures Valid()
      ensures found == Solve(board, words)
    {
      found := Reveal(board, words);
      RevealIsWellFound(board, words);
    }

    /** `resetAll`: back to the state of the first render. */
    method ResetAll()
      requires Valid()
      modifies this
      ensures Valid()
      ensures !mouseDown && start == None && selected == [] && found == []
    {
      found := [];
      selected := [];
      start := None;
      mouseDown := false;
    }

    /** `inFound(i)`: some found word covers cell `i`. */
    predicate InFound(i: int)
      reads this
    {
      exists e :: e in found && i in e.indices
    }
  }
}

/** The "Reveal all" solver (`revealAll`): for each listed word, the first
    placement found by scanning origins in row-major order and, at each
    origin, the eight directions in a fixed order, reading the word forwards
    and then backwards. */
module Solver {
  import opened Wrappers
  import opened Grid
  import opened Matcher

  /** `dirs`, in the order `revealAll` tries them: east, south, west, north,
      south-east, south-west, north-east, north-west. */
  const Dirs: seq<(int, int)> :=
    [(0, 1), (1, 0), (0, -1), (-1, 0), (1, 1), (1, -1), (-1, 1), (-1, -1)]

  /** `letters[i] === ch`: an index off the array reads `undefined`, which
      equals no letter. */
  predicate HasLetter(b: Board, i: int, ch: char) {
    0 <= i < |b.letters| && b.letters[i] == ch
  }

  /** Walking from (r, c) by `d`, every one of the |s| cells visited is on
      the grid and holds the next letter of `s`. */
  predicate Reads(b: Board, s: string, r: int, c: int, d: (int, int))
    decreases |s|
  {
    s == [] ||
    (InBounds(b, r, c) && HasLetter(b, Idx(b.cols, r, c), s[0]) &&
     Reads(b, s[1..], r + d.0, c + d.1, d))
  }

  /** The `n` cells visited from (r, c) by `d`. */
  function PathFrom(cols: int, r: int, c: int, d: (int, int), n: nat): seq<int>
    decreases n
  {
    if n == 0 then [] else [Idx(cols, r, c)] + PathFrom(cols, r + d.0, c + d.1, d, n - 1)
  }

  /** The word is read at origin (r, c) in direction `Dirs[j]`, forwards or
      backwards. */
  predicate Placed(b: Board, w: string, r: int, c: int, j: int)
    requires 0 <= j < |Dirs|
  {
    Reads(b, w, r, c, Dirs[j]) || Reads(b, Reverse(w), r, c, Dirs[j])
  }

  /** A placement: origin, index into `Dirs`, and whether only the reversed
      word was read there. */
  datatype Hit = Hit(r: int, c: int, dir: int, reversed: bool)

  /** The first placement at origin (r, c) among the directions from `j` on. */
  function SearchDirs(b: Board, w: string, r: int, c: int, j: nat): (h: Option<Hit>)
    ensures h.Some? ==> h.value.r == r && h.value.c == c && j <= h.value.dir < |Dirs|
    decreases |Dirs| - j
  {
    if j >= |Dirs| then None
    else if Reads(b, w, r, c, Dirs[j]) then Some(Hit(r, c, j, false))
    else if Reads(b, Reverse(w), r, c, Dirs[j]) then Some(Hit(r, c, j, true))
    else SearchDirs(b, w, r, c, j + 1)
  }

  /** The first placement with an origin in row `r`, from column `c` on. */
  function SearchCols(b: Board, w: string, r: int, c: int): (h: Option<Hit>)
    ensures h.Some? ==> h.value.r == r && c <= h.value.c < b.cols && 0 <= h.value.dir < |Dirs|
    decreases b.cols - c
  {
    if c >= b.cols then None
    else match SearchDirs(b, w, r, c, 0)
      case Some(h) => Some(h)
      case None => SearchCols(b, w, r, c + 1)
  }

  /** The first placement with an origin in a row from `r` on. */
  function SearchRows(b: Board, w: string, r: int): (h: Option<Hit>)
    ensures h.Some? ==> r <= h.value.r < b.rows && 0 <= h.value.c < b.cols && 0 <= h.value.dir < |Dirs|
    decreases b.rows - r
  {
    if r >= b.rows then None
    else match SearchCols(b, w, r, 0)
      case Some(h) => Some(h)
      case None => SearchRows(b, w, r + 1)
  }

  /** The placement `revealAll` settles on for `w`. */
  function FirstHit(b: Board, w: string): (h: Option<Hit>)
    ensures h.Some? ==> InBounds(b, h.value.r, h.value.c) && 0 <= h.value.dir < |Dirs|
  {
    SearchRows(b, w, 0)
  }

  /** The path `revealAll` records for `w`, if it places `w` at all. */
  function WordPath(b: Board, w: string): Option<seq<int>> {
    match FirstHit(b, w)
    case None => None
    case Some(h) => Some(PathFrom(b.cols, h.r, h.c, Dirs[h.dir], |w|))
  }

  /** One round of the loop over `WORDS`: a word already in the results
      is skipped; otherwise its placement, if any, is appended. */
  function Step(b: Board, acc: seq<Entry>, w: string): seq<Entry> {
    if w in WordsOf(acc) then acc
    else match WordPath(b, w)
      case None => acc
      case Some(p) => acc + [Entry(w, p)]
  }

  /** The `results` of `revealAll` after the words of `words`. */
  function Solve(b: Board, words: seq<string>): seq<Entry> {
    if words == [] then [] else Step(b, Solve(b, words[..|words| - 1]), words[|words| - 1])
  }

  /** One inner walk of `revealAll`: from (r, c) by `d`, stop at the first
      cell off the grid or at the first wrong letter (that cell is still
      pushed). `k == |s|` exactly when the whole string was read, and then
      `path` is the cells read. */
  method Walk(b: Board, s: string, r: int, c: int, d: (int, int)) returns (path: seq<int>, k: nat)
    requires b.Valid()
    ensures k <= |s|
    ensures k == |s| <==> Reads(b, s, r, c, d)
    ensures k == |s| ==> path == PathFrom(b.cols, r, c, d, |s|)
  {
    path := [];
    var rr, cc := r, c;
    k := 0;
    while k < |s|
      invariant k <= |s|
      invariant Reads(b, s, r, c, d) <==> Reads(b, s[k..], rr, cc, d)
      invariant path + PathFrom(b.cols, rr, cc, d, |s| - k) == PathFrom(b.cols, r, c, d, |s|)
    {
      assert s[k..][0] == s[k] && s[k..][1..] == s[k + 1..];
      if rr < 0 || rr >= b.rows || cc < 0 || cc >= b.cols {
        break;
      }
      path := path + [Idx(b.cols, rr, cc)];
      var i := Idx(b.cols, rr, cc);
      if !(0 <= i < |b.letters| && b.letters[i] == s[k]) {
        break;
      }
      rr := rr + d.0;
      cc := cc + d.1;
      k := k + 1;
    }
  }

  /** The search of `revealAll` for one word: rows, then columns, then the
      eight directions, forwards before backwards, stopping at the first
      placement. */
  method FindWord(b: Board, w: string) returns (foundPath: Option<seq<int>>)
    requires b.Valid()
    ensures foundPath == WordPath(b, w)
  {
    ReverseAt(w);
    foundPath := None;
    var r := 0;
    while r < b.rows && foundPath.None?
      invariant 0 <= r <= b.rows
      invariant foundPath.None? ==> FirstHit(b, w) == SearchRows(b, w, r)
      invariant foundPath.Some? ==> foundPath == WordPath(b, w)
    {
      var c := 0;
      while c < b.cols && foundPath.None?
        invariant 0 <= c <= b.cols
        invariant foundPath.None? ==> SearchCols(b, w, r, 0) == SearchCols(b, w, r, c)
        invariant foundPath.Some? ==>
                    SearchCols(b, w, r, 0).Some? &&
                    foundPath == Some(PathFrom(b.cols, r, SearchCols(b, w, r, 0).value.c,
                                               Dirs[SearchCols(b, w, r, 0).value.dir], |w|))
      {
        var j := 0;
        while j < |Dirs|
          invariant 0 <= j <= |Dirs|
          invariant foundPath.None?
          invariant SearchDirs(b, w, r, c, 0) == SearchDirs(b, w, r, c, j)
        {
          var d := Dirs[j];
          var path, k := Walk(b, w, r, c, d);
          if k == |w| {
            foundPath := Some(path);
            break;
          }
          var revPath, k' := Walk(b, Reverse(w), r, c, d);
          if k' == |w| {
            foundPath := Some(revPath);
            break;
          }
          j := j + 1;
        }
        c := c + 1;
      }
      r := r + 1;
    }
  }

  /** `revealAll`: the results for every word in list order; the caller
      replaces `found` with them. */
  method Reveal(b: Board, words: seq<string>) returns (results: seq<Entry>)
    requires b.Valid()
    ensures results == Solve(b, words)
  {
    results := [];
    for i := 0 to |words|
      invariant results == Solve(b, words[..i])
    {
      var w := words[i];
      assert words[..i + 1][..i] == words[..i];
      if w in WordsOf(results) {
        continue;
      }
      var foundPath := FindWord(b, w);
      if foundPath.Some? {
        results := results + [Entry(w, foundPath.value)];
      }
    }
    assert words[..|words|] == words;
  }

  // --- What a walk reads and which cells it visits --------------------------

  /** The cells of a successful walk: one cell of the grid per letter,
      holding that letter, the first at (r, c) and each one step `d` from
      the previous one. */
  lemma {:induction false} ReadPath(b: Board, s: string, r: int, c: int, d: (int, int))
    requires b.Valid() && Reads(b, s, r, c, d)
    ensures var p := PathFrom(b.cols, r, c, d, |s|);
            |p| == |s| && OnGrid(b, p) && StepsBy(b, p, d) &&
            (forall k :: 0 <= k < |p| ==> b.letters[p[k]] == s[k]) &&
            (|p| > 0 ==> Rc(b.cols, p[0]) == (r, c))
    decreases |s|
  {
    if s != [] {
      var p := PathFrom(b.cols, r, c, d, |s|);
      var q := PathFrom(b.cols, r + d.0, c + d.1, d, |s| - 1);
      ReadPath(b, s[1..], r + d.0, c + d.1, d);
      assert p == [Idx(b.cols, r, c)] + q;
      IdxInRange(b, r, c);
      RcOfIdx(b.cols, r, c);
      forall k | 0 < k < |p|
        ensures p[k] == q[k - 1] && s[k] == s[1..][k - 1]
      {
      }
      assert StepsBy(b, p, d) by {
        forall k | 0 <= k < |p| - 1
          ensures Rc(b.cols, p[k + 1]) == (Rc(b.cols, p[k]).0 + d.0, Rc(b.cols, p[k]).1 + d.1)
        {
          if k > 0 {
            assert p[k] == q[k - 1] && p[k + 1] == q[k];
          }
        }
      }
    }
  }

  /** The path of a successful walk lies on the grid, steps by `d`, and its
      letters read in order spell `s`. */
  lemma ReadPathValid(b: Board, s: string, r: int, c: int, d: (int, int))
    requires b.Valid() && Reads(b, s, r, c, d)
    ensures var p := PathFrom(b.cols, r, c, d, |s|);
            |p| == |s| && OnGrid(b, p) && StepsBy(b, p, d) && Spell(b, p) == s
  {
    var p := PathFrom(b.cols, r, c, d, |s|);
    ReadPath(b, s, r, c, d);
    SpellOnBoard(b, p);
  }

  // --- Which placement is chosen --------------------------------------------

  /** `h` is a placement of `w` as `revealAll` takes it: the origin is on
      the grid, and the word is read there forwards, or, when it is not,
      backwards. */
  predicate IsHit(b: Board, w: string, h: Hit) {
    InBounds(b, h.r, h.c) && 0 <= h.dir < |Dirs| &&
    if h.reversed then !Reads(b, w, h.r, h.c, Dirs[h.dir]) && Reads(b, Reverse(w), h.r, h.c, Dirs[h.dir])
    else Reads(b, w, h.r, h.c, Dirs[h.dir])
  }

  /** Origin (r, c) with direction `j` comes before `h` in the order
      `revealAll` tries them: row-major origins, then `Dirs` order. */
  predicate Before(r: int, c: int, j: int, h: Hit) {
    r < h.r || (r == h.r && c < h.c) || (r == h.r && c == h.c && j < h.dir)
  }

  lemma {:induction false} SearchDirsFirst(b: Board, w: string, r: int, c: int, j: nat)
    requires InBounds(b, r, c)
    ensures var h := SearchDirs(b, w, r, c, j);
            (h.None? <==> forall j' :: j <= j' < |Dirs| ==> !Placed(b, w, r, c, j')) &&
            (h.Some? ==> IsHit(b, w, h.value) &&
                         forall j' :: j <= j' < h.value.dir ==> !Placed(b, w, r, c, j'))
    decreases |Dirs| - j
  {
    if j < |Dirs| {
      SearchDirsFirst(b, w, r, c, j + 1);
      if Placed(b, w, r, c, j) {
        assert SearchDirs(b, w, r, c, j).Some?;
      } else {
        assert SearchDirs(b, w, r, c, j) == SearchDirs(b, w, r, c, j + 1);
      }
    }
  }

  lemma {:induction false} SearchColsFirst(b: Board, w: string, r: int, c: int)
    requires 0 <= r < b.rows && 0 <= c
    ensures var h := SearchCols(b, w, r, c);
            (h.None? <==> forall c', j' :: c <= c' < b.cols && 0 <= j' < |Dirs| ==> !Placed(b, w, r, c', j')) &&
            (h.Some? ==> IsHit(b, w, h.value) &&
                         forall c', j' :: c <= c' && 0 <= j' < |Dirs| && Before(r, c', j', h.value) ==>
                           !Placed(b, w, r, c', j'))
    decreases b.cols - c
  {
    if c < b.cols {
      SearchDirsFirst(b, w, r, c, 0);
      SearchColsFirst(b, w, r, c + 1);
    }
  }

  lemma {:induction false} SearchRowsFirst(b: Board, w: string, r: int)
    requires 0 <= r
    ensures var h := SearchRows(b, w, r);
            (h.None? <==> forall r', c', j' :: r <= r' < b.rows && 0 <= c' < b.cols && 0 <= j' < |Dirs| ==>
                            !Placed(b, w, r', c', j')) &&
            (h.Some? ==> IsHit(b, w, h.value) &&
                         forall r', c', j' :: r <= r' && 0 <= c' < b.cols && 0 <= j' < |Dirs| &&
                                              Before(r', c', j', h.value) ==>
                           !Placed(b, w, r', c', j'))
    decreases b.rows - r
  {
    if r < b.rows {
      SearchColsFirst(b, w, r, 0);
      SearchRowsFirst(b, w, r + 1);
    }
  }

  /** The placement `revealAll` settles on. A word is left unplaced exactly
      when no origin and direction reads it forwards or backwards. When it
      is placed, the placement reads it (forwards, unless only the reverse
      reads there), and no origin and direction tried before it reads the
      word either way. */
  lemma FirstHitIsFirst(b: Board, w: string)
    ensures FirstHit(b, w).None? <==>
            forall r, c, j :: InBounds(b, r, c) && 0 <= j < |Dirs| ==> !Placed(b, w, r, c, j)
    ensures FirstHit(b, w).Some? ==>
            var h := FirstHit(b, w).value;
            IsHit(b, w, h) &&
            forall r, c, j :: InBounds(b, r, c) && 0 <= j < |Dirs| && Before(r, c, j, h) ==>
              !Placed(b, w, r, c, j)
  {
    SearchRowsFirst(b, w, 0);
  }

  // --- The results of reveal-all --------------------------------------------

  /** Where `w` first occurs in `ws`. */
  function FirstIndex(ws: seq<string>, w: string): (i: int)
    requires w in ws
    ensures 0 <= i < |ws| && ws[i] == w
    ensures forall k :: 0 <= k < i ==> ws[k] != w
  {
    if ws[0] == w then 0 else 1 + FirstIndex(ws[1..], w)
  }

  lemma FirstIndexAppend(ws: seq<string>, x: string, w: string)
    requires w in ws + [x]
    ensures w in ws ==> FirstIndex(ws + [x], w) == FirstIndex(ws, w)
    ensures w !in ws ==> FirstIndex(ws + [x], w) == |ws|
  {
    var all := ws + [x];
    var i := FirstIndex(all, w);
    if w in ws {
      var i' := FirstIndex(ws, w);
      assert all[i'] == w;
      assert i < |ws| ==> ws[i] == w;
    } else {
      assert forall k :: 0 <= k < |ws| ==> ws[k] != w;
    }
  }

  /** What `revealAll` collects: each word at most once; a word is in the
      results exactly when it is listed and some origin and direction
      reads it; and each word's cells are those of its first placement. */
  lemma {:induction false} SolveEntries(b: Board, words: seq<string>)
    requires b.Valid()
    ensures var res := Solve(b, words);
            (forall i, j :: 0 <= i < j < |res| ==> res[i].word != res[j].word) &&
            (forall w :: w in WordsOf(res) <==> w in words && FirstHit(b, w).Some?) &&
            (forall i :: 0 <= i < |res| ==> WordPath(b, res[i].word) == Some(res[i].indices))
    decreases |words|
  {
    if words != [] {
      var ws := words[..|words| - 1];
      var x := words[|words| - 1];
      assert words == ws + [x];
      SolveEntries(b, ws);
      var acc := Solve(b, ws);
      var res := Solve(b, words);
      assert res == Step(b, acc, x);
      if x !in WordsOf(acc) && WordPath(b, x).Some? {
        assert res == acc + [Entry(x, WordPath(b, x).value)];
        assert WordsOf(res) == WordsOf(acc) + [x];
      }
    }
  }

  /** The results follow the order of the word list. */
  lemma {:induction false} SolveOrder(b: Board, words: seq<string>)
    requires b.Valid()
    ensures var res := Solve(b, words);
            forall i, j :: 0 <= i < j < |res| ==>
              res[i].word in words && res[j].word in words &&
              FirstIndex(words, res[i].word) < FirstIndex(words, res[j].word)
    decreases |words|
  {
    if words != [] {
      var ws := words[..|words| - 1];
      var x := words[|words| - 1];
      assert words == ws + [x];
      SolveOrder(b, ws);
      SolveEntries(b, ws);
      var acc := Solve(b, ws);
      var res := Solve(b, words);
      assert res == Step(b, acc, x);
      forall i | 0 <= i < |acc|
        ensures acc[i].word in ws && FirstIndex(words, acc[i].word) == FirstIndex(ws, acc[i].word)
      {
        assert acc[i].word in WordsOf(acc) by { assert WordsOf(acc)[i] == acc[i].word; }
        FirstIndexAppend(ws, x, acc[i].word);
      }
      if x !in WordsOf(acc) && WordPath(b, x).Some? {
        assert res == acc + [Entry(x, WordPath(b, x).value)];
        assert x !in ws;
        FirstIndexAppend(ws, x, x);
      }
    }
  }

  /** Every path `revealAll` records is correct: one cell per letter, all
      on the grid, each one step of a single direction of `Dirs` from the
      previous, and its letters spell the word forwards or backwards. */
  lemma RevealedPathsValid(b: Board, words: seq<string>)
    requires b.Valid()
    ensures forall e :: e in Solve(b, words) ==>
              |e.indices| == |e.word| && OnGrid(b, e.indices) &&
              (exists j :: 0 <= j < |Dirs| && StepsBy(b, e.indices, Dirs[j])) &&
              (Spell(b, e.indices) == e.word || Spell(b, e.indices) == Reverse(e.word))
  {
    var res := Solve(b, words);
    SolveEntries(b, words);
    forall e | e in res
      ensures |e.indices| == |e.word| && OnGrid(b, e.indices) &&
              (exists j :: 0 <= j < |Dirs| && StepsBy(b, e.indices, Dirs[j])) &&
              (Spell(b, e.indices) == e.word || Spell(b, e.indices) == Reverse(e.word))
    {
      var w := e.word;
      FirstHitIsFirst(b, w);
      var h := FirstHit(b, w).value;
      var d := Dirs[h.dir];
      assert e.indices == PathFrom(b.cols, h.r, h.c, d, |w|);
      if h.reversed {
        ReverseAt(w);
        ReadPathValid(b, Reverse(w), h.r, h.c, d);
      } else {
        ReadPathValid(b, w, h.r, h.c, d);
      }
      assert StepsBy(b, e.indices, Dirs[h.dir]);
    }
  }
}

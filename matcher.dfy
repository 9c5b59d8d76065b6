/** Checking a finished selection against the word list
    (`selectionString` and `checkSelection`). */
module Matcher {
  import opened Wrappers
  import opened Grid

  /** An element of `found`: a word and the cells it was found on. */
  datatype Entry = Entry(word: string, indices: seq<int>)

  /** The words of `found`, in order. */
  function WordsOf(found: seq<Entry>): (ws: seq<string>)
    ensures |ws| == |found|
    ensures forall i :: 0 <= i < |found| ==> ws[i] == found[i].word
  {
    if found == [] then [] else WordsOf(found[..|found| - 1]) + [found[|found| - 1].word]
  }

  /** `s.split("").reverse().join("")`. */
  function Reverse(s: string): string {
    if s == [] then [] else Reverse(s[1..]) + [s[0]]
  }

  /** `letters[i]` as `join("")` prints it: JavaScript reads an index off
      the array as `undefined`, which joins as the empty string. */
  function CharAt(b: Board, i: int): string {
    if 0 <= i < |b.letters| then [b.letters[i]] else ""
  }

  /** `selectionString(sel)`: the letters under the selected cells. */
  function Spell(b: Board, sel: seq<int>): string {
    if sel == [] then "" else Spell(b, sel[..|sel| - 1]) + CharAt(b, sel[|sel| - 1])
  }

  /** `WORDS.filter(w => !found.some(f => f.word === w))`. */
  function Remaining(words: seq<string>, found: seq<Entry>): seq<string> {
    if words == [] then []
    else (if words[0] in WordsOf(found) then [] else [words[0]]) + Remaining(words[1..], found)
  }

  /** The first candidate equal to the spelled string or its reverse. */
  function FirstMatch(cands: seq<string>, s: string, sRev: string): Option<string> {
    if cands == [] then None
    else if s == cands[0] || sRev == cands[0] then Some(cands[0])
    else FirstMatch(cands[1..], s, sRev)
  }

  /** The word `checkSelection(sel)` records, if any. */
  function Matched(b: Board, words: seq<string>, found: seq<Entry>, sel: seq<int>): Option<string> {
    if sel == [] then None
    else FirstMatch(Remaining(words, found), Spell(b, sel), Reverse(Spell(b, sel)))
  }

  /** A word the selection may record: not found yet, and spelled by the
      selection forwards or backwards. */
  predicate Matchable(b: Board, found: seq<Entry>, sel: seq<int>, w: string) {
    w !in WordsOf(found) && (Spell(b, sel) == w || Reverse(Spell(b, sel)) == w)
  }

  /** The search of `checkSelection`: nothing for an empty selection,
      otherwise the first remaining word equal to the selection's string or
      to its reverse. */
  method MatchSelection(b: Board, words: seq<string>, found: seq<Entry>, sel: seq<int>)
    returns (m: Option<string>)
    ensures m == Matched(b, words, found, sel)
  {
    if |sel| == 0 {
      return None;
    }
    var s := Spell(b, sel);
    var sRev := Reverse(s);
    var remaining := Remaining(words, found);
    for i := 0 to |remaining|
      invariant FirstMatch(remaining[i..], s, sRev) == FirstMatch(remaining, s, sRev)
    {
      var w := remaining[i];
      assert remaining[i..][1..] == remaining[i + 1..];
      if s == w || sRev == w {
        return Some(w);
      }
    }
    return None;
  }

  lemma {:induction false} ReverseAt(s: string)
    ensures |Reverse(s)| == |s|
    ensures forall k :: 0 <= k < |s| ==> Reverse(s)[k] == s[|s| - 1 - k]
  {
    if s != [] {
      ReverseAt(s[1..]);
    }
  }

  /** Reversing twice gives the string back, so a string equals the reverse
      of `w` exactly when its reverse equals `w`. */
  lemma ReverseReverse(s: string, w: string)
    ensures Reverse(Reverse(s)) == s
    ensures Reverse(s) == w <==> s == Reverse(w)
  {
    ReverseAt(s);
    ReverseAt(Reverse(s));
    assert Reverse(Reverse(s)) == s;
    ReverseAt(w);
    ReverseAt(Reverse(w));
    assert Reverse(Reverse(w)) == w;
  }

  /** For cells that are all on the board the spelled string has one letter
      per cell: the letter of that cell. */
  lemma {:induction false} SpellOnBoard(b: Board, sel: seq<int>)
    requires forall k :: 0 <= k < |sel| ==> 0 <= sel[k] < |b.letters|
    ensures |Spell(b, sel)| == |sel|
    ensures forall k :: 0 <= k < |sel| ==> Spell(b, sel)[k] == b.letters[sel[k]]
  {
    if sel != [] {
      SpellOnBoard(b, sel[..|sel| - 1]);
    }
  }

  lemma {:induction false} RemainingFirst(b: Board, words: seq<string>, found: seq<Entry>, sel: seq<int>)
    requires sel != []
    ensures var m := FirstMatch(Remaining(words, found), Spell(b, sel), Reverse(Spell(b, sel)));
            (m.None? <==> forall i :: 0 <= i < |words| ==> !Matchable(b, found, sel, words[i])) &&
            (m.Some? ==> exists i :: 0 <= i < |words| && words[i] == m.value &&
                           Matchable(b, found, sel, words[i]) &&
                           forall j :: 0 <= j < i ==> !Matchable(b, found, sel, words[j]))
  {
    if words != [] {
      var s := Spell(b, sel);
      var rest := words[1..];
      RemainingFirst(b, rest, found, sel);
      var head := if words[0] in WordsOf(found) then [] else [words[0]];
      assert Remaining(words, found) == head + Remaining(rest, found);
      var m := FirstMatch(Remaining(words, found), s, Reverse(s));
      if Matchable(b, found, sel, words[0]) {
        assert m == Some(words[0]);
      } else {
        var tail := Remaining(rest, found);
        if head == [] {
          assert Remaining(words, found) == tail;
        } else {
          var all := head + tail;
          assert all[0] == words[0] && all[1..] == tail;
          assert !(s == all[0] || Reverse(s) == all[0]);
        }
        assert m == FirstMatch(tail, s, Reverse(s));
        forall i | 0 <= i < |words| && i > 0
          ensures words[i] == rest[i - 1]
        {
        }
        if m.Some? {
          var i :| 0 <= i < |rest| && rest[i] == m.value && Matchable(b, found, sel, rest[i]) &&
                   forall j :: 0 <= j < i ==> !Matchable(b, found, sel, rest[j]);
          assert words[i + 1] == m.value;
          forall j | 0 <= j < i + 1
            ensures !Matchable(b, found, sel, words[j])
          {
            if j > 0 {
              assert words[j] == rest[j - 1];
            }
          }
        }
      }
    }
  }

  /** What `checkSelection` records. An empty selection records nothing.
      Otherwise the recorded word is, among the words in list order, the
      first one that is not found yet and that the selection spells
      forwards or backwards; when there is none, nothing is recorded. */
  lemma MatchedIsFirstMatchable(b: Board, words: seq<string>, found: seq<Entry>, sel: seq<int>)
    ensures var m := Matched(b, words, found, sel);
            (m.None? <==> sel == [] || forall i :: 0 <= i < |words| ==> !Matchable(b, found, sel, words[i])) &&
            (m.Some? ==> exists i :: 0 <= i < |words| && words[i] == m.value &&
                           Matchable(b, found, sel, words[i]) &&
                           forall j :: 0 <= j < i ==> !Matchable(b, found, sel, words[j]))
  {
    if sel != [] {
      RemainingFirst(b, words, found, sel);
    }
  }

  /** A recorded word is a listed word that was not found before, and the
      selection spells it forwards or backwards. */
  lemma MatchedWord(b: Board, words: seq<string>, found: seq<Entry>, sel: seq<int>)
    requires Matched(b, words, found, sel).Some?
    ensures var w := Matched(b, words, found, sel).value;
            sel != [] && w in words && w !in WordsOf(found) &&
            (Spell(b, sel) == w || Spell(b, sel) == Reverse(w))
  {
    MatchedIsFirstMatchable(b, words, found, sel);
    var w := Matched(b, words, found, sel).value;
    ReverseReverse(Spell(b, sel), w);
  }
}

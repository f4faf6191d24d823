/**
 * Upper-casing of the word list (backend/crud.py, Python's `str.upper`), done once
 * before the words are laid into the grid and once more for the word list
 * that is stored with the game.
 */
module WordCase {

  /** Python's `str.upper` on one ASCII character: a..z become A..Z, everything else is kept. */
  function UpperChar(ch: char): char
  {
    if 'a' <= ch <= 'z' then (ch as int - 32) as char else ch
  }

  /** One word upper-cased, character by character. */
  function Upper(w: string): (u: string)
    ensures |u| == |w|
    ensures forall i :: 0 <= i < |w| ==> u[i] == UpperChar(w[i])
    decreases |w|
  {
    if |w| == 0 then [] else [UpperChar(w[0])] + Upper(w[1..])
  }

  /** Every word of the list upper-cased: same order, same count. */
  function UpperAll(ws: seq<string>): seq<string>
  {
    seq(|ws|, i requires 0 <= i < |ws| => Upper(ws[i]))
  }

  /** No lower-case ASCII letter survives, and characters outside a..z are left alone. */
  lemma UpperHasNoLowercase(w: string)
    ensures forall i :: 0 <= i < |w| ==> !('a' <= Upper(w)[i] <= 'z')
    ensures forall i :: 0 <= i < |w| && !('a' <= w[i] <= 'z') ==> Upper(w)[i] == w[i]
  {
  }

  /** Upper-casing twice is upper-casing once. */
  lemma {:induction false} UpperIdempotent(w: string)
    ensures Upper(Upper(w)) == Upper(w)
  {
    var u := Upper(w);
    assert forall i :: 0 <= i < |u| ==> Upper(u)[i] == UpperChar(UpperChar(w[i])) == u[i];
  }

  /** The upper-cased list keeps every word's position and length. */
  lemma UpperAllShape(ws: seq<string>)
    ensures |UpperAll(ws)| == |ws|
    ensures forall i :: 0 <= i < |ws| ==> UpperAll(ws)[i] == Upper(ws[i]) && |UpperAll(ws)[i]| == |ws[i]|
  {
  }
}

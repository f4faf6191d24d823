/**
 * The order in which words are attempted (backend/crud.py): Python's `sorted`
 * keyed on length with `reverse=True`. Python's sort is stable, and `reverse=True` keeps equal keys
 * in their input order, so the result is longest first, ties in input order.
 * The sort is modelled as a stable insertion sort.
 */
module LengthOrder {

  /** Lengths never increase from left to right. */
  predicate LongestFirst(s: seq<string>)
  {
    forall i, j :: 0 <= i < j < |s| ==> |s[i]| >= |s[j]|
  }

  /** The words of `s` whose length is `len`, in their order in `s`. */
  function OfLength(s: seq<string>, len: int): seq<string>
    decreases |s|
  {
    if |s| == 0 then []
    else (if |s[0]| == len then [s[0]] else []) + OfLength(s[1..], len)
  }

  /** Puts `x` in front of the first word that is not longer than it. */
  function Insert(x: string, s: seq<string>): seq<string>
    decreases |s|
  {
    if |s| == 0 || |x| >= |s[0]| then [x] + s
    else [s[0]] + Insert(x, s[1..])
  }

  /** The attempt order: longest first, equal lengths in input order, nothing lost or added. */
  function SortByLength(ws: seq<string>): (r: seq<string>)
    ensures multiset(r) == multiset(ws) && |r| == |ws|
    ensures LongestFirst(r)
    ensures forall len :: OfLength(r, len) == OfLength(ws, len)
    decreases |ws|
  {
    if |ws| == 0 then []
    else
      var rest := SortByLength(ws[1..]);
      assert ws == [ws[0]] + ws[1..];
      InsertFront(ws[0], rest, ws[1..]);
      Insert(ws[0], rest)
  }

  /** Inserting `x` into a sorted arrangement `s` of `t` gives a sorted arrangement of `[x] + t`. */
  lemma InsertFront(x: string, s: seq<string>, t: seq<string>)
    requires LongestFirst(s) && multiset(s) == multiset(t)
    requires forall len :: OfLength(s, len) == OfLength(t, len)
    ensures multiset(Insert(x, s)) == multiset([x] + t) && |Insert(x, s)| == |t| + 1
    ensures LongestFirst(Insert(x, s))
    ensures forall len :: OfLength(Insert(x, s), len) == OfLength([x] + t, len)
  {
    InsertPermutes(x, s);
    InsertKeepsOrder(x, s);
    assert multiset([x] + t) == multiset{x} + multiset(t);
    assert |s| == |t| by {
      assert |multiset(s)| == |multiset(t)|;
    }
    forall len ensures OfLength(Insert(x, s), len) == OfLength([x] + t, len) {
      InsertIsStable(x, s, len);
      OfLengthCons(x, s, len);
      OfLengthCons(x, t, len);
    }
  }

  lemma OfLengthCons(x: string, s: seq<string>, len: int)
    ensures OfLength([x] + s, len) == (if |x| == len then [x] else []) + OfLength(s, len)
  {
    assert ([x] + s)[1..] == s;
  }

  lemma {:induction false} InsertPermutes(x: string, s: seq<string>)
    ensures multiset(Insert(x, s)) == multiset(s) + multiset{x}
    decreases |s|
  {
    if |s| == 0 || |x| >= |s[0]| {
    } else {
      InsertPermutes(x, s[1..]);
      assert s == [s[0]] + s[1..];
    }
  }

  lemma {:induction false} InsertKeepsOrder(x: string, s: seq<string>)
    requires LongestFirst(s)
    ensures LongestFirst(Insert(x, s))
    decreases |s|
  {
    if |s| == 0 || |x| >= |s[0]| {
    } else {
      InsertKeepsOrder(x, s[1..]);
      InsertPermutes(x, s[1..]);
      var t := Insert(x, s[1..]);
      forall j | 0 <= j < |t| ensures |s[0]| >= |t[j]| {
        assert t[j] in multiset(t);
        assert t[j] == x || t[j] in s[1..];
      }
    }
  }

  /** Inserting `x` keeps it ahead of every word of its own length in `s`: the sort is stable. */
  lemma {:induction false} InsertIsStable(x: string, s: seq<string>, len: int)
    ensures OfLength(Insert(x, s), len) == OfLength([x] + s, len)
    decreases |s|
  {
    if |s| == 0 || |x| >= |s[0]| {
    } else {
      InsertIsStable(x, s[1..], len);
      assert ([s[0]] + Insert(x, s[1..]))[1..] == Insert(x, s[1..]);
      assert ([x] + s)[1..] == s;
      assert ([x] + s[1..])[1..] == s[1..];
    }
  }

  /** The first word attempted is a longest one. */
  lemma {:induction false} FirstIsLongest(ws: seq<string>, w: string)
    requires w in ws
    ensures |SortByLength(ws)| > 0 && |SortByLength(ws)[0]| >= |w|
  {
    var r := SortByLength(ws);
    assert w in multiset(r);
    var j :| 0 <= j < |r| && r[j] == w;
  }
}

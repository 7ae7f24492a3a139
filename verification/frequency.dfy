/** `String.getCharOccurRate` of HuffmanMap.kt: count the occurrences of each distinct
    symbol, in a map that keeps insertion order (Kotlin's `mutableMapOf`). */
module Frequency {

  /** The symbols of a list of (symbol, count) pairs, in order. */
  function Symbols<T>(ps: seq<(T, int)>): (r: seq<T>)
    ensures |r| == |ps| && forall i :: 0 <= i < |ps| ==> r[i] == ps[i].0
  {
    seq(|ps|, i requires 0 <= i < |ps| => ps[i].0)
  }

  /** No element occurs twice. */
  predicate Distinct<T(==)>(s: seq<T>) {
    forall i, j :: 0 <= i < j < |s| ==> s[i] != s[j]
  }

  /** The distinct elements of `s`, in the order they first appear. */
  function FirstOccurrences<T(==)>(s: seq<T>): seq<T> {
    if s == [] then []
    else
      var seen := FirstOccurrences(s[..|s| - 1]);
      if s[|s| - 1] in seen then seen else seen + [s[|s| - 1]]
  }

  /** Every element of `s` is kept, nothing else is added, and none is kept twice. */
  lemma {:induction false} FirstOccurrencesMembers<T>(s: seq<T>)
    ensures Distinct(FirstOccurrences(s))
    ensures forall x :: x in FirstOccurrences(s) <==> x in s
  {
    if s != [] {
      var init := s[..|s| - 1];
      FirstOccurrencesMembers(init);
      assert s == init + [s[|s| - 1]];
    }
  }

  /** A sequence without repeats is its own list of first occurrences. */
  lemma {:induction false} FirstOccurrencesOfDistinct<T>(s: seq<T>)
    requires Distinct(s)
    ensures FirstOccurrences(s) == s
  {
    if s != [] {
      var init := s[..|s| - 1];
      assert Distinct(init);
      FirstOccurrencesOfDistinct(init);
      assert s == init + [s[|s| - 1]];
    }
  }

  /** The position of `c` among the keys of `ps` (`|ps|` when absent): the map lookup. */
  function KeyIndex<T(==)>(ps: seq<(T, int)>, c: T): (k: nat)
    ensures k <= |ps|
    ensures k < |ps| ==> ps[k].0 == c
    ensures k == |ps| <==> c !in Symbols(ps)
  {
    if ps == [] then 0
    else if ps[0].0 == c then 0
    else
      assert Symbols(ps) == [ps[0].0] + Symbols(ps[1..]);
      KeyIndex(ps[1..], c) + 1
  }

  /** The loop body at lines 122-125 for symbol `c`: insert `(c, 0)` when `c` is new,
      then add one to the count of `c`; every other pair is left alone. */
  function Tally<T(==)>(ps: seq<(T, int)>, c: T): (r: seq<(T, int)>)
    ensures Symbols(r) == if c in Symbols(ps) then Symbols(ps) else Symbols(ps) + [c]
    ensures var k := KeyIndex(ps, c);
            && r[k] == (c, (if k < |ps| then ps[k].1 else 0) + 1)
            && forall j :: 0 <= j < |ps| && j != k ==> r[j] == ps[j]
  {
    var k := KeyIndex(ps, c);
    var grown := if k == |ps| then ps + [(c, 0)] else ps;
    assert Symbols(grown) == if k == |ps| then Symbols(ps) + [c] else Symbols(ps);
    grown[k := (c, grown[k].1 + 1)]
  }

  /** The state `ps` reached after a prefix `s` of the text: distinct symbols in order
      of first occurrence, each with its number of occurrences in `s`. */
  ghost predicate Counted<T>(ps: seq<(T, int)>, s: seq<T>) {
    && Symbols(ps) == FirstOccurrences(s)
    && Distinct(Symbols(ps))
    && (forall i :: 0 <= i < |s| ==> s[i] in Symbols(ps))
    && (forall k :: 0 <= k < |ps| ==> ps[k].0 in s)
    && (forall k :: 0 <= k < |ps| ==> ps[k].1 == multiset(s)[ps[k].0])
  }

  /** One more symbol of text, tallied, keeps the counts exact. */
  lemma TallyCounts<T>(ps: seq<(T, int)>, s: seq<T>, c: T)
    requires Counted(ps, s)
    ensures Counted(Tally(ps, c), s + [c])
  {
    var r := Tally(ps, c);
    var k := KeyIndex(ps, c);
    var s' := s + [c];
    assert s'[..|s|] == s;
    assert Symbols(r) == FirstOccurrences(s');
    assert Distinct(Symbols(r)) by {
      if k == |ps| {
        assert Symbols(r) == Symbols(ps) + [c];
      }
    }
    assert forall i :: 0 <= i < |s'| ==> s'[i] in Symbols(r) by {
      forall i | 0 <= i < |s'|
        ensures s'[i] in Symbols(r)
      {
        if i < |s| {
          assert s'[i] == s[i];
        }
      }
    }
    assert forall j :: 0 <= j < |r| ==> r[j].0 in s' by {
      forall j | 0 <= j < |r|
        ensures r[j].0 in s'
      {
        assert Symbols(r)[j] == r[j].0;
        if j != k {
          assert r[j] == ps[j];
          assert ps[j].0 in s;
        }
      }
    }
    assert multiset(s') == multiset(s) + multiset{c};
    forall j | 0 <= j < |r|
      ensures r[j].1 == multiset(s')[r[j].0]
    {
      if j != k {
        assert r[j] == ps[j];
        assert k < |ps| ==> Symbols(ps)[j] != Symbols(ps)[k];
        assert r[j].0 != c;
      } else if k == |ps| {
        assert c !in s;
      }
    }
  }

  /** `getCharOccurRate`: one pair per distinct symbol, in order of first occurrence,
      whose count is the number of times the symbol occurs in `text`. */
  method CharOccurRate<T(==)>(text: seq<T>) returns (r: seq<(T, int)>)
    ensures Symbols(r) == FirstOccurrences(text)
    ensures Distinct(Symbols(r))
    ensures forall c :: c in Symbols(r) <==> c in text
    ensures forall k :: 0 <= k < |r| ==> r[k].1 == multiset(text)[r[k].0] && r[k].1 >= 1
  {
    r := [];
    for i := 0 to |text|
      invariant Counted(r, text[..i])
    {
      assert text[..i + 1] == text[..i] + [text[i]];
      TallyCounts(r, text[..i], text[i]);
      r := Tally(r, text[i]);
    }
    assert text[..|text|] == text;
    forall k | 0 <= k < |r|
      ensures r[k].1 >= 1
    {
      assert Symbols(r)[k] in text;
    }
  }
}

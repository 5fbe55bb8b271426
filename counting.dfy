/** Counting facts about finite collections, used to show that a walk
    through finitely many objects that is longer than their number has
    visited one of them twice. */
module Counting {

  /** The elements of a sequence, as a set. */
  function Elements<T>(t: seq<T>): set<T>
  {
    set x | x in t
  }

  /** A sequence has at most as many distinct elements as it is long. */
  lemma {:induction false} CardOfElements<T>(t: seq<T>)
    ensures |Elements(t)| <= |t|
  {
    if t != [] {
      CardOfElements(t[1..]);
      assert Elements(t) == {t[0]} + Elements(t[1..]);
    }
  }

  /** Pigeonhole: a sequence drawn from a set it outnumbers repeats. */
  lemma {:induction false} Pigeonhole<T>(s: seq<T>, S: set<T>)
    requires forall k :: 0 <= k < |s| ==> s[k] in S
    requires |s| > |S|
    ensures exists i, j :: 0 <= i < j < |s| && s[i] == s[j]
  {
    var x := s[0];
    if x in s[1..] {
      var j :| 1 <= j < |s| && s[j] == x;
      assert s[0] == s[j];
    } else {
      forall k | 0 <= k < |s| - 1
        ensures s[1..][k] in S - {x}
      {
        assert s[1..][k] == s[k + 1];
      }
      Pigeonhole(s[1..], S - {x});
      var i, j :| 0 <= i < j < |s| - 1 && s[1..][i] == s[1..][j];
      assert s[i + 1] == s[j + 1];
    }
  }

  /** A walk whose every step after the first lands in `t`, and which
      takes more steps than `t` has entries, repeats an element. */
  lemma LongWalkRepeats<T>(w: seq<T>, t: seq<T>)
    requires forall i :: 1 <= i < |w| ==> w[i] in t
    requires |w| > |t| + 1
    ensures exists i, j :: 0 <= i < j < |w| && w[i] == w[j]
  {
    CardOfElements(t);
    Pigeonhole(w[1..], Elements(t));
    var i, j :| 0 <= i < j < |w| - 1 && w[1..][i] == w[1..][j];
    assert w[i + 1] == w[j + 1];
  }
}

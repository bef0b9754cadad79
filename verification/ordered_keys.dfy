/** Enumerating a finite set of (non-negative) keys in ascending order, so that the stores'
    queries produce a deterministic sequence. */
module OrderedKeys {

  /** `m` is the least element of `s`. */
  predicate IsLeast(m: nat, s: set<nat>)
  {
    m in s && forall x :: x in s ==> m <= x
  }

  /** Every non-empty finite set of naturals has a least element. */
  lemma {:induction false} LeastExists(s: set<nat>)
    requires s != {}
    ensures exists m :: IsLeast(m, s)
    decreases |s|
  {
    var x :| x in s;
    if s == {x} {
      assert IsLeast(x, s);
    } else {
      var rest := s - {x};
      assert rest < s;
      LeastExists(rest);
      var m :| IsLeast(m, rest);
      assert forall y :: y in s ==> y == x || y in rest;
      if x < m {
        assert IsLeast(x, s);
      } else {
        assert IsLeast(m, s);
      }
    }
  }

  /** The least element of a non-empty set. */
  function Least(s: set<nat>): (m: nat)
    requires s != {}
    ensures IsLeast(m, s)
  {
    LeastExists(s);
    var m :| IsLeast(m, s); m
  }

  /** Strictly increasing, hence free of duplicates. */
  predicate Increasing(ks: seq<nat>)
  {
    forall i, j :: 0 <= i < j < |ks| ==> ks[i] < ks[j]
  }

  /** The elements of `s`, each exactly once, in ascending order. */
  function Ascending(s: set<nat>): (ks: seq<nat>)
    ensures |ks| == |s|
    ensures forall i :: 0 <= i < |ks| ==> ks[i] in s
    ensures forall k :: k in s ==> k in ks
    ensures Increasing(ks)
    decreases |s|
  {
    if s == {} then []
    else
      var m := Least(s);
      var rest := s - {m};
      assert rest < s;
      var tail := Ascending(rest);
      AscendingStep(s, m, rest, tail);
      [m] + tail
  }

  /** The inductive step of `Ascending`: putting the least element in
      front of the ascending enumeration of the rest enumerates `s`. */
  lemma AscendingStep(s: set<nat>, m: nat, rest: set<nat>, tail: seq<nat>)
    requires IsLeast(m, s) && rest == s - {m}
    requires |tail| == |rest| && Increasing(tail)
    requires forall i :: 0 <= i < |tail| ==> tail[i] in rest
    requires forall k :: k in rest ==> k in tail
    ensures |[m] + tail| == |s|
    ensures forall i :: 0 <= i < |[m] + tail| ==> ([m] + tail)[i] in s
    ensures forall k :: k in s ==> k in [m] + tail
    ensures Increasing([m] + tail)
  {
    var ks := [m] + tail;
    assert |s| == |rest| + 1;
    assert forall i :: 0 < i < |ks| ==> ks[i] == tail[i - 1];
    forall k | k in s
      ensures k in ks
    {
      if k != m {
        assert k in tail;
        var i :| 0 <= i < |tail| && tail[i] == k;
        assert ks[i + 1] == k;
      }
    }
    forall i, j | 0 <= i < j < |ks|
      ensures ks[i] < ks[j]
    {
      if i > 0 {
        assert ks[i] == tail[i - 1] && ks[j] == tail[j - 1];
      } else {
        assert ks[j] == tail[j - 1] && ks[j] in rest;
      }
    }
  }
}

/** std::shuffle as a function of the numbers it draws, and what it can do: any arrangement at all, and no other. */
module Shuffle {

  function Swapped<T>(s: seq<T>, i: nat, k: nat): (r: seq<T>)
    requires i < |s| && k < |s|
    ensures |r| == |s|
  {
    s[i := s[k]][k := s[i]]
  }

  lemma SwapKeepsMultiset<T>(s: seq<T>, i: nat, k: nat)
    requires i < |s| && k < |s|
    ensures multiset(Swapped(s, i, k)) == multiset(s)
  {
  }

  /** The place among the first k + 1 that a draw stands for. */
  function Place(x: nat, k: nat): nat {
    if x <= k then x else k
  }

  /** For k = 1, 2, ... entry k changes places with the entry that picks[k] chooses among the first k + 1. */
  function Shuffled<T>(w: seq<T>, picks: seq<nat>): (v: seq<T>)
    requires |picks| == |w|
    ensures |v| == |w|
  {
    if |w| <= 1 then w
    else
      var n := |w| - 1;
      Swapped(Shuffled(w[..n], picks[..n]) + [w[n]], n, Place(picks[n], n))
  }

  lemma ShuffledNext<T>(w: seq<T>, picks: seq<nat>, n: nat, before: seq<nat>, p: nat, u: seq<T>)
    requires |picks| == |w| == n + 1 > 1 && before == picks[..n] && u == Shuffled(w[..n], before)
    requires p == Place(picks[n], n)
    ensures Shuffled(w, picks) == Swapped(u + [w[n]], n, p)
  {
  }

  lemma WithoutLast<T>(s: seq<T>)
    requires |s| > 0
    ensures multiset(s) == multiset(s[..|s| - 1]) + multiset{s[|s| - 1]}
  {
    assert s == s[..|s| - 1] + [s[|s| - 1]];
  }

  lemma {:induction false} ShuffledIsArrangement<T>(w: seq<T>, picks: seq<nat>)
    requires |picks| == |w|
    ensures multiset(Shuffled(w, picks)) == multiset(w)
  {
    if |w| > 1 {
      var n := |w| - 1;
      var before, p := picks[..n], Place(picks[n], n);
      var u := Shuffled(w[..n], before);
      ShuffledIsArrangement(w[..n], before);
      ShuffledNext(w, picks, n, before, p, u);
      SwapKeepsMultiset(u + [w[n]], n, p);
      WithoutLast(w);
      assert multiset(u + [w[n]]) == multiset(u) + multiset{w[n]};
    }
  }

  lemma SameLength<T>(w: seq<T>, v: seq<T>)
    requires multiset(w) == multiset(v)
    ensures |w| == |v|
  {
    assert |multiset(w)| == |w| && |multiset(v)| == |v|;
  }

  lemma SameSingleton<T>(w: seq<T>, v: seq<T>)
    requires multiset(w) == multiset(v) && |w| == |v| <= 1
    ensures w == v
  {
    if |w| == 1 {
      assert v[0] in multiset(v);
      assert v[0] in multiset(w);
      assert v[0] in w;
    }
  }

  lemma SameRest<T>(a: multiset<T>, b: multiset<T>, x: T)
    requires a + multiset{x} == b + multiset{x}
    ensures a == b
  {
    assert a == (a + multiset{x}) - multiset{x};
    assert b == (b + multiset{x}) - multiset{x};
  }

  lemma PlaceOf<T>(w: seq<T>, v: seq<T>, last: T) returns (p: nat)
    requires multiset(w) == multiset(v) && |w| == |v| > 1 && last == w[|w| - 1] != v[|v| - 1]
    ensures p < |v| - 1 && v[p] == last
  {
    assert last in multiset(w);
    assert last in multiset(v);
    assert last in v;
    p :| p < |v| && v[p] == last;
  }

  lemma Replaced<T>(s: seq<T>, p: nat, x: T)
    requires p < |s|
    ensures multiset(s[p := x]) == multiset(s) - multiset{s[p]} + multiset{x}
  {
  }

  /** v comes from an arrangement u of all but the last entry of w by one exchange of the last place with place p. */
  lemma Undo<T>(w: seq<T>, v: seq<T>) returns (p: nat, u: seq<T>)
    requires multiset(w) == multiset(v) && |w| == |v| > 1
    ensures p < |w| && |u| == |w| - 1 && multiset(u) == multiset(w[..|w| - 1])
    ensures Swapped(u + [w[|w| - 1]], |w| - 1, p) == v
  {
    var n := |w| - 1;
    if v[n] == w[n] {
      p, u := n, v[..n];
    } else {
      p := PlaceOf(w, v, w[n]);
      u := v[..n][p := v[n]];
      Replaced(v[..n], p, v[n]);
    }
    WithoutLast(w);
    WithoutLast(v);
    SameRest(multiset(w[..n]), multiset(u), w[n]);
  }

  /** Every arrangement is reached, by these picks. */
  lemma {:induction false} EveryArrangement<T>(w: seq<T>, v: seq<T>) returns (picks: seq<nat>)
    requires multiset(w) == multiset(v)
    ensures |picks| == |w| == |v| && Shuffled(w, picks) == v
    decreases |w|
  {
    SameLength(w, v);
    if |w| <= 1 {
      picks := seq(|w|, i => 0);
      SameSingleton(w, v);
    } else {
      var n := |w| - 1;
      var p, u := Undo(w, v);
      var before := EveryArrangement(w[..n], u);
      picks := before + [p];
      ShuffledNext(w, picks, n, before, p, u);
    }
  }

  /** Picking its own place leaves every entry where it is. */
  lemma {:induction false} StayingPut<T>(w: seq<T>, picks: seq<nat>)
    requires |picks| == |w| && forall k :: 0 <= k < |w| ==> picks[k] == k
    ensures Shuffled(w, picks) == w
  {
    if |w| > 1 {
      var n := |w| - 1;
      StayingPut(w[..n], picks[..n]);
      ShuffledNext(w, picks, n, picks[..n], n, w[..n]);
      assert Swapped(w[..n] + [w[n]], n, n) == w;
    }
  }

  /** v is w with the first k entries shuffled. */
  ghost predicate ShuffledTo<T>(v: seq<T>, w: seq<T>, picks: seq<nat>, k: nat)
    requires |picks| == |w| && k <= |w|
  {
    v == Shuffled(w[..k], picks[..k]) + w[k..]
  }

  lemma ShuffleStarts<T>(w: seq<T>, picks: seq<nat>)
    requires |picks| == |w| > 0
    ensures ShuffledTo(w, w, picks, 1)
  {
  }

  lemma MoveOne<T>(u: seq<T>, w: seq<T>, k: nat)
    requires k < |w|
    ensures u + w[k..] == (u + [w[k]]) + w[k + 1..]
  {
    assert w[k..] == [w[k]] + w[k + 1..];
  }

  lemma SwapInFront<T>(a: seq<T>, b: seq<T>, i: nat, k: nat)
    requires i < |a| && k < |a|
    ensures Swapped(a + b, i, k) == Swapped(a, i, k) + b
  {
  }

  /** One step of the shuffle in place: entry k joins the first k, which are shuffled. */
  lemma ShuffleStep<T>(v: seq<T>, w: seq<T>, picks: seq<nat>, k: nat)
    requires |picks| == |w| == |v| && 1 <= k < |w| && ShuffledTo(v, w, picks, k)
    ensures ShuffledTo(Swapped(v, k, Place(picks[k], k)), w, picks, k + 1)
  {
    var u, p := Shuffled(w[..k], picks[..k]), Place(picks[k], k);
    assert w[..k + 1][..k] == w[..k] && picks[..k + 1][..k] == picks[..k];
    ShuffledNext(w[..k + 1], picks[..k + 1], k, picks[..k], p, u);
    MoveOne(u, w, k);
    SwapInFront(u + [w[k]], w[k + 1..], k, p);
  }

  lemma ShuffleEnds<T>(v: seq<T>, w: seq<T>, picks: seq<nat>)
    requires |picks| == |w| && ShuffledTo(v, w, picks, |w|)
    ensures v == Shuffled(w, picks)
  {
    assert w[..|w|] == w && picks[..|w|] == picks;
  }
}

/** The list helpers the pipeline takes from `more_itertools` (`split_before`, `split_at`),
    with `sep.join(...)` generalised to any element type. */
module MoreItertools {

  /** The concatenation of a list of lists. */
  function Concat<T>(gs: seq<seq<T>>): seq<T> {
    if gs == [] then [] else gs[0] + Concat(gs[1..])
  }

  /** `sep.join(gs)`: the groups with `sep` between each two neighbours. */
  function JoinWith<T>(sep: seq<T>, gs: seq<seq<T>>): seq<T> {
    if gs == [] then [] else if |gs| == 1 then gs[0] else gs[0] + sep + JoinWith(sep, gs[1..])
  }

  /** The join begins with the first group. */
  lemma JoinWithFirst<T>(sep: seq<T>, gs: seq<seq<T>>)
    requires gs != []
    ensures |JoinWith(sep, gs)| >= |gs[0]| && JoinWith(sep, gs)[..|gs[0]|] == gs[0]
  {
  }

  /** The number of elements of `xs` that satisfy `pred`. */
  function CountWhere<T>(xs: seq<T>, pred: T -> bool): nat {
    if xs == [] then 0 else (if pred(xs[0]) then 1 else 0) + CountWhere(xs[1..], pred)
  }

  /** `split_before(xs, pred)`: a new group starts before every element that satisfies `pred`,
      except at the very front; no group is empty and an empty input gives no groups. */
  function SplitBefore<T>(xs: seq<T>, pred: T -> bool): (r: seq<seq<T>>)
    ensures Concat(r) == xs
    ensures forall k :: 0 <= k < |r| ==> r[k] != []
    ensures forall k :: 0 < k < |r| ==> pred(r[k][0])
    ensures forall k, m :: 0 <= k < |r| && 0 < m < |r[k]| ==> !pred(r[k][m])
  {
    if xs == [] then []
    else
      var rest := SplitBefore(xs[1..], pred);
      if rest == [] || pred(rest[0][0]) then
        var r := [[xs[0]]] + rest;
        assert r[1..] == rest;
        r
      else
        var r := [[xs[0]] + rest[0]] + rest[1..];
        assert r[1..] == rest[1..];
        assert Concat(rest) == rest[0] + Concat(rest[1..]);
        r
  }

  /** A group whose only `pred` element can be its first, in front of a list whose own split
      starts a fresh group, stays a group of its own. */
  lemma {:induction false} SplitBeforeCons<T>(g: seq<T>, tail: seq<T>, pred: T -> bool)
    requires g != [] && forall m :: 0 < m < |g| ==> !pred(g[m])
    requires SplitBefore(tail, pred) == [] || pred(SplitBefore(tail, pred)[0][0])
    ensures SplitBefore(g + tail, pred) == [g] + SplitBefore(tail, pred)
  {
    assert (g + tail)[1..] == g[1..] + tail;
    if |g| > 1 {
      SplitBeforeCons(g[1..], tail, pred);
      assert [g[0]] + g[1..] == g;
    }
  }

  /** Splitting the concatenation of groups shaped as `split_before` makes them gives the groups back. */
  lemma {:induction false} SplitBeforeConcat<T>(gs: seq<seq<T>>, pred: T -> bool)
    requires forall k :: 0 <= k < |gs| ==> gs[k] != []
    requires forall k :: 0 < k < |gs| ==> pred(gs[k][0])
    requires forall k, m :: 0 <= k < |gs| && 0 < m < |gs[k]| ==> !pred(gs[k][m])
    ensures SplitBefore(Concat(gs), pred) == gs
  {
    if gs != [] {
      SplitBeforeConcat(gs[1..], pred);
      SplitBeforeCons(gs[0], Concat(gs[1..]), pred);
      assert [gs[0]] + gs[1..] == gs;
    }
  }

  /** `split_at(xs, pred)`: the runs between the elements that satisfy `pred`, which are dropped.
      There is one more run than separators, and runs may be empty. */
  function SplitAt<T>(xs: seq<T>, pred: T -> bool): (r: seq<seq<T>>)
    ensures |r| == CountWhere(xs, pred) + 1
    ensures forall k, m :: 0 <= k < |r| && 0 <= m < |r[k]| ==> !pred(r[k][m])
  {
    if xs == [] then [[]]
    else
      var rest := SplitAt(xs[1..], pred);
      if pred(xs[0]) then [[]] + rest
      else
        var r := [[xs[0]] + rest[0]] + rest[1..];
        assert forall m :: 0 < m < |r[0]| ==> r[0][m] == rest[0][m - 1];
        r
  }

  /** Joining the runs of a split with the one separator value gives the input back. */
  lemma {:induction false} JoinSplitAt<T>(xs: seq<T>, pred: T -> bool, sep: T)
    requires forall x :: pred(x) <==> x == sep
    ensures JoinWith([sep], SplitAt(xs, pred)) == xs
  {
    if xs != [] {
      var rest := SplitAt(xs[1..], pred);
      JoinSplitAt(xs[1..], pred, sep);
      assert xs == [xs[0]] + xs[1..];
      if pred(xs[0]) {
        var gs := [[]] + rest;
        assert gs[1..] == rest;
        assert JoinWith([sep], gs) == [] + [sep] + JoinWith([sep], rest);
      } else {
        var gs := [[xs[0]] + rest[0]] + rest[1..];
        assert gs[1..] == rest[1..];
        if |rest| > 1 {
          assert JoinWith([sep], gs) == [xs[0]] + rest[0] + [sep] + JoinWith([sep], rest[1..]);
        }
      }
    }
  }

  /** A list with no separator is a single run. */
  lemma {:induction false} SplitAtFree<T>(xs: seq<T>, pred: T -> bool)
    requires forall m :: 0 <= m < |xs| ==> !pred(xs[m])
    ensures SplitAt(xs, pred) == [xs]
  {
    if xs != [] {
      SplitAtFree(xs[1..], pred);
      assert xs == [xs[0]] + xs[1..];
    }
  }

  /** Splitting at the first separator. */
  lemma {:induction false} SplitAtFirst<T>(a: seq<T>, sep: T, b: seq<T>, pred: T -> bool)
    requires forall m :: 0 <= m < |a| ==> !pred(a[m])
    requires pred(sep)
    ensures SplitAt(a + [sep] + b, pred) == [a] + SplitAt(b, pred)
  {
    if a == [] {
      assert a + [sep] + b == [sep] + b;
      assert ([sep] + b)[1..] == b;
    } else {
      assert (a + [sep] + b)[1..] == a[1..] + [sep] + b;
      SplitAtFirst(a[1..], sep, b, pred);
      assert a == [a[0]] + a[1..];
    }
  }

  /** Splitting a join gives back the runs, when no run holds a separator. */
  lemma {:induction false} SplitAtJoin<T>(gs: seq<seq<T>>, pred: T -> bool, sep: T)
    requires gs != []
    requires forall k, m :: 0 <= k < |gs| && 0 <= m < |gs[k]| ==> !pred(gs[k][m])
    requires pred(sep)
    ensures SplitAt(JoinWith([sep], gs), pred) == gs
  {
    if |gs| == 1 {
      SplitAtFree(gs[0], pred);
    } else {
      SplitAtJoin(gs[1..], pred, sep);
      SplitAtFirst(gs[0], sep, JoinWith([sep], gs[1..]), pred);
      assert gs == [gs[0]] + gs[1..];
    }
  }

  /** The join of two or more groups is the join of all but the last, the separator, and the last. */
  lemma {:induction false} JoinWithLast<T>(sep: seq<T>, gs: seq<seq<T>>)
    requires |gs| > 1
    ensures JoinWith(sep, gs) == JoinWith(sep, gs[..|gs| - 1]) + sep + gs[|gs| - 1]
  {
    if |gs| > 2 {
      JoinWithLast(sep, gs[1..]);
      assert gs[1..][..|gs| - 2] == gs[..|gs| - 1][1..];
    }
  }

  /** Every element of every group is an element of the join. */
  lemma {:induction false} InJoinWith<T>(sep: seq<T>, gs: seq<seq<T>>, k: nat, m: nat)
    requires k < |gs| && m < |gs[k]|
    ensures gs[k][m] in JoinWith(sep, gs)
  {
    if k == 0 {
      if |gs| > 1 {
        assert JoinWith(sep, gs) == gs[0] + (sep + JoinWith(sep, gs[1..]));
      }
    } else {
      InJoinWith(sep, gs[1..], k - 1, m);
      assert JoinWith(sep, gs) == (gs[0] + sep) + JoinWith(sep, gs[1..]);
    }
  }
}

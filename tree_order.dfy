/** What the tree built by `nest_sections` looks like: every later section hangs under its nearest
    strictly shallower predecessor, siblings keep their order, and reading the tree in pre-order
    gives back the input sections with their headings and contents unchanged. */
module TreeOrder {

  import opened Wrappers
  import opened Lines
  import opened Sections
  import opened Nesting

  /** The sections of a tree in pre-order, each with its children removed. */
  function Preorder(t: Section): seq<Section>
    decreases t
  {
    [Section(t.heading, t.content, [])] + PreorderForest(t.children)
  }

  /** The sections of a list of trees in pre-order. */
  function PreorderForest(ts: seq<Section>): seq<Section>
    decreases ts
  {
    if ts == [] then [] else Preorder(ts[0]) + PreorderForest(ts[1..])
  }

  /** The subtrees rooted at the positions `cs`. */
  function Subtrees(secs: seq<Section>, cs: seq<nat>): (r: seq<Section>)
    requires forall k :: 0 <= k < |cs| ==> cs[k] < |secs|
    ensures |r| == |cs|
  {
    seq(|cs|, k requires 0 <= k < |cs| => Subtree(secs, cs[k]))
  }

  /** The end of the run after `j` whose levels are all deeper than `j`'s, searched from `k`. */
  function EndFrom(L: seq<nat>, j: nat, k: nat): (e: nat)
    requires j < k <= |L|
    ensures k <= e <= |L|
    ensures forall m :: k <= m < e ==> L[m] > L[j]
    ensures e == |L| || L[e] <= L[j]
    decreases |L| - k
  {
    if k == |L| || L[k] <= L[j] then k else EndFrom(L, j, k + 1)
  }

  /** Where the block of section `j` ends: the first later position no deeper than `j`, or the end. */
  function End(L: seq<nat>, j: nat): (e: nat)
    requires j < |L|
    ensures j < e <= |L|
    ensures forall m :: j < m < e ==> L[m] > L[j]
    ensures e == |L| || L[e] <= L[j]
  {
    EndFrom(L, j, j + 1)
  }

  /** A block nested in another block ends no later than it. */
  lemma EndWithin(L: seq<nat>, j: nat, k: nat)
    requires j < |L| && j < k < End(L, j)
    ensures End(L, k) <= End(L, j)
  {
  }

  /** The positions of `j`'s block from `k` on that start a block of their own at the top of `j`'s block. */
  function Kids(L: seq<nat>, j: nat, k: nat): (r: seq<nat>)
    requires j < |L| && j < k <= End(L, j)
    ensures forall a :: 0 <= a < |r| ==> k <= r[a] < End(L, j)
    ensures forall a, b :: 0 <= a < b < |r| ==> r[a] < r[b]
    decreases End(L, j) - k
  {
    if k == End(L, j) then []
    else
      EndWithin(L, j, k);
      [k] + Kids(L, j, End(L, k))
  }

  /** Every position between `j` and `k` is at least as deep as `k`. */
  predicate StartsRun(L: seq<nat>, j: nat, k: nat)
    requires k < |L|
  {
    forall m :: j < m < k ==> L[m] >= L[k]
  }

  /** The top-level blocks of `j`'s block from `k` on are exactly the sections whose parent is `j`. */
  lemma {:induction false} KidsAreChildren(L: seq<nat>, j: nat, k: nat)
    requires j < |L| && j < k <= End(L, j)
    requires k < End(L, j) ==> StartsRun(L, j, k)
    ensures forall x :: x in Kids(L, j, k) <==> k <= x < End(L, j) && Parent(L, x) == Some(j)
    decreases End(L, j) - k
  {
    if k < End(L, j) {
      var e := End(L, k);
      EndWithin(L, j, k);
      ParentIs(L, k, j);
      if e < End(L, j) {
        assert StartsRun(L, j, e) by {
          assert L[e] <= L[k];
        }
      }
      KidsAreChildren(L, j, e);
      assert Kids(L, j, k) == [k] + Kids(L, j, e);
      forall x | k < x < e && x < |L|
        ensures Parent(L, x) != Some(j)
      {
        assert L[k] < L[x];
      }
    }
  }

  /** Two strictly increasing sequences with the same elements are equal. */
  lemma {:induction false} IncreasingUnique(a: seq<nat>, b: seq<nat>)
    requires forall p, q :: 0 <= p < q < |a| ==> a[p] < a[q]
    requires forall p, q :: 0 <= p < q < |b| ==> b[p] < b[q]
    requires forall x :: x in a <==> x in b
    ensures a == b
  {
    assert a != [] ==> a[0] in b;
    assert b != [] ==> b[0] in a;
    if a != [] && b != [] {
      assert a[0] in b && b[0] in a;
      assert a[0] == b[0];
      forall x
        ensures x in a[1..] <==> x in b[1..]
      {
        if x in a[1..] {
          assert x in b && x != b[0];
        }
        if x in b[1..] {
          assert x in a && x != a[0];
        }
      }
      IncreasingUnique(a[1..], b[1..]);
      assert a == [a[0]] + a[1..] && b == [b[0]] + b[1..];
    }
  }

  /** The children of `j` are the chain of blocks that starts right after `j`. */
  lemma ChildrenAreKids(L: seq<nat>, j: nat)
    requires j < |L|
    ensures ChildIndices(L, j, |L|) == Kids(L, j, j + 1)
  {
    KidsAreChildren(L, j, j + 1);
    forall x | x in ChildIndices(L, j, |L|)
      ensures x < End(L, j)
    {
      var e := End(L, j);
    }
    IncreasingUnique(ChildIndices(L, j, |L|), Kids(L, j, j + 1));
  }

  /** A subtree is its section with the subtrees of the section's children. */
  lemma SubtreeUnfold(secs: seq<Section>, j: nat)
    requires j < |secs|
    ensures Subtree(secs, j)
            == Section(secs[j].heading, secs[j].content, Subtrees(secs, ChildIndices(Levels(secs), j, |secs|)))
  {
  }

  /** The subtrees of a list of positions, one position at a time. */
  lemma SubtreesCons(secs: seq<Section>, k: nat, ks: seq<nat>)
    requires k < |secs| && forall a :: 0 <= a < |ks| ==> ks[a] < |secs|
    ensures Subtrees(secs, [k] + ks) == [Subtree(secs, k)] + Subtrees(secs, ks)
  {
  }

  /** Pre-order of a list of trees, one tree at a time. */
  lemma PreorderForestCons(t: Section, ts: seq<Section>)
    ensures PreorderForest([t] + ts) == Preorder(t) + PreorderForest(ts)
  {
    assert ([t] + ts)[1..] == ts;
  }

  /** The subtree of section `j`, read in pre-order, is the block of sections from `j` to its end. */
  lemma {:induction false} PreorderSubtree(secs: seq<Section>, j: nat)
    requires j < |secs| && forall k :: 0 <= k < |secs| ==> IsFlat(secs[k])
    ensures Preorder(Subtree(secs, j)) == secs[j..End(Levels(secs), j)]
    decreases |secs| - j, 1, 0
  {
    var L := Levels(secs);
    var ch := Subtrees(secs, Kids(L, j, j + 1));
    assert Subtree(secs, j) == Section(secs[j].heading, secs[j].content, ch) by {
      ChildrenAreKids(L, j);
      SubtreeUnfold(secs, j);
    }
    assert Preorder(Subtree(secs, j)) == [secs[j]] + PreorderForest(ch) by {
      assert Section(secs[j].heading, secs[j].content, []) == secs[j];
    }
    PreorderKids(secs, j, j + 1);
    SliceCons(secs, j, End(L, j));
  }

  /** The subtrees of the top-level blocks of `j`'s block from `k` on, read in pre-order, are the
      sections from `k` to the end of `j`'s block. */
  lemma {:induction false} PreorderKids(secs: seq<Section>, j: nat, k: nat)
    requires j < |secs| && j < k <= End(Levels(secs), j)
    requires forall m :: 0 <= m < |secs| ==> IsFlat(secs[m])
    ensures PreorderForest(Subtrees(secs, Kids(Levels(secs), j, k))) == secs[k..End(Levels(secs), j)]
    decreases |secs| - j, 0, End(Levels(secs), j) - k
  {
    var L := Levels(secs);
    var end := End(L, j);
    if k < end {
      var e := End(L, k);
      EndWithin(L, j, k);
      var ks := Kids(L, j, e);
      assert Kids(L, j, k) == [k] + ks;
      SubtreesCons(secs, k, ks);
      PreorderForestCons(Subtree(secs, k), Subtrees(secs, ks));
      PreorderSubtree(secs, k);
      PreorderKids(secs, j, e);
      SliceSplit(secs, k, e, end);
    }
  }

  /** A slice is the concatenation of its two parts. */
  lemma SliceSplit<T>(s: seq<T>, a: nat, b: nat, c: nat)
    requires a <= b <= c <= |s|
    ensures s[a..c] == s[a..b] + s[b..c]
  {
  }

  /** A non-empty slice is its first element followed by the rest. */
  lemma SliceCons<T>(s: seq<T>, a: nat, c: nat)
    requires a < c <= |s|
    ensures s[a..c] == [s[a]] + s[a + 1..c]
  {
  }

  /** For a well-levelled list of sections, the tree `nest_sections` returns, read in pre-order, is
      the input: same order, same headings, same contents. */
  lemma PreorderIsInput(secs: seq<Section>)
    requires WellLeveled(secs) && forall k :: 0 <= k < |secs| ==> IsFlat(secs[k])
    ensures Preorder(Subtree(secs, 0)) == secs
  {
    var L := Levels(secs);
    PreorderSubtree(secs, 0);
    assert End(L, 0) == |secs|;
  }

  /** Every later section of a well-levelled list hangs in the tree under its nearest strictly
      shallower predecessor, and siblings keep their order. */
  lemma EverySectionPlaced(secs: seq<Section>, c: nat)
    requires WellLeveled(secs) && 1 <= c < |secs|
    ensures Parent(Levels(secs), c).Some?
    ensures var p := Parent(Levels(secs), c).value;
            && secs[p].heading.level < secs[c].heading.level
            && (forall k :: p < k < c ==> secs[k].heading.level >= secs[c].heading.level)
            && Subtree(secs, c) in Subtree(secs, p).children
  {
    var L := Levels(secs);
    var p := Parent(L, c).value;
    var cs := ChildIndices(L, p, |secs|);
    assert c in cs;
    var a :| 0 <= a < |cs| && cs[a] == c;
    assert Subtree(secs, p).children[a] == Subtree(secs, c);
  }
}

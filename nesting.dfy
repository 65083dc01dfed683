/** The tree builder `nest_sections`: a stack algorithm that makes each section the last child of
    the nearest preceding section with a strictly smaller heading level.

    The sections' `children` lists are mutable and shared: `attrs.evolve` copies a section shallowly,
    so a section and its copy hold the same list. The model keeps one list per input position (an
    arena `lists`, where `lists[j]` holds the positions of section `j`'s children), which is shared
    by the input section `j` and its copy exactly as in the source. */
module Nesting {

  import opened Wrappers
  import opened Lines
  import opened Sections

  /** The heading levels of the sections, in order. */
  function Levels(secs: seq<Section>): (r: seq<nat>)
    ensures |r| == |secs| && forall k :: 0 <= k < |secs| ==> r[k] == secs[k].heading.level
  {
    seq(|secs|, k requires 0 <= k < |secs| => secs[k].heading.level)
  }

  /** The nearest position below `j` whose level is strictly smaller than that of position `i`. */
  function ParentBelow(L: seq<nat>, i: nat, j: nat): (r: Option<nat>)
    requires i < |L| && j <= i
    ensures r.Some? ==> r.value < j && L[r.value] < L[i] && forall k :: r.value < k < j ==> L[k] >= L[i]
    ensures r.None? ==> forall k :: 0 <= k < j ==> L[k] >= L[i]
    decreases j
  {
    if j == 0 then None
    else if L[j - 1] < L[i] then Some(j - 1)
    else ParentBelow(L, i, j - 1)
  }

  /** The parent of position `i`: the nearest preceding position with a strictly smaller level. */
  function Parent(L: seq<nat>, i: nat): (r: Option<nat>)
    requires i < |L|
    ensures r.Some? ==> r.value < i && L[r.value] < L[i] && forall k :: r.value < k < i ==> L[k] >= L[i]
    ensures r.None? ==> forall k :: 0 <= k < i ==> L[k] >= L[i]
  {
    ParentBelow(L, i, i)
  }

  /** A preceding position with a smaller level and nothing smaller than `i`'s level in between is the parent. */
  lemma {:induction false} ParentIs(L: seq<nat>, i: nat, t: nat)
    requires t < i < |L| && L[t] < L[i]
    requires forall k :: t < k < i ==> L[k] >= L[i]
    ensures Parent(L, i) == Some(t)
  {
    ParentBelowIs(L, i, i, t);
  }

  lemma {:induction false} ParentBelowIs(L: seq<nat>, i: nat, j: nat, t: nat)
    requires t < j <= i < |L| && L[t] < L[i]
    requires forall k :: t < k < j ==> L[k] >= L[i]
    ensures ParentBelow(L, i, j) == Some(t)
    decreases j
  {
    if j - 1 != t {
      ParentBelowIs(L, i, j - 1, t);
    }
  }

  /** The positions below `m` whose parent is `j`, in increasing order: section `j`'s children
      once the first `m` sections have been placed. */
  function ChildIndices(L: seq<nat>, j: nat, m: nat): (r: seq<nat>)
    requires m <= |L|
    ensures forall x :: x in r <==> 0 <= x < m && Parent(L, x) == Some(j)
    ensures forall a, b :: 0 <= a < b < |r| ==> r[a] < r[b]
  {
    if m == 0 then []
    else
      var prev := ChildIndices(L, j, m - 1);
      if Parent(L, m - 1) == Some(j) then
        assert forall a :: 0 <= a < |prev| ==> prev[a] in prev;
        var r := prev + [m - 1];
        assert forall x :: x in r <==> x in prev || x == m - 1;
        r
      else
        prev
  }

  /** Every child position lies after its parent and within the sections. */
  predicate IsArena(lists: seq<seq<nat>>, n: nat) {
    |lists| == n && forall a, k :: 0 <= a < n && 0 <= k < |lists[a]| ==> a < lists[a][k] < n
  }

  /** The children lists of all sections once the first `m` sections have been placed. */
  function ChildLists(L: seq<nat>, m: nat): (r: seq<seq<nat>>)
    requires m <= |L|
    ensures |r| == |L| && forall j :: 0 <= j < |L| ==> r[j] == ChildIndices(L, j, m)
    ensures IsArena(r, |L|)
  {
    var r := seq(|L|, j requires 0 <= j < |L| => ChildIndices(L, j, m));
    assert forall a, k :: 0 <= a < |L| && 0 <= k < |r[a]| ==> r[a][k] in ChildIndices(L, a, m);
    r
  }

  /** Section `j` as it reads through the shared children lists of the arena. */
  function Materialize(secs: seq<Section>, lists: seq<seq<nat>>, j: nat): Section
    requires IsArena(lists, |secs|) && j < |secs|
    decreases |secs| - j
  {
    var cs := lists[j];
    Section(secs[j].heading, secs[j].content,
            seq(|cs|, k requires 0 <= k < |cs| => Materialize(secs, lists, cs[k])))
  }

  /** The subtree rooted at section `j`: each section's children are the sections whose parent it is. */
  function Subtree(secs: seq<Section>, j: nat): Section
    requires j < |secs|
  {
    Materialize(secs, ChildLists(Levels(secs), |secs|), j)
  }

  /** What `nest_sections` asserts and what keeps `stack[-1]` defined: a first section of level 1,
      and every later section at a deeper level. */
  predicate WellLeveled(secs: seq<Section>) {
    && secs != []
    && secs[0].heading.level == 1
    && forall i :: 1 <= i < |secs| ==> secs[i].heading.level > 1
  }

  /** Positions joined by the parent relation, from bottom to top. */
  predicate StackChain(L: seq<nat>, stack: seq<nat>) {
    forall m :: 0 < m < |stack| ==> stack[m] < |L| && Parent(L, stack[m]) == Some(stack[m - 1])
  }

  /** The stack of `nest_sections` before section `i` is placed: the chain of parents from the root
      (position 0, of level 1) up to the section placed last, with every later level deeper than 1. */
  predicate StackInv(L: seq<nat>, i: nat, stack: seq<nat>) {
    && 1 <= i <= |L| && L[0] == 1
    && (forall k :: 1 <= k < i ==> L[k] > 1)
    && stack != [] && stack[0] == 0 && stack[|stack| - 1] == i - 1
    && (forall m :: 0 <= m < |stack| ==> stack[m] < i)
    && StackChain(L, stack)
  }

  /** Every position from just above the top of `stack` up to `i` has a level of at least `level`. */
  predicate NoneShallowerAbove(L: seq<nat>, stack: seq<nat>, i: nat, level: nat)
    requires i <= |L|
  {
    forall k :: (if stack == [] then 0 else stack[|stack| - 1] + 1) <= k < i ==> L[k] >= level
  }

  /** Popping a top whose level is not smaller keeps every position above the new top at least as deep. */
  lemma PopStep(L: seq<nat>, i: nat, entry: seq<nat>, stack: seq<nat>)
    requires i < |L| && StackInv(L, i, entry)
    requires 0 < |stack| <= |entry| && stack == entry[..|stack|]
    requires NoneShallowerAbove(L, stack, i, L[i]) && L[i] <= L[stack[|stack| - 1]]
    ensures NoneShallowerAbove(L, stack[..|stack| - 1], i, L[i])
  {
    var m := |stack| - 1;
    if m > 0 {
      assert Parent(L, entry[m]) == Some(entry[m - 1]);
    }
  }

  /** Once the top is shallower than section `i`, it is `i`'s parent, and pushing `i` keeps the stack a chain. */
  lemma PushStep(L: seq<nat>, i: nat, entry: seq<nat>, stack: seq<nat>)
    requires i < |L| && StackInv(L, i, entry)
    requires 0 < |stack| <= |entry| && stack == entry[..|stack|]
    requires NoneShallowerAbove(L, stack, i, L[i]) && L[stack[|stack| - 1]] < L[i]
    ensures Parent(L, i) == Some(stack[|stack| - 1])
    ensures StackInv(L, i + 1, stack + [i])
  {
    var top := stack[|stack| - 1];
    ParentIs(L, i, top);
    assert L[top] >= 1;
    var s := stack + [i];
    forall m | 0 < m < |s|
      ensures s[m] < |L| && Parent(L, s[m]) == Some(s[m - 1])
    {
      if m < |stack| {
        assert s[m] == entry[m] && s[m - 1] == entry[m - 1];
      }
    }
  }

  /** A stack emptied by popping means that section `i` is no deeper than the root. */
  lemma EmptiedStack(L: seq<nat>, i: nat)
    requires 1 <= i < |L| && L[0] == 1 && NoneShallowerAbove(L, [], i, L[i])
    ensures L[i] <= 1
  {
  }

  /** `nest_sections`. The assertions reject an empty list and a first level other than 1; a later
      level-1 section pops the whole stack, so `stack[-1]` raises. Otherwise the root is the tree of
      nearest strictly smaller parents. Besides the result, the method gives the children lists as
      they stand when it returns or raises: they are shared with the input sections, which are
      therefore changed too. */
  method NestSections(secs: seq<Section>) returns (r: Result<Section, Exception>, lists: seq<seq<nat>>)
    requires forall k :: 0 <= k < |secs| ==> IsFlat(secs[k])
    ensures r.Ok? <==> WellLeveled(secs)
    ensures r == Err(AssertionError) <==> secs == [] || secs[0].heading.level != 1
    ensures r != Err(ValueError)
    ensures r.Ok? ==> r.value == Subtree(secs, 0)
    ensures r.Ok? ==> lists == ChildLists(Levels(secs), |secs|)
    ensures r == Err(AssertionError) ==> lists == ChildLists(Levels(secs), 0)
    ensures r == Err(IndexError) ==>
              exists i :: 1 <= i < |secs| && secs[i].heading.level <= 1
                          && (forall k :: 1 <= k < i ==> secs[k].heading.level > 1)
                          && lists == ChildLists(Levels(secs), i)
  {
    var L := Levels(secs);
    lists := seq(|secs|, _ => []);
    if secs == [] || secs[0].heading.level != 1 {
      NoChildrenYet(L, 0);
      return Err(AssertionError), lists;
    }
    var failed;
    failed, lists := PlaceSections(L);
    if failed.Some? {
      return Err(IndexError), lists;
    }
    return Ok(Materialize(secs, lists, 0)), lists;
  }

  /** The inner loop of `nest_sections`: pop the stack while its top is not shallower than section `i`. */
  method PopNotShallower(L: seq<nat>, i: nat, entry: seq<nat>) returns (stack: seq<nat>)
    requires i < |L| && StackInv(L, i, entry)
    ensures |stack| <= |entry| && stack == entry[..|stack|]
    ensures NoneShallowerAbove(L, stack, i, L[i])
    ensures stack == [] || L[stack[|stack| - 1]] < L[i]
  {
    stack := entry;
    var level := L[i];
    while stack != [] && level <= L[stack[|stack| - 1]]
      invariant |stack| <= |entry| && stack == entry[..|stack|]
      invariant NoneShallowerAbove(L, stack, i, level)
    {
      PopStep(L, i, entry, stack);
      stack := stack[..|stack| - 1];
    }
  }

  /** The loop of `nest_sections` over `sections[1:]`, once the root has passed the assertions. It
      places the sections one by one until a section pops the whole stack, and gives that section's
      position, if any, with the children lists as they then stand. */
  method PlaceSections(L: seq<nat>) returns (failed: Option<nat>, lists: seq<seq<nat>>)
    requires L != [] && L[0] == 1
    ensures failed.None? ==> (forall k :: 1 <= k < |L| ==> L[k] > 1) && lists == ChildLists(L, |L|)
    ensures failed.Some? ==> var i := failed.value;
                             && 1 <= i < |L| && L[i] <= 1 && (forall k :: 1 <= k < i ==> L[k] > 1)
                             && lists == ChildLists(L, i)
  {
    lists := seq(|L|, _ => []);
    NoChildrenYet(L, 1);
    var stack: seq<nat> := [0];
    ghost var pops := 0;
    var i: nat := 1;
    while i < |L|
      invariant StackInv(L, i, stack)
      invariant lists == ChildLists(L, i)
      invariant pops + |stack| == i
    {
      ghost var entry := stack;
      stack := PopNotShallower(L, i, stack);
      pops := pops + (|entry| - |stack|);
      if stack == [] {
        EmptiedStack(L, i);
        return Some(i), lists;
      }
      var top := stack[|stack| - 1];
      PushStep(L, i, entry, stack);
      ChildListsStep(L, i, top, lists);
      lists := lists[top := lists[top] + [i]];
      stack := stack + [i];
      i := i + 1;
    }
    return None, lists;
  }

  /** Placing section `i` adds it at the end of its parent's list and of no other list. */
  lemma ChildIndicesStep(L: seq<nat>, j: nat, i: nat)
    requires i < |L|
    ensures ChildIndices(L, j, i + 1) == ChildIndices(L, j, i) + (if Parent(L, i) == Some(j) then [i] else [])
  {
  }

  /** Placing section `i` appends it to its parent's list and changes no other list. */
  lemma ChildListsStep(L: seq<nat>, i: nat, p: nat, lists: seq<seq<nat>>)
    requires i < |L| && Parent(L, i) == Some(p)
    requires lists == ChildLists(L, i)
    ensures lists[p := lists[p] + [i]] == ChildLists(L, i + 1)
  {
    var a, b := ChildLists(L, i + 1), lists[p := lists[p] + [i]];
    forall j | 0 <= j < |L|
      ensures a[j] == b[j]
    {
      ChildIndicesStep(L, j, i);
    }
  }

  /** Before any section is placed, and once only the root is, every children list is empty. */
  lemma NoChildrenYet(L: seq<nat>, m: nat)
    requires m <= 1 && m <= |L|
    ensures ChildLists(L, m) == seq(|L|, _ => [])
  {
    var a := ChildLists(L, m);
    forall j | 0 <= j < |L|
      ensures a[j] == []
    {
      if m == 1 {
        ChildIndicesStep(L, j, 0);
      }
    }
  }
}

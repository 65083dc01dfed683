/** `render_nested_sections`: the section tree traversed with an explicit stack. Each section is
    rendered by the renderer its own heading selects or, failing that, by its parent's renderer.
    Because children are pushed in order and popped from the top, siblings come out last to first. */
module Render {

  import opened Wrappers
  import opened Lines
  import opened Sections
  import opened Roles

  /** One call `renderer(section)`: the traversal's output is the list of these calls, and the
      rendered page is their results (see `Payloads.Render`) joined by line breaks. */
  datatype Invocation = Invocation(role: Role, section: Section)

  /** `heading_to_renderer(section.heading) or renderer`. */
  function Choose(resolve: Heading -> Option<Role>, h: Heading, inherited: Role): (r: Role)
    ensures resolve(h).Some? ==> r == resolve(h).value
    ensures resolve(h).None? ==> r == inherited
  {
    resolve(h).GetOr(inherited)
  }

  /** The number of sections in a tree. */
  function Size(t: Section): (n: nat)
    ensures n >= 1
    decreases t
  {
    1 + SizeForest(t.children)
  }

  /** The number of sections in a list of trees. */
  function SizeForest(ts: seq<Section>): nat
    decreases ts
  {
    if ts == [] then 0 else Size(ts[0]) + SizeForest(ts[1..])
  }

  /** What the traversal emits for a tree whose parent was rendered with `inherited`: the tree's
      own section first, then its children's trees, the last child first. One payload per section. */
  function RenderTree(t: Section, inherited: Role, resolve: Heading -> Option<Role>): (r: seq<Invocation>)
    ensures |r| == Size(t)
    ensures r[0] == Invocation(Choose(resolve, t.heading, inherited), t)
    decreases t
  {
    var role := Choose(resolve, t.heading, inherited);
    [Invocation(role, t)] + RenderForest(t.children, role, resolve)
  }

  /** What the traversal emits for a list of sibling trees, the last sibling first. */
  function RenderForest(ts: seq<Section>, role: Role, resolve: Heading -> Option<Role>): (r: seq<Invocation>)
    ensures |r| == SizeForest(ts)
    decreases ts
  {
    if ts == [] then []
    else RenderForest(ts[1..], role, resolve) + RenderTree(ts[0], role, resolve)
  }

  /** What the entries of the stack will still emit, the top entry first. */
  function Pending(stack: seq<(Section, Role)>, resolve: Heading -> Option<Role>): seq<Invocation> {
    if stack == [] then []
    else
      var top := stack[|stack| - 1];
      RenderTree(top.0, top.1, resolve) + Pending(stack[..|stack| - 1], resolve)
  }

  /** The stack entries for the children of a section rendered with `role`, pushed in order. */
  function Entries(ts: seq<Section>, role: Role): (r: seq<(Section, Role)>)
    ensures |r| == |ts| && forall k :: 0 <= k < |ts| ==> r[k] == (ts[k], role)
  {
    seq(|ts|, k requires 0 <= k < |ts| => (ts[k], role))
  }

  /** `render_nested_sections`, with `heading_to_renderer` as the parameter `resolve`: the payloads
      handed to the templates, in the order the rendered sections are joined. */
  method RenderNestedSections(toplevel: Section, resolve: Heading -> Option<Role>) returns (rendered: seq<Invocation>)
    ensures rendered == RenderTree(toplevel, Toplevel, resolve)
  {
    ghost var total := RenderTree(toplevel, Toplevel, resolve);
    rendered := [];
    var stack := [(toplevel, Toplevel)];
    assert Pending(stack, resolve) == total by {
      PendingSnoc([], (toplevel, Toplevel), resolve);
    }
    while stack != []
      invariant rendered + Pending(stack, resolve) == total
      decreases |total| - |rendered|
    {
      var section := stack[|stack| - 1].0;
      var renderer := stack[|stack| - 1].1;
      LastSplit(stack);
      stack := stack[..|stack| - 1];
      ghost var inherited := renderer;
      ghost var done := rendered;
      renderer := Choose(resolve, section.heading, renderer);
      rendered := rendered + [Invocation(renderer, section)];
      ghost var below := stack;
      stack := PushChildren(stack, section.children, renderer);
      RenderStep(done, below, section, inherited, resolve, total);
    }
  }

  /** One round of the loop keeps what has been emitted, followed by what the stack still holds,
      equal to the whole rendering. */
  lemma RenderStep(done: seq<Invocation>, below: seq<(Section, Role)>, t: Section, inherited: Role,
                   resolve: Heading -> Option<Role>, total: seq<Invocation>)
    requires done + Pending(below + [(t, inherited)], resolve) == total
    ensures var role := Choose(resolve, t.heading, inherited);
            (done + [Invocation(role, t)]) + Pending(below + Entries(t.children, role), resolve) == total
  {
    var role := Choose(resolve, t.heading, inherited);
    PopStep(below, t, inherited, resolve);
    PendingPush(below, t.children, role, resolve);
  }

  /** `for child in section.children: stack.append((child, renderer))`. */
  method PushChildren(stack: seq<(Section, Role)>, children: seq<Section>, renderer: Role)
    returns (pushed: seq<(Section, Role)>)
    ensures pushed == stack + Entries(children, renderer)
  {
    pushed := stack;
    var i: nat := 0;
    while i < |children|
      invariant i <= |children|
      invariant pushed == stack + Entries(children[..i], renderer)
    {
      EntriesPrefix(children, i, renderer);
      pushed := pushed + [(children[i], renderer)];
      i := i + 1;
    }
    assert children[..i] == children;
  }

  /** A non-empty sequence is its front followed by its last element. */
  lemma LastSplit<T>(s: seq<T>)
    requires s != []
    ensures s == s[..|s| - 1] + [s[|s| - 1]]
  {
  }

  /** Popping an entry: what the stack still emits is the popped section's payload, its children's
      trees, and then what lies below. */
  lemma PopStep(below: seq<(Section, Role)>, t: Section, inherited: Role, resolve: Heading -> Option<Role>)
    ensures var role := Choose(resolve, t.heading, inherited);
            Pending(below + [(t, inherited)], resolve)
            == [Invocation(role, t)] + (RenderForest(t.children, role, resolve) + Pending(below, resolve))
  {
    PendingSnoc(below, (t, inherited), resolve);
  }

  /** The entries of the first `i + 1` children are those of the first `i`, then child `i`. */
  lemma EntriesPrefix(ts: seq<Section>, i: nat, role: Role)
    requires i < |ts|
    ensures Entries(ts[..i + 1], role) == Entries(ts[..i], role) + [(ts[i], role)]
  {
    EntriesSnoc(ts[..i + 1], role);
    assert ts[..i + 1][..i] == ts[..i];
  }

  /** Pushing the children of a section puts their trees, last child first, ahead of what the
      stack held. */
  lemma {:induction false} PendingPush(below: seq<(Section, Role)>, ts: seq<Section>, role: Role, resolve: Heading -> Option<Role>)
    ensures Pending(below + Entries(ts, role), resolve) == RenderForest(ts, role, resolve) + Pending(below, resolve)
    decreases |ts|
  {
    if ts == [] {
      assert below + Entries(ts, role) == below;
    } else {
      var first := (ts[0], role);
      var deeper := below + [first];
      assert below + Entries(ts, role) == deeper + Entries(ts[1..], role) by {
        assert Entries(ts, role) == [first] + Entries(ts[1..], role);
      }
      PendingPush(deeper, ts[1..], role, resolve);
      PendingSnoc(below, first, resolve);
      Regroup(Pending(below + Entries(ts, role), resolve), RenderForest(ts[1..], role, resolve), Pending(deeper, resolve),
              RenderTree(ts[0], role, resolve), Pending(below, resolve), RenderForest(ts, role, resolve));
    }
  }

  /** `p == a + q` and `q == b + c` give `p == (a + b) + c`. */
  lemma Regroup<T>(p: seq<T>, a: seq<T>, q: seq<T>, b: seq<T>, c: seq<T>, f: seq<T>)
    requires p == a + q && q == b + c && f == a + b
    ensures p == f + c
  {
  }

  /** The entries of a list of children are those of all but the last, then the last. */
  lemma EntriesSnoc(ts: seq<Section>, role: Role)
    requires ts != []
    ensures Entries(ts, role) == Entries(ts[..|ts| - 1], role) + [(ts[|ts| - 1], role)]
  {
  }

  /** The entry on top of the stack emits first. */
  lemma PendingSnoc(stack: seq<(Section, Role)>, top: (Section, Role), resolve: Heading -> Option<Role>)
    ensures Pending(stack + [top], resolve) == RenderTree(top.0, top.1, resolve) + Pending(stack, resolve)
  {
    assert (stack + [top])[..|stack|] == stack;
  }

  /** The siblings of a concatenation: the trees of the second part come first. */
  lemma {:induction false} RenderForestAppend(a: seq<Section>, b: seq<Section>, role: Role, resolve: Heading -> Option<Role>)
    ensures RenderForest(a + b, role, resolve) == RenderForest(b, role, resolve) + RenderForest(a, role, resolve)
    decreases |a|
  {
    if a == [] {
      assert a + b == b;
    } else {
      assert (a + b)[1..] == a[1..] + b;
      RenderForestAppend(a[1..], b, role, resolve);
      Regroup(RenderForest(a + b, role, resolve), RenderForest(b, role, resolve), RenderForest(a[1..], role, resolve) + RenderTree(a[0], role, resolve),
              RenderForest(a[1..], role, resolve), RenderTree(a[0], role, resolve), RenderForest(b, role, resolve) + RenderForest(a[1..], role, resolve));
      assert RenderForest(a, role, resolve) == RenderForest(a[1..], role, resolve) + RenderTree(a[0], role, resolve);
    }
  }

  /** The siblings around sibling `i`: those after it are rendered first, then `i`'s tree, then
      those before it. */
  lemma ForestAround(ts: seq<Section>, i: nat, role: Role, resolve: Heading -> Option<Role>)
    requires i < |ts|
    ensures RenderForest(ts, role, resolve)
            == RenderForest(ts[i + 1..], role, resolve) + RenderTree(ts[i], role, resolve) + RenderForest(ts[..i], role, resolve)
  {
    var rest := [ts[i]] + ts[i + 1..];
    assert ts == ts[..i] + rest;
    RenderForestAppend(ts[..i], rest, role, resolve);
    RenderForestAppend([ts[i]], ts[i + 1..], role, resolve);
    assert RenderForest([ts[i]], role, resolve) == RenderTree(ts[i], role, resolve) by {
      assert [ts[i]][1..] == [];
    }
  }

  /** The calls for a tree: first the section itself, with the renderer its heading selects or
      the inherited one; then, for every child `i`, the children after `i`, the tree of `i`
      rendered with the section's renderer, and the children before `i`. */
  lemma ChildBlock(t: Section, inherited: Role, resolve: Heading -> Option<Role>, i: nat)
    requires i < |t.children|
    ensures var role := Choose(resolve, t.heading, inherited);
            RenderTree(t, inherited, resolve)
            == [Invocation(role, t)] + RenderForest(t.children[i + 1..], role, resolve)
               + RenderTree(t.children[i], role, resolve) + RenderForest(t.children[..i], role, resolve)
  {
    var role := Choose(resolve, t.heading, inherited);
    ForestAround(t.children, i, role, resolve);
  }

  /** With a lookup that selects no renderer, every section is rendered with the renderer the
      traversal started from. */
  lemma {:induction false} InheritTree(t: Section, inherited: Role, resolve: Heading -> Option<Role>)
    requires forall h :: resolve(h) == None
    ensures forall p :: p in RenderTree(t, inherited, resolve) ==> p.role == inherited
    decreases t, 1
  {
    InheritForest(t.children, inherited, resolve);
  }

  /** The sibling version of `InheritTree`. */
  lemma {:induction false} InheritForest(ts: seq<Section>, role: Role, resolve: Heading -> Option<Role>)
    requires forall h :: resolve(h) == None
    ensures forall p :: p in RenderForest(ts, role, resolve) ==> p.role == role
    decreases ts, 0
  {
    if ts != [] {
      InheritTree(ts[0], role, resolve);
      InheritForest(ts[1..], role, resolve);
    }
  }

  /** As written, `render_nested_sections` renders every section of every tree with
      `render_toplevel`: the ingredient and preparation renderers are never used. */
  lemma AsWrittenAllToplevel(t: Section)
    ensures forall p :: p in RenderTree(t, Toplevel, HeadingToRenderer) ==> p.role == Toplevel
  {
    InheritTree(t, Toplevel, HeadingToRenderer);
  }

  /** A recipe with a level-2 ingredients section: the lookup as written renders the section with
      `render_toplevel`, the lookup by text with `render_ingredients`. */
  lemma IngredientsSectionRendered()
    ensures var ing := Section(Heading(IngredientsTitle, 2), ["salt"], []);
            var recipe := Section(Heading("soup", 1), [], [ing]);
            && RenderTree(recipe, Toplevel, HeadingToRenderer) == [Invocation(Toplevel, recipe), Invocation(Toplevel, ing)]
            && RenderTree(recipe, Toplevel, ResolveByText) == [Invocation(Toplevel, recipe), Invocation(Ingredients, ing)]
  {
    var ing := Section(Heading(IngredientsTitle, 2), ["salt"], []);
    var recipe := Section(Heading("soup", 1), [], [ing]);
    assert "soup" != IngredientsTitle;
    assert [ing][1..] == [];
  }
}

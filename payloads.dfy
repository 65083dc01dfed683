/** What each renderer takes out of a section and hands to its template (`render_toplevel`,
    `render_ingredients`, `render_prep`). The templates themselves are not modelled. */
module Payloads {

  import opened Builtins
  import opened MoreItertools
  import opened Lines
  import opened Sections
  import opened Roles

  /** The values a renderer passes to its template, besides the heading. */
  datatype Payload =
    | TopPayload(heading: Heading, description: string)
    | IngredientsPayload(heading: Heading, ingredients: seq<string>)
    | PrepPayload(heading: Heading, steps: seq<string>)

  /** The predicate of `split_at` in `render_prep`: `lambda s: not s`. */
  predicate IsBlank(s: string) {
    s == ""
  }

  /** `"\n".join(filter(bool, content))`: the non-empty lines, one per line. */
  function Description(content: seq<string>): (r: string)
    ensures r == "" <==> forall k :: 0 <= k < |content| ==> content[k] == ""
  {
    var xs := NonEmpty(content);
    if xs == [] then
      assert forall k :: 0 <= k < |content| ==> content[k] !in xs;
      JoinWith("\n", xs)
    else
      assert xs[0] in xs;
      JoinWithFirst("\n", xs);
      JoinWith("\n", xs)
  }

  /** `list(filter(bool, content))`: the non-empty lines in order, each kept as it is, so a line of
      spaces is an ingredient. */
  function IngredientList(content: seq<string>): (r: seq<string>)
    ensures forall x :: x in r <==> x in content && x != ""
    ensures multiset(r) == multiset(content)["" := 0]
  {
    NonEmpty(content)
  }

  /** The blocks of lines between empty lines, as `split_at(content, lambda s: not s)` yields them. */
  function StepBlocks(content: seq<string>): (r: seq<seq<string>>)
    ensures |r| == CountWhere(content, IsBlank) + 1
    ensures forall k, m :: 0 <= k < |r| && 0 <= m < |r[k]| ==> r[k][m] != ""
  {
    SplitAt(content, IsBlank)
  }

  /** The steps of `render_prep`: every block of lines between empty lines joined into one step.
      Two empty lines in a row make an empty step, and there is one step more than there are empty lines. */
  function Steps(content: seq<string>): (r: seq<string>)
    ensures |r| == CountWhere(content, IsBlank) + 1
  {
    var blocks := StepBlocks(content);
    seq(|blocks|, k requires 0 <= k < |blocks| => JoinWith("\n", blocks[k]))
  }

  /** The payload the renderer of `role` makes of section `s`. */
  function Render(role: Role, s: Section): (r: Payload)
    ensures r.heading == s.heading
    ensures role == Toplevel <==> r.TopPayload?
    ensures role == Ingredients <==> r.IngredientsPayload?
    ensures role == Prep <==> r.PrepPayload?
    ensures r.TopPayload? ==> r.description == Description(s.content)
    ensures r.IngredientsPayload? ==> r.ingredients == IngredientList(s.content)
    ensures r.PrepPayload? ==> r.steps == Steps(s.content)
  {
    match role
    case Toplevel => TopPayload(s.heading, Description(s.content))
    case Ingredients => IngredientsPayload(s.heading, IngredientList(s.content))
    case Prep => PrepPayload(s.heading, Steps(s.content))
  }

  /** The renderer a payload came from: each renderer's payload names it back. */
  lemma RenderRoleOf(role: Role, s: Section)
    ensures RoleOf(Render(role, s)) == role
  {
  }

  /** The role whose renderer made a payload. */
  function RoleOf(p: Payload): (r: Role)
    ensures r == Toplevel <==> p.TopPayload?
    ensures r == Ingredients <==> p.IngredientsPayload?
  {
    match p
    case TopPayload(_, _) => Toplevel
    case IngredientsPayload(_, _) => Ingredients
    case PrepPayload(_, _) => Prep
  }

  /** Lines of a section's content never hold a line break. */
  predicate SingleLines(content: seq<string>) {
    forall k :: 0 <= k < |content| ==> '\n' !in content[k]
  }

  /** The description, split back into lines, is the ingredient list of the same content: the
      non-empty lines in order. */
  lemma DescriptionLines(content: seq<string>)
    requires SingleLines(content)
    ensures SplitLines(Description(content)) == IngredientList(content)
  {
    var xs := NonEmpty(content);
    forall k | 0 <= k < |xs|
      ensures '\n' !in xs[k]
    {
      assert xs[k] in content;
    }
    assert xs != [] ==> xs[|xs| - 1] in xs;
    SplitLinesJoin(xs);
  }

  /** Every step split back into its lines. */
  function StepLines(steps: seq<string>): (r: seq<seq<string>>)
    ensures |r| == |steps| && forall k :: 0 <= k < |steps| ==> r[k] == SplitLines(steps[k])
  {
    seq(|steps|, k requires 0 <= k < |steps| => SplitLines(steps[k]))
  }

  /** Splitting every step back into lines and joining the blocks with empty lines gives back the
      content: `render_prep` loses no line and adds none. */
  lemma StepsRoundTrip(content: seq<string>)
    requires SingleLines(content)
    ensures JoinWith([""], StepLines(Steps(content))) == content
  {
    var blocks := StepBlocks(content);
    var steps := Steps(content);
    forall k | 0 <= k < |blocks|
      ensures SplitLines(steps[k]) == blocks[k]
    {
      BlockLines(content, blocks, k);
    }
    assert StepLines(steps) == blocks;
    JoinSplitAt(content, IsBlank, "");
  }

  /** One block of lines survives being joined and split again. */
  lemma BlockLines(content: seq<string>, blocks: seq<seq<string>>, k: nat)
    requires SingleLines(content) && blocks == StepBlocks(content) && k < |blocks|
    ensures SplitLines(JoinWith("\n", blocks[k])) == blocks[k]
  {
    var b := blocks[k];
    JoinSplitAt(content, IsBlank, "");
    forall m | 0 <= m < |b|
      ensures '\n' !in b[m]
    {
      InJoinWith([""], blocks, k, m);
    }
    SplitLinesJoin(b);
  }
}

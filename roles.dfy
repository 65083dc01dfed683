/** Role resolution: `heading_to_renderer` and the tables it reads. The three renderers
    (`render_toplevel`, `render_ingredients`, `render_prep`) are modelled by the role they give
    a section; what the templates make of it is not modelled. */
module Roles {

  import opened Wrappers
  import opened Lines

  /** The renderer a section is rendered with. */
  datatype Role = Toplevel | Ingredients | Prep

  /** A key of a Python dictionary that may hold both strings and `Heading` objects. A string never
      equals a `Heading`, so the two kinds of keys never match each other. */
  datatype Key = TextKey(text: string) | HeadingKey(heading: Heading)

  /** The heading text of the ingredients section ("ingredients"). */
  const IngredientsTitle: string := "חומרים"
  /** The heading texts of the preparation section ("instructions", "preparation instructions"). */
  const PrepTitle: string := "הוראות"
  const PrepFullTitle: string := "הוראות הכנה"

  /** `_RENDER_MAPPING`: each special renderer with the heading texts it handles, in source order. */
  const RenderMapping: seq<(Role, seq<string>)> := [(Ingredients, [IngredientsTitle]), (Prep, [PrepTitle, PrepFullTitle])]

  /** Inserts every text of `values` into `table` with the value `role`, later entries overwriting earlier ones. */
  function InsertAll(table: map<Key, Role>, values: seq<string>, role: Role): (r: map<Key, Role>)
    ensures forall k :: k in r <==> k in table || (k.TextKey? && k.text in values)
    ensures forall v :: v in values ==> r[TextKey(v)] == role
    ensures forall k :: k in table && !(k.TextKey? && k.text in values) ==> r[k] == table[k]
    decreases |values|
  {
    if values == [] then table
    else
      var r := InsertAll(table[TextKey(values[0]) := role], values[1..], role);
      assert forall v :: v in values ==> v == values[0] || v in values[1..];
      r
  }

  /** The dictionary comprehension `{value: key for key, values in mapping for value in values}`. */
  function Reverse(table: map<Key, Role>, mapping: seq<(Role, seq<string>)>): (r: map<Key, Role>)
    ensures forall k :: k in r ==> k in table || k.TextKey?
    decreases |mapping|
  {
    if mapping == [] then table
    else Reverse(InsertAll(table, mapping[0].1, mapping[0].0), mapping[1..])
  }

  /** `_HEADING_TO_RENDER_MAPPING`: heading text to renderer. Every key is a text. */
  function HeadingToRenderMapping(): (r: map<Key, Role>)
    ensures forall k :: k in r ==> k.TextKey?
  {
    Reverse(map[], RenderMapping)
  }

  /** The reverse table holds exactly the three titles. */
  lemma HeadingToRenderMappingContents()
    ensures HeadingToRenderMapping()
            == map[TextKey(IngredientsTitle) := Ingredients, TextKey(PrepTitle) := Prep, TextKey(PrepFullTitle) := Prep]
  {
    var expected := map[TextKey(IngredientsTitle) := Ingredients, TextKey(PrepTitle) := Prep, TextKey(PrepFullTitle) := Prep];
    var m0 := InsertAll(map[], [IngredientsTitle], Ingredients);
    var m1 := InsertAll(m0, [PrepTitle, PrepFullTitle], Prep);
    assert Reverse(map[], RenderMapping) == Reverse(m0, RenderMapping[1..]);
    assert Reverse(m0, RenderMapping[1..]) == Reverse(m1, RenderMapping[1..][1..]);
    assert RenderMapping[1..][1..] == [];
    assert m1.Keys == expected.Keys;
  }

  /** `dict.get`. */
  function Get(table: map<Key, Role>, key: Key): (r: Option<Role>)
    ensures r.Some? <==> key in table
    ensures r.Some? ==> r.value == table[key]
  {
    if key in table then Some(table[key]) else None
  }

  /** `heading_to_renderer` as written: headings other than level 2 get no renderer, and level-2
      headings are looked up as `Heading` objects in a table keyed by text, so no heading ever
      gets a renderer of its own. */
  function HeadingToRenderer(h: Heading): (r: Option<Role>)
    ensures r == None
  {
    if h.level != 2 then None
    else Get(HeadingToRenderMapping(), HeadingKey(h))
  }

  /** The lookup `heading_to_renderer` evidently means: a level-2 heading is looked up by its text. */
  function ResolveByText(h: Heading): (r: Option<Role>)
    ensures r == Some(Ingredients) <==> h.level == 2 && h.text == IngredientsTitle
    ensures r == Some(Prep) <==> h.level == 2 && (h.text == PrepTitle || h.text == PrepFullTitle)
    ensures r != Some(Toplevel)
  {
    HeadingToRenderMappingContents();
    if h.level != 2 then None
    else Get(HeadingToRenderMapping(), TextKey(h.text))
  }

  /** The heading of a level-2 ingredients section gets a renderer from the lookup by text and none
      from the lookup as written. */
  lemma LookupByObjectMissesTitles()
    ensures HeadingToRenderer(Heading(IngredientsTitle, 2)) == None
    ensures ResolveByText(Heading(IngredientsTitle, 2)) == Some(Ingredients)
  {
  }
}

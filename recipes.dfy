/** A whole recipe from its text. `main.py`'s `parse_recipe_text` takes the flat sections by
    position (name and description, ingredients, steps); `parser.py`'s `parse_recipe_text` nests
    the sections into one tree named after its root. */
module Recipes {

  import opened Wrappers
  import opened Builtins
  import opened MoreItertools
  import opened Lines
  import opened Sections
  import opened Nesting
  import opened TreeOrder
  import opened Roles
  import opened Payloads

  /** The recipe of `main.py`. */
  datatype Recipe = Recipe(name: string, description: string, ingredients: seq<string>, steps: seq<string>)

  /** The recipe of `parser.py`: the name and the tree of sections under the title. */
  datatype RecipeTree = RecipeTree(name: string, toplevel: Section)

  /** The headings of the text, in the order of its heading lines. */
  function TextHeadings(text: string): seq<Heading> {
    HeadingsOf(Classify(text))
  }

  /** Every plain line holds no line break. */
  predicate PlainsSingle(lines: seq<Line>) {
    forall k :: 0 <= k < |lines| && lines[k].Plain? ==> '\n' !in lines[k].text
  }

  /** The recipe `main.py` makes of its sections: the first gives name and description, the second
      the ingredients and the third the steps, whatever their headings say. `sections[0]`,
      `sections[1]` and `sections[2]` raise `IndexError` when there are fewer than three. */
  function RecipeFromSections(secs: seq<Section>): (r: Result<Recipe, Exception>)
    ensures r.Ok? <==> |secs| >= 3
    ensures r.Err? ==> r.error == IndexError
    ensures r.Ok? ==> r.value.name == secs[0].heading.text
    ensures r.Ok? ==> forall x :: x in r.value.ingredients <==> x in secs[1].content && x != ""
    ensures r.Ok? ==> |r.value.steps| == CountWhere(secs[2].content, IsBlank) + 1
    ensures r.Ok? ==> && r.value.description == Description(secs[0].content)
                      && r.value.ingredients == IngredientList(secs[1].content)
                      && r.value.steps == Steps(secs[2].content)
  {
    if |secs| < 3 then Err(IndexError)
    else Ok(Recipe(secs[0].heading.text, Description(secs[0].content),
                   IngredientList(secs[1].content), Steps(secs[2].content)))
  }

  /** `main.py`'s `parse_recipe_text`. A text whose first line is not a heading trips the assert of
      `Section.from_lines`; a text with fewer than three heading lines raises `IndexError`; otherwise
      the recipe is named after the first heading line. */
  function ParseRecipeText(text: string): (r: Result<Recipe, Exception>)
    ensures r == Err(AssertionError) <==> text != [] && (SplitLines(text)[0] == [] || SplitLines(text)[0][0] != '#')
    ensures r == Err(IndexError) <==> ParseSections(text).Ok? && |TextHeadings(text)| < 3
    ensures r != Err(ValueError)
    ensures r.Ok? ==> r.value.name == TextHeadings(text)[0].text
  {
    match ParseSections(text)
    case Err(e) => Err(e)
    case Ok(secs) =>
      SectionPerHeading(text);
      RecipeFromSections(secs)
  }

  /** The classified lines of a text hold no line break. */
  lemma ClassifySingle(text: string)
    ensures PlainsSingle(Classify(text))
  {
    var lines := Classify(text);
    forall k | 0 <= k < |lines| && lines[k].Plain?
      ensures '\n' !in lines[k].text
    {
      assert lines[k].text == SplitLines(text)[k];
    }
  }

  /** Sections whose lines hold no line break have single-line contents. */
  lemma {:induction false} UnsegmentSingle(secs: seq<Section>)
    requires PlainsSingle(Unsegment(secs))
    ensures forall k :: 0 <= k < |secs| ==> SingleLines(secs[k].content)
  {
    if secs != [] {
      var first := SectionLines(secs[0]);
      var rest := Unsegment(secs[1..]);
      assert Unsegment(secs) == first + rest;
      forall m | 0 <= m < |secs[0].content|
        ensures '\n' !in secs[0].content[m]
      {
        assert (first + rest)[1 + m] == Plain(secs[0].content[m]);
      }
      forall k | 0 <= k < |rest| && rest[k].Plain?
        ensures '\n' !in rest[k].text
      {
        assert (first + rest)[|first| + k] == rest[k];
      }
      UnsegmentSingle(secs[1..]);
      forall k | 1 <= k < |secs|
        ensures SingleLines(secs[k].content)
      {
        assert secs[k] == secs[1..][k - 1];
      }
    }
  }

  /** The sections of a text have single-line contents. */
  lemma SectionsSingle(text: string)
    requires ParseSections(text).Ok?
    ensures forall k :: 0 <= k < |ParseSections(text).value| ==> SingleLines(ParseSections(text).value[k].content)
  {
    ClassifySingle(text);
    UnsegmentSingle(ParseSections(text).value);
  }

  /** Nothing of the recipe's sections is lost: the description split into lines is the first
      section's non-empty lines, and the steps split into lines and joined with empty lines are the
      third section's content. */
  lemma RecipeRoundTrip(text: string)
    requires ParseRecipeText(text).Ok?
    ensures SplitLines(ParseRecipeText(text).value.description) == IngredientList(ParseSections(text).value[0].content)
    ensures JoinWith([""], StepLines(ParseRecipeText(text).value.steps)) == ParseSections(text).value[2].content
  {
    var secs := ParseSections(text).value;
    SectionsSingle(text);
    DescriptionLines(secs[0].content);
    StepsRoundTrip(secs[2].content);
  }

  /** The sections are taken by position: a second section headed as the preparation and a third
      headed as the ingredients still give the ingredients and the steps, in that order. */
  lemma SectionsByPosition()
    ensures RecipeFromSections([Section(Heading("soup", 1), ["hot"], []),
                                Section(Heading(PrepTitle, 2), ["salt", "", "water"], []),
                                Section(Heading(IngredientsTitle, 2), ["boil", "", "", "serve"], [])])
            == Ok(Recipe("soup", "hot", ["salt", "water"], ["boil", "", "serve"]))
  {
    DescriptionExample();
    IngredientsSkipBlank();
    StepsKeepEmpty();
  }

  /** A single line is its own description. */
  lemma DescriptionExample()
    ensures Description(["hot"]) == "hot"
  {
    var c: seq<string> := ["hot"];
    assert NonEmpty(c) == c by {
      assert c[1..] == [];
    }
  }

  /** An empty line is no ingredient. */
  lemma IngredientsSkipBlank()
    ensures IngredientList(["salt", "", "water"]) == ["salt", "water"]
  {
    var salt: seq<string> := ["salt"];
    var blank: seq<string> := [""];
    var water: seq<string> := ["water"];
    assert NonEmpty(blank) == [] by {
      assert blank[1..] == [];
    }
    NonEmptyIdentity(salt);
    NonEmptyIdentity(water);
    NonEmptyAppend(salt, blank);
    NonEmptyAppend(salt + blank, water);
    assert salt + blank + water == ["salt", "", "water"];
  }

  /** Two empty lines in a row make an empty step. */
  lemma StepsKeepEmpty()
    ensures Steps(["boil", "", "", "serve"]) == ["boil", "", "serve"]
  {
    var c3: seq<string> := ["serve"];
    var c2 := [""] + c3;
    var c1 := [""] + c2;
    var content := ["boil"] + c1;
    assert SplitAt(c3, IsBlank) == [c3] by {
      assert c3[1..] == [];
      assert SplitAt(c3[1..], IsBlank) == [[]];
      assert !IsBlank(c3[0]);
      assert [c3[0]] + [] == c3;
    }
    assert SplitAt(c2, IsBlank) == [[], c3] by {
      assert c2[1..] == c3;
    }
    assert SplitAt(c1, IsBlank) == [[], [], c3] by {
      assert c1[1..] == c2;
    }
    assert SplitAt(content, IsBlank) == [["boil"], [], c3] by {
      assert content[1..] == c1;
      assert !IsBlank(content[0]);
      assert [content[0]] + [] == ["boil"];
    }
    assert content == ["boil", "", "", "serve"];
  }

  /** `parser.py`'s `parse_recipe_text`: segment the text, nest its sections and name the recipe
      after the root. It fails exactly when segmenting or nesting fails; otherwise the tree read in
      pre-order gives back the classified lines of the text. */
  method ParseRecipeTree(text: string) returns (r: Result<RecipeTree, Exception>)
    ensures r.Ok? <==> ParseSections(text).Ok? && WellLeveled(ParseSections(text).value)
    ensures r == Err(AssertionError) <==>
              ParseSections(text).Err? || TextHeadings(text) == [] || TextHeadings(text)[0].level != 1
    ensures r != Err(ValueError)
    ensures r.Ok? ==> r.value.name == TextHeadings(text)[0].text
    ensures r.Ok? ==> r.value.toplevel == Subtree(ParseSections(text).value, 0)
    ensures r.Ok? ==> Unsegment(Preorder(r.value.toplevel)) == Classify(text)
  {
    var parsed := ParseSections(text);
    if parsed.Err? {
      return Err(parsed.error);
    }
    var secs := parsed.value;
    SectionPerHeading(text);
    var nested, _ := NestSections(secs);
    if nested.Err? {
      return Err(nested.error);
    }
    PreorderIsInput(secs);
    return Ok(RecipeTree(nested.value.heading.text, nested.value));
  }
}

# SeferBishul recipe pipeline, modelled in Dafny

SeferBishul turns recipes written as Markdown-like text into HTML pages. This project models the
part of it that gives a recipe its structure, and proves properties of that model:

- **Line classifier** (`parse_heading`, `parse_line`). A line starting with `#` is a heading. Its
  level is the length of the leading `#` run, with no cap. Its text is the rest of the line,
  stripped. Any other line stays a plain string.
- **Segmenter** (`Section.from_lines`, `parse_sections`). The classified lines are grouped by
  `more_itertools.split_before`, one section per heading line. A first line that is not a heading
  trips an assert.
- **Tree builder** (`nest_sections`). A stack algorithm makes every later section the last child of
  the nearest preceding section with a strictly smaller level. It raises on an empty list, on a
  first level other than 1, and on any later level-1 section.
- **Role resolution and traversal** (`heading_to_renderer`, `render_nested_sections`). An explicit
  stack walks the tree. Each section is rendered with its own renderer if its heading selects one,
  and otherwise with its parent's; the root starts from `render_toplevel`.
- **Payloads** (`render_toplevel`, `render_ingredients`, `render_prep`, `parse_recipe_text`):
  - the description is the non-empty lines joined with line breaks;
  - the ingredients are the non-empty lines;
  - the steps are the blocks between empty lines.
- **Recipes** (`parse_recipe_text` in both `main.py` and `parser.py`). `main.py` takes the first
  three sections by position. `parser.py` nests the sections into one tree.
- **Index** (`render_index`). One entry per recipe file, with `.md` replaced by `.html` in the link,
  sorted by recipe name and then by link.

The pipeline is written twice, almost line for line: in `src/sefer_bishul/main.py:110-169` and in
`src/sefer_bishul/parser.py:25-84`. It is modelled once. The table cites `main.py` for the shared
code, except for `nest_sections`, which cites `parser.py`. Only `parse_recipe_text` differs between
the two files, so each version has its own member.

Modules:

- `Wrappers`: `Option`, `Result`, and the Python exceptions the code raises.
- `MoreItertools`: `split_before`, `split_at`, `join`.
- `Builtins`: `str.strip`, `str.splitlines`, `filter(bool, …)`.
- `Lines`, `Sections`: the classifier and the segmenter.
- `Nesting`: `nest_sections`, as a method with its stack, proved against a specification of parents
  and children.
- `TreeOrder`: the shape of the tree it builds.
- `Roles`: `heading_to_renderer` and its tables.
- `Payloads`: what each renderer computes.
- `Render`: `render_nested_sections`, as a method with its stack, proved against a recursive
  specification.
- `Recipes`: both versions of `parse_recipe_text`.
- `Index`: `render_index`, and the page names `main` writes.

How the model represents the source:

- **Sections.** Heading and content are values. A section's children in `nest_sections` are shared,
  mutable lists: `attrs.evolve` copies a section shallowly, so the copy and the original share one
  list. The method therefore keeps one children list per input section (a list of positions) and
  returns those lists besides the tree. This shows that the input sections' own children lists are
  filled in too.
- **Renderers.** Each renderer is the `Role` it gives a section. What a template makes of a section
  is not modelled.
- **Resolver.** `render_nested_sections` takes the resolver as a parameter. Inheritance is proved
  for any resolver, and then applied to `heading_to_renderer` as written.

## Model

| member | source | states |
|---|---|---|
| `Builtins.StripBy` | src/sefer_bishul/main.py:129 | `str.strip`: the result neither starts nor ends with a dropped character |
| `Builtins.StripByAround` | src/sefer_bishul/main.py:129 | stripping removes strippable characters around one piece of the string and nothing else |
| `Builtins.Strip` | src/sefer_bishul/main.py:129 | `.strip()`: a piece of the line with only whitespace before and after it, and no whitespace at either end |
| `Builtins.StripLeft` | src/sefer_bishul/main.py:129 | the result is a suffix of the input; only dropped characters were removed, and the first one left is kept |
| `Builtins.StripRight` | src/sefer_bishul/main.py:129 | the result is a prefix of the input; only dropped characters were removed, and the last one left is kept |
| `Builtins.StripStripped` | src/sefer_bishul/main.py:129 | stripping a text that is already stripped changes nothing |
| `Builtins.StripIdempotent` | src/sefer_bishul/main.py:129 | stripping twice is stripping once |
| `Builtins.StripPadded` | src/sefer_bishul/main.py:129 | stripping a stripped text with whitespace before it gives back the text |
| `Builtins.SplitLines` | src/sefer_bishul/main.py:141 | `splitlines`: no line holds a line break; there are no lines exactly when the text is empty |
| `Builtins.SplitLinesRoundTrip` | src/sefer_bishul/main.py:141 | the lines joined with `\n`, plus the final break if the text had one, give back the text |
| `Builtins.SplitLinesJoin` | src/sefer_bishul/main.py:141 | lines without breaks whose last line is not empty survive being joined and split again |
| `Builtins.NonEmpty` | src/sefer_bishul/main.py:63 | `filter(bool, …)`: a string is kept iff it is in the input and is not empty, and each is kept as often as it occurs |
| `Builtins.NonEmptyAppend` | src/sefer_bishul/main.py:73 | filtering keeps order: it distributes over concatenation |
| `Builtins.NonEmptyIdentity` | src/sefer_bishul/main.py:73 | a list without empty strings is unchanged by the filter |
| `MoreItertools.SplitBefore` | src/sefer_bishul/main.py:143-145 | `split_before`: the groups concatenate to the input, none is empty, every group but the first starts with a match, and no match occurs inside a group |
| `MoreItertools.SplitBeforeCons` | src/sefer_bishul/main.py:143-145 | a group free of matches after its first element, followed by a list that starts with a match, is split off as the first group |
| `MoreItertools.SplitBeforeConcat` | src/sefer_bishul/main.py:143-145 | splitting the concatenation of well-formed groups gives back the groups |
| `MoreItertools.SplitAt` | src/sefer_bishul/main.py:85 | `split_at`: one group more than there are separators; no group holds a separator |
| `MoreItertools.JoinSplitAt` | src/sefer_bishul/main.py:85 | joining the groups with the one separator value gives back the input |
| `MoreItertools.SplitAtJoin` | src/sefer_bishul/main.py:85 | splitting groups that were joined with a separator gives back the groups |
| `MoreItertools.SplitAtFree` | src/sefer_bishul/main.py:85 | a list without separators is one group |
| `MoreItertools.SplitAtFirst` | src/sefer_bishul/main.py:85 | a run ending at the first separator becomes the first group |
| `MoreItertools.JoinWithLast` | src/sefer_bishul/main.py:84 | `join` of several groups is the join of all but the last, the separator, then the last |
| `MoreItertools.JoinWith` | src/sefer_bishul/main.py:84 | `sep.join(groups)`: the groups in order with the separator between neighbours; its properties are stated by `JoinWithFirst`, `JoinWithLast`, `InJoinWith`, `JoinSplitAt` and `SplitLinesJoin` |
| `MoreItertools.JoinWithFirst` | src/sefer_bishul/main.py:63 | the join begins with the first group |
| `MoreItertools.InJoinWith` | src/sefer_bishul/main.py:84 | every element of every group appears in the join |
| `Lines.HashRun` | src/sefer_bishul/main.py:127-128 | the level is the length of the maximal leading `#` run |
| `Lines.ParseHeading` | src/sefer_bishul/main.py:126-131 | a heading iff the line starts with `#`; the level is the maximal `#` run (any value of at least 1, no cap); the text is the rest of the line, stripped |
| `Lines.ParseLine` | src/sefer_bishul/main.py:134-137 | a heading iff the line starts with `#`, and then the one `parse_heading` returns; otherwise the line itself, unchanged (also `""`) |
| `Lines.Repeat` | src/sefer_bishul/main.py:127 | a run of `n` copies of one character |
| `Lines.HashRunOf` | src/sefer_bishul/main.py:127-128 | `n` hashes followed by a non-hash give level `n` |
| `Lines.HeadingLineHashRun` | src/sefer_bishul/main.py:127-128 | a written-out heading has exactly its level of leading hashes |
| `Lines.SpacedText` | src/sefer_bishul/main.py:129 | the text after the hashes and a space, stripped, is the heading text |
| `Lines.ParseLineOf` | src/sefer_bishul/main.py:134-137 | a line with `n` leading hashes and stripped rest `t` is the heading `(t, n)` |
| `Lines.HeadingRoundTrip` | src/sefer_bishul/main.py:126-131 | writing a heading out as `#`s, a space and its text, and classifying the line, gives the heading back |
| `Lines.LineRoundTrip` | src/sefer_bishul/main.py:134-137 | every line the classifier can produce survives being written out and classified again |
| `Sections.Plains` | src/sefer_bishul/main.py:118 | a section's content as classified lines: the same strings, as plain lines |
| `Sections.FromLines` | src/sefer_bishul/main.py:116-123 | an empty group raises `ValueError` (unpacking); a group starting with a plain line raises `AssertionError`; otherwise the section's heading and content are the group |
| `Sections.SectionsFromGroups` | src/sefer_bishul/main.py:147 | all groups become sections iff each starts with a heading, else `AssertionError`; the sections' lines are the groups' lines |
| `Sections.Classify` | src/sefer_bishul/main.py:141 | one classified line per line of the text, each as `parse_line` classifies it |
| `Sections.Segment` | src/sefer_bishul/main.py:143-147 | no lines give no sections; it fails (`AssertionError`) iff the first line is plain; the sections' headings and contents reproduce the lines |
| `Sections.ParseSections` | src/sefer_bishul/main.py:140-147 | empty text gives no sections; the text is accepted iff its first line starts with `#`; the sections reproduce the classified lines and have no children yet |
| `Sections.SectionGroups` | src/sefer_bishul/main.py:143-145 | the groups of a list of sections: one per section, its heading and then its content |
| `Sections.UnsegmentConcat` | src/sefer_bishul/main.py:143-147 | the lines of the sections are the concatenation of their groups |
| `Sections.FromSectionLines` | src/sefer_bishul/main.py:116-123 | making a section of a section's own lines gives the section back |
| `Sections.SectionsFromSectionGroups` | src/sefer_bishul/main.py:147 | making sections of the groups of sections gives the sections back |
| `Sections.SegmentUnsegment` | src/sefer_bishul/main.py:140-147 | segmenting the lines of flat sections (no children yet, as `from_lines` makes them) gives those sections back |
| `Sections.Headings` | src/sefer_bishul/main.py:140-147 | the headings of a list of sections, in order |
| `Sections.HeadingsOfAppend` | src/sefer_bishul/main.py:141 | the heading lines of a concatenation are those of each part, in order |
| `Sections.HeadingsOfPlains` | src/sefer_bishul/main.py:118 | a section's content holds no heading |
| `Sections.HeadingsOfUnsegment` | src/sefer_bishul/main.py:140-147 | each section contributes exactly its own heading to the lines |
| `Sections.SectionPerHeading` | src/sefer_bishul/main.py:140-147 | one section per heading line of the text, in source order |
| `Nesting.Levels` | src/sefer_bishul/parser.py:79 | the heading levels the stack compares, one per section |
| `Nesting.ParentBelow` | src/sefer_bishul/parser.py:79-81 | the nearest position below a bound with a strictly smaller level, or none, and nothing smaller in between |
| `Nesting.Parent` | src/sefer_bishul/parser.py:79-81 | a section's parent is the nearest preceding section with a strictly smaller level; none exists iff every earlier level is at least as large |
| `Nesting.ParentIs` | src/sefer_bishul/parser.py:79-81 | a preceding, strictly shallower section with nothing shallower in between is the parent |
| `Nesting.ParentBelowIs` | src/sefer_bishul/parser.py:79-81 | the same, for the search below a bound |
| `Nesting.ChildIndices` | src/sefer_bishul/parser.py:81 | a section's children are exactly the sections whose parent it is, in source order |
| `Nesting.ChildLists` | src/sefer_bishul/parser.py:81 | the children lists of every section, once the first `m` sections are placed |
| `Nesting.PopStep` | src/sefer_bishul/parser.py:79-80 | popping a top that is not shallower keeps every section above the new top at least as deep |
| `Nesting.PushStep` | src/sefer_bishul/parser.py:81-82 | once the top is shallower, it is the section's parent, and pushing the section keeps the stack a chain of parents with levels strictly increasing upwards |
| `Nesting.EmptiedStack` | src/sefer_bishul/parser.py:79-81 | the stack empties only for a section of level at most 1, which makes `stack[-1]` raise |
| `Nesting.PopNotShallower` | src/sefer_bishul/parser.py:79-80 | the pop loop keeps a prefix of the stack whose top is strictly shallower than the section, or empties it, and pops nothing it should keep |
| `Nesting.PlaceSections` | src/sefer_bishul/parser.py:77-82 | the loop places every section at the end of its parent's list, or stops at the first later level-1 section with the lists filled so far; each section is pushed once and popped at most once |
| `Nesting.ChildIndicesStep` | src/sefer_bishul/parser.py:81 | placing one more section extends exactly its parent's list |
| `Nesting.ChildListsStep` | src/sefer_bishul/parser.py:81 | appending a section to its parent's list changes no other list |
| `Nesting.NoChildrenYet` | src/sefer_bishul/parser.py:75-77 | before any section is placed every children list is empty |
| `Nesting.NestSections` | src/sefer_bishul/parser.py:65-84 | `AssertionError` iff the list is empty or the first level is not 1; `IndexError` iff a later section has level 1, with the children lists as they stand when the first such section empties the stack; otherwise the root of the tree of nearest strictly smaller parents, with the shared children lists (the input sections' own included) as they stand at the end |
| `TreeOrder.Subtrees` | src/sefer_bishul/parser.py:81 | the subtrees at a list of positions, one per position |
| `TreeOrder.EndFrom` | src/sefer_bishul/parser.py:79-80 | where the run of deeper sections after a section ends |
| `TreeOrder.End` | src/sefer_bishul/parser.py:79-80 | a section's block ends at the first later section that is no deeper |
| `TreeOrder.EndWithin` | src/sefer_bishul/parser.py:79-80 | a block nested in another ends no later than it |
| `TreeOrder.Kids` | src/sefer_bishul/parser.py:81 | the top-level blocks inside a section's block, in increasing order |
| `TreeOrder.KidsAreChildren` | src/sefer_bishul/parser.py:77-82 | the top-level blocks inside a section's block are exactly the sections whose parent it is |
| `TreeOrder.IncreasingUnique` | src/sefer_bishul/parser.py:81 | two increasing lists of positions with the same elements are equal |
| `TreeOrder.ChildrenAreKids` | src/sefer_bishul/parser.py:77-82 | siblings keep source order: a section's children are the chain of blocks after it |
| `TreeOrder.SubtreeUnfold` | src/sefer_bishul/parser.py:81 | a subtree is its section with the subtrees of its children |
| `TreeOrder.SubtreesCons` | src/sefer_bishul/parser.py:81 | the subtrees of a list of positions, one at a time |
| `TreeOrder.PreorderForestCons` | src/sefer_bishul/parser.py:72-84 | the pre-order of a list of trees, one tree at a time |
| `TreeOrder.PreorderSubtree` | src/sefer_bishul/parser.py:72-84 | a subtree read in pre-order is its section's block of the input |
| `TreeOrder.PreorderKids` | src/sefer_bishul/parser.py:72-84 | the children's subtrees read in pre-order are the rest of the block |
| `TreeOrder.PreorderIsInput` | src/sefer_bishul/parser.py:72-84 | the returned tree read in pre-order is the input: same order, same headings, same contents |
| `TreeOrder.EverySectionPlaced` | src/sefer_bishul/parser.py:77-82 | every later section hangs under its nearest strictly shallower predecessor in the returned tree |
| `Roles.InsertAll` | src/sefer_bishul/main.py:98-100 | the inner `for value in values`: each title maps to the renderer and every other key is unchanged |
| `Roles.Reverse` | src/sefer_bishul/main.py:98-100 | the reversed dictionary adds only text keys |
| `Roles.HeadingToRenderMapping` | src/sefer_bishul/main.py:98-100 | `_HEADING_TO_RENDER_MAPPING` is keyed by text only |
| `Roles.HeadingToRenderMappingContents` | src/sefer_bishul/main.py:90-100 | the reversed table holds exactly "חומרים" to ingredients and "הוראות", "הוראות הכנה" to prep |
| `Roles.Get` | src/sefer_bishul/main.py:107 | `dict.get`: a value iff the key is present, and then the stored one |
| `Roles.HeadingToRenderer` | src/sefer_bishul/main.py:103-107 | as written it never returns a renderer: other levels return None, and a level-2 `Heading` object is never a key of the text-keyed table |
| `Roles.ResolveByText` | src/sefer_bishul/main.py:90-107 | the lookup by text: ingredients iff level 2 and "חומרים"; prep iff level 2 and "הוראות" or "הוראות הכנה"; never the top-level renderer |
| `Roles.LookupByObjectMissesTitles` | src/sefer_bishul/main.py:103-107 | the level-2 ingredients heading gets nothing as written and the ingredients renderer by text |
| `Payloads.IngredientList` | src/sefer_bishul/main.py:73 | the ingredients are exactly the non-empty content lines, each as often as it occurs; whitespace-only lines are kept |
| `Payloads.Description` | src/sefer_bishul/main.py:63 | `"\n".join(filter(bool, content))`: empty exactly when every content line is empty; its lines are the non-empty lines by `DescriptionLines` |
| `Payloads.StepBlocks` | src/sefer_bishul/main.py:85 | one block more than there are empty lines; no block holds an empty line |
| `Payloads.Steps` | src/sefer_bishul/main.py:83-86 | the number of steps is the number of empty lines plus one, so empty steps are kept |
| `Payloads.StepLines` | src/sefer_bishul/main.py:84 | every step split back into its lines |
| `Payloads.Render` | src/sefer_bishul/main.py:57-87 | each renderer passes the section's heading and its own payload: `render_toplevel` the description of the content, `render_ingredients` its ingredient list, `render_prep` its steps |
| `Payloads.RoleOf` | src/sefer_bishul/main.py:57-87 | the renderer whose template takes a payload: `render_toplevel` the description, `render_ingredients` the ingredient list, `render_prep` the steps |
| `Payloads.RenderRoleOf` | src/sefer_bishul/main.py:57-87 | `RoleOf` inverts `Render`: the payload a renderer makes names that renderer back, so no two renderers pass the same kind of payload |
| `Payloads.DescriptionLines` | src/sefer_bishul/main.py:63 | the description split into lines is the ingredient list of the same content: the non-empty lines in order |
| `Payloads.BlockLines` | src/sefer_bishul/main.py:84-85 | one block of step lines survives being joined into a step and split again |
| `Payloads.StepsRoundTrip` | src/sefer_bishul/main.py:83-86 | the steps split into lines and joined with empty lines give back the content: no line is lost or added |
| `Render.Size` | src/sefer_bishul/main.py:183-191 | every tree has at least its root |
| `Render.RenderTree` | src/sefer_bishul/main.py:182-191 | one renderer call per node; the first is the root, with its own renderer or else its parent's |
| `Render.Choose` | src/sefer_bishul/main.py:185 | `heading_to_renderer(heading) or renderer`: the renderer the heading selects, or else the inherited one (every renderer is a function, so never falsy) |
| `Render.RenderForest` | src/sefer_bishul/main.py:190-191 | one call per node of the siblings |
| `Render.Entries` | src/sefer_bishul/main.py:190-191 | the stack entries for the children: each child with its parent's renderer, in order |
| `Render.RenderNestedSections` | src/sefer_bishul/main.py:172-193 | the stack loop emits exactly the calls of the recursive traversal: each node once, the root with `render_toplevel` unless its heading selects another, siblings last to first, each before its own subtree |
| `Render.PushChildren` | src/sefer_bishul/main.py:190-191 | the children are pushed in order on top of the stack |
| `Render.RenderStep` | src/sefer_bishul/main.py:183-191 | one round of the loop keeps "emitted so far, then what the stack will emit" equal to the whole traversal |
| `Render.PopStep` | src/sefer_bishul/main.py:184-188 | the popped section is emitted first, with its resolved renderer |
| `Render.PendingPush` | src/sefer_bishul/main.py:190-191 | pushing the children puts their trees, last child first, ahead of what the stack held |
| `Render.PendingSnoc` | src/sefer_bishul/main.py:183-184 | the entry on top of the stack emits first |
| `Render.EntriesPrefix` | src/sefer_bishul/main.py:190-191 | pushing one more child adds one entry |
| `Render.EntriesSnoc` | src/sefer_bishul/main.py:190-191 | the last child's entry is on top |
| `Render.RenderForestAppend` | src/sefer_bishul/main.py:190-191 | the siblings of a concatenation: the second part is emitted first |
| `Render.ForestAround` | src/sefer_bishul/main.py:190-191 | later siblings come out before sibling `i`'s tree, and earlier ones after it |
| `Render.ChildBlock` | src/sefer_bishul/main.py:183-191 | a tree's calls: the section itself, then its later children's trees, child `i`'s tree with the section's renderer, then its earlier children's |
| `Render.InheritTree` | src/sefer_bishul/main.py:185 | with a resolver that selects nothing, every node is rendered with the renderer the root started from |
| `Render.InheritForest` | src/sefer_bishul/main.py:185 | the same for siblings |
| `Render.AsWrittenAllToplevel` | src/sefer_bishul/main.py:185 | as written, every section of every recipe tree is rendered with `render_toplevel` |
| `Render.IngredientsSectionRendered` | src/sefer_bishul/main.py:103-107 | a level-2 ingredients section is rendered with `render_toplevel` as written and with `render_ingredients` by text |
| `Recipes.RecipeFromSections` | src/sefer_bishul/main.py:216-224 | fewer than three sections raise `IndexError`; otherwise, whatever the headings say, the name is the first heading's text, the description is the first section's description, the ingredients are the second section's non-empty lines in order, and the steps are the third section's steps, one per empty line plus one |
| `Recipes.ParseRecipeText` | src/sefer_bishul/main.py:204-229 | `AssertionError` iff the text is non-empty and its first line does not start with `#`; `IndexError` iff the text has fewer than three heading lines; never `ValueError`; the name is the first heading line's text |
| `Recipes.ClassifySingle` | src/sefer_bishul/main.py:205 | no classified line holds a line break |
| `Recipes.UnsegmentSingle` | src/sefer_bishul/main.py:207-212 | sections made of such lines have single-line contents |
| `Recipes.SectionsSingle` | src/sefer_bishul/main.py:205-215 | the sections of any text have single-line contents |
| `Recipes.RecipeRoundTrip` | src/sefer_bishul/main.py:217-224 | the description split into lines is the first section's non-empty lines, and the steps split into lines and joined with empty lines are the third section's content |
| `Recipes.SectionsByPosition` | src/sefer_bishul/main.py:216-224 | a second section headed "instructions" and a third headed "ingredients" still give the ingredients and the steps, in that order |
| `Recipes.DescriptionExample` | src/sefer_bishul/main.py:217 | a one-line description is that line |
| `Recipes.IngredientsSkipBlank` | src/sefer_bishul/main.py:219 | an empty line is no ingredient |
| `Recipes.StepsKeepEmpty` | src/sefer_bishul/main.py:221-224 | two empty lines in a row make an empty step |
| `Recipes.ParseRecipeTree` | src/sefer_bishul/parser.py:87-100 | fails exactly when segmenting or nesting fails (`AssertionError` for no sections or a first level other than 1); otherwise the name is the first heading line's text, the tree is rooted at the first section, and the tree read in pre-order gives back the classified lines of the text |
| `Index.HtmlNameStep` | src/sefer_bishul/main.py:254 | `replace` works from left to right: `.html` for a `.md` at the start, and otherwise the first character kept |
| `Index.Replace` | src/sefer_bishul/main.py:254 | `str.replace` with a non-empty pattern: left to right, non-overlapping, inserted text not searched again; its behaviour for `.md` is stated by `HtmlNameStep`, `HtmlNameNoMd`, `HtmlNameUnchanged` and `HtmlNameOfMd` |
| `Index.HtmlName` | src/sefer_bishul/main.py:254 | the link `filename.replace(".md", ".html")`; no link holds `.md` by `HtmlNameNoMd` |
| `Index.HtmlNameUnchanged` | src/sefer_bishul/main.py:254 | a file name without `.md` is its own link |
| `Index.HtmlNameNoMd` | src/sefer_bishul/main.py:254 | no link holds `.md`: every occurrence is replaced and `.html` never forms a new one |
| `Index.HtmlNameOfMd` | src/sefer_bishul/main.py:254 | a file name ending in its only `.md` links to the same name ending in `.html` |
| `Index.TextLeTotal` | src/sefer_bishul/main.py:258 | any two names are ordered one way or the other |
| `Index.TextLe` | src/sefer_bishul/main.py:258 | Python's order on `str`: code point by code point, a prefix first; a total order by `TextLeTotal`, `TextLeAntisymmetric` and `TextLeTransitive` |
| `Index.EntryLe` | src/sefer_bishul/main.py:258 | `key=operator.itemgetter(1, 0)`: by name, then by link; a total order by the `EntryLe` lemmas |
| `Index.TextLeAntisymmetric` | src/sefer_bishul/main.py:258 | names ordered both ways are equal |
| `Index.TextLeTransitive` | src/sefer_bishul/main.py:258 | the order of names is transitive |
| `Index.EntryLeTotal` | src/sefer_bishul/main.py:258 | the key `(name, link)` orders any two entries |
| `Index.EntryLeAntisymmetric` | src/sefer_bishul/main.py:258 | the key is the whole entry, so `sorted` has no ties to break |
| `Index.EntryLeTransitive` | src/sefer_bishul/main.py:258 | the key order is transitive |
| `Index.SortedCons` | src/sefer_bishul/main.py:252-259 | an entry no later than all entries of a sorted list can go in front |
| `Index.FirstIsLeast` | src/sefer_bishul/main.py:252-259 | the first entry of a sorted list comes no later than any of its entries |
| `Index.Insert` | src/sefer_bishul/main.py:252-259 | inserting into a sorted list gives a sorted list with that one entry more |
| `Index.Sort` | src/sefer_bishul/main.py:252-259 | `sorted`: the result is in key order and holds exactly the given entries |
| `Index.SortedUnique` | src/sefer_bishul/main.py:252-259 | two sorted lists with the same entries are equal, so the result does not depend on how `sorted` works |
| `Index.EntriesWith` | src/sefer_bishul/main.py:253-256 | one `(link, name)` entry per recipe file, in dictionary order |
| `Index.EntriesMultiset` | src/sefer_bishul/main.py:253-256 | the dictionary's items in any order give the same entries |
| `Index.IndexWith` | src/sefer_bishul/main.py:252-259 | the index is sorted by name, then link, and holds exactly one entry per recipe file |
| `Index.RenderIndex` | src/sefer_bishul/main.py:251-263 | `render_index` as written: sorted, with one entry per recipe file whose link replaces `.md` with `.html` |
| `Index.IndexIgnoresOrder` | src/sefer_bishul/main.py:252-259 | the order of the dictionary does not change the index |
| `Index.IndexLinks` | src/sefer_bishul/main.py:251-263 | every entry names one of the recipes, and no link holds `.md` |
| `Index.LastDot` | src/sefer_bishul/main.py:277 | the position of the last `.` of a file name, if any |
| `Index.LastDotBefore` | src/sefer_bishul/main.py:277 | the last `.` among the first `n` characters, if any |
| `Index.SplitExt` | src/sefer_bishul/main.py:277 | `os.path.splitext`: root and extension concatenate to the name; the extension is empty or one `.` followed by no other; it is non-empty exactly when the name has a `.` with something besides dots before the last one |
| `Index.PageName` | src/sefer_bishul/main.py:277-279 | the page written for a recipe file ends in `.html` |
| `Index.LinkIsPage` | src/sefer_bishul/main.py:251-279 | for a name ending in its only `.md`, with something besides dots before it, the index links to the page `main` writes |
| `Index.NotesLink` | src/sefer_bishul/main.py:254 | `notes.txt` is its own link |
| `Index.NotesPage` | src/sefer_bishul/main.py:277-279 | the page of `notes.txt` is `notes.html` |
| `Index.LinkMissesPage` | src/sefer_bishul/main.py:251-279 | for `notes.txt` the index links to `notes.txt`, but `main` writes `notes.html` |
| `Index.CorrectedIndex` | src/sefer_bishul/main.py:251-279 | the index linking to the written pages: sorted, one entry per recipe file |
| `Index.CorrectedLinksArePages` | src/sefer_bishul/main.py:251-279 | every link of the corrected index is the page `main` writes for one of the recipe files |

## Left out

- File and console I/O are not modelled:
  - `parse_recipe` reading files;
  - `copy_static_content`;
  - `main`'s `os.walk` and page writes (only its page-name expression at `main.py:277-279` is modelled);
  - `rich.print(steps)`;
  - the typer command-line wiring.
- Jinja templating is not modelled:
  - `get_env`, `render_recipe` and `render_recipe_from_nested`;
  - what each `template.render` produces.
- `Render.RenderNestedSections`: returns the list of renderer calls (role and section). It does not return their `"\n".join` as HTML, because the template output is opaque.
- `Payloads.Render`: gives the values each renderer passes to its template, not the HTML the template makes of them.
- `Builtins.SplitLines`: splits on `'\n'` only. Python's `splitlines` also breaks on `\r`, `\r\n`, `\v`, `\f`, `\x1c`–`\x1e`, `\x85`, `\u2028` and `\u2029`. Recipes are assumed to use `'\n'` line endings.
- `Builtins.StripBy`: works on a whitespace predicate. `Builtins.IsSpace` lists the ASCII and Unicode whitespace of `str.isspace`; the model has no Unicode database.
- `Nesting.NestSections`: requires its input sections to have no children yet. That is what `parse_sections` produces, and the only caller passes its result.
- `Nesting.NestSections`: shared children lists are modelled as one list of positions per input section. The model therefore does not distinguish an original from its shallow copy, which share that list in Python.
- `Index.RenderIndex`: takes the dictionary as the list of its items. The dictionary's unique keys are not required: the lemmas hold for any list of items, and `Index.IndexIgnoresOrder` shows that the order of the items does not matter.
- `src/sefer_bishul/ng.py` is not part of this model. Its renderer subclasses `markdown_it`'s HTML renderer, so its behaviour depends on that library's token stream.

## Findings

| source | as written | input that shows it | evidently intended | confidence | as-written member | corrected member |
|---|---|---|---|---|---|---|
| src/sefer_bishul/main.py:103-107 | `_HEADING_TO_RENDER_MAPPING.get(heading)` looks up the `Heading` object in a dictionary keyed by heading texts, so it returns None for every heading and every section is rendered with `render_toplevel` | a level-2 heading `## חומרים` | look up `heading.text`, so the ingredients and preparation sections get `render_ingredients` and `render_prep` | not executed | `Render.AsWrittenAllToplevel` | `Roles.ResolveByText` |
| src/sefer_bishul/main.py:254 | the index links to `filename.replace(".md", ".html")`, but `main` writes the page as `os.path.splitext(filename)[0] + ".html"` (`main.py:277-279`) | a recipe file `notes.txt`: the index links to `notes.txt`, the page written is `notes.html` | the index links to the page `main` writes | not executed | `Index.LinkMissesPage` | `Index.CorrectedLinksArePages` |

/** The segmenter: a recipe's classified lines grouped into sections, one per heading
    (`Section.from_lines` and `parse_sections`). */
module Sections {

  import opened Wrappers
  import opened Builtins
  import opened MoreItertools
  import opened Lines

  /** A heading with the plain lines under it and, once nested, its subsections. */
  datatype Section = Section(heading: Heading, content: seq<string>, children: seq<Section>)

  /** The grouping predicate of `split_before`: `isinstance(s, Heading)`. */
  predicate IsHeadingLine(l: Line) {
    l.H?
  }

  /** Plain strings as classified lines. */
  function Plains(xs: seq<string>): (r: seq<Line>)
    ensures |r| == |xs| && forall k :: 0 <= k < |xs| ==> r[k] == Plain(xs[k])
  {
    seq(|xs|, k requires 0 <= k < |xs| => Plain(xs[k]))
  }

  /** The classified lines a section was made from: its heading, then its content. */
  function SectionLines(s: Section): seq<Line> {
    [H(s.heading)] + Plains(s.content)
  }

  /** The classified lines of a list of sections, in order. */
  function Unsegment(secs: seq<Section>): seq<Line> {
    if secs == [] then [] else SectionLines(secs[0]) + Unsegment(secs[1..])
  }

  /** A section as the segmenter makes it: not nested yet. */
  predicate IsFlat(s: Section) {
    s.children == []
  }

  /** The group holds no heading after its first element. */
  predicate TailIsPlain(group: seq<Line>) {
    forall k :: 1 <= k < |group| ==> group[k].Plain?
  }

  /** `Section.from_lines`: `heading, *content = lines` fails on an empty group, and the
      `isinstance` assert fails on a group that does not start with a heading. */
  function FromLines(group: seq<Line>): (r: Result<Section, Exception>)
    requires TailIsPlain(group)
    ensures r == Err(ValueError) <==> group == []
    ensures r == Err(AssertionError) <==> group != [] && group[0].Plain?
    ensures r.Ok? ==> SectionLines(r.value) == group && IsFlat(r.value)
  {
    if group == [] then Err(ValueError)
    else if group[0].Plain? then Err(AssertionError)
    else
      var content := seq(|group| - 1, k requires 0 <= k < |group| - 1 => group[k + 1].text);
      var s := Section(group[0].heading, content, []);
      assert SectionLines(s) == group by {
        assert forall k :: 1 <= k < |group| ==> SectionLines(s)[k] == Plain(content[k - 1]) == group[k];
      }
      Ok(s)
  }

  /** `list(map(Section.from_lines, groups))`: the first failing group raises. */
  function SectionsFromGroups(groups: seq<seq<Line>>): (r: Result<seq<Section>, Exception>)
    requires forall k :: 0 <= k < |groups| ==> groups[k] != [] && TailIsPlain(groups[k])
    ensures r.Ok? <==> forall k :: 0 <= k < |groups| ==> groups[k][0].H?
    ensures r.Err? ==> r.error == AssertionError
    ensures r.Ok? ==> |r.value| == |groups| && Unsegment(r.value) == Concat(groups)
    ensures r.Ok? ==> forall k :: 0 <= k < |r.value| ==> IsFlat(r.value[k])
  {
    if groups == [] then Ok([])
    else
      match FromLines(groups[0])
      case Err(e) => Err(e)
      case Ok(s) =>
        match SectionsFromGroups(groups[1..])
        case Err(e) => Err(e)
        case Ok(rest) =>
          var r := [s] + rest;
          assert r[1..] == rest;
          Ok(r)
  }

  /** `map(parse_line, recipe.splitlines())` */
  function Classify(text: string): (r: seq<Line>)
    ensures |r| == |SplitLines(text)|
    ensures forall k :: 0 <= k < |r| ==> r[k] == ParseLine(SplitLines(text)[k])
  {
    var lines := SplitLines(text);
    seq(|lines|, k requires 0 <= k < |lines| => ParseLine(lines[k]))
  }

  /** The segmenting half of `parse_sections`: group the classified lines before every heading
      with `split_before` and make a section of each group. No lines give no sections; lines
      that do not start with a heading fail the assert in `from_lines`; otherwise the sections,
      written back out as lines, are exactly the input lines, and none is nested yet. */
  function Segment(lines: seq<Line>): (r: Result<seq<Section>, Exception>)
    ensures lines == [] ==> r == Ok([])
    ensures r.Ok? <==> lines == [] || lines[0].H?
    ensures r.Err? ==> r.error == AssertionError
    ensures r.Ok? ==> Unsegment(r.value) == lines
    ensures r.Ok? ==> forall k :: 0 <= k < |r.value| ==> IsFlat(r.value[k])
  {
    var groups := SplitBefore(lines, IsHeadingLine);
    assert forall k :: 0 <= k < |groups| ==> groups[k] != [] && TailIsPlain(groups[k]);
    assert lines != [] ==> groups[0][0] == lines[0] by {
      if lines != [] {
        assert Concat(groups) == groups[0] + Concat(groups[1..]);
      }
    }
    SectionsFromGroups(groups)
  }

  /** `parse_sections`: classify the lines of the text and segment them. Empty text gives no
      sections, and the text is rejected exactly when its first line does not start with `#`. */
  function ParseSections(text: string): (r: Result<seq<Section>, Exception>)
    ensures text == [] ==> r == Ok([])
    ensures r.Ok? <==> text == [] || (SplitLines(text)[0] != [] && SplitLines(text)[0][0] == '#')
    ensures r.Err? ==> r.error == AssertionError
    ensures r.Ok? ==> Unsegment(r.value) == Classify(text)
    ensures r.Ok? ==> forall k :: 0 <= k < |r.value| ==> IsFlat(r.value[k])
  {
    Segment(Classify(text))
  }

  /** The groups `split_before` makes of the lines of a list of sections: one per section. */
  function SectionGroups(secs: seq<Section>): (r: seq<seq<Line>>)
    ensures |r| == |secs| && forall k :: 0 <= k < |secs| ==> r[k] == SectionLines(secs[k])
  {
    seq(|secs|, k requires 0 <= k < |secs| => SectionLines(secs[k]))
  }

  /** The lines of the sections are the concatenation of their groups. */
  lemma {:induction false} UnsegmentConcat(secs: seq<Section>)
    ensures Unsegment(secs) == Concat(SectionGroups(secs))
  {
    if secs != [] {
      UnsegmentConcat(secs[1..]);
      assert SectionGroups(secs)[1..] == SectionGroups(secs[1..]);
    }
  }

  /** Making a section of a flat section's lines gives the section back. */
  lemma FromSectionLines(s: Section)
    requires IsFlat(s)
    ensures FromLines(SectionLines(s)) == Ok(s)
  {
    var r := FromLines(SectionLines(s));
    assert r.value.content == s.content;
  }

  /** Making sections of the groups of flat sections gives the sections back. */
  lemma {:induction false} SectionsFromSectionGroups(secs: seq<Section>)
    requires forall k :: 0 <= k < |secs| ==> IsFlat(secs[k])
    ensures SectionsFromGroups(SectionGroups(secs)) == Ok(secs)
  {
    if secs != [] {
      var gs := SectionGroups(secs);
      assert gs[1..] == SectionGroups(secs[1..]);
      FromSectionLines(secs[0]);
      SectionsFromSectionGroups(secs[1..]);
      assert secs == [secs[0]] + secs[1..];
    }
  }

  /** Segmenting the lines of flat sections gives the sections back. */
  lemma SegmentUnsegment(secs: seq<Section>)
    requires forall k :: 0 <= k < |secs| ==> IsFlat(secs[k])
    ensures Segment(Unsegment(secs)) == Ok(secs)
  {
    var gs := SectionGroups(secs);
    UnsegmentConcat(secs);
    SplitBeforeConcat(gs, IsHeadingLine);
    SectionsFromSectionGroups(secs);
  }

  /** The headings of a list of sections, in order. */
  function Headings(secs: seq<Section>): (r: seq<Heading>)
    ensures |r| == |secs| && forall k :: 0 <= k < |secs| ==> r[k] == secs[k].heading
  {
    seq(|secs|, k requires 0 <= k < |secs| => secs[k].heading)
  }

  /** The headings among classified lines, in order. */
  function HeadingsOf(lines: seq<Line>): seq<Heading> {
    if lines == [] then []
    else (if lines[0].H? then [lines[0].heading] else []) + HeadingsOf(lines[1..])
  }

  /** Filtering headings distributes over concatenation. */
  lemma {:induction false} HeadingsOfAppend(a: seq<Line>, b: seq<Line>)
    ensures HeadingsOf(a + b) == HeadingsOf(a) + HeadingsOf(b)
  {
    if a == [] {
      assert a + b == b;
    } else {
      assert (a + b)[1..] == a[1..] + b;
      HeadingsOfAppend(a[1..], b);
    }
  }

  /** Plain lines hold no heading. */
  lemma {:induction false} HeadingsOfPlains(xs: seq<string>)
    ensures HeadingsOf(Plains(xs)) == []
  {
    if xs != [] {
      assert Plains(xs)[1..] == Plains(xs[1..]);
      HeadingsOfPlains(xs[1..]);
    }
  }

  /** Each section contributes exactly its own heading to its lines. */
  lemma {:induction false} HeadingsOfUnsegment(secs: seq<Section>)
    ensures HeadingsOf(Unsegment(secs)) == Headings(secs)
  {
    if secs != [] {
      var s := secs[0];
      HeadingsOfUnsegment(secs[1..]);
      HeadingsOfAppend(SectionLines(s), Unsegment(secs[1..]));
      HeadingsOfAppend([H(s.heading)], Plains(s.content));
      HeadingsOfPlains(s.content);
      assert HeadingsOf([H(s.heading)]) == [s.heading];
      assert Headings(secs) == [s.heading] + Headings(secs[1..]);
    }
  }

  /** One section per heading line of the text, in the order of the text. */
  lemma SectionPerHeading(text: string)
    requires ParseSections(text).Ok?
    ensures Headings(ParseSections(text).value) == HeadingsOf(Classify(text))
  {
    HeadingsOfUnsegment(ParseSections(text).value);
  }
}

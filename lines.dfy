/** The line classifier: every line of a recipe is either a heading or plain text
    (`parse_heading` and `parse_line`). */
module Lines {

  import opened Wrappers
  import opened Builtins
  import opened MoreItertools

  /** A heading line: its level is the number of leading `#`, its text the stripped rest. */
  datatype Heading = Heading(text: string, level: nat)

  /** A classified line (Python's `str | Heading`). */
  datatype Line = H(heading: Heading) | Plain(text: string)

  /** The length of the run of `#` at the start of `s`. */
  function HashRun(s: string): (n: nat)
    ensures n <= |s|
    ensures forall k :: 0 <= k < n ==> s[k] == '#'
    ensures n == |s| || s[n] != '#'
  {
    if s != [] && s[0] == '#' then 1 + HashRun(s[1..]) else 0
  }

  /** What `.` in a regular expression matches from the start of `s`: everything before the first line break. */
  function RestOfLine(s: string): string {
    SplitAt(s, IsLineBreak)[0]
  }

  /** `parse_heading`: `re.match(r"(#+)(.*)", line)`. Any line starting with `#` is a heading, with no
      space required after the `#` run and no upper bound on the level. */
  function ParseHeading(line: string): (r: Option<Heading>)
    ensures r.Some? <==> line != [] && line[0] == '#'
    ensures r.Some? ==> var h := r.value;
                        && 1 <= h.level <= |line|
                        && (forall k :: 0 <= k < h.level ==> line[k] == '#')
                        && (h.level == |line| || line[h.level] != '#')
                        && h.text == Strip(RestOfLine(line[h.level..]))
                        && IsStrippedBy(h.text, IsSpace)
  {
    if line != [] && line[0] == '#' then
      var n := HashRun(line);
      Some(Heading(Strip(RestOfLine(line[n..])), n))
    else
      None
  }

  /** `parse_line`: the heading, if the line is one, and otherwise the line itself, unchanged. */
  function ParseLine(line: string): (r: Line)
    ensures r.H? <==> line != [] && line[0] == '#'
    ensures r.H? ==> ParseHeading(line) == Some(r.heading)
    ensures r.Plain? ==> r.text == line
  {
    match ParseHeading(line)
    case Some(h) => H(h)
    case None => Plain(line)
  }

  /** `n` copies of `c`. */
  function Repeat(c: char, n: nat): (r: string)
    ensures |r| == n && forall k :: 0 <= k < n ==> r[k] == c
  {
    if n == 0 then [] else [c] + Repeat(c, n - 1)
  }

  /** A heading written out the usual way: its `#` run, one space, its text. */
  function HeadingLine(h: Heading): string {
    Repeat('#', h.level) + " " + h.text
  }

  /** The text a classified line stands for. */
  function LineText(l: Line): string {
    match l
    case H(h) => HeadingLine(h)
    case Plain(s) => s
  }

  /** A heading the classifier can produce: level at least one, text stripped and on one line. */
  predicate IsParsableHeading(h: Heading) {
    h.level >= 1 && IsStrippedBy(h.text, IsSpace) && '\n' !in h.text
  }

  /** Writing a heading out and classifying the line gives the heading back. */
  lemma HeadingRoundTrip(h: Heading)
    requires IsParsableHeading(h)
    ensures ParseLine(HeadingLine(h)) == H(h)
  {
    var line := HeadingLine(h);
    HeadingLineHashRun(h);
    assert line[h.level..] == " " + h.text;
    SpacedText(h.text);
    ParseLineOf(line, h.level, h.text);
  }

  /** The text after the `#` run and its space comes back from stripping the rest of the line. */
  lemma SpacedText(t: string)
    requires IsStrippedBy(t, IsSpace) && '\n' !in t
    ensures Strip(RestOfLine(" " + t)) == t
  {
    SplitAtFree(" " + t, IsLineBreak);
    SpaceIsSpace();
    StripPadded(" ", t, IsSpace);
  }

  /** A line whose `#` run has length `n` and whose stripped rest is `t` is the heading `(t, n)`. */
  lemma ParseLineOf(line: string, n: nat, t: string)
    requires 1 <= n && HashRun(line) == n
    requires Strip(RestOfLine(line[n..])) == t
    ensures ParseLine(line) == H(Heading(t, n))
  {
  }

  /** A written heading starts with exactly its level's worth of `#`. */
  lemma HeadingLineHashRun(h: Heading)
    ensures HashRun(HeadingLine(h)) == h.level
  {
    var rest := " " + h.text;
    assert HeadingLine(h) == Repeat('#', h.level) + rest;
    HashRunOf(h.level, rest);
  }

  /** The `#` run of `n` hashes followed by something else has length `n`. */
  lemma {:induction false} HashRunOf(n: nat, rest: string)
    requires rest == [] || rest[0] != '#'
    ensures HashRun(Repeat('#', n) + rest) == n
  {
    if n > 0 {
      HashRunOf(n - 1, rest);
      assert (Repeat('#', n) + rest)[1..] == Repeat('#', n - 1) + rest;
    } else {
      assert Repeat('#', n) + rest == rest;
    }
  }

  /** A plain line the classifier keeps as it is: one not starting with `#`. */
  predicate IsParsablePlain(s: string) {
    s == [] || s[0] != '#'
  }

  /** Classifying the text of a line the classifier can produce gives that line back. */
  lemma LineRoundTrip(l: Line)
    requires l.H? ==> IsParsableHeading(l.heading)
    requires l.Plain? ==> IsParsablePlain(l.text)
    ensures ParseLine(LineText(l)) == l
  {
    if l.H? {
      HeadingRoundTrip(l.heading);
    }
  }
}

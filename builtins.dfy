/** The Python built-ins the recipe pipeline relies on, on `string` = `seq<char>`:
    `str.strip`, `str.splitlines` (for `'\n'` line ends), `str.join` and `filter(bool, ...)`. */
module Builtins {

  import opened MoreItertools

  /** The characters for which Python's `str.isspace` holds. */
  const Whitespace: string := "\t\n\U{0B}\U{0C}\r\U{1C}\U{1D}\U{1E}\U{1F} \U{85}\U{A0}\U{1680}\U{2000}\U{2001}\U{2002}\U{2003}\U{2004}\U{2005}\U{2006}\U{2007}\U{2008}\U{2009}\U{200A}\U{2028}\U{2029}\U{202F}\U{205F}\U{3000}"

  /** Python's `str.isspace` for a single character. */
  predicate IsSpace(c: char) {
    Occurs(c, Whitespace)
  }

  /** `c in s`, unfolded one character at a time. */
  predicate Occurs(c: char, s: string) {
    s != [] && (s[0] == c || Occurs(c, s[1..]))
  }

  /** A character at some position of `s` occurs in it. */
  lemma {:induction false} OccursAt(c: char, s: string, i: nat)
    requires i < |s| && s[i] == c
    ensures Occurs(c, s)
  {
    if i > 0 {
      OccursAt(c, s[1..], i - 1);
    }
  }

  /** The space character is whitespace. */
  lemma SpaceIsSpace()
    ensures IsSpace(' ')
  {
    OccursAt(' ', Whitespace, 9);
  }

  /* Stripping is stated for any set of strippable characters, given as a predicate `drop`
     (Python's `s.strip(chars)`); `Strip` below fixes it to whitespace. */

  /** No strippable character at either end. */
  predicate IsStrippedBy(s: string, drop: char -> bool) {
    s == [] || (!drop(s[0]) && !drop(s[|s| - 1]))
  }

  /** Strips at the start: a suffix of `s` whose dropped front is all strippable. */
  function StripLeft(s: string, drop: char -> bool): (r: string)
    ensures |r| <= |s| && r == s[|s| - |r|..]
    ensures r == [] || !drop(r[0])
    ensures forall k :: 0 <= k < |s| - |r| ==> drop(s[k])
  {
    if s != [] && drop(s[0]) then StripLeft(s[1..], drop) else s
  }

  /** Strips at the end: a prefix of `s` whose dropped back is all strippable. */
  function StripRight(s: string, drop: char -> bool): (r: string)
    ensures |r| <= |s| && r == s[..|r|]
    ensures r == [] || !drop(r[|r| - 1])
    ensures forall k :: |r| <= k < |s| ==> drop(s[k])
  {
    if s != [] && drop(s[|s| - 1]) then StripRight(s[..|s| - 1], drop) else s
  }

  /** Strips at both ends. */
  function StripBy(s: string, drop: char -> bool): (r: string)
    ensures IsStrippedBy(r, drop)
  {
    StripRight(StripLeft(s, drop), drop)
  }

  /** `r` stands in `s` at position `i`, with nothing but strippable characters before and after it. */
  predicate DroppedAround(s: string, r: string, i: int, drop: char -> bool) {
    && 0 <= i && i + |r| <= |s| && r == s[i..i + |r|]
    && (forall k :: 0 <= k < i ==> drop(s[k]))
    && (forall k :: i + |r| <= k < |s| ==> drop(s[k]))
  }

  /** Stripping removes strippable characters around a piece of the string, and nothing else. */
  lemma StripByAround(s: string, drop: char -> bool)
    ensures DroppedAround(s, StripBy(s, drop), |s| - |StripLeft(s, drop)|, drop)
  {
    var l := StripLeft(s, drop);
    StripLeftAround(s, drop);
    StripRightAround(l, drop);
    AroundCompose(s, l, StripRight(l, drop), |s| - |l|, drop);
  }

  /** Stripping at the start keeps a suffix and drops only strippable characters before it. */
  lemma StripLeftAround(s: string, drop: char -> bool)
    ensures DroppedAround(s, StripLeft(s, drop), |s| - |StripLeft(s, drop)|, drop)
  {
    var l := StripLeft(s, drop);
    var i := |s| - |l|;
    assert s[i..i + |l|] == s[i..] == l;
  }

  /** Stripping at the end keeps a prefix and drops only strippable characters after it. */
  lemma StripRightAround(l: string, drop: char -> bool)
    ensures DroppedAround(l, StripRight(l, drop), 0, drop)
  {
  }

  /** A piece of a piece, each with only strippable characters around it, is a piece of the whole. */
  lemma AroundCompose(s: string, l: string, r: string, i: int, drop: char -> bool)
    requires DroppedAround(s, l, i, drop) && DroppedAround(l, r, 0, drop)
    ensures DroppedAround(s, r, i, drop)
  {
    assert s[i..i + |r|] == s[i..i + |l|][..|r|];
    forall k | i + |r| <= k < |s|
      ensures drop(s[k])
    {
      if k < i + |l| {
        assert s[k] == l[k - i];
      }
    }
  }

  /** `s.strip()`: a piece of `s` with nothing but whitespace around it, and none at its ends. */
  function Strip(s: string): (r: string)
    ensures IsStrippedBy(r, IsSpace)
    ensures exists i :: DroppedAround(s, r, i, IsSpace)
  {
    StripByAround(s, IsSpace);
    StripBy(s, IsSpace)
  }

  /** Stripping a string with nothing strippable at its ends leaves it unchanged. */
  lemma StripStripped(s: string, drop: char -> bool)
    requires IsStrippedBy(s, drop)
    ensures StripBy(s, drop) == s
  {
  }

  /** Stripping is idempotent. */
  lemma StripIdempotent(s: string, drop: char -> bool)
    ensures StripBy(StripBy(s, drop), drop) == StripBy(s, drop)
  {
    StripStripped(StripBy(s, drop), drop);
  }

  /** Strippable characters in front of an already stripped string are all that stripping removes. */
  lemma {:induction false} StripPadded(pad: string, t: string, drop: char -> bool)
    requires forall k :: 0 <= k < |pad| ==> drop(pad[k])
    requires IsStrippedBy(t, drop)
    ensures StripBy(pad + t, drop) == t
  {
    if pad == [] {
      assert pad + t == t;
      StripStripped(t, drop);
    } else {
      assert (pad + t)[1..] == pad[1..] + t;
      StripPadded(pad[1..], t, drop);
    }
  }

  /** The one line break `splitlines` is modelled for. */
  predicate IsLineBreak(c: char) {
    c == '\n'
  }

  /** `s.splitlines()` for text whose only line break is `'\n'`: the runs between the breaks,
      where a final break does not start an empty last line. */
  function SplitLines(s: string): (r: seq<string>)
    ensures forall k :: 0 <= k < |r| ==> '\n' !in r[k]
    ensures s == [] <==> r == []
  {
    if s == [] then []
    else
      var pieces := SplitAt(s, IsLineBreak);
      assert forall k :: 0 <= k < |pieces| ==> '\n' !in pieces[k] by {
        forall k | 0 <= k < |pieces| ensures '\n' !in pieces[k] {
          assert forall m :: 0 <= m < |pieces[k]| ==> pieces[k][m] != '\n';
        }
      }
      if |pieces| > 1 && pieces[|pieces| - 1] == "" then pieces[..|pieces| - 1] else pieces
  }

  /** The lines, joined back with line breaks (and the final break, if any), give the text. */
  lemma SplitLinesRoundTrip(s: string)
    ensures JoinWith("\n", SplitLines(s)) + (if s != [] && s[|s| - 1] == '\n' then "\n" else "") == s
  {
    if s != [] {
      var pieces := SplitAt(s, IsLineBreak);
      JoinSplitAt(s, IsLineBreak, '\n');
      if |pieces| > 1 {
        JoinWithLast("\n", pieces);
        var last := pieces[|pieces| - 1];
        var front := JoinWith("\n", pieces[..|pieces| - 1]);
        assert s == (front + "\n") + last;
        if last != "" {
          assert s[|s| - 1] == last[|last| - 1];
        }
      } else {
        assert pieces[0] == s;
      }
    }
  }

  /** Joining lines that hold no line break and splitting the result into lines gives the lines back,
      when the last line is not empty. */
  lemma SplitLinesJoin(xs: seq<string>)
    requires forall k :: 0 <= k < |xs| ==> '\n' !in xs[k]
    requires xs != [] ==> xs[|xs| - 1] != ""
    ensures SplitLines(JoinWith("\n", xs)) == xs
  {
    if xs != [] {
      SplitAtJoin(xs, IsLineBreak, '\n');
    }
  }

  /** `list(filter(bool, xs))`: the non-empty strings of `xs`, in order. */
  function NonEmpty(xs: seq<string>): (r: seq<string>)
    ensures forall x :: x in r <==> x in xs && x != ""
    ensures multiset(r) == multiset(xs)["" := 0]
  {
    if xs == [] then []
    else
      assert xs == [xs[0]] + xs[1..];
      (if xs[0] == "" then [] else [xs[0]]) + NonEmpty(xs[1..])
  }

  /** Filtering keeps order: it distributes over concatenation. */
  lemma {:induction false} NonEmptyAppend(a: seq<string>, b: seq<string>)
    ensures NonEmpty(a + b) == NonEmpty(a) + NonEmpty(b)
  {
    if a != [] {
      assert (a + b)[1..] == a[1..] + b;
      NonEmptyAppend(a[1..], b);
    } else {
      assert a + b == b;
    }
  }

  /** Filtering a list without empty strings changes nothing, so filtering is idempotent. */
  lemma {:induction false} NonEmptyIdentity(xs: seq<string>)
    requires "" !in xs
    ensures NonEmpty(xs) == xs
  {
    if xs != [] {
      var rest := xs[1..];
      assert xs[0] != "" by {
        assert xs[0] in xs;
      }
      assert "" !in rest by {
        assert forall x :: x in rest ==> x in xs;
      }
      NonEmptyIdentity(rest);
      assert NonEmpty(xs) == [xs[0]] + NonEmpty(rest);
      assert xs == [xs[0]] + rest;
    }
  }
}

/** The recipe index (`render_index`): one entry per recipe file, the link made from the file name
    by replacing `.md` with `.html`, sorted by recipe name and then by link. Besides, the name of the
    page `main` writes for a recipe file (`os.path.splitext`), which the index links should name. */
module Index {

  import opened Wrappers
  import opened Recipes

  /** `s.replace(pat, rep)` for a non-empty pattern: occurrences are replaced from left to right, and
      the text a replacement puts in is not searched again. */
  function Replace(s: string, pat: string, rep: string): string
    requires pat != []
    decreases |s|
  {
    if |s| < |pat| then s
    else if s[..|pat|] == pat then rep + Replace(s[|pat|..], pat, rep)
    else [s[0]] + Replace(s[1..], pat, rep)
  }

  /** The link `render_index` makes of a recipe file name. */
  function HtmlName(filename: string): string {
    Replace(filename, ".md", ".html")
  }

  /** `.md` occurs in `s` at position `i`. */
  predicate MdAt(s: string, i: int) {
    0 <= i && i + 3 <= |s| && s[i] == '.' && s[i + 1] == 'm' && s[i + 2] == 'd'
  }

  /** The text holds `.md` nowhere. */
  predicate NoMd(s: string) {
    forall i :: 0 <= i < |s| ==> !MdAt(s, i)
  }

  /** A text without `.md` has none after its first character either. */
  lemma NoMdTail(s: string)
    requires NoMd(s) && s != []
    ensures NoMd(s[1..])
  {
    forall i | 0 <= i < |s| - 1 && MdAt(s[1..], i)
      ensures false
    {
      assert MdAt(s, i + 1);
    }
  }

  /** One step of the replacement: `.html` for a `.md` at the start, and otherwise the first
      character kept. */
  lemma HtmlNameStep(s: string)
    requires s != []
    ensures HtmlName(s) == if MdAt(s, 0) then ".html" + HtmlName(s[3..]) else [s[0]] + HtmlName(s[1..])
  {
    if |s| >= 3 {
      assert s[..3] == [s[0], s[1], s[2]];
    } else {
      assert HtmlName(s[1..]) == s[1..];
    }
  }

  /** A file name without `.md` is its own link. */
  lemma {:induction false} HtmlNameUnchanged(s: string)
    requires NoMd(s)
    ensures HtmlName(s) == s
    decreases |s|
  {
    if s != [] {
      HtmlNameStep(s);
      NoMdTail(s);
      HtmlNameUnchanged(s[1..]);
    }
  }

  /** No link holds `.md`: every occurrence is replaced, and `.html` cannot combine with its
      neighbours into a new one. */
  lemma {:induction false} HtmlNameNoMd(filename: string)
    ensures NoMd(HtmlName(filename))
    decreases |filename|
  {
    var s := filename;
    var r := HtmlName(s);
    if s != [] {
      HtmlNameStep(s);
      if MdAt(s, 0) {
        var rest := HtmlName(s[3..]);
        HtmlNameNoMd(s[3..]);
        forall i | 0 <= i < |r| && MdAt(r, i)
          ensures false
        {
          if i >= 5 {
            assert MdAt(rest, i - 5);
          }
        }
      } else {
        var rest := HtmlName(s[1..]);
        HtmlNameNoMd(s[1..]);
        forall i | 0 <= i < |r| && MdAt(r, i)
          ensures false
        {
          if i >= 1 {
            assert MdAt(rest, i - 1);
          } else {
            HtmlNameStep(s[1..]);
            if !MdAt(s[1..], 0) && |s| > 2 {
              HtmlNameStep(s[2..]);
            }
          }
        }
      }
    }
  }

  /** A file name ending in its only `.md` links to the same name ending in `.html`. */
  lemma {:induction false} HtmlNameOfMd(stem: string)
    requires NoMd(stem)
    ensures HtmlName(stem + ".md") == stem + ".html"
    decreases |stem|
  {
    var s := stem + ".md";
    HtmlNameStep(s);
    if stem == [] {
      assert s[3..] == [];
    } else {
      assert !MdAt(s, 0) by {
        if |stem| >= 3 {
          assert !MdAt(stem, 0);
        }
      }
      NoMdTail(stem);
      HtmlNameOfMd(stem[1..]);
      assert s[1..] == stem[1..] + ".md";
    }
  }

  /** Python's `str.__le__`: lexicographic order of code points, where a prefix comes first. */
  predicate TextLe(a: string, b: string)
    decreases |a|
  {
    a == [] || (b != [] && (a[0] < b[0] || (a[0] == b[0] && TextLe(a[1..], b[1..]))))
  }

  /** Any two texts are ordered one way or the other. */
  lemma {:induction false} TextLeTotal(a: string, b: string)
    ensures TextLe(a, b) || TextLe(b, a)
    decreases |a|
  {
    if a != [] && b != [] && a[0] == b[0] {
      TextLeTotal(a[1..], b[1..]);
    }
  }

  /** Two texts ordered both ways are equal. */
  lemma {:induction false} TextLeAntisymmetric(a: string, b: string)
    requires TextLe(a, b) && TextLe(b, a)
    ensures a == b
    decreases |a|
  {
    if a != [] {
      TextLeAntisymmetric(a[1..], b[1..]);
      assert a == [a[0]] + a[1..] && b == [b[0]] + b[1..];
    }
  }

  /** The order of texts is transitive. */
  lemma {:induction false} TextLeTransitive(a: string, b: string, c: string)
    requires TextLe(a, b) && TextLe(b, c)
    ensures TextLe(a, c)
    decreases |a|
  {
    if a != [] && a[0] == b[0] && b[0] == c[0] {
      TextLeTransitive(a[1..], b[1..], c[1..]);
    }
  }

  /** An entry of the index: `(filename.replace(".md", ".html"), recipe.name)`. */
  datatype Entry = Entry(link: string, name: string)

  /** The order of `key=operator.itemgetter(1, 0)`: by name, then by link. */
  predicate EntryLe(x: Entry, y: Entry) {
    if x.name == y.name then TextLe(x.link, y.link) else TextLe(x.name, y.name)
  }

  /** Any two entries are ordered one way or the other. */
  lemma EntryLeTotal(x: Entry, y: Entry)
    ensures EntryLe(x, y) || EntryLe(y, x)
  {
    TextLeTotal(x.link, y.link);
    TextLeTotal(x.name, y.name);
  }

  /** Entries ordered both ways are equal: the key is the whole entry, so `sorted` has no ties to break. */
  lemma EntryLeAntisymmetric(x: Entry, y: Entry)
    requires EntryLe(x, y) && EntryLe(y, x)
    ensures x == y
  {
    if x.name == y.name {
      TextLeAntisymmetric(x.link, y.link);
    } else {
      TextLeAntisymmetric(x.name, y.name);
    }
  }

  /** The order of entries is transitive. */
  lemma EntryLeTransitive(x: Entry, y: Entry, z: Entry)
    requires EntryLe(x, y) && EntryLe(y, z)
    ensures EntryLe(x, z)
  {
    if x.name == y.name && y.name == z.name {
      TextLeTransitive(x.link, y.link, z.link);
    } else if x.name == y.name {
      assert TextLe(x.name, z.name);
    } else if y.name == z.name {
      assert TextLe(x.name, z.name);
    } else {
      TextLeTransitive(x.name, y.name, z.name);
      if x.name == z.name {
        TextLeAntisymmetric(x.name, y.name);
      }
    }
  }

  /** Every entry comes no later than the ones after it. */
  predicate Sorted(xs: seq<Entry>) {
    forall i, j :: 0 <= i < j < |xs| ==> EntryLe(xs[i], xs[j])
  }

  /** Inserts `x` before the first entry it does not come after. */
  function Insert(x: Entry, xs: seq<Entry>): (r: seq<Entry>)
    requires Sorted(xs)
    ensures Sorted(r)
    ensures multiset(r) == multiset(xs) + multiset{x}
  {
    if xs == [] then [x]
    else if EntryLe(x, xs[0]) then
      assert forall y :: y in multiset(xs) ==> EntryLe(x, y) by {
        forall y | y in multiset(xs)
          ensures EntryLe(x, y)
        {
          FirstIsLeast(xs, y);
          EntryLeTransitive(x, xs[0], y);
        }
      }
      SortedCons(x, xs);
      [x] + xs
    else
      EntryLeTotal(x, xs[0]);
      SortedTail(xs);
      var rest := Insert(x, xs[1..]);
      MultisetTail(xs);
      SortedCons(xs[0], rest);
      [xs[0]] + rest
  }

  /** An entry that comes no later than every entry of a sorted list can be put in front of it. */
  lemma SortedCons(x: Entry, xs: seq<Entry>)
    requires Sorted(xs)
    requires forall y :: y in multiset(xs) ==> EntryLe(x, y)
    ensures Sorted([x] + xs)
  {
    var r := [x] + xs;
    forall i, j | 0 <= i < j < |r|
      ensures EntryLe(r[i], r[j])
    {
      if i == 0 {
        assert r[j] == xs[j - 1];
        assert xs[j - 1] in multiset(xs);
      } else {
        assert r[i] == xs[i - 1] && r[j] == xs[j - 1];
      }
    }
  }

  /** `sorted`: the entries in the order of their keys, none lost and none added. */
  function Sort(xs: seq<Entry>): (r: seq<Entry>)
    ensures Sorted(r)
    ensures multiset(r) == multiset(xs)
  {
    if xs == [] then []
    else
      assert xs == [xs[0]] + xs[1..];
      Insert(xs[0], Sort(xs[1..]))
  }

  /** Sorting has exactly one answer: two sorted lists with the same entries are equal. */
  lemma {:induction false} SortedUnique(a: seq<Entry>, b: seq<Entry>)
    requires Sorted(a) && Sorted(b) && multiset(a) == multiset(b)
    ensures a == b
  {
    if a != [] {
      assert b != [] by {
        assert a[0] in multiset(a);
      }
      FirstIsLeast(a, b[0]);
      FirstIsLeast(b, a[0]);
      EntryLeAntisymmetric(a[0], b[0]);
      MultisetTail(a);
      MultisetTail(b);
      MultisetCancel(a[0], multiset(a[1..]), multiset(b[1..]));
      SortedTail(a);
      SortedTail(b);
      SortedUnique(a[1..], b[1..]);
    }
  }

  /** The first entry of a sorted list comes no later than any entry of it. */
  lemma FirstIsLeast(a: seq<Entry>, x: Entry)
    requires Sorted(a) && x in multiset(a)
    ensures EntryLe(a[0], x)
  {
    var j :| 0 <= j < |a| && a[j] == x;
    if j == 0 {
      EntryLeTotal(x, x);
    }
  }

  /** The entries after the first of a sorted list are sorted. */
  lemma SortedTail(a: seq<Entry>)
    requires Sorted(a) && a != []
    ensures Sorted(a[1..])
  {
    forall i, j | 0 <= i < j < |a| - 1
      ensures EntryLe(a[1..][i], a[1..][j])
    {
      assert a[1..][i] == a[i + 1] && a[1..][j] == a[j + 1];
    }
  }

  /** The multiset of a non-empty list is its first element and the multiset of the rest. */
  lemma MultisetTail<T>(a: seq<T>)
    requires a != []
    ensures multiset(a) == multiset{a[0]} + multiset(a[1..])
  {
    assert a == [a[0]] + a[1..];
  }

  /** Taking the same element out of two equal multisets leaves equal multisets. */
  lemma MultisetCancel<T>(x: T, m: multiset<T>, n: multiset<T>)
    requires multiset{x} + m == multiset{x} + n
    ensures m == n
  {
    assert m == (multiset{x} + m) - multiset{x};
    assert n == (multiset{x} + n) - multiset{x};
  }

  /** Removing one element from a list removes it from the multiset. */
  lemma MultisetRemove<T>(b: seq<T>, j: nat)
    requires j < |b|
    ensures multiset(b) == multiset{b[j]} + multiset(b[..j] + b[j + 1..])
  {
    assert b == b[..j] + [b[j]] + b[j + 1..];
  }

  /** The index entries of the recipes, in the order of the dictionary, each link made by `link`. */
  function EntriesWith(link: string -> string, recipes: seq<(string, Recipe)>): (r: seq<Entry>)
    ensures |r| == |recipes|
    ensures forall k :: 0 <= k < |recipes| ==> r[k] == Entry(link(recipes[k].0), recipes[k].1.name)
  {
    MapSeq((p: (string, Recipe)) => Entry(link(p.0), p.1.name), recipes)
  }

  /** The sorted index of `render_index`, with the links made by `link`. */
  function IndexWith(link: string -> string, recipes: seq<(string, Recipe)>): (r: seq<Entry>)
    ensures Sorted(r)
    ensures multiset(r) == multiset(EntriesWith(link, recipes))
  {
    Sort(EntriesWith(link, recipes))
  }

  /** `render_index` as written: the links replace `.md` with `.html`. */
  function RenderIndex(recipes: seq<(string, Recipe)>): (r: seq<Entry>)
    ensures Sorted(r)
    ensures multiset(r) == multiset(EntriesWith(HtmlName, recipes))
  {
    IndexWith(HtmlName, recipes)
  }

  /** The order of the dictionary does not matter: the recipes in any order give the same index. */
  lemma IndexIgnoresOrder(link: string -> string, a: seq<(string, Recipe)>, b: seq<(string, Recipe)>)
    requires multiset(a) == multiset(b)
    ensures IndexWith(link, a) == IndexWith(link, b)
  {
    EntriesMultiset(link, a, b);
    SortedUnique(IndexWith(link, a), IndexWith(link, b));
  }

  /** `f` applied to every element of `a`. */
  function MapSeq<A, B>(f: A -> B, a: seq<A>): (r: seq<B>)
    ensures |r| == |a| && forall k :: 0 <= k < |a| ==> r[k] == f(a[k])
  {
    seq(|a|, k requires 0 <= k < |a| => f(a[k]))
  }

  /** Mapping two lists with the same elements gives two lists with the same elements. */
  lemma {:induction false} MapSeqMultiset<A, B>(f: A -> B, a: seq<A>, b: seq<A>)
    requires multiset(a) == multiset(b)
    ensures multiset(MapSeq(f, a)) == multiset(MapSeq(f, b))
    decreases |a|
  {
    if a != [] {
      var x := a[0];
      MultisetTail(a);
      assert x in multiset(b);
      var j :| 0 <= j < |b| && b[j] == x;
      var b' := b[..j] + b[j + 1..];
      MultisetRemove(b, j);
      MultisetCancel(x, multiset(a[1..]), multiset(b'));
      MapSeqMultiset(f, a[1..], b');
      var fa := MapSeq(f, a);
      var fb := MapSeq(f, b);
      MultisetTail(fa);
      MultisetRemove(fb, j);
      assert fa[1..] == MapSeq(f, a[1..]);
      assert fb[..j] + fb[j + 1..] == MapSeq(f, b');
    } else {
      assert |b| == 0;
    }
  }

  /** Recipes with the same multiset give entries with the same multiset. */
  lemma EntriesMultiset(link: string -> string, a: seq<(string, Recipe)>, b: seq<(string, Recipe)>)
    requires multiset(a) == multiset(b)
    ensures multiset(EntriesWith(link, a)) == multiset(EntriesWith(link, b))
  {
    var f := (p: (string, Recipe)) => Entry(link(p.0), p.1.name);
    MapSeqMultiset(f, a, b);
    assert EntriesWith(link, a) == MapSeq(f, a);
    assert EntriesWith(link, b) == MapSeq(f, b);
  }

  /** No link of the index holds `.md`, and every entry names one of the recipes. */
  lemma IndexLinks(recipes: seq<(string, Recipe)>)
    ensures forall e :: e in RenderIndex(recipes) ==> NoMd(e.link)
    ensures forall e :: e in RenderIndex(recipes) ==>
              exists k :: 0 <= k < |recipes| && e == Entry(HtmlName(recipes[k].0), recipes[k].1.name)
  {
    var r := RenderIndex(recipes);
    var es := EntriesWith(HtmlName, recipes);
    forall e | e in r
      ensures NoMd(e.link)
      ensures exists k :: 0 <= k < |recipes| && e == Entry(HtmlName(recipes[k].0), recipes[k].1.name)
    {
      assert e in multiset(es);
      var k :| 0 <= k < |es| && es[k] == e;
      HtmlNameNoMd(recipes[k].0);
    }
  }

  /** The position of the last `.` of `s`, if any. */
  function LastDot(s: string): (r: Option<nat>)
    ensures r.Some? ==> r.value < |s| && s[r.value] == '.' && forall k :: r.value < k < |s| ==> s[k] != '.'
    ensures r.None? ==> forall k :: 0 <= k < |s| ==> s[k] != '.'
  {
    LastDotBefore(s, |s|)
  }

  /** The position of the last `.` among the first `n` characters of `s`, if any. */
  function LastDotBefore(s: string, n: nat): (r: Option<nat>)
    requires n <= |s|
    ensures r.Some? ==> r.value < n && s[r.value] == '.' && forall k :: r.value < k < n ==> s[k] != '.'
    ensures r.None? ==> forall k :: 0 <= k < n ==> s[k] != '.'
  {
    if n == 0 then None
    else if s[n - 1] == '.' then Some(n - 1)
    else LastDotBefore(s, n - 1)
  }

  /** `os.path.splitext` of a file name without directory: the text from the last `.` on is the
      extension, unless only dots come before that `.`. */
  function SplitExt(filename: string): (r: (string, string))
    ensures r.0 + r.1 == filename
    ensures r.1 == [] || (r.1[0] == '.' && forall k :: 1 <= k < |r.1| ==> r.1[k] != '.')
    ensures r.1 != [] ==> exists k :: 0 <= k < |r.0| && r.0[k] != '.'
    ensures r.1 == [] ==> LastDot(filename).None? ||
                          forall k :: 0 <= k < LastDot(filename).value ==> filename[k] == '.'
  {
    match LastDot(filename)
    case None => (filename, [])
    case Some(d) =>
      if exists k :: 0 <= k < d && filename[k] != '.' then
        assert filename[..d] + filename[d..] == filename;
        (filename[..d], filename[d..])
      else (filename, [])
  }

  /** The name of the page `main` writes for a recipe file: the file name without its extension,
      followed by `.html`. */
  function PageName(filename: string): (r: string)
    ensures |r| >= 5 && r[|r| - 5..] == ".html"
  {
    SplitExt(filename).0 + ".html"
  }

  /** For a file name ending in its only `.md`, with something besides dots before it, the link of
      the index is the page `main` writes. */
  lemma LinkIsPage(stem: string, k: nat)
    requires NoMd(stem) && k < |stem| && stem[k] != '.'
    ensures HtmlName(stem + ".md") == PageName(stem + ".md")
  {
    var f := stem + ".md";
    HtmlNameOfMd(stem);
    assert LastDot(f) == Some(|stem|) by {
      assert f[|f| - 1] == 'd' && f[|f| - 2] == 'm' && f[|f| - 3] == '.';
      assert LastDotBefore(f, |f|) == LastDotBefore(f, |f| - 1) == LastDotBefore(f, |f| - 2);
    }
    assert f[k] != '.';
    assert f[..|stem|] == stem;
  }

  /** A recipe file not named `.md` gets a link the index points to but no page of that name. */
  lemma LinkMissesPage()
    ensures HtmlName("notes.txt") == "notes.txt"
    ensures PageName("notes.txt") == "notes.html"
  {
    NotesLink();
    NotesPage();
  }

  /** `notes.txt` holds no `.md`, so its link is its own name. */
  lemma NotesLink()
    ensures HtmlName("notes.txt") == "notes.txt"
  {
    var f := "notes.txt";
    assert NoMd(f);
    HtmlNameUnchanged(f);
  }

  /** The page of `notes.txt` drops the extension `.txt`. */
  lemma NotesPage()
    ensures PageName("notes.txt") == "notes.html"
  {
    var f := "notes.txt";
    assert LastDot(f) == Some(5) by {
      assert LastDotBefore(f, 9) == LastDotBefore(f, 8) == LastDotBefore(f, 7) == LastDotBefore(f, 6);
    }
    assert f[0] != '.';
    assert f[..5] == "notes";
  }

  /** The index that links to the pages `main` writes. */
  function CorrectedIndex(recipes: seq<(string, Recipe)>): (r: seq<Entry>)
    ensures Sorted(r)
    ensures multiset(r) == multiset(EntriesWith(PageName, recipes))
  {
    IndexWith(PageName, recipes)
  }

  /** Every link of the corrected index is the page `main` writes for one of the recipe files. */
  lemma CorrectedLinksArePages(recipes: seq<(string, Recipe)>)
    ensures forall e :: e in CorrectedIndex(recipes) ==>
              exists k :: 0 <= k < |recipes| && e.link == PageName(recipes[k].0) && e.name == recipes[k].1.name
  {
    var r := CorrectedIndex(recipes);
    var es := EntriesWith(PageName, recipes);
    forall e | e in r
      ensures exists k :: 0 <= k < |recipes| && e.link == PageName(recipes[k].0) && e.name == recipes[k].1.name
    {
      assert e in multiset(es);
      var k :| 0 <= k < |es| && es[k] == e;
    }
  }
}

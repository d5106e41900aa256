/** The whole manifest `createContent` builds, as one function of the book,
    and its reading order proved outright: the cover, title and copyright
    pages, the dedications and epigraphs, the table of contents, the rest of
    the front matter, the parts and chapters, the back matter. */
module Layout {
  import opened Wrappers
  import opened Text
  import opened Manifest
  import opened Book
  import opened Parts
  import opened Pages

  /** The pages every bundle starts with. */
  const FixedPages: Manifest := [CoverPage, TitlePage, CopyrightPage]

  /** The four prefixes of numbered file ids. */
  predicate NumberedPrefix(p: string) {
    p == FrontMatterPrefix || p == PartPrefix || p == ChapterPrefix || p == BackMatterPrefix
  }

  /** The manifest before the part loop: the fixed pages, the dedications
      and epigraphs, then the rest of the front matter on one ordinal. */
  function FrontPages(c: Contents): Manifest {
    var m' := PutAll(FixedPages, Numbered(FrontMatterPrefix, Dedications(c.frontMatter), 1));
    PutAll(m', Numbered(FrontMatterPrefix, Remaining(c.frontMatter), 1 + |Dedications(c.frontMatter)|))
  }

  /** What the part loop starts from. */
  function PartsStart(c: Contents, hasIntroduction0: bool, introduced0: seq<string>): Progress {
    Progress(FrontPages(c), hasIntroduction0 || OfKind(c.frontMatter, "introduction") != [], 1, 1, introduced0)
  }

  /** What the part loop leaves. */
  function PartsDone(c: Contents, hasIntroduction0: bool, introduced0: seq<string>): Progress {
    Run(PartsStart(c, hasIntroduction0, introduced0), c.parts, |c.parts| > 1)
  }

  /** The manifest once the back matter is in. */
  function BeforeToc(c: Contents, hasIntroduction0: bool, introduced0: seq<string>): Manifest {
    PutAll(PartsDone(c, hasIntroduction0, introduced0).m, Numbered(BackMatterPrefix, Exported(c.backMatter), 1))
  }

  /** What the part loop, the back matter and the table of contents make of
      the front pages in `st`, the table placed by `lastPos`. */
  function Closing(st: Progress, c: Contents, lastPos: Option<nat>): Manifest {
    var done := Run(st, c.parts, |c.parts| > 1);
    WithToc(PutAll(done.m, Numbered(BackMatterPrefix, Exported(c.backMatter), 1)), lastPos)
  }

  /** The final manifest, from the values the exporter's fields held before. */
  function Bundle(c: Contents, lastPos0: Option<nat>, hasIntroduction0: bool, introduced0: seq<string>): Manifest {
    Closing(PartsStart(c, hasIntroduction0, introduced0), c, LastPosAfter(c.frontMatter, lastPos0))
  }

  // ---------------------------------------------------------------------
  // The fixed pages

  lemma FixedPagesPut()
    ensures Put(Put(Put([], CoverPage.0, CoverPage.1), TitlePage.0, TitlePage.1), CopyrightPage.0, CopyrightPage.1)
            == FixedPages
    ensures UniqueKeys(FixedPages)
  {
    var m1 := Put([], CoverPage.0, CoverPage.1);
    assert m1 == [CoverPage];
    assert Keys(m1) == [CoverPage.0];
    var m2 := Put(m1, TitlePage.0, TitlePage.1);
    assert m2 == [CoverPage, TitlePage];
    assert Keys(m2) == [CoverPage.0, TitlePage.0];
  }

  /** No fixed page has a numbered id. */
  lemma FixedNotNumbered(p: string, n: nat)
    requires NumberedPrefix(p)
    ensures forall i :: 0 <= i < |FixedPages| ==> FixedPages[i].0 != NumberedKey(p, n)
  {
    var key := NumberedKey(p, n);
    assert |key| >= |p| + 3;
    assert key[0] == p[0];
  }

  /** The fixed pages leave every numbering counter at 1 valid. */
  lemma FixedOrdinals(p: string)
    requires NumberedPrefix(p)
    ensures OrdinalsBelow(FixedPages, p, 1)
  {
    forall i, n | 0 <= i < |FixedPages| && 1 <= n ensures FixedPages[i].0 != NumberedKey(p, n) {
      FixedNotNumbered(p, n);
    }
  }

  // ---------------------------------------------------------------------
  // Front matter

  /** Before the part loop the manifest is the fixed pages, the dedications
      and epigraphs numbered from 1, and the rest of the front matter
      numbered on, and no id repeats. */
  lemma FrontPagesShape(c: Contents)
    ensures var d := Dedications(c.frontMatter);
            FrontPages(c)
            == FixedPages + Numbered(FrontMatterPrefix, d, 1)
               + Numbered(FrontMatterPrefix, Remaining(c.frontMatter), 1 + |d|)
    ensures UniqueKeys(FrontPages(c))
  {
    var d := Dedications(c.frontMatter);
    FixedPagesPut();
    FixedOrdinals(FrontMatterPrefix);
    NumberedAppends(FixedPages, FrontMatterPrefix, d, 1);
    NumberedAppends(FixedPages + Numbered(FrontMatterPrefix, d, 1), FrontMatterPrefix, Remaining(c.frontMatter), 1 + |d|);
  }

  /** Before the part loop no part, chapter or back-matter id is taken. */
  lemma FrontPagesOrdinals(c: Contents, q: string)
    requires q == ChapterPrefix || q == PartPrefix || q == BackMatterPrefix
    ensures OrdinalsBelow(FrontPages(c), q, 1)
  {
    var d := Dedications(c.frontMatter);
    FrontPagesShape(c);
    FixedOrdinals(q);
    NumberedKeepsOtherOrdinals(FixedPages, FrontMatterPrefix, d, 1, q, 1);
    var m1 := FixedPages + Numbered(FrontMatterPrefix, d, 1);
    NumberedKeepsOtherOrdinals(m1, FrontMatterPrefix, Remaining(c.frontMatter), 1 + |d|, q, 1);
  }

  /** The part loop starts from a sound state. */
  lemma PartsStartSound(c: Contents, hasIntroduction0: bool, introduced0: seq<string>)
    ensures Sound(PartsStart(c, hasIntroduction0, introduced0))
  {
    FrontPagesShape(c);
    FrontPagesOrdinals(c, ChapterPrefix);
    FrontPagesOrdinals(c, PartPrefix);
  }

  // ---------------------------------------------------------------------
  // Parts and back matter

  /** The pages the part loop adds. */
  function PartPages(c: Contents, hasIntroduction0: bool, introduced0: seq<string>): Manifest {
    var done := PartsDone(c, hasIntroduction0, introduced0).m;
    if |done| >= |FrontPages(c)| then done[|FrontPages(c)|..] else []
  }

  /** The part loop keeps the front pages as they are, adds only part and
      chapter pages after them, and no id repeats. */
  lemma PartsDoneShape(c: Contents, hasIntroduction0: bool, introduced0: seq<string>)
    ensures PartsDone(c, hasIntroduction0, introduced0).m == FrontPages(c) + PartPages(c, hasIntroduction0, introduced0)
    ensures ChapterOrPartKeys(PartPages(c, hasIntroduction0, introduced0))
    ensures UniqueKeys(PartsDone(c, hasIntroduction0, introduced0).m)
  {
    PartsStartSound(c, hasIntroduction0, introduced0);
    RunShape(PartsStart(c, hasIntroduction0, introduced0), c.parts, |c.parts| > 1);
  }

  /** Back matter added after pages none of which has a back-matter id is
      appended, numbered from 1, and keeps ids unique. */
  lemma BackMatterAppends(front: Manifest, added: Manifest, secs: seq<Section>)
    requires UniqueKeys(front + added) && OrdinalsBelow(front, BackMatterPrefix, 1)
    requires ChapterOrPartKeys(added)
    ensures PutAll(front + added, Numbered(BackMatterPrefix, secs, 1)) == front + added + Numbered(BackMatterPrefix, secs, 1)
    ensures UniqueKeys(front + added + Numbered(BackMatterPrefix, secs, 1))
  {
    var done := front + added;
    forall i, n | 0 <= i < |done| && 1 <= n ensures done[i].0 != NumberedKey(BackMatterPrefix, n) {
      if i < |front| {
        assert done[i] == front[i];
      } else {
        assert done[i] == added[i - |front|];
        assert NumberedKey(BackMatterPrefix, n)[0] == 'b';
      }
    }
    NumberedAppends(done, BackMatterPrefix, secs, 1);
  }

  /** The manifest before the table of contents: the fixed pages, the
      dedications and epigraphs numbered from 1, the rest of the front
      matter numbered on, the part and chapter pages, the back matter
      numbered from 1; no id repeats. */
  lemma BeforeTocShape(c: Contents, hasIntroduction0: bool, introduced0: seq<string>)
    ensures var d := Dedications(c.frontMatter);
            BeforeToc(c, hasIntroduction0, introduced0)
            == FixedPages + Numbered(FrontMatterPrefix, d, 1)
               + (Numbered(FrontMatterPrefix, Remaining(c.frontMatter), 1 + |d|)
                  + PartPages(c, hasIntroduction0, introduced0)
                  + Numbered(BackMatterPrefix, Exported(c.backMatter), 1))
    ensures UniqueKeys(BeforeToc(c, hasIntroduction0, introduced0))
  {
    var d := Dedications(c.frontMatter);
    var added := PartPages(c, hasIntroduction0, introduced0);
    var back := Numbered(BackMatterPrefix, Exported(c.backMatter), 1);
    var rest := Numbered(FrontMatterPrefix, Remaining(c.frontMatter), 1 + |d|);
    PartsDoneShape(c, hasIntroduction0, introduced0);
    FrontPagesShape(c);
    FrontPagesOrdinals(c, BackMatterPrefix);
    BackMatterAppends(FrontPages(c), added, Exported(c.backMatter));
    Regroup(FrontPages(c), FixedPages, Numbered(FrontMatterPrefix, d, 1), rest, added, back);
  }

  lemma Regroup<T>(f: seq<T>, a: seq<T>, b: seq<T>, r: seq<T>, p: seq<T>, k: seq<T>)
    requires f == a + b + r
    ensures f + p + k == a + b + (r + p + k)
  {
  }

  // ---------------------------------------------------------------------
  // Where the table of contents goes

  /** A numbered id is its prefix followed by at least three digits. */
  lemma NumberedKeyShape(p: string, n: nat)
    ensures var key := NumberedKey(p, n);
            |key| >= |p| + 3 && key[..|p|] == p && IsDigit(key[|key| - 1])
  {
    var key := NumberedKey(p, n);
    assert key[|key| - 1] == Pad3(n)[|Pad3(n)| - 1];
  }

  /** No fixed page is taken for a dedication or epigraph id. */
  lemma FixedNotAnchor(j: nat, n: nat)
    requires j < |FixedPages| && n >= 1
    ensures !IsTocAnchor(FixedPages[j].0, Some(n))
  {
    NumberedKeyShape(FrontMatterPrefix, n);
    assert |FixedPages[j].0| <= 11;
  }

  /** A front-matter id with another ordinal is not the anchor either. */
  lemma NumberedNotAnchor(k: nat, n: nat)
    requires k != n && n >= 1
    ensures !IsTocAnchor(NumberedKey(FrontMatterPrefix, k), Some(n))
  {
    var key := NumberedKey(FrontMatterPrefix, k);
    var anchor := NumberedKey(FrontMatterPrefix, n);
    if key == anchor {
      NumberedKeyInjective(FrontMatterPrefix, k, n);
    }
    NumberedKeyShape(FrontMatterPrefix, k);
    var nl := anchor + "\n";
    assert key[|key| - 1] != nl[|nl| - 1];
  }

  lemma FixedKeyAt(d: seq<Section>, m: Manifest, rest: Manifest, j: nat)
    requires m == FixedPages + Numbered(FrontMatterPrefix, d, 1) + rest
    requires j < 3
    ensures m[j] == FixedPages[j]
  {
  }

  lemma NumberedKeyAt(d: seq<Section>, m: Manifest, rest: Manifest, j: nat)
    requires m == FixedPages + Numbered(FrontMatterPrefix, d, 1) + rest
    requires 3 <= j < 3 + |d|
    ensures m[j].0 == NumberedKey(FrontMatterPrefix, j - 2)
  {
    assert m[j] == Numbered(FrontMatterPrefix, d, 1)[j - 3];
  }

  /** After `d` dedications and epigraphs, at least one, the table of
      contents follows the last of them, at position `2 + |d|`. */
  lemma AnchorAt(d: seq<Section>, m: Manifest, rest: Manifest)
    requires d != [] && m == FixedPages + Numbered(FrontMatterPrefix, d, 1) + rest
    ensures TocPosition(m, Some(|d|)) == 2 + |d|
  {
    forall j | 0 <= j < 2 + |d| ensures !IsTocAnchor(m[j].0, Some(|d|)) {
      if j < 3 {
        FixedKeyAt(d, m, rest, j);
        FixedNotAnchor(j, |d|);
      } else {
        NumberedKeyAt(d, m, rest, j);
        NumberedNotAnchor(j - 2, |d|);
      }
    }
    NumberedKeyAt(d, m, rest, 2 + |d|);
    assert IsTocAnchor(m[2 + |d|].0, Some(|d|));
    TocPositionIs(m, Some(|d|), 2 + |d|);
  }

  /** With no last dedication or epigraph recorded, the table of contents
      follows the copyright page, at position 2. */
  lemma CopyrightAt(d: seq<Section>, m: Manifest, rest: Manifest, lastPos: Option<nat>)
    requires m == FixedPages + Numbered(FrontMatterPrefix, d, 1) + rest
    requires lastPos.None? || lastPos.value == 0
    ensures TocPosition(m, lastPos) == 2
  {
    FixedKeyAt(d, m, rest, 0);
    FixedKeyAt(d, m, rest, 1);
    FixedKeyAt(d, m, rest, 2);
    TocPositionIs(m, lastPos, 2);
  }

  /** After at least one dedication or epigraph, the anchor is the last of
      them, at position `2 + |d|`. */
  lemma AnchorAfterDedications(c: Contents, hasIntroduction0: bool, introduced0: seq<string>, lastPos0: Option<nat>)
    requires Dedications(c.frontMatter) != []
    ensures TocPosition(BeforeToc(c, hasIntroduction0, introduced0), LastPosAfter(c.frontMatter, lastPos0)) == 2 + |Dedications(c.frontMatter)|
  {
    var d := Dedications(c.frontMatter);
    BeforeTocShape(c, hasIntroduction0, introduced0);
    AnchorAt(d, BeforeToc(c, hasIntroduction0, introduced0),
             Numbered(FrontMatterPrefix, Remaining(c.frontMatter), 1 + |d|)
             + PartPages(c, hasIntroduction0, introduced0)
             + Numbered(BackMatterPrefix, Exported(c.backMatter), 1));
  }

  /** When no last dedication or epigraph is recorded after the builder,
      which on a fresh exporter means there was none, the anchor is the
      copyright page, at position 2. */
  lemma AnchorCopyright(c: Contents, hasIntroduction0: bool, introduced0: seq<string>, lastPos: Option<nat>)
    requires lastPos.None? || lastPos.value == 0
    ensures TocPosition(BeforeToc(c, hasIntroduction0, introduced0), lastPos) == 2
  {
    var d := Dedications(c.frontMatter);
    BeforeTocShape(c, hasIntroduction0, introduced0);
    CopyrightAt(d, BeforeToc(c, hasIntroduction0, introduced0),
                Numbered(FrontMatterPrefix, Remaining(c.frontMatter), 1 + |d|)
                + PartPages(c, hasIntroduction0, introduced0)
                + Numbered(BackMatterPrefix, Exported(c.backMatter), 1),
                lastPos);
  }

  // ---------------------------------------------------------------------
  // The finished bundle

  /** No page of `m` is the table of contents. */
  predicate NoToc(m: Manifest) {
    forall i :: 0 <= i < |m| ==> m[i].0 != TocPage.0
  }

  lemma NoTocNumbered(p: string, secs: seq<Section>, start: nat)
    requires NumberedPrefix(p)
    ensures NoToc(Numbered(p, secs, start))
  {
    var es := Numbered(p, secs, start);
    forall i | 0 <= i < |es| ensures es[i].0 != TocPage.0 {
      assert es[i].0[0] == p[0];
    }
  }

  lemma NoTocParts(added: Manifest)
    requires ChapterOrPartKeys(added)
    ensures NoToc(added)
  {
  }

  lemma NoTocConcat(a: Manifest, b: Manifest)
    requires NoToc(a) && NoToc(b)
    ensures NoToc(a + b)
  {
    forall i | 0 <= i < |a + b| ensures (a + b)[i].0 != TocPage.0 {
      if i >= |a| {
        assert (a + b)[i] == b[i - |a|];
      }
    }
  }

  lemma NoTocKeys(m: Manifest)
    requires NoToc(m)
    ensures TocPage.0 !in Keys(m)
  {
    forall i | 0 <= i < |m| ensures Keys(m)[i] != TocPage.0 {
    }
  }

  lemma NoTocIn(m: Manifest, dd: Manifest, rest: Manifest)
    requires m == FixedPages + dd + rest
    requires NoToc(dd) && NoToc(rest)
    ensures TocPage.0 !in Keys(m)
  {
    assert NoToc(FixedPages);
    NoTocConcat(FixedPages, dd);
    NoTocConcat(FixedPages + dd, rest);
    NoTocKeys(m);
  }

  /** The manifest before the table of contents has no page of that id. */
  lemma BeforeTocHasNoToc(c: Contents, hasIntroduction0: bool, introduced0: seq<string>)
    ensures TocPage.0 !in Keys(BeforeToc(c, hasIntroduction0, introduced0))
  {
    var d := Dedications(c.frontMatter);
    var rr := Numbered(FrontMatterPrefix, Remaining(c.frontMatter), 1 + |d|);
    var pp := PartPages(c, hasIntroduction0, introduced0);
    var bb := Numbered(BackMatterPrefix, Exported(c.backMatter), 1);
    BeforeTocShape(c, hasIntroduction0, introduced0);
    PartsDoneShape(c, hasIntroduction0, introduced0);
    NoTocNumbered(FrontMatterPrefix, d, 1);
    NoTocNumbered(FrontMatterPrefix, Remaining(c.frontMatter), 1 + |d|);
    NoTocNumbered(BackMatterPrefix, Exported(c.backMatter), 1);
    NoTocParts(pp);
    NoTocConcat(rr, pp);
    NoTocConcat(rr + pp, bb);
    NoTocIn(BeforeToc(c, hasIntroduction0, introduced0), Numbered(FrontMatterPrefix, d, 1), rr + pp + bb);
  }

  lemma SplitAfter<T>(a: seq<T>, b: seq<T>, r: seq<T>)
    ensures (a + b + r)[..|a| + |b|] == a + b
    ensures (a + b + r)[|a| + |b|..] == r
  {
  }

  /** Inserting the table of contents right after the fixed pages and the
      numbered dedications of a manifest of that shape. */
  lemma TocAfterDedications(m: Manifest, lastPos: Option<nat>, dd: Manifest, rest: Manifest)
    requires m == FixedPages + dd + rest
    requires TocPosition(m, lastPos) == 2 + |dd|
    requires UniqueKeys(m) && TocPage.0 !in Keys(m)
    ensures WithToc(m, lastPos) == FixedPages + dd + [TocPage] + rest
    ensures UniqueKeys(WithToc(m, lastPos))
    ensures TocItems(WithToc(m, lastPos)) == TocItems(m)
  {
    TocAfterAnchor(m, lastPos);
    TocListsWhatWasThere(m, lastPos);
    SplitAfter(FixedPages, dd, rest);
  }

  /** Where the table of contents goes in the bundle. */
  lemma AnchorPosition(c: Contents, hasIntroduction0: bool, introduced0: seq<string>, lastPos0: Option<nat>)
    requires Dedications(c.frontMatter) != [] || lastPos0.None? || lastPos0.value == 0
    ensures TocPosition(BeforeToc(c, hasIntroduction0, introduced0), LastPosAfter(c.frontMatter, lastPos0))
            == 2 + |Numbered(FrontMatterPrefix, Dedications(c.frontMatter), 1)|
  {
    if Dedications(c.frontMatter) != [] {
      AnchorAfterDedications(c, hasIntroduction0, introduced0, lastPos0);
    } else {
      AnchorCopyright(c, hasIntroduction0, introduced0, lastPos0);
    }
  }

  /** The reading order of the bundle: the cover, title and copyright pages;
      the dedications, then the epigraphs, numbered from 1; the table of
      contents; the rest of the exported front matter numbered on; the part
      and chapter pages; the exported back matter numbered from 1. No id
      repeats, and the table of contents lists exactly what the manifest
      held before it was inserted. This holds whenever the exporter had no
      last dedication or epigraph recorded before, or the book has some. */
  lemma BundleLayout(c: Contents, lastPos0: Option<nat>, hasIntroduction0: bool, introduced0: seq<string>)
    requires Dedications(c.frontMatter) != [] || lastPos0.None? || lastPos0.value == 0
    ensures var d := Dedications(c.frontMatter);
            Bundle(c, lastPos0, hasIntroduction0, introduced0)
            == FixedPages + Numbered(FrontMatterPrefix, d, 1) + [TocPage]
               + (Numbered(FrontMatterPrefix, Remaining(c.frontMatter), 1 + |d|)
                  + PartPages(c, hasIntroduction0, introduced0)
                  + Numbered(BackMatterPrefix, Exported(c.backMatter), 1))
    ensures UniqueKeys(Bundle(c, lastPos0, hasIntroduction0, introduced0))
    ensures TocItems(Bundle(c, lastPos0, hasIntroduction0, introduced0)) == TocItems(BeforeToc(c, hasIntroduction0, introduced0))
  {
    var d := Dedications(c.frontMatter);
    BeforeTocShape(c, hasIntroduction0, introduced0);
    BeforeTocHasNoToc(c, hasIntroduction0, introduced0);
    AnchorPosition(c, hasIntroduction0, introduced0, lastPos0);
    TocAfterDedications(BeforeToc(c, hasIntroduction0, introduced0), LastPosAfter(c.frontMatter, lastPos0), Numbered(FrontMatterPrefix, d, 1),
                        Numbered(FrontMatterPrefix, Remaining(c.frontMatter), 1 + |d|)
                        + PartPages(c, hasIntroduction0, introduced0)
                        + Numbered(BackMatterPrefix, Exported(c.backMatter), 1));
  }
}

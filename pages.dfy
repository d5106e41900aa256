/** The fixed pages of the bundle (cover, title page, copyright page, table
    of contents), the choice of cover source, and where the table of
    contents goes and what it lists. */
module Pages {
  import opened Wrappers
  import opened Text
  import opened Manifest
  import opened Book

  /** A page that is not a post: ID -1 and file `<id>.html`. */
  function Page(key: string, title: string): (string, Entry) {
    (key, Entry(-1, title, key + ".html"))
  }

  const CoverPage := Page("front-cover", "Cover")
  const TitlePage := Page("title-page", "Title Page")
  const CopyrightPage := Page("copyright", "Copyright")
  const TocPage := Page("table-of-contents", "Table Of Contents")

  /** The front-matter types placed before the rest, in this order. */
  const DedicationKinds := ["dedication", "epigraph"]

  /** The sections the dedication/epigraph builder numbers. */
  function Dedications(frontMatter: seq<Section>): seq<Section> {
    OfKinds(frontMatter, DedicationKinds)
  }

  /** `frontMatterLastPos` after the dedication/epigraph builder. */
  function LastPosAfter(frontMatter: seq<Section>, lastPos0: Option<nat>): Option<nat> {
    if Dedications(frontMatter) == [] then lastPos0 else Some(|Dedications(frontMatter)|)
  }

  // ---------------------------------------------------------------------
  // Cover

  const DefaultCoverPath := "assets/images/default-book-cover.png"
  const DefaultCoverName := "default-book-cover.png"

  /** One character of the pattern `assets/images/default-book-cover.png`
      read as a regular expression: its unescaped `.` stands for any
      character except a newline. */
  predicate PatternChar(p: char, c: char) {
    if p == '.' then c != '\n' else p == c
  }

  /** `s` ends with text the pattern matches. */
  predicate EndsLike(s: string, pat: string) {
    |pat| <= |s| && forall k :: 0 <= k < |pat| ==> PatternChar(pat[k], s[|s| - |pat| + k])
  }

  /** `preg_match('~assets/images/default-book-cover.png$~', $s)`: `$` matches
      at the very end or just before a final newline. */
  predicate IsDefaultCover(s: string) {
    || EndsLike(s, DefaultCoverPath)
    || (|s| > 0 && s[|s| - 1] == '\n' && EndsLike(s[..|s| - 1], DefaultCoverPath))
  }

  /** The image the cover is made from: the media file of the cover setting,
      unless the setting is empty or names the bundled default cover, in
      which case the plugin's own copy of the default cover. `mediaPath` is
      what the host reports as the setting's media path. */
  function CoverSource(setting: string, mediaPath: string, pluginDir: string): string {
    if Truthy(setting) && !IsDefaultCover(setting) then mediaPath else pluginDir + DefaultCoverPath
  }

  /** A setting naming the default cover literally selects the plugin's copy. */
  lemma LiteralDefaultCover(setting: string, mediaPath: string, pluginDir: string)
    requires HasSuffix(setting, DefaultCoverPath)
    ensures CoverSource(setting, mediaPath, pluginDir) == pluginDir + DefaultCoverPath
  {
    assert EndsLike(setting, DefaultCoverPath) by {
      forall k | 0 <= k < |DefaultCoverPath|
        ensures PatternChar(DefaultCoverPath[k], setting[|setting| - |DefaultCoverPath| + k])
      {
        assert setting[|setting| - |DefaultCoverPath|..][k] == DefaultCoverPath[k];
      }
    }
  }

  /** Whatever the plugin directory, the default cover is saved as
      `default-book-cover.png`. */
  lemma DefaultCoverBasename(pluginDir: string)
    ensures Basename(pluginDir + DefaultCoverPath) == DefaultCoverName
  {
    var s := pluginDir + DefaultCoverPath;
    assert TrimEndChar(s, '/') == s by {
      assert s[|s| - 1] == 'g';
    }
    assert s == (pluginDir + "assets/images") + ['/'] + DefaultCoverName;
    LastPieceAfter(pluginDir + "assets/images", '/', DefaultCoverName);
  }

  // ---------------------------------------------------------------------
  // Table of contents

  /** The key the table of contents follows: the last dedication or epigraph
      page when there was one, else the copyright page. (`false == $pos` also
      holds for 0.) */
  function TocAnchor(lastPos: Option<nat>): string {
    if lastPos.None? || lastPos.value == 0 then CopyrightPage.0 else NumberedKey(FrontMatterPrefix, lastPos.value)
  }

  /** Whether `key` is the one looked for: `copyright` as `array_search`
      finds it, or a match of `/^front-matter-NNN$/`, whose `$` also matches
      just before a final newline. */
  predicate IsTocAnchor(key: string, lastPos: Option<nat>) {
    if lastPos.None? || lastPos.value == 0 then key == CopyrightPage.0
    else key == TocAnchor(lastPos) || key == TocAnchor(lastPos) + "\n"
  }

  /** The position of the first key the table of contents follows, -1 when
      there is none. */
  function TocPosition(m: Manifest, lastPos: Option<nat>): (r: int)
    ensures -1 <= r < |m|
  {
    if m == [] then -1
    else
      var r := TocPosition(m[..|m| - 1], lastPos);
      if r >= 0 then r
      else if IsTocAnchor(m[|m| - 1].0, lastPos) then |m| - 1
      else -1
  }

  /** `TocPosition` finds the first anchor. */
  lemma {:induction false} TocPositionFirst(m: Manifest, lastPos: Option<nat>)
    ensures var r := TocPosition(m, lastPos);
            && (r >= 0 ==> IsTocAnchor(m[r].0, lastPos))
            && (r >= 0 ==> forall j :: 0 <= j < r ==> !IsTocAnchor(m[j].0, lastPos))
  {
    if m != [] {
      var init := m[..|m| - 1];
      TocPositionFirst(init, lastPos);
      TocPositionNone(init, lastPos);
      assert forall j :: 0 <= j < |init| ==> init[j] == m[j];
    }
  }

  /** `TocPosition` is -1 exactly when there is no anchor. */
  lemma {:induction false} TocPositionNone(m: Manifest, lastPos: Option<nat>)
    ensures TocPosition(m, lastPos) == -1 <==> forall j :: 0 <= j < |m| ==> !IsTocAnchor(m[j].0, lastPos)
  {
    if m != [] {
      var init := m[..|m| - 1];
      var lastIsAnchor := IsTocAnchor(m[|m| - 1].0, lastPos);
      TocPositionNone(init, lastPos);
      assert TocPosition(m, lastPos) == -1 <==> TocPosition(init, lastPos) == -1 && !lastIsAnchor;
      assert (forall j :: 0 <= j < |m| ==> !IsTocAnchor(m[j].0, lastPos))
             <==> (forall j :: 0 <= j < |init| ==> !IsTocAnchor(init[j].0, lastPos)) && !lastIsAnchor by {
        assert forall j :: 0 <= j < |init| ==> init[j] == m[j];
      }
    }
  }

  /** Any position meeting that description is `TocPosition`. */
  lemma TocPositionIs(m: Manifest, lastPos: Option<nat>, r: int)
    requires -1 <= r < |m|
    requires r >= 0 ==> IsTocAnchor(m[r].0, lastPos)
    requires r >= 0 ==> forall j :: 0 <= j < r ==> !IsTocAnchor(m[j].0, lastPos)
    requires r == -1 ==> forall j :: 0 <= j < |m| ==> !IsTocAnchor(m[j].0, lastPos)
    ensures TocPosition(m, lastPos) == r
  {
    TocPositionFirst(m, lastPos);
    TocPositionNone(m, lastPos);
  }

  /** `createToc`'s insertion: after the anchor, or at the front when there
      is none. */
  function WithToc(m: Manifest, lastPos: Option<nat>): Manifest {
    InsertAt(m, (TocPosition(m, lastPos) + 1) as nat, TocPage.0, TocPage.1)
  }

  /** With its anchor present, the table of contents lands right after it
      and every other entry keeps its place and order. */
  lemma TocAfterAnchor(m: Manifest, lastPos: Option<nat>)
    requires UniqueKeys(m) && TocPage.0 !in Keys(m)
    requires TocPosition(m, lastPos) >= 0
    ensures var p := TocPosition(m, lastPos);
            && WithToc(m, lastPos) == m[..p + 1] + [TocPage] + m[p + 1..]
            && UniqueKeys(WithToc(m, lastPos))
  {
    var at := (TocPosition(m, lastPos) + 1) as nat;
    assert (TocPage.0, TocPage.1) == TocPage;
    InsertAtMiddle(m, at, TocPage.0, TocPage.1);
  }

  /** Without its anchor, the table of contents goes first and, as the slice
      length is `count - 1`, the last entry is lost. */
  lemma TocWithoutAnchor(m: Manifest, lastPos: Option<nat>)
    requires UniqueKeys(m) && TocPage.0 !in Keys(m) && |m| >= 1
    requires forall j :: 0 <= j < |m| ==> !IsTocAnchor(m[j].0, lastPos)
    ensures WithToc(m, lastPos) == [TocPage] + m[..|m| - 1]
  {
    TocPositionIs(m, lastPos, -1);
    InsertAtFrontDropsLast(m, TocPage.0, TocPage.1);
  }

  /** The class of a listed page. */
  datatype TocClass = FrontMatterItem | PartItem | ChapterItem | BackMatterItem

  /** Which manifest ids the table of contents lists, by their prefix. */
  function TocClassOf(key: string): Option<TocClass> {
    if HasPrefix(key, FrontMatterPrefix) then Some(FrontMatterItem)
    else if HasPrefix(key, PartPrefix) then Some(PartItem)
    else if HasPrefix(key, ChapterPrefix) then Some(ChapterItem)
    else if HasPrefix(key, BackMatterPrefix) then Some(BackMatterItem)
    else None
  }

  /** The lines of the table of contents, in manifest order. */
  function TocItems(m: Manifest): seq<(TocClass, Entry)> {
    if m == [] then []
    else
      var x := m[|m| - 1];
      TocItems(m[..|m| - 1]) + (match TocClassOf(x.0) case None => [] case Some(c) => [(c, x.1)])
  }

  /** The listing of two runs of entries is the two listings, in order. */
  lemma {:induction false} TocItemsAppend(a: Manifest, b: Manifest)
    ensures TocItems(a + b) == TocItems(a) + TocItems(b)
  {
    if b == [] {
      assert a + b == a;
    } else {
      var b' := b[..|b| - 1];
      assert (a + b)[..|a + b| - 1] == a + b';
      var x := b[|b| - 1];
      assert (a + b)[|a + b| - 1] == x;
      var t := match TocClassOf(x.0) case None => [] case Some(c) => [(c, x.1)];
      assert TocItems(b) == TocItems(b') + t;
      assert TocItems(a + b) == TocItems(a + b') + t;
      TocItemsAppend(a, b');
    }
  }

  lemma NotPrefixAt(s: string, p: string, i: nat)
    requires i < |p| && (|p| > |s| || s[i] != p[i])
    ensures !HasPrefix(s, p)
  {
    if |p| <= |s| {
      assert s[..|p|][i] != p[i];
    }
  }

  /** The cover, title, copyright and contents pages are not listed. */
  lemma FixedPagesUnlisted()
    ensures TocClassOf(CoverPage.0).None? && TocClassOf(TitlePage.0).None?
    ensures TocClassOf(CopyrightPage.0).None? && TocClassOf(TocPage.0).None?
  {
    forall key | key in [CoverPage.0, TitlePage.0, CopyrightPage.0, TocPage.0]
      ensures TocClassOf(key).None?
    {
      NotPrefixAt(key, FrontMatterPrefix, if key == TocPage.0 then 0 else 12);
      NotPrefixAt(key, PartPrefix, 0);
      NotPrefixAt(key, ChapterPrefix, if key == CopyrightPage.0 then 1 else 0);
      NotPrefixAt(key, BackMatterPrefix, if key == TocPage.0 then 0 else 11);
    }
  }

  /** The table of contents does not list itself: inserted after its
      anchor, it leaves the listing as it was. */
  lemma TocListsWhatWasThere(m: Manifest, lastPos: Option<nat>)
    requires UniqueKeys(m) && TocPage.0 !in Keys(m)
    requires TocPosition(m, lastPos) >= 0
    ensures TocItems(WithToc(m, lastPos)) == TocItems(m)
  {
    FixedPagesUnlisted();
    InsertedUnlisted(m, (TocPosition(m, lastPos) + 1) as nat, TocPage.0, TocPage.1);
  }

  /** A page the table of contents does not list, spliced in after any
      page of a manifest, leaves the listed items as they were. */
  lemma InsertedUnlisted(m: Manifest, at: nat, k: string, e: Entry)
    requires UniqueKeys(m) && k !in Keys(m) && TocClassOf(k).None?
    requires 1 <= at <= |m|
    ensures TocItems(InsertAt(m, at, k, e)) == TocItems(m)
  {
    assert InsertAt(m, at, k, e) == m[..at] + [(k, e)] + m[at..] by {
      InsertAtMiddle(m, at, k, e);
    }
    UnlistedInserted(m, at, (k, e));
  }

  /** Inserting a page the table of contents does not list leaves the
      listed items as they were. */
  lemma {:induction false} UnlistedInserted(m: Manifest, at: nat, x: (string, Entry))
    requires at <= |m| && TocClassOf(x.0).None?
    ensures TocItems(m[..at] + [x] + m[at..]) == TocItems(m)
  {
    var r := m[..at] + [x] + m[at..];
    if at == |m| {
      assert r[..|m|] == m;
    } else {
      var m' := m[..|m| - 1];
      assert r[..|r| - 1] == m'[..at] + [x] + m'[at..];
      assert r[|r| - 1] == m[|m| - 1];
      UnlistedInserted(m', at, x);
    }
  }

  /** Every numbered entry is listed, with the class of its prefix. */
  lemma {:induction false} NumberedListed(prefix: string, c: TocClass, secs: seq<Section>, start: nat)
    requires forall n: nat :: TocClassOf(NumberedKey(prefix, n)) == Some(c)
    ensures var items := TocItems(Numbered(prefix, secs, start));
            |items| == |secs|
            && forall k :: 0 <= k < |secs| ==> items[k] == (c, NumberedEntry(prefix, secs[k], start + k).1)
  {
    if secs != [] {
      var init := secs[..|secs| - 1];
      var es := Numbered(prefix, secs, start);
      assert es[..|es| - 1] == Numbered(prefix, init, start);
      NumberedListed(prefix, c, init, start);
    }
  }
}

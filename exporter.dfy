/** The exporter object and the builders that fill its manifest, one page
    kind after the other. Rendering and file writes are left out; what is
    kept is every change to the fields the builders share: the manifest,
    the running front-matter ordinal, the last dedication/epigraph ordinal,
    the introduction flag, the cover image name, and which pages were
    rendered with the introduction class. */
module Hpub {
  import opened Wrappers
  import opened Text
  import opened Manifest
  import opened Book
  import opened Parts
  import opened Pages
  import opened Passes
  import opened Layout
  import opened Json

  class Exporter {
    /** `file_id` => (ID, title, file name), in bundle order. */
    var manifest: Manifest
    /** Next front-matter ordinal. */
    var frontMatterPos: nat
    /** Ordinal of the last dedication or epigraph page; None is PHP `false`. */
    var frontMatterLastPos: Option<nat>
    var hasIntroduction: bool
    /** Name of the resized cover in `images/`; None while unset. */
    var coverImage: Option<string>
    /** File names of the pages rendered with the `introduction` class. */
    var introduced: seq<string>

    constructor ()
      ensures manifest == [] && frontMatterPos == 1 && frontMatterLastPos == None
      ensures !hasIntroduction && coverImage == None && introduced == []
    {
      manifest := [];
      frontMatterPos := 1;
      frontMatterLastPos := None;
      hasIntroduction := false;
      coverImage := None;
      introduced := [];
    }

    /** The cover page. `mediaPath` is the host's media path for the cover
        setting, `pluginDir` the plugin directory, and `resized` whether the
        image editor could open the source. */
    method CreateCover(setting: string, mediaPath: string, pluginDir: string, resized: bool)
      modifies this`manifest, this`coverImage
      ensures manifest == Put(old(manifest), CoverPage.0, CoverPage.1)
      ensures coverImage == if resized then Some(Basename(CoverSource(setting, mediaPath, pluginDir))) else old(coverImage)
    {
      var source := CoverSource(setting, mediaPath, pluginDir);
      var dest := Basename(source);
      if resized {
        coverImage := Some(dest);
      }
      manifest := Put(manifest, CoverPage.0, CoverPage.1);
    }

    /** The first exported front matter of type `title-page`, whose content
        replaces the generated title page. */
    method FindCustomTitlePage(frontMatter: seq<Section>) returns (r: Option<nat>)
      ensures r.Some? ==> r.value < |frontMatter| && frontMatter[r.value].exported && frontMatter[r.value].kind == TitlePageKind
      ensures r.Some? ==> forall k :: 0 <= k < r.value ==> !(frontMatter[k].exported && frontMatter[k].kind == TitlePageKind)
      ensures r.None? ==> OfKind(frontMatter, TitlePageKind) == []
    {
      r := None;
      var k := 0;
      while k < |frontMatter|
        invariant 0 <= k <= |frontMatter|
        invariant OfKind(frontMatter[..k], TitlePageKind) == []
        invariant forall i :: 0 <= i < k ==> !(frontMatter[i].exported && frontMatter[i].kind == TitlePageKind)
      {
        assert frontMatter[..k + 1][..k] == frontMatter[..k];
        if frontMatter[k].exported && frontMatter[k].kind == TitlePageKind {
          return Some(k);
        }
        k := k + 1;
      }
      assert frontMatter[..k] == frontMatter;
    }

    /** The title page. */
    method CreateTitle()
      modifies this`manifest
      ensures manifest == Put(old(manifest), TitlePage.0, TitlePage.1)
    {
      manifest := Put(manifest, TitlePage.0, TitlePage.1);
    }

    /** The copyright page. */
    method CreateCopyright()
      modifies this`manifest
      ensures manifest == Put(old(manifest), CopyrightPage.0, CopyrightPage.1)
    {
      manifest := Put(manifest, CopyrightPage.0, CopyrightPage.1);
    }

    /** The inner loop of the dedication/epigraph builder: the exported
        front matter of type `compare`, numbered on from `i0`. `lastPos` is
        the counter after the last page made, or `lastPos0` if none was. */
    method NumberKind(frontMatter: seq<Section>, compare: string, i0: nat, lastPos0: Option<nat>)
      returns (i: nat, lastPos: Option<nat>)
      modifies this`manifest
      ensures Numbering(manifest, i) == KindPass(Numbering(old(manifest), i0), FrontMatterPrefix, frontMatter, compare)
      ensures lastPos == if i == i0 then lastPos0 else Some(i)
    {
      i, lastPos := i0, lastPos0;
      for k := 0 to |frontMatter|
        invariant Numbering(manifest, i) == KindPass(Numbering(old(manifest), i0), FrontMatterPrefix, frontMatter[..k], compare)
        invariant i0 <= i
        invariant lastPos == if i == i0 then lastPos0 else Some(i)
      {
        var s := frontMatter[k];
        assert frontMatter[..k + 1][..k] == frontMatter[..k];
        if s.exported && s.kind == compare {
          var e := NumberedEntry(FrontMatterPrefix, s, i);
          manifest := Put(manifest, e.0, e.1);
          i := i + 1;
          lastPos := Some(i);
        }
      }
      assert frontMatter[..|frontMatter|] == frontMatter;
    }

    /** One pass of the dedication/epigraph loop, seen from the pages the
        earlier passes made: `done` are the sections numbered so far. */
    method NumberKindOnto(frontMatter: seq<Section>, compare: string, i0: nat, lastPos0: Option<nat>,
                          ghost m0: Manifest, ghost done: seq<Section>)
      returns (i: nat, lastPos: Option<nat>)
      modifies this`manifest
      requires manifest == PutAll(m0, Numbered(FrontMatterPrefix, done, 1)) && i0 == 1 + |done|
      requires lastPos0 == if i0 == 1 then None else Some(i0)
      ensures manifest == PutAll(m0, Numbered(FrontMatterPrefix, done + OfKind(frontMatter, compare), 1))
      ensures i == 1 + |done + OfKind(frontMatter, compare)|
      ensures lastPos == if i == 1 then None else Some(i)
    {
      KindPassContinues(m0, FrontMatterPrefix, done, frontMatter, compare);
      i, lastPos := NumberKind(frontMatter, compare, i0, lastPos0);
    }

    /** The loop of the dedication/epigraph builder over its two types:
        every exported dedication, then every exported epigraph, numbered
        from 1 whatever their order in the book. */
    method NumberDedications(frontMatter: seq<Section>) returns (i: nat, lastPos: Option<nat>)
      modifies this`manifest
      ensures manifest == PutAll(old(manifest), Numbered(FrontMatterPrefix, Dedications(frontMatter), 1))
      ensures i == 1 + |Dedications(frontMatter)|
      ensures lastPos == if i == 1 then None else Some(i)
    {
      i, lastPos := 1, None;
      ghost var done: seq<Section> := [];
      for t := 0 to |DedicationKinds|
        invariant done == OfKinds(frontMatter, DedicationKinds[..t])
        invariant manifest == PutAll(old(manifest), Numbered(FrontMatterPrefix, done, 1))
        invariant i == 1 + |done|
        invariant lastPos == if i == 1 then None else Some(i)
      {
        i, lastPos := NumberKindOnto(frontMatter, DedicationKinds[t], i, lastPos, old(manifest), done);
        OfKindsStep(frontMatter, DedicationKinds, t);
        done := done + OfKind(frontMatter, DedicationKinds[t]);
      }
      assert DedicationKinds[..|DedicationKinds|] == DedicationKinds;
    }

    /** The dedication/epigraph builder: the pages, then the next
        front-matter ordinal and, when a page was made, the ordinal of the
        last one. */
    method CreateDedicationAndEpigraph(frontMatter: seq<Section>)
      modifies this`manifest, this`frontMatterPos, this`frontMatterLastPos
      ensures manifest == PutAll(old(manifest), Numbered(FrontMatterPrefix, Dedications(frontMatter), 1))
      ensures frontMatterPos == 1 + |Dedications(frontMatter)|
      ensures frontMatterLastPos == LastPosAfter(frontMatter, old(frontMatterLastPos))
    {
      var i, lastPos := NumberDedications(frontMatter);
      ghost var n := |Dedications(frontMatter)|;
      assert lastPos.Some? <==> n != 0;
      assert lastPos.Some? ==> lastPos.value - 1 == n;
      frontMatterPos := i;
      if lastPos.Some? {
        frontMatterLastPos := Some(lastPos.value - 1);
      }
    }

    /** The rest of the exported front matter, numbered on from
        `frontMatterPos`; an `introduction` among it sets the flag. */
    method CreateFrontMatter(frontMatter: seq<Section>)
      modifies this`manifest, this`frontMatterPos, this`hasIntroduction
      ensures manifest == PutAll(old(manifest), Numbered(FrontMatterPrefix, Remaining(frontMatter), old(frontMatterPos)))
      ensures frontMatterPos == old(frontMatterPos) + |Remaining(frontMatter)|
      ensures hasIntroduction == (old(hasIntroduction) || OfKind(frontMatter, "introduction") != [])
    {
      ghost var start := FrontMatterState(manifest, frontMatterPos, hasIntroduction);
      var i := frontMatterPos;
      for k := 0 to |frontMatter|
        invariant FrontMatterState(manifest, i, hasIntroduction) == FrontMatterPass(start, frontMatter[..k])
        modifies this`manifest, this`hasIntroduction
      {
        var s := frontMatter[k];
        assert frontMatter[..k + 1][..k] == frontMatter[..k];
        if s.exported && !HandledElsewhere(s.kind) {
          if s.kind == "introduction" {
            hasIntroduction := true;
          }
          var e := NumberedEntry(FrontMatterPrefix, s, i);
          manifest := Put(manifest, e.0, e.1);
          i := i + 1;
        }
      }
      assert frontMatter[..|frontMatter|] == frontMatter;
      FrontMatterPassNumbers(start, frontMatter);
      FrontMatterPassIntroduction(start, frontMatter);
      frontMatterPos := i;
    }

    /** The chapter loop of one part: its exported chapters numbered on from
        `j0`. The first of them gets the introduction class when the flag is
        still clear, and sets it. */
    method NumberChapters(chapters: seq<Section>, j0: nat) returns (j: nat, hasChapters: bool)
      modifies this`manifest, this`hasIntroduction, this`introduced
      ensures manifest == PutAll(old(manifest), Numbered(ChapterPrefix, Exported(chapters), j0))
      ensures j == j0 + |Exported(chapters)|
      ensures hasChapters == (Exported(chapters) != [])
      ensures hasIntroduction == (old(hasIntroduction) || hasChapters)
      ensures introduced
              == old(introduced)
                 + if !old(hasIntroduction) && hasChapters
                   then [NumberedEntry(ChapterPrefix, Exported(chapters)[0], j0).1.filename] else []
    {
      ghost var start := ChapterState(manifest, j0, hasIntroduction, introduced);
      j, hasChapters := j0, false;
      for k := 0 to |chapters|
        invariant ChapterState(manifest, j, hasIntroduction, introduced) == ChapterPass(start, chapters[..k])
        invariant j0 <= j && hasChapters == (j != j0)
      {
        var c := chapters[k];
        if c.exported {
          var e := NumberedEntry(ChapterPrefix, c, j);
          if !hasIntroduction {
            introduced := introduced + [e.1.filename];
            hasIntroduction := true;
          }
          manifest := Put(manifest, e.0, e.1);
          hasChapters := true;
          j := j + 1;
        }
        assert ChapterState(manifest, j, hasIntroduction, introduced) == ChapterPass(start, chapters[..k + 1]) by {
          assert chapters[..k + 1][..k] == chapters[..k] && chapters[..k + 1][k] == c;
        }
      }
      assert chapters[..|chapters|] == chapters;
      ChapterPassNumbers(start, chapters);
      ChapterPassIntroduction(start, chapters);
    }

    /** The end of one part: when it had exported chapters in a book of
        several parts, its entry goes in at `arrayPos` and takes the
        introduction class if the class was injected into it; when the class
        was injected into a part without exported chapters, the flag is
        given back. */
    method ClosePart(part: Part, multi: bool, i0: nat, arrayPos: nat, injected: bool, hasChapters: bool)
      returns (i: nat)
      modifies this`manifest, this`hasIntroduction, this`introduced
      ensures var pe := PartEntry(part, i0);
              && manifest == (if hasChapters && multi then InsertAt(old(manifest), arrayPos, pe.0, pe.1) else old(manifest))
              && introduced == old(introduced) + (if hasChapters && multi && injected then [pe.1.filename] else [])
      ensures hasIntroduction == if injected && !hasChapters then false else old(hasIntroduction)
      ensures i == if hasChapters && multi then i0 + 1 else i0
    {
      i := i0;
      if hasChapters && multi {
        var pe := PartEntry(part, i);
        manifest := InsertAt(manifest, arrayPos, pe.0, pe.1);
        if injected {
          introduced := introduced + [pe.1.filename];
        }
        i := i + 1;
      }
      if injected && !hasChapters {
        hasIntroduction := false;
      }
    }

    /** One iteration of the part loop, with part counter `i0` and chapter
        counter `j0`; `multi` says whether the book has several parts. */
    method CreatePart(part: Part, multi: bool, i0: nat, j0: nat) returns (i: nat, j: nat)
      modifies this`manifest, this`hasIntroduction, this`introduced
      ensures Progress(manifest, hasIntroduction, i, j, introduced)
              == PartStep(Progress(old(manifest), old(hasIntroduction), i0, j0, old(introduced)), part, multi)
    {
      ghost var st := Progress(manifest, hasIntroduction, i0, j0, introduced);
      var arrayPos := |manifest|;
      var injected := !hasIntroduction && multi;
      if injected {
        hasIntroduction := true;
      }
      var hasChapters;
      j, hasChapters := NumberChapters(part.chapters, j0);
      i := ClosePart(part, multi, i0, arrayPos, injected, hasChapters);
      PartStepPhases(st, part, multi);
    }

    /** The part loop: each part's exported chapters, then, in a book of
        several parts and only when there were any, the part entry inserted
        at the manifest length recorded before them. Part and chapter
        counters both start at 1. */
    method CreatePartsAndChapters(parts: seq<Part>)
      modifies this`manifest, this`hasIntroduction, this`introduced
      ensures var r := Run(Progress(old(manifest), old(hasIntroduction), 1, 1, old(introduced)), parts, |parts| > 1);
              manifest == r.m && hasIntroduction == r.hasIntroduction && introduced == r.introduced
    {
      ghost var init := Progress(manifest, hasIntroduction, 1, 1, introduced);
      var multi := |parts| > 1;
      var i: nat, j: nat := 1, 1;
      for k := 0 to |parts|
        invariant Progress(manifest, hasIntroduction, i, j, introduced) == Run(init, parts[..k], multi)
      {
        assert parts[..k + 1][..k] == parts[..k];
        i, j := CreatePart(parts[k], multi, i, j);
      }
      assert parts[..|parts|] == parts;
    }

    /** Every exported back matter, numbered from 1. */
    method CreateBackMatter(backMatter: seq<Section>)
      modifies this`manifest
      ensures manifest == PutAll(old(manifest), Numbered(BackMatterPrefix, Exported(backMatter), 1))
    {
      ghost var start := Numbering(manifest, 1);
      var i := 1;
      for k := 0 to |backMatter|
        invariant Numbering(manifest, i) == ExportedPass(start, BackMatterPrefix, backMatter[..k])
      {
        var s := backMatter[k];
        assert backMatter[..k + 1][..k] == backMatter[..k];
        if s.exported {
          var e := NumberedEntry(BackMatterPrefix, s, i);
          manifest := Put(manifest, e.0, e.1);
          i := i + 1;
        }
      }
      assert backMatter[..|backMatter|] == backMatter;
      ExportedPassNumbers(start, BackMatterPrefix, backMatter);
    }

    /** Where the table of contents goes: the position of the last
        dedication or epigraph page, or of the copyright page when there is
        none; -1 when that key is missing. */
    method PositionOfToc() returns (r: int)
      ensures r == TocPosition(manifest, frontMatterLastPos)
    {
      var search := Keys(manifest);
      assert forall j :: 0 <= j < |manifest| ==> search[j] == manifest[j].0;
      if frontMatterLastPos.None? || frontMatterLastPos.value == 0 {
        var found := IndexOf(search, CopyrightPage.0);
        r := if found.Some? then found.value else -1;
        TocPositionIs(manifest, frontMatterLastPos, r);
      } else {
        var target := NumberedKey(FrontMatterPrefix, frontMatterLastPos.value);
        r := -1;
        var k := 0;
        while k < |search|
          invariant 0 <= k <= |search|
          invariant forall j :: 0 <= j < k ==> !IsTocAnchor(manifest[j].0, frontMatterLastPos)
        {
          if search[k] == target || search[k] == target + "\n" {
            r := k;
            break;
          }
          k := k + 1;
        }
        TocPositionIs(manifest, frontMatterLastPos, r);
      }
    }

    /** The table of contents: its page inserted at the position after its
        anchor, then the listing of the manifest in order, each page with
        the class of its prefix. */
    method CreateToc() returns (items: seq<(TocClass, Entry)>)
      modifies this`manifest
      ensures manifest == WithToc(old(manifest), frontMatterLastPos)
      ensures items == TocItems(manifest)
    {
      var arrayPos := PositionOfToc();
      manifest := InsertAt(manifest, (arrayPos + 1) as nat, TocPage.0, TocPage.1);
      items := ListToc();
    }

    /** The listing loop of the table of contents: every page with one of
        the four prefixes, in manifest order, with its class. */
    method ListToc() returns (items: seq<(TocClass, Entry)>)
      ensures items == TocItems(manifest)
    {
      items := [];
      for k := 0 to |manifest|
        invariant items == TocItems(manifest[..k])
      {
        assert manifest[..k + 1][..k] == manifest[..k];
        var (key, v) := manifest[k];
        match TocClassOf(key)
        case None =>
        case Some(c) => items := items + [(c, v)];
      }
      assert manifest[..|manifest|] == manifest;
    }

    /** A fresh manifest with the cover, title and copyright pages. */
    method CreateFixedPages(setting: string, mediaPath: string, pluginDir: string, resized: bool)
      modifies this`manifest, this`coverImage
      ensures manifest == FixedPages
      ensures coverImage == if resized then Some(Basename(CoverSource(setting, mediaPath, pluginDir))) else old(coverImage)
    {
      manifest := [];
      CreateCover(setting, mediaPath, pluginDir, resized);
      CreateTitle();
      CreateCopyright();
      FixedPagesPut();
    }

    /** The two front-matter builders in the order the export runs them. */
    method NumberFrontMatter(c: Contents)
      modifies this`manifest, this`frontMatterPos, this`frontMatterLastPos, this`hasIntroduction
      ensures manifest == PutAll(PutAll(old(manifest), Numbered(FrontMatterPrefix, Dedications(c.frontMatter), 1)),
                                 Numbered(FrontMatterPrefix, Remaining(c.frontMatter), 1 + |Dedications(c.frontMatter)|))
      ensures frontMatterPos == 1 + |Dedications(c.frontMatter)| + |Remaining(c.frontMatter)|
      ensures frontMatterLastPos == LastPosAfter(c.frontMatter, old(frontMatterLastPos))
      ensures hasIntroduction == (old(hasIntroduction) || OfKind(c.frontMatter, "introduction") != [])
    {
      CreateDedicationAndEpigraph(c.frontMatter);
      CreateFrontMatter(c.frontMatter);
    }

    /** The pages before the part loop, from a fresh manifest: cover,
        title, copyright, dedications and epigraphs, the other front
        matter. */
    method CreateFrontPages(c: Contents, setting: string, mediaPath: string, pluginDir: string, resized: bool)
      modifies this`manifest, this`coverImage, this`frontMatterPos, this`frontMatterLastPos, this`hasIntroduction
      ensures manifest == FrontPages(c)
      ensures frontMatterPos == 1 + |Dedications(c.frontMatter)| + |Remaining(c.frontMatter)|
      ensures frontMatterLastPos == LastPosAfter(c.frontMatter, old(frontMatterLastPos))
      ensures hasIntroduction == (old(hasIntroduction) || OfKind(c.frontMatter, "introduction") != [])
      ensures coverImage == if resized then Some(Basename(CoverSource(setting, mediaPath, pluginDir))) else old(coverImage)
    {
      CreateFixedPages(setting, mediaPath, pluginDir, resized);
      NumberFrontMatter(c);
    }

    /** The pages after the front matter, then the table of contents. */
    method CreateBody(c: Contents) returns (items: seq<(TocClass, Entry)>)
      modifies this`manifest, this`hasIntroduction, this`introduced
      ensures var st := Progress(old(manifest), old(hasIntroduction), 1, 1, old(introduced));
              && manifest == Closing(st, c, frontMatterLastPos)
              && hasIntroduction == Run(st, c.parts, |c.parts| > 1).hasIntroduction
              && introduced == Run(st, c.parts, |c.parts| > 1).introduced
      ensures items == TocItems(manifest)
    {
      CreatePartsAndChapters(c.parts);
      CreateBackMatter(c.backMatter);
      items := CreateToc();
    }

    /** The whole bundle, built page kind by page kind from a fresh
        manifest: the result is the bundle function of the book, whose
        reading order `BundleLayout` proves. The front-matter ordinal and
        the last dedication position are not reset, as in the exporter. */
    method CreateContent(c: Contents, setting: string, mediaPath: string, pluginDir: string, resized: bool)
      returns (items: seq<(TocClass, Entry)>)
      modifies this`manifest, this`coverImage, this`frontMatterPos, this`frontMatterLastPos
      modifies this`hasIntroduction, this`introduced
      ensures manifest == Bundle(c, old(frontMatterLastPos), old(hasIntroduction), old(introduced))
      ensures items == TocItems(manifest)
      ensures frontMatterPos == 1 + |Dedications(c.frontMatter)| + |Remaining(c.frontMatter)|
      ensures frontMatterLastPos == LastPosAfter(c.frontMatter, old(frontMatterLastPos))
      ensures hasIntroduction == PartsDone(c, old(hasIntroduction), old(introduced)).hasIntroduction
      ensures introduced == PartsDone(c, old(hasIntroduction), old(introduced)).introduced
      ensures coverImage == if resized then Some(Basename(CoverSource(setting, mediaPath, pluginDir))) else old(coverImage)
    {
      CreateFrontPages(c, setting, mediaPath, pluginDir, resized);
      ghost var st := PartsStart(c, old(hasIntroduction), old(introduced));
      assert Progress(manifest, hasIntroduction, 1, 1, introduced) == st;
      items := CreateBody(c);
      assert PartsDone(c, old(hasIntroduction), old(introduced)) == Run(st, c.parts, |c.parts| > 1);
    }

    /** `createJson`: the index of the bundle as the manifest and the cover
        image stand, or the exception for an empty manifest. `title` and
        `siteUrl` are the site's name and URL, `metadata` the book's
        metadata. */
    method CreateJson(title: string, metadata: map<string, string>, siteUrl: string)
      returns (r: Result<BookJson, string>)
      ensures r == IndexJson(manifest, coverImage, title, metadata, siteUrl)
    {
      if manifest == [] {
        return Err(EmptyManifest);
      }
      var bookUrl := siteUrl;
      var p := Find(siteUrl, Separator);
      if p.Some? && p.value > 0 {
        bookUrl := siteUrl[p.value + 3..];
      }
      bookUrl := "book://" + bookUrl;
      var author := if "pb_author" in metadata then Some(metadata["pb_author"]) else None;
      var cover := None;
      if coverImage.Some? && Truthy(coverImage.value) {
        cover := Some("images/" + coverImage.value);
      }
      var contents := [];
      for i := 0 to |manifest|
        invariant |contents| == i
        invariant forall k :: 0 <= k < i ==> contents[k] == manifest[k].1.filename
      {
        contents := contents + [manifest[i].1.filename];
      }
      assert contents == Filenames(manifest);
      r := Ok(BookJson(title, author, bookUrl, cover, contents));
    }
  }
}

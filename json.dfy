/** `createJson`: the `book.json` index of the bundle, with the book's
    title, author and `book://` URL, its cover, and the file names of its
    pages in reading order. */
module Json {
  import opened Wrappers
  import opened Text
  import opened Manifest
  import opened Book
  import opened Pages
  import opened Layout

  /** The fields of `book.json`; an absent author is written as `null`, an
      absent cover is left out. */
  datatype BookJson = BookJson(title: string, author: Option<string>, url: string,
                               cover: Option<string>, contents: seq<string>)

  const Separator := "://"

  /** The message of the exception thrown for an empty manifest. */
  const EmptyManifest := "$this->manifest cannot be empty. Did you forget to call $this->createContent() ?"

  /** `mb_strpos($url, '://')` taken as a condition: there is a separator,
      and it is not at position 0. */
  predicate HasScheme(url: string) {
    var p := Find(url, Separator);
    p.Some? && p.value > 0
  }

  /** The book URL as written: `list($_garbage, $book_url) =
      mb_split('://', $url)` keeps the second piece only, the text between
      the first separator and the next one. */
  function BookUrlAsWritten(url: string): string {
    var p := Find(url, Separator);
    if p.Some? && p.value > 0 then
      var rest := url[p.value + 3..];
      match Find(rest, Separator)
      case Some(q) => "book://" + rest[..q]
      case None => "book://" + rest
    else "book://" + url
  }

  /** The book URL as intended: the scheme and its separator are replaced
      by `book://`, everything after the first separator is kept. */
  function BookUrl(url: string): string {
    var p := Find(url, Separator);
    if p.Some? && p.value > 0 then "book://" + url[p.value + 3..] else "book://" + url
  }

  /** `scheme://rest` with a scheme that has no `:` becomes `book://rest`;
      a URL without separator, or starting with one, is kept whole after
      `book://`. */
  lemma BookUrlReplacesScheme(scheme: string, rest: string)
    requires scheme != [] && ':' !in scheme
    ensures BookUrl(scheme + Separator + rest) == "book://" + rest
    ensures BookUrl(rest) == "book://" + rest <== !HasScheme(rest)
  {
    FirstSeparator(scheme, rest);
  }

  /** The first separator of `scheme://rest` is the one after the scheme. */
  lemma FirstSeparator(scheme: string, rest: string)
    requires ':' !in scheme
    ensures Find(scheme + Separator + rest, Separator) == Some(|scheme|)
  {
    var url := scheme + Separator + rest;
    assert OccursAt(url, Separator, |scheme|) by {
      assert url[|scheme|..|scheme| + 3] == Separator;
    }
    forall j | 0 <= j < |scheme| ensures !OccursAt(url, Separator, j) {
      assert url[j] == scheme[j];
      if j + 3 <= |url| {
        assert url[j..j + 3][0] == url[j];
      }
    }
  }

  /** The URL as written and as intended agree on every site URL without
      a second separator: one without a scheme, and `scheme://rest` when
      `rest` holds no `://`. */
  lemma BookUrlAgrees(scheme: string, rest: string)
    requires scheme != [] && ':' !in scheme
    ensures Find(rest, Separator).None? ==>
              BookUrlAsWritten(scheme + Separator + rest) == BookUrl(scheme + Separator + rest) == "book://" + rest
    ensures !HasScheme(rest) ==> BookUrlAsWritten(rest) == BookUrl(rest) == "book://" + rest
  {
    var url := scheme + Separator + rest;
    FirstSeparator(scheme, rest);
    assert url[|scheme| + 3..] == rest;
  }

  /** A URL with a second separator after the scheme loses everything
      from that separator on: `http://example.com/a://b` becomes
      `book://example.com/a`, where `book://example.com/a://b` is meant. */
  lemma SecondSeparatorCuts(scheme: string, middle: string, tail: string)
    requires scheme != [] && ':' !in scheme && ':' !in middle
    ensures BookUrlAsWritten(scheme + Separator + (middle + Separator + tail)) == "book://" + middle
    ensures BookUrl(scheme + Separator + (middle + Separator + tail)) == "book://" + (middle + Separator + tail)
    ensures BookUrlAsWritten(scheme + Separator + (middle + Separator + tail))
            != BookUrl(scheme + Separator + (middle + Separator + tail))
  {
    AsWrittenKeepsSecondPiece(scheme, middle, tail);
    BookUrlReplacesScheme(scheme, middle + Separator + tail);
    assert |"book://" + middle| < |"book://" + (middle + Separator + tail)|;
  }

  /** As written, `scheme://middle://tail` keeps `middle` only. */
  lemma AsWrittenKeepsSecondPiece(scheme: string, middle: string, tail: string)
    requires scheme != [] && ':' !in scheme && ':' !in middle
    ensures BookUrlAsWritten(scheme + Separator + (middle + Separator + tail)) == "book://" + middle
  {
    var rest := middle + Separator + tail;
    var url := scheme + Separator + rest;
    assert Find(url, Separator) == Some(|scheme|) && url[|scheme| + 3..] == rest by {
      FirstSeparator(scheme, rest);
    }
    assert Find(rest, Separator) == Some(|middle|) && rest[..|middle|] == middle by {
      FirstSeparator(middle, tail);
    }
  }

  /** The index of a built bundle, or the exception `createJson` throws
      for an empty manifest. `metadata` is the book's metadata and
      `coverImage` the exporter's cover image; `title` and `siteUrl` are the
      site's name and URL. */
  function IndexJson(m: Manifest, coverImage: Option<string>, title: string,
                     metadata: map<string, string>, siteUrl: string): (r: Result<BookJson, string>)
    ensures r.Err? <==> m == []
    ensures r.Ok? ==> |r.value.contents| == |m| && forall i :: 0 <= i < |m| ==> r.value.contents[i] == m[i].1.filename
    ensures r.Ok? ==> (r.value.cover.Some? <==> coverImage.Some? && Truthy(coverImage.value))
    ensures r.Ok? ==> HasPrefix(r.value.url, "book://")
  {
    if m == [] then Err(EmptyManifest)
    else
      var author := if "pb_author" in metadata then Some(metadata["pb_author"]) else None;
      var cover := if coverImage.Some? && Truthy(coverImage.value) then Some("images/" + coverImage.value) else None;
      Ok(BookJson(title, author, BookUrl(siteUrl), cover, Filenames(m)))
  }

  /** A manifest laid out as the fixed pages, some numbered pages, the
      table of contents and the rest: where each fixed page sits. */
  lemma FixedPagePositions(m: Manifest, numbered: Manifest, rest: Manifest)
    requires m == FixedPages + numbered + [TocPage] + rest
    ensures |m| >= 4 + |numbered|
    ensures Filenames(m)[..3] == ["front-cover.html", "title-page.html", "copyright.html"]
    ensures Filenames(m)[3 + |numbered|] == "table-of-contents.html"
  {
    assert m[0] == CoverPage && m[1] == TitlePage && m[2] == CopyrightPage;
    assert m[3 + |numbered|] == TocPage;
    assert Filenames(m)[..3] == [m[0].1.filename, m[1].1.filename, m[2].1.filename];
    assert "front-cover" + ".html" == "front-cover.html";
    assert "title-page" + ".html" == "title-page.html";
    assert "copyright" + ".html" == "copyright.html";
    assert "table-of-contents" + ".html" == "table-of-contents.html";
  }

  /** The index of a whole bundle always exists, and lists the cover, title
      and copyright pages first, then the dedications and epigraphs, then
      the table of contents. */
  lemma IndexOfBundle(c: Contents, lastPos0: Option<nat>, hasIntroduction0: bool, introduced0: seq<string>,
                      coverImage: Option<string>, title: string, metadata: map<string, string>, siteUrl: string)
    requires Dedications(c.frontMatter) != [] || lastPos0.None? || lastPos0.value == 0
    ensures var m := Bundle(c, lastPos0, hasIntroduction0, introduced0);
            var r := IndexJson(m, coverImage, title, metadata, siteUrl);
            var d := |Dedications(c.frontMatter)|;
            && r.Ok?
            && |r.value.contents| >= 4 + d
            && r.value.contents[..3] == ["front-cover.html", "title-page.html", "copyright.html"]
            && r.value.contents[3 + d] == "table-of-contents.html"
  {
    var d := Dedications(c.frontMatter);
    var m := Bundle(c, lastPos0, hasIntroduction0, introduced0);
    var numbered := Numbered(FrontMatterPrefix, d, 1);
    var rest := Numbered(FrontMatterPrefix, Remaining(c.frontMatter), 1 + |d|)
                + PartPages(c, hasIntroduction0, introduced0)
                + Numbered(BackMatterPrefix, Exported(c.backMatter), 1);
    assert m == FixedPages + numbered + [TocPage] + rest by {
      BundleLayout(c, lastPos0, hasIntroduction0, introduced0);
    }
    assert |numbered| == |d|;
    FixedPagePositions(m, numbered, rest);
    var r := IndexJson(m, coverImage, title, metadata, siteUrl);
    assert r.value.contents == Filenames(m);
  }
}

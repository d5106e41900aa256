/** The two "fuzzy" comparisons of the HTML kneader: whether a link and the
    image it wraps name the same picture, and whether a link points at
    another page of the same book, in which case it is rewritten to the
    file name that page gets in the bundle. */
module Links {
  import opened Wrappers
  import opened Text
  import opened Manifest

  /** PHP's `==` between two strings: the same text, or two strings of
      decimal digits with the same value (`"0123" == "123"`). */
  predicate LooseEq(a: string, b: string) {
    a == b || (a != [] && b != [] && AllDigits(a) && AllDigits(b) && Parse(a) == Parse(b))
  }

  // ---------------------------------------------------------------------
  // fuzzyImageNameMatch

  /** The lower-cased text after the last `.` of the base name. */
  function Extension(file: string): string {
    Lower(LastPiece(Basename(file), '.'))
  }

  /** The lower-cased text before the first `-` of the part of the base
      name before its first `.`. */
  function NamePrefix(file: string): string {
    Lower(FirstPiece(FirstPiece(Basename(file), '.'), '-'))
  }

  /** A link and an image name "the same" picture when their base names
      have equal extensions and equal prefixes, both compared with `==`. */
  predicate FuzzyImageNameMatch(file1: string, file2: string) {
    LooseEq(Extension(file1), Extension(file2)) && LooseEq(NamePrefix(file1), NamePrefix(file2))
  }

  /** The comparison does not depend on the order of its arguments. */
  lemma FuzzyImageNameMatchSymmetric(file1: string, file2: string)
    ensures FuzzyImageNameMatch(file1, file2) == FuzzyImageNameMatch(file2, file1)
  {
    LooseEqSymmetric(Extension(file1), Extension(file2));
    LooseEqSymmetric(NamePrefix(file1), NamePrefix(file2));
  }

  lemma LooseEqSymmetric(a: string, b: string)
    ensures LooseEq(a, b) == LooseEq(b, a)
  {
  }

  /** The case the comparison was written for: a full-size image and its
      resized copy, `dir1/Stem-original.PNG` and `dir2/stem-300x200.png`,
      in any letter case, match. */
  lemma ResizedCopyMatches(dir1: string, dir2: string, stem1: string, stem2: string,
                           size1: string, size2: string, ext1: string, ext2: string)
    requires Lower(stem1) == Lower(stem2) && Lower(ext1) == Lower(ext2)
    requires '/' !in stem1 && '.' !in stem1 && '-' !in stem1
    requires '/' !in stem2 && '.' !in stem2 && '-' !in stem2
    requires '/' !in size1 && '.' !in size1 && '/' !in size2 && '.' !in size2
    requires '/' !in ext1 && '.' !in ext1 && ext1 != []
    requires '/' !in ext2 && '.' !in ext2 && ext2 != []
    ensures FuzzyImageNameMatch(dir1 + "/" + (stem1 + "-" + size1 + "." + ext1),
                                dir2 + "/" + (stem2 + "-" + size2 + "." + ext2))
  {
    SplitName(dir1, stem1, size1, ext1);
    SplitName(dir2, stem2, size2, ext2);
  }

  /** How `dir/stem-size.ext` is taken apart. */
  lemma SplitName(dir: string, stem: string, size: string, ext: string)
    requires '/' !in stem && '.' !in stem && '-' !in stem
    requires '/' !in size && '.' !in size
    requires '/' !in ext && '.' !in ext && ext != []
    ensures var file := dir + "/" + (stem + "-" + size + "." + ext);
            Extension(file) == Lower(ext) && NamePrefix(file) == Lower(stem)
  {
    var base := stem + "-" + size + "." + ext;
    assert '/' !in base && base[|base| - 1] == ext[|ext| - 1] by {
      assert base == stem + ['-'] + size + ['.'] + ext;
    }
    BasenameAfterSlash(dir, base);
    PiecesOfBase(stem, size, ext);
  }

  /** The base name of `dir/base` is `base`. */
  lemma BasenameAfterSlash(dir: string, base: string)
    requires '/' !in base && base != [] && base[|base| - 1] != '/'
    ensures Basename(dir + "/" + base) == base
  {
    var file := dir + "/" + base;
    assert file == dir + ['/'] + base;
    assert TrimEndChar(file, '/') == file by {
      assert file[|file| - 1] == base[|base| - 1];
    }
    LastPieceAfter(dir, '/', base);
  }

  /** The extension of `stem-size.ext` is `ext` and its prefix `stem`. */
  lemma PiecesOfBase(stem: string, size: string, ext: string)
    requires '.' !in stem && '-' !in stem && '.' !in size && '.' !in ext
    ensures LastPiece(stem + "-" + size + "." + ext, '.') == ext
    ensures FirstPiece(FirstPiece(stem + "-" + size + "." + ext, '.'), '-') == stem
  {
    var front := stem + "-" + size;
    assert FirstPiece(front + "." + ext, '.') == front && LastPiece(front + "." + ext, '.') == ext by {
      assert front + "." + ext == front + ['.'] + ext;
      assert '.' !in front;
      FirstPieceBefore(front, '.', ext);
      LastPieceAfter(front, '.', ext);
    }
    assert front == stem + ['-'] + size;
    FirstPieceBefore(stem, '-', size);
  }

  // ---------------------------------------------------------------------
  // fuzzyHrefMatch

  /** The book's `__export_lookup`: slug => section type
      (`front-matter`, `part`, `chapter`, `back-matter`), in book order. */
  type Lookup = seq<(string, string)>

  function Slugs(lookup: Lookup): seq<string> {
    seq(|lookup|, i requires 0 <= i < |lookup| => lookup[i].0)
  }

  /** The URL with blanks trimmed and trailing slashes removed. */
  function TrimmedUrl(url: string): string {
    TrimEndChar(Trim(url), '/')
  }

  /** The trimmed last path segment of the URL. */
  function LastSegment(url: string): string {
    Trim(LastPiece(TrimmedUrl(url), '/'))
  }

  /** The comparison of the scan: PHP's `==` when `loose`, as the loop is
      written, and exact equality otherwise. */
  predicate Same(a: string, b: string, loose: bool) {
    if loose then LooseEq(a, b) else a == b
  }

  /** The loop that numbers the target: one for every entry whose type
      compares equal to `t`, up to the first entry whose slug compares
      equal to `slug`, that one included. */
  function ScanOrdinal(lookup: Lookup, slug: string, t: string, loose: bool): nat {
    if lookup == [] then 0
    else
      var (p, u) := lookup[0];
      (if Same(u, t, loose) then 1 else 0) + (if Same(p, slug, loose) then 0 else ScanOrdinal(lookup[1..], slug, t, loose))
  }

  /** The number of entries whose type compares equal to `t`. */
  function CountType(lookup: Lookup, t: string, loose: bool): nat {
    if lookup == [] then 0
    else CountType(lookup[..|lookup| - 1], t, loose) + (if Same(lookup[|lookup| - 1].1, t, loose) then 1 else 0)
  }

  /** The link target as the code computes it, `loose` choosing between the
      loop as written and the loop with exact comparisons. `hostOf` is
      `parse_url`'s host ("" when there is none) and `siteHost` the host of
      the site's own URL. `$type` is not used by the code. */
  function HrefTargetWith(url: string, pos: nat, lookup: Lookup, hostOf: string -> string,
                          siteHost: string, loose: bool): Option<string>
  {
    if pos == 0 then None
    else
      var slug := LastSegment(url);
      if !Truthy(slug) then None
      else match IndexOf(Slugs(lookup), slug)
        case None => None
        case Some(k) =>
          var host := hostOf(TrimmedUrl(url));
          if Truthy(host) && !LooseEq(host, siteHost) then None
          else
            var t := lookup[k].1;
            Some(t + "-" + Pad3(ScanOrdinal(lookup, slug, t, loose)) + "-" + slug + ".html")
  }

  /** `fuzzyHrefMatch` as written: slugs compared with PHP's `==`. */
  function HrefTargetAsWritten(url: string, pos: nat, lookup: Lookup, hostOf: string -> string,
                               siteHost: string): Option<string>
  {
    HrefTargetWith(url, pos, lookup, hostOf, siteHost, true)
  }

  /** `fuzzyHrefMatch` with the slug comparison exact, which the rest of
      the model uses. */
  function HrefTarget(url: string, pos: nat, lookup: Lookup, hostOf: string -> string,
                      siteHost: string): Option<string>
  {
    HrefTargetWith(url, pos, lookup, hostOf, siteHost, false)
  }

  /** The loop counts the entries whose type compares equal to `t` up to
      and including the first entry whose slug compares equal to `slug`:
      with PHP's `==` that entry can come before the slug itself. */
  lemma {:induction false} ScanOrdinalCounts(lookup: Lookup, slug: string, t: string, k: nat, loose: bool)
    requires k < |lookup| && Same(lookup[k].0, slug, loose)
    requires forall j :: 0 <= j < k ==> !Same(lookup[j].0, slug, loose)
    ensures ScanOrdinal(lookup, slug, t, loose) == CountType(lookup[..k + 1], t, loose)
  {
    if k == 0 {
      assert lookup[..1][..0] == [];
    } else {
      ScanOrdinalCounts(lookup[1..], slug, t, k - 1, loose);
      CountTypeCons(lookup[0], lookup[1..][..k], t, loose);
      assert [lookup[0]] + lookup[1..][..k] == lookup[..k + 1];
    }
  }

  /** Counting from the front. */
  lemma {:induction false} CountTypeCons(x: (string, string), rest: Lookup, t: string, loose: bool)
    ensures CountType([x] + rest, t, loose) == (if Same(x.1, t, loose) then 1 else 0) + CountType(rest, t, loose)
  {
    if rest == [] {
      assert ([x] + rest)[..0] == [];
    } else {
      var init := rest[..|rest| - 1];
      CountTypeCons(x, init, t, loose);
      assert ([x] + rest)[..|rest|] == [x] + init;
    }
  }

  /** The entry itself is counted, so the ordinal is at least 1. */
  lemma {:induction false} CountTypeLast(lookup: Lookup, k: nat, loose: bool)
    requires k < |lookup|
    ensures CountType(lookup[..k + 1], lookup[k].1, loose) >= 1
  {
    assert lookup[..k + 1][..k] == lookup[..k];
  }

  /** For a type that is not a string of digits, such as `chapter`, PHP's
      `==` counts the same entries as exact equality. */
  lemma {:induction false} CountTypeExact(lookup: Lookup, t: string)
    requires !AllDigits(t)
    ensures CountType(lookup, t, true) == CountType(lookup, t, false)
  {
    if lookup != [] {
      CountTypeExact(lookup[..|lookup| - 1], t);
    }
  }

  /** `fuzzyHrefMatch` answers "not internal" (false) exactly when the
      position is 0, the last path segment is empty (or "0"), the segment
      is no slug of the book, or the URL names a host other than the
      site's. Otherwise the target is `<type>-NNN-<slug>.html`, NNN being
      the number of sections of that type up to and including the slug,
      so at least 1. */
  lemma HrefTargetCases(url: string, pos: nat, lookup: Lookup, hostOf: string -> string, siteHost: string)
    ensures var slug := LastSegment(url);
            var host := hostOf(TrimmedUrl(url));
            HrefTarget(url, pos, lookup, hostOf, siteHost).Some?
            <==> pos != 0 && Truthy(slug) && slug in Slugs(lookup) && (!Truthy(host) || LooseEq(host, siteHost))
    ensures match HrefTarget(url, pos, lookup, hostOf, siteHost)
            case None => true
            case Some(target) =>
              exists k :: 0 <= k < |lookup| && lookup[k].0 == LastSegment(url)
                          && (forall j :: 0 <= j < k ==> lookup[j].0 != LastSegment(url))
                          && CountType(lookup[..k + 1], lookup[k].1, false) >= 1
                          && target == lookup[k].1 + "-" + Pad3(CountType(lookup[..k + 1], lookup[k].1, false))
                                       + "-" + LastSegment(url) + ".html"
  {
    var slug := LastSegment(url);
    match IndexOf(Slugs(lookup), slug)
    case None =>
    case Some(k) =>
      assert Slugs(lookup)[k] == lookup[k].0;
      forall j | 0 <= j < k ensures lookup[j].0 != slug {
        assert Slugs(lookup)[j] == lookup[j].0;
      }
      ScanOrdinalCounts(lookup, slug, lookup[k].1, k, false);
      CountTypeLast(lookup, k, false);
  }

  /** The loop as written and the corrected one give the same answer
      whenever the only slug of the book `==` to the link's slug is that
      slug itself, and no type is a string of digits: they differ only on
      lookups like the one of `LooseSlugComparison`. */
  lemma ScansAgree(url: string, pos: nat, lookup: Lookup, hostOf: string -> string, siteHost: string)
    requires forall j :: 0 <= j < |lookup| && LooseEq(lookup[j].0, LastSegment(url)) ==> lookup[j].0 == LastSegment(url)
    requires forall j :: 0 <= j < |lookup| ==> !AllDigits(lookup[j].1)
    ensures HrefTargetAsWritten(url, pos, lookup, hostOf, siteHost) == HrefTarget(url, pos, lookup, hostOf, siteHost)
  {
    var slug := LastSegment(url);
    match IndexOf(Slugs(lookup), slug)
    case None =>
    case Some(k) =>
      var t := lookup[k].1;
      assert Slugs(lookup)[k] == lookup[k].0;
      forall j | 0 <= j < k ensures lookup[j].0 != slug && !LooseEq(lookup[j].0, slug) {
        assert Slugs(lookup)[j] == lookup[j].0;
      }
      ScanOrdinalCounts(lookup, slug, t, k, false);
      ScanOrdinalCounts(lookup, slug, t, k, true);
      CountTypeExact(lookup[..k + 1], t);
  }

  /** A link `base/slug` whose slug has no blank and no slash: trimming
      leaves it as it is and its last segment is the slug. */
  lemma SegmentOf(base: string, slug: string)
    requires base != [] && !IsBlank(base[0])
    requires slug != [] && '/' !in slug
    requires forall i :: 0 <= i < |slug| ==> !IsBlank(slug[i])
    ensures TrimmedUrl(base + "/" + slug) == base + "/" + slug
    ensures LastSegment(base + "/" + slug) == slug
  {
    var url := base + "/" + slug;
    assert url[0] == base[0];
    assert !IsBlank(url[|url| - 1]) && url[|url| - 1] != '/' by {
      assert url[|url| - 1] == slug[|slug| - 1];
    }
    assert TrimStart(url) == url;
    assert TrimEnd(url) == url;
    assert url == base + ['/'] + slug;
    LastPieceAfter(base, '/', slug);
    assert TrimStart(slug) == slug;
    assert TrimEnd(slug) == slug;
  }

  /** Such a link to the section at position `k` of the lookup, on the
      site's own host or on none, is rewritten with the ordinal the loop
      computes. */
  lemma ResolvesWith(base: string, slug: string, pos: nat, lookup: Lookup, k: nat,
                     hostOf: string -> string, siteHost: string, loose: bool)
    requires pos != 0 && k < |lookup| && lookup[k].0 == slug
    requires forall j :: 0 <= j < k ==> lookup[j].0 != slug
    requires base != [] && !IsBlank(base[0])
    requires slug != [] && slug != "0" && '/' !in slug
    requires forall i :: 0 <= i < |slug| ==> !IsBlank(slug[i])
    requires var host := hostOf(base + "/" + slug); !Truthy(host) || host == siteHost
    ensures HrefTargetWith(base + "/" + slug, pos, lookup, hostOf, siteHost, loose)
            == Some(lookup[k].1 + "-" + Pad3(ScanOrdinal(lookup, slug, lookup[k].1, loose)) + "-" + slug + ".html")
  {
    var url := base + "/" + slug;
    assert LastSegment(url) == slug && TrimmedUrl(url) == url by {
      SegmentOf(base, slug);
    }
    assert IndexOf(Slugs(lookup), slug) == Some(k) by {
      forall j | 0 <= j < k ensures Slugs(lookup)[j] != slug {
        assert Slugs(lookup)[j] == lookup[j].0;
      }
      IndexOfFirst(Slugs(lookup), slug, k);
    }
  }

  /** The index of a key is the position of its first occurrence. */
  lemma {:induction false} IndexOfFirst(ks: seq<string>, x: string, k: nat)
    requires k < |ks| && ks[k] == x
    requires forall j :: 0 <= j < k ==> ks[j] != x
    ensures IndexOf(ks, x) == Some(k)
  {
    if k > 0 {
      IndexOfFirst(ks[1..], x, k - 1);
    }
  }

  /** A link `base/slug` to the section at position `k` of the lookup, on
      the site's own host or on none, resolves to the file name of that
      section: `chapter-003-<slug>.html` for the third chapter. */
  lemma ResolvesToSection(base: string, slug: string, pos: nat, lookup: Lookup, k: nat,
                          hostOf: string -> string, siteHost: string)
    requires pos != 0 && k < |lookup| && lookup[k].0 == slug
    requires forall j :: 0 <= j < k ==> lookup[j].0 != slug
    requires base != [] && !IsBlank(base[0])
    requires slug != [] && slug != "0" && '/' !in slug
    requires forall i :: 0 <= i < |slug| ==> !IsBlank(slug[i])
    requires var host := hostOf(base + "/" + slug); !Truthy(host) || host == siteHost
    ensures HrefTarget(base + "/" + slug, pos, lookup, hostOf, siteHost)
            == Some(lookup[k].1 + "-" + Pad3(CountType(lookup[..k + 1], lookup[k].1, false)) + "-" + slug + ".html")
  {
    ResolvesWith(base, slug, pos, lookup, k, hostOf, siteHost, false);
    ScanOrdinalCounts(lookup, slug, lookup[k].1, k, false);
  }

  /** "01" and "1" are different slugs that PHP's `==` takes as equal. */
  lemma LeadingZeroSlugs()
    ensures "01" != "1" && LooseEq("01", "1")
  {
    var s: string := "01";
    assert s[..1] == "0" && "0"[..0] == [];
    assert AllDigits(s) && Parse(s) == 1;
    var t: string := "1";
    assert t[..0] == [];
    assert AllDigits(t) && Parse(t) == 1;
  }

  /** The loop as written compares slugs with `==`. When the lookup holds a
      part whose slug is `==` to a chapter's slug but different from it
      ("01" and "1", see `LeadingZeroSlugs`), a link to the chapter stops at
      the part, counts no chapter, and is rewritten to `chapter-000-...`, a
      file that does not exist; with the exact comparison it gets
      `chapter-001-...`, the chapter's own file. */
  lemma LooseSlugComparison(base: string, partSlug: string, slug: string, pos: nat,
                            hostOf: string -> string, siteHost: string)
    requires partSlug != slug && LooseEq(partSlug, slug)
    requires pos != 0 && base != [] && !IsBlank(base[0])
    requires slug != [] && slug != "0" && '/' !in slug
    requires forall i :: 0 <= i < |slug| ==> !IsBlank(slug[i])
    requires var host := hostOf(base + "/" + slug); !Truthy(host) || host == siteHost
    ensures var lookup := [(partSlug, "part"), (slug, "chapter")];
            && HrefTargetAsWritten(base + "/" + slug, pos, lookup, hostOf, siteHost)
               == Some("chapter" + "-" + Pad3(0) + "-" + slug + ".html")
            && HrefTarget(base + "/" + slug, pos, lookup, hostOf, siteHost)
               == Some("chapter" + "-" + Pad3(1) + "-" + slug + ".html")
            && Pad3(0) != Pad3(1)
  {
    var lookup := [(partSlug, "part"), (slug, "chapter")];
    var url := base + "/" + slug;
    ResolvesWith(base, slug, pos, lookup, 1, hostOf, siteHost, true);
    ResolvesWith(base, slug, pos, lookup, 1, hostOf, siteHost, false);
    PartBeforeChapter(partSlug, slug);
    assert lookup[1].1 == "chapter";
    assert HrefTargetAsWritten(url, pos, lookup, hostOf, siteHost) == HrefTargetWith(url, pos, lookup, hostOf, siteHost, true);
    assert HrefTarget(url, pos, lookup, hostOf, siteHost) == HrefTargetWith(url, pos, lookup, hostOf, siteHost, false);
    if Pad3(0) == Pad3(1) {
      Pad3Injective(0, 1);
    }
  }

  /** The two scans over a part and then a chapter whose slugs are `==`. */
  lemma PartBeforeChapter(partSlug: string, slug: string)
    requires partSlug != slug && LooseEq(partSlug, slug)
    ensures var lookup := [(partSlug, "part"), (slug, "chapter")];
            ScanOrdinal(lookup, slug, "chapter", true) == 0 && ScanOrdinal(lookup, slug, "chapter", false) == 1
  {
    var lookup := [(partSlug, "part"), (slug, "chapter")];
    var part: string := "part";
    assert part[0] == 'p' && !IsDigit(part[0]);
    assert !LooseEq("part", "chapter");
    assert lookup[1..] == [(slug, "chapter")];
    assert ScanOrdinal(lookup[1..], slug, "chapter", false) == 1;
  }

  /** `fuzzyHrefMatch`: with `loose` the code as written, otherwise with
      the corrected slug comparison. */
  method FuzzyHrefMatch(url: string, pos: nat, lookup: Lookup, hostOf: string -> string, siteHost: string,
                        loose: bool)
    returns (r: Option<string>)
    ensures r == HrefTargetWith(url, pos, lookup, hostOf, siteHost, loose)
  {
    if pos == 0 {
      return None;
    }
    var u := TrimmedUrl(url);
    var lastPart := Trim(LastPiece(u, '/'));
    if !Truthy(lastPart) {
      return None;
    }
    var k := IndexOf(Slugs(lookup), lastPart);
    if k.None? {
      return None;
    }
    var domain := hostOf(u);
    if Truthy(domain) && !LooseEq(domain, siteHost) {
      return None;
    }
    var newType := lookup[k.value].1;
    var newPos := CountUpTo(lookup, lastPart, newType, loose);
    r := Some(newType + "-" + Pad3(newPos) + "-" + lastPart + ".html");
  }

  /** The `foreach` over the lookup: the entries of type `t` are counted
      until an entry of `slug` has been seen, both compared with PHP's `==`
      when `loose`, as written. */
  method CountUpTo(lookup: Lookup, slug: string, t: string, loose: bool) returns (n: nat)
    ensures n == ScanOrdinal(lookup, slug, t, loose)
  {
    n := 0;
    var i := 0;
    assert lookup[i..] == lookup;
    while i < |lookup|
      invariant 0 <= i <= |lookup|
      invariant n + ScanOrdinal(lookup[i..], slug, t, loose) == ScanOrdinal(lookup, slug, t, loose)
    {
      var (p, u) := lookup[i];
      assert lookup[i..][0] == lookup[i] && lookup[i..][1..] == lookup[i + 1..];
      if (if loose then LooseEq(u, t) else u == t) {
        n := n + 1;
      }
      if (if loose then LooseEq(p, slug) else p == slug) {
        break;
      }
      i := i + 1;
    }
  }
}

# Pressbooks HPub exporter: a Dafny model

This project models the core of the Pressbooks HPub exporter, the class
`Pb_Hpub` in `includes/modules/export/hpub/class-pb-hpub.php`. The
exporter turns a book into an HPub bundle: one XHTML page per section,
an `images/` directory, a copy of the stylesheet and a `book.json`
index.

The model keeps what the exporter decides and what it promises about
that:

- **The manifest.** This is the ordered dictionary `file_id => (ID,
  title, file name)` that the `create*` builders fill, one page kind
  after the other: cover, title page, copyright, dedications and
  epigraphs, the other front matter, parts and their chapters, back
  matter, and the table of contents spliced in after the dedications.
  It is modelled as the class `Hpub.Exporter`. Its methods change the
  exporter's fields as the PHP methods do, except that `createJson`
  writes the corrected book URL (see Findings). Each method is proved
  against a specification function. Lemmas about those functions give
  the shape of the finished bundle, prove its keys unique, and show
  that the table of contents lists what was there.
- **PHP behaviour the builders rely on.**
  - an ordered array as a sequence of key/value pairs;
  - `$a[$k] = $v` on it;
  - `array_slice` with preserved keys, and the `+` union;
  - the `%03s` ordinal;
  - truthiness, where `""` and `"0"` are false;
  - the loose `==` of numeric strings.
- **Links between sections (`fuzzyHrefMatch`).** A link to another page
  of the same book is resolved to that page's file name. The pages
  use the corrected, exact slug comparison (see Findings); the code as
  written is `Links.HrefTargetAsWritten`, and `Links.ScansAgree` says
  when the two give the same page.
- **Images.** `fetchAndSaveUniqueImage` fetches an image and saves it
  without overwriting other files; the `images/` directory is the class
  `Assets.ImageDir`. `scrapeAndKneadImages` and `kneadHref` rewrite a
  page's image sources and anchors.
- **The self-closing tag rewrite** of `kneadHtml`.
- **The stylesheet pass (`scrapeAndKneadCss`).** It orders the `url()`
  references, copies local images and fetches remote ones, and rewrites
  the references.
- **The `book.json` index (`createJson`).**

Everything the exporter gets from WordPress or the machine is a
parameter:
- the network;
- the image check;
- the file-name cleaners and `wp_unique_filename`;
- the host of a URL;
- the site's name and URL;
- the export lookup;
- the result of `realpath`.

## Model

| member | source | states |
|---|---|---|
| Hpub.Exporter.constructor | includes/modules/export/hpub/class-pb-hpub.php:302-308 | a new exporter has an empty manifest, front-matter ordinal 1, no last dedication ordinal, no introduction and no cover image |
| Hpub.Exporter.CreateCover | includes/modules/export/hpub/class-pb-hpub.php:415-466 | the cover page is put under `front-cover`. The cover image becomes the base name of the cover source only when the image editor could open it; otherwise it is left as it was |
| Pages.LiteralDefaultCover | includes/modules/export/hpub/class-pb-hpub.php:419-423 | a setting that ends in the default cover path is not used: the bundled default cover is taken from the plugin directory |
| Pages.DefaultCoverBasename | includes/modules/export/hpub/class-pb-hpub.php:422-424 | the default cover is saved as `default-book-cover.png`, whatever the plugin directory |
| Hpub.Exporter.FindCustomTitlePage | includes/modules/export/hpub/class-pb-hpub.php:477-491 | the answer is the first exported front matter of type `title-page`; there is none exactly when no exported section has that type |
| Hpub.Exporter.CreateTitle | includes/modules/export/hpub/class-pb-hpub.php:516-527 | the title page is put under `title-page` and nothing else changes |
| Hpub.Exporter.CreateCopyright | includes/modules/export/hpub/class-pb-hpub.php:565-576 | the copyright page is put under `copyright` and nothing else changes |
| Hpub.Exporter.NumberKind | includes/modules/export/hpub/class-pb-hpub.php:601-640 | one pass over the front matter for one type numbers its exported sections of that type consecutively from the running ordinal. The last ordinal advances only when a page was added |
| Hpub.Exporter.NumberKindOnto | includes/modules/export/hpub/class-pb-hpub.php:600-641 | a pass that continues an earlier one numbers the concatenation of both passes' sections from 1 |
| Hpub.Exporter.NumberDedications | includes/modules/export/hpub/class-pb-hpub.php:598-641 | the dedications then the epigraphs are appended as front matter 1, 2, …; the next ordinal is one past their count |
| Hpub.Exporter.CreateDedicationAndEpigraph | includes/modules/export/hpub/class-pb-hpub.php:585-644 | the manifest gains the numbered dedications and epigraphs; the front-matter ordinal is one past them; the last ordinal is set only when at least one was added |
| Hpub.Exporter.CreateFrontMatter | includes/modules/export/hpub/class-pb-hpub.php:651-725 | the other exported front matter is numbered on from the running ordinal, skipping dedication, epigraph and title-page. The introduction flag is raised exactly when one of them is an introduction |
| Hpub.Exporter.NumberChapters | includes/modules/export/hpub/class-pb-hpub.php:763-822 | a part's exported chapters are numbered on from the running chapter ordinal. When the introduction flag was clear, the first of them is rendered as the introduction |
| Hpub.Exporter.ClosePart | includes/modules/export/hpub/class-pb-hpub.php:824-856 | a part with chapters in a multi-part book gets its page inserted before its chapters. A part whose introduction class went unused gives the flag back |
| Hpub.Exporter.CreatePart | includes/modules/export/hpub/class-pb-hpub.php:751-858 | one part changes the exporter exactly as the specification step `Parts.PartStep` says |
| Hpub.Exporter.CreatePartsAndChapters | includes/modules/export/hpub/class-pb-hpub.php:732-859 | all parts change the exporter exactly as `Parts.Run` says, with part pages only when there is more than one part |
| Hpub.Exporter.CreateBackMatter | includes/modules/export/hpub/class-pb-hpub.php:866-916 | the exported back matter is appended as back matter 1, 2, … |
| Hpub.Exporter.PositionOfToc | includes/modules/export/hpub/class-pb-hpub.php:1006-1029 | the answer is the position of the table-of-contents anchor, as `Pages.TocPosition` defines it |
| Hpub.Exporter.CreateToc | includes/modules/export/hpub/class-pb-hpub.php:925-998 | the table of contents is spliced in after its anchor, and its items are the listed pages of the new manifest |
| Hpub.Exporter.ListToc | includes/modules/export/hpub/class-pb-hpub.php:949-987 | the items are the front matter, part, chapter and back matter pages of the manifest, in order, with their classes |
| Hpub.Exporter.CreateFixedPages | includes/modules/export/hpub/class-pb-hpub.php:308-319 | starting from an empty manifest, the cover, title and copyright pages are the first three entries |
| Hpub.Exporter.NumberFrontMatter | includes/modules/export/hpub/class-pb-hpub.php:322-325 | the two front-matter passes together number the dedications first, then the remaining front matter after them |
| Hpub.Exporter.CreateFrontPages | includes/modules/export/hpub/class-pb-hpub.php:302-325 | the manifest becomes `Layout.FrontPages`: the fixed pages then all numbered front matter |
| Hpub.Exporter.CreateBody | includes/modules/export/hpub/class-pb-hpub.php:328-335 | the parts, chapters, back matter and table of contents are added as the layout functions say, and the listed items are those of the final manifest |
| Hpub.Exporter.CreateContent | includes/modules/export/hpub/class-pb-hpub.php:302-336 | the whole build gives the manifest `Layout.Bundle`, and its table-of-contents items, ordinals, introduction flag and cover image |
| Hpub.Exporter.CreateJson | includes/modules/export/hpub/class-pb-hpub.php:1297-1326 | the index is `Json.IndexJson` of the current manifest and cover |
| Json.IndexJson | includes/modules/export/hpub/class-pb-hpub.php:1297-1320 | it fails exactly when the manifest is empty. Its contents are the manifest's file names in order. It has a cover exactly when the cover image is set and truthy. Its URL uses the `book://` scheme |
| Json.BookUrlReplacesScheme | includes/modules/export/hpub/class-pb-hpub.php:1304-1306 | `scheme://rest` becomes `book://rest`; a URL without a scheme is kept whole after `book://` |
| Json.BookUrlAgrees | includes/modules/export/hpub/class-pb-hpub.php:1305 | for a site URL with at most one `://`, the URL as written and the corrected URL are both `book://` followed by the text after the scheme |
| Json.AsWrittenKeepsSecondPiece | includes/modules/export/hpub/class-pb-hpub.php:1305 | as written, `scheme://middle://tail` becomes `book://middle` |
| Json.FirstSeparator | includes/modules/export/hpub/class-pb-hpub.php:1305 | the first `://` of `scheme://rest` is the one right after the scheme |
| Json.SecondSeparatorCuts | includes/modules/export/hpub/class-pb-hpub.php:1305 | as written, a second `://` in the site URL cuts off everything from it on; the corrected URL keeps it. The two differ |
| Json.FixedPagePositions | includes/modules/export/hpub/class-pb-hpub.php:1318-1320 | in a manifest laid out as the bundle, the first three file names are the cover, title and copyright pages, and the table of contents follows the numbered pages |
| Json.IndexOfBundle | includes/modules/export/hpub/class-pb-hpub.php:1297-1320 | the index of any built bundle exists and lists the cover, title and copyright pages first, with the table of contents right after the dedications and epigraphs |
| Manifest.IndexOf | includes/modules/export/hpub/class-pb-hpub.php:1012-1013 | `array_search` gives the first position of a key, and fails exactly when the key is absent |
| Manifest.Put | includes/modules/export/hpub/class-pb-hpub.php:460-464 | `$m[$k] = $v` appends a new key and replaces an existing one in place, keeping the keys unique |
| Manifest.PutAllSnoc | includes/modules/export/hpub/class-pb-hpub.php:632-636 | putting a list of entries one by one is putting all but the last, then the last |
| Manifest.Slice | includes/modules/export/hpub/class-pb-hpub.php:843-848 | `array_slice` never gives more entries than it is given |
| Manifest.UnionDisjoint | includes/modules/export/hpub/class-pb-hpub.php:843-848 | the `+` union of arrays without common keys is their concatenation |
| Manifest.InsertAtMiddle | includes/modules/export/hpub/class-pb-hpub.php:843-848 | the slice-and-union insertion at a position from 1 to the length puts the new entry there and loses nothing |
| Manifest.InsertAtFrontDropsLast | includes/modules/export/hpub/class-pb-hpub.php:940-945 | at position 0 the `count - 1` slice length drops the last entry |
| Manifest.NumberedKeyInjective | includes/modules/export/hpub/class-pb-hpub.php:625 | two ordinals give the same `prefix-%03s` key only if they are equal |
| Manifest.NumberedKeyOtherPrefix | includes/modules/export/hpub/class-pb-hpub.php:708-900 | keys with prefixes of different first letters never clash |
| Manifest.NumberedKeyFresh | includes/modules/export/hpub/class-pb-hpub.php:708-719 | the key of the next ordinal is not in a manifest that holds only smaller ordinals of that prefix |
| Manifest.OrdinalsBelowStep | includes/modules/export/hpub/class-pb-hpub.php:715-721 | adding the key of the next ordinal keeps every ordinal of the prefix below the new running ordinal |
| Manifest.OrdinalsBelowOther | includes/modules/export/hpub/class-pb-hpub.php:813-817 | adding a key of one prefix leaves the ordinals of another prefix as they were |
| Book.Numbered | includes/modules/export/hpub/class-pb-hpub.php:625-636 | entry k of the numbered list is section k under ordinal start + k |
| Book.NumberedAppends | includes/modules/export/hpub/class-pb-hpub.php:880-914 | putting fresh ordinals appends them, keeps the keys unique, and leaves every ordinal below the next one |
| Book.PutAllNumberedConcat | includes/modules/export/hpub/class-pb-hpub.php:600-641 | numbering two lists one after the other is numbering their concatenation |
| Book.NumberedKeepsOtherOrdinals | includes/modules/export/hpub/class-pb-hpub.php:750 | appending pages of one prefix does not disturb the ordinals of another |
| Passes.KindPassNumbers | includes/modules/export/hpub/class-pb-hpub.php:601-640 | the pass over one front-matter type numbers its exported sections of that type from the running ordinal |
| Passes.KindPassContinues | includes/modules/export/hpub/class-pb-hpub.php:600-641 | the epigraph pass continues the numbering of the dedication pass |
| Passes.ExportedPassNumbers | includes/modules/export/hpub/class-pb-hpub.php:880-914 | the back-matter pass numbers exactly the exported sections |
| Passes.FrontMatterPassNumbers | includes/modules/export/hpub/class-pb-hpub.php:664-722 | the front-matter pass numbers exactly the exported sections that are not dedication, epigraph or title page |
| Passes.FrontMatterPassIntroduction | includes/modules/export/hpub/class-pb-hpub.php:676-677 | the introduction flag is raised exactly when a numbered front matter is an introduction |
| Passes.ChapterPassNumbers | includes/modules/export/hpub/class-pb-hpub.php:763-822 | the chapter pass numbers exactly the exported chapters |
| Passes.ChapterPassIntroduction | includes/modules/export/hpub/class-pb-hpub.php:792-795 | after the chapter pass the flag is raised if there was an exported chapter. Only the first exported chapter gets the introduction class, and only when the flag was clear |
| Pages.TocPosition | includes/modules/export/hpub/class-pb-hpub.php:1006-1029 | the position is -1 or an index of the manifest |
| Pages.TocPositionFirst | includes/modules/export/hpub/class-pb-hpub.php:1010-1024 | a non-negative position holds the anchor, and no earlier key is an anchor |
| Pages.TocPositionNone | includes/modules/export/hpub/class-pb-hpub.php:1013-1017 | the position is -1 exactly when no key is the anchor |
| Pages.TocAfterAnchor | includes/modules/export/hpub/class-pb-hpub.php:940-945 | with an anchor, the table of contents goes right after it and nothing is lost |
| Pages.TocWithoutAnchor | includes/modules/export/hpub/class-pb-hpub.php:940-945 | without an anchor it goes first, and the last page is dropped |
| Pages.TocItemsAppend | includes/modules/export/hpub/class-pb-hpub.php:951-987 | the listing of a concatenation is the concatenation of the listings |
| Pages.FixedPagesUnlisted | includes/modules/export/hpub/class-pb-hpub.php:958-975 | the cover, title, copyright and contents pages are never listed |
| Pages.TocListsWhatWasThere | includes/modules/export/hpub/class-pb-hpub.php:940-987 | splicing in the table of contents does not change what it lists |
| Pages.InsertedUnlisted | includes/modules/export/hpub/class-pb-hpub.php:940-945 | a page the table of contents does not list, inserted at any position after the first, leaves the listed items unchanged |
| Pages.NumberedListed | includes/modules/export/hpub/class-pb-hpub.php:958-972 | every numbered page of a listed prefix is listed, in order, with its class |
| Parts.PartStepPhases | includes/modules/export/hpub/class-pb-hpub.php:758-856 | one part raises the flag for a multi-part book, gives it back if it had no chapters, and inserts its page only if it had chapters |
| Parts.FirstWithChapters | includes/modules/export/hpub/class-pb-hpub.php:819 | the first part with an exported chapter, or none |
| Parts.PartStepShape | includes/modules/export/hpub/class-pb-hpub.php:824-848 | a part with chapters in a multi-part book adds its page then its chapters; otherwise only its chapters |
| Parts.PartManifestEmits | includes/modules/export/hpub/class-pb-hpub.php:843-848 | the part page is inserted at the position the manifest had before its chapters |
| Parts.PartManifestAppends | includes/modules/export/hpub/class-pb-hpub.php:763-822 | without a part page the chapters are simply appended |
| Parts.PartStepSound | includes/modules/export/hpub/class-pb-hpub.php:751-858 | one part keeps keys unique and ordinals below the running counters |
| Parts.EmitBeforeChapters | includes/modules/export/hpub/class-pb-hpub.php:843-848 | the slice-and-union insertion before freshly added chapters puts the part page between the old manifest and its chapters |
| Parts.ChapterEntriesKeys | includes/modules/export/hpub/class-pb-hpub.php:806 | chapter keys start with `chapter-` |
| Parts.AppendChapterOrPart | includes/modules/export/hpub/class-pb-hpub.php:813-817 | appending chapter pages keeps the old manifest as a prefix |
| Parts.PrependPartEntry | includes/modules/export/hpub/class-pb-hpub.php:843-848 | a part page followed by chapters keeps the old manifest as a prefix |
| Parts.StepAppends | includes/modules/export/hpub/class-pb-hpub.php:751-858 | one part only appends part and chapter pages, and a single-part book never counts parts |
| Parts.RunSound | includes/modules/export/hpub/class-pb-hpub.php:751-858 | all parts keep keys unique and ordinals below the counters |
| Parts.RunAppends | includes/modules/export/hpub/class-pb-hpub.php:751-858 | all parts only append part and chapter pages |
| Parts.RunWithoutChapters | includes/modules/export/hpub/class-pb-hpub.php:854-856 | parts without chapters leave the introduction flag clear and mark no page |
| Parts.IntroductionAlreadyPresent | includes/modules/export/hpub/class-pb-hpub.php:758-792 | with an introduction in the front matter, no part or chapter is marked |
| Parts.RunShape | includes/modules/export/hpub/class-pb-hpub.php:732-859 | the parts pass leaves the front pages and adds only part and chapter pages after them |
| Parts.PartStepKeepsMarker | includes/modules/export/hpub/class-pb-hpub.php:758-792 | once the flag is raised, a part marks nothing and keeps it |
| Parts.PartStepGivesBack | includes/modules/export/hpub/class-pb-hpub.php:854-856 | a part without chapters leaves the flag clear |
| Parts.PartStepMarks | includes/modules/export/hpub/class-pb-hpub.php:758-795 | the first part with chapters raises the flag and marks its first page |
| Parts.IntroductionMarker | includes/modules/export/hpub/class-pb-hpub.php:758-856 | without an introduction before, the first part with chapters carries the marker: its part page in a multi-part book, else its first chapter |
| Parts.SinglePartHasNoPartEntry | includes/modules/export/hpub/class-pb-hpub.php:824 | a book with one part gets no part page |
| Layout.FixedPagesPut | includes/modules/export/hpub/class-pb-hpub.php:308-319 | putting the three fixed pages into an empty manifest gives them in order, with unique keys |
| Layout.FixedNotNumbered | includes/modules/export/hpub/class-pb-hpub.php:453-565 | a fixed page key is never a numbered key |
| Layout.FixedOrdinals | includes/modules/export/hpub/class-pb-hpub.php:598 | the fixed pages hold no numbered ordinal, so numbering may start at 1 |
| Layout.FrontPagesShape | includes/modules/export/hpub/class-pb-hpub.php:302-325 | the front pages are the fixed pages, the numbered dedications, then the other front matter numbered on; keys are unique |
| Layout.FrontPagesOrdinals | includes/modules/export/hpub/class-pb-hpub.php:750-879 | the front pages hold no chapter, part or back-matter ordinal |
| Layout.PartsStartSound | includes/modules/export/hpub/class-pb-hpub.php:750 | the parts pass starts from a sound state |
| Layout.PartsDoneShape | includes/modules/export/hpub/class-pb-hpub.php:328 | after the parts the manifest is the front pages followed by part and chapter pages, with unique keys |
| Layout.BackMatterAppends | includes/modules/export/hpub/class-pb-hpub.php:880-914 | the back matter is appended after the parts, keys staying unique |
| Layout.BeforeTocShape | includes/modules/export/hpub/class-pb-hpub.php:302-331 | before the contents page the manifest is fixed pages, dedications, remaining front matter, parts, back matter, with unique keys |
| Layout.FixedNotAnchor | includes/modules/export/hpub/class-pb-hpub.php:1018-1020 | no fixed page is the dedication anchor |
| Layout.NumberedNotAnchor | includes/modules/export/hpub/class-pb-hpub.php:1018-1020 | a front matter with another ordinal is not the anchor |
| Layout.AnchorAt | includes/modules/export/hpub/class-pb-hpub.php:1015-1024 | with dedications, the anchor is the last of them, at position 2 + their count |
| Layout.CopyrightAt | includes/modules/export/hpub/class-pb-hpub.php:1010-1013 | without dedications, the anchor is the copyright page at position 2 |
| Layout.AnchorAfterDedications | includes/modules/export/hpub/class-pb-hpub.php:1006-1029 | in a built manifest with dedications, the table of contents follows the last dedication or epigraph |
| Layout.AnchorCopyright | includes/modules/export/hpub/class-pb-hpub.php:1010-1013 | in a built manifest without them, it follows the copyright page |
| Layout.NoTocNumbered | includes/modules/export/hpub/class-pb-hpub.php:936 | no numbered page has the contents key |
| Layout.NoTocParts | includes/modules/export/hpub/class-pb-hpub.php:936 | no part or chapter page has the contents key |
| Layout.BeforeTocHasNoToc | includes/modules/export/hpub/class-pb-hpub.php:936-945 | before the splice the contents key is absent |
| Layout.TocAfterDedications | includes/modules/export/hpub/class-pb-hpub.php:940-945 | the splice after the anchor puts the contents page between the dedications and the rest, keeps keys unique and lists the same items |
| Layout.AnchorPosition | includes/modules/export/hpub/class-pb-hpub.php:1006-1029 | in a built manifest the anchor is right after the fixed pages and dedications |
| Layout.BundleLayout | includes/modules/export/hpub/class-pb-hpub.php:302-336 | the bundle is cover, title, copyright, dedications and epigraphs, contents, other front matter, parts with chapters, back matter. Keys are unique, and the contents page lists what was there before it |
| Links.FuzzyImageNameMatchSymmetric | includes/modules/export/hpub/class-pb-hpub.php:1203-1233 | the image-name comparison does not depend on argument order |
| Links.LooseEqSymmetric | includes/modules/export/hpub/class-pb-hpub.php:1281 | PHP loose string equality is symmetric |
| Links.ResizedCopyMatches | includes/modules/export/hpub/class-pb-hpub.php:1203-1233 | `dir/stem-size.ext` matches any other resized copy of the same stem and extension, ignoring case and directories |
| Links.SplitName | includes/modules/export/hpub/class-pb-hpub.php:1205-1226 | the base name, extension and prefix of `dir/stem-size.ext` are what the comparison reads |
| Links.ScanOrdinalCounts | includes/modules/export/hpub/class-pb-hpub.php:1277-1282 | with either comparison (PHP's `==` as written or exact), the scan counts the entries whose type compares equal to the link's type, up to and including the first entry whose slug compares equal to the link's slug |
| Links.CountTypeExact | includes/modules/export/hpub/class-pb-hpub.php:1280 | for a type that is not a numeric string, comparing types with `==` counts the same entries as comparing them exactly |
| Links.ScansAgree | includes/modules/export/hpub/class-pb-hpub.php:1277-1282 | when no other slug is loosely equal to the link's slug and no type is numeric, the target as written (`Links.HrefTargetAsWritten`) equals the corrected target |
| Links.HrefTargetCases | includes/modules/export/hpub/class-pb-hpub.php:1245-1286 | a link resolves exactly when the position is set, the trimmed last segment is truthy and in the lookup, and its host is absent or loosely equal to the site's. The target is `type-NNN-slug.html` with that ordinal |
| Links.SegmentOf | includes/modules/export/hpub/class-pb-hpub.php:1250-1254 | the last segment of `base/slug` is the slug |
| Links.ResolvesWith | includes/modules/export/hpub/class-pb-hpub.php:1245-1286 | a link to a section's slug, on the site's host or with none, resolves with either comparison to `type-NNN-slug.html` of that section's type, NNN being the ordinal the chosen scan counts |
| Links.ResolvesToSection | includes/modules/export/hpub/class-pb-hpub.php:1245-1286 | with the corrected exact comparison, a link to a section's slug resolves to `type-NNN-slug.html`, NNN counting the sections of its type up to it; the code as written gives the same page under `Links.ScansAgree`'s conditions |
| Links.LeadingZeroSlugs | includes/modules/export/hpub/class-pb-hpub.php:1281 | `"01"` and `"1"` differ but are loosely equal |
| Links.LooseSlugComparison | includes/modules/export/hpub/class-pb-hpub.php:1279-1282 | as written, a part with slug `01` before a chapter with slug `1` stops the count early, and the link gets the wrong ordinal; the exact comparison gives the right one |
| Links.PartBeforeChapter | includes/modules/export/hpub/class-pb-hpub.php:1279-1282 | in that lookup the loose scan stops at the part and counts no chapter |
| Links.FuzzyHrefMatch | includes/modules/export/hpub/class-pb-hpub.php:1245-1286 | the method's answer is `Links.HrefTargetWith` for the chosen comparison: with `loose` the code as written (`Links.HrefTargetAsWritten`), without it the corrected `Links.HrefTarget` |
| Links.CountUpTo | includes/modules/export/hpub/class-pb-hpub.php:1277-1282 | the counting loop computes `Links.ScanOrdinal` for the chosen comparison |
| Assets.FetchAndSave | includes/modules/export/hpub/class-pb-hpub.php:1109-1141 | a failed fetch or a non-image saves nothing and answers "". A non-empty answer names a file holding the fetched bytes. Only that file may be new or changed |
| Assets.FetchAndSaveKeeps | includes/modules/export/hpub/class-pb-hpub.php:1133-1138 | with `wp_unique_filename` answering unused names, no existing file is overwritten |
| Assets.FetchTwiceOneFile | includes/modules/export/hpub/class-pb-hpub.php:1133-1138 | the same image fetched twice gives one file named by both calls |
| Assets.SameNameDifferentContent | includes/modules/export/hpub/class-pb-hpub.php:1135-1137 | a second image whose URL gives the same name goes under a fresh name, and the first file stays |
| Assets.RefetchAfterCollision | includes/modules/export/hpub/class-pb-hpub.php:1133-1138 | when the derived name already holds other bytes, each refetch of an image stores another copy |
| Assets.ImageDir.constructor | includes/modules/export/hpub/class-pb-hpub.php:291 | the images directory starts empty |
| Assets.ImageDir.FetchAndSaveUniqueImage | includes/modules/export/hpub/class-pb-hpub.php:1109-1141 | the directory and the answer change exactly as `Assets.FetchAndSave` says |
| Knead.KneadImages | includes/modules/export/hpub/class-pb-hpub.php:1084-1098 | one source comes back per image source of the page; what each becomes is stated by `Knead.KneadImagesKeepsFailed` and `Knead.KneadImagesSaved` |
| Knead.KneadImagesKeepsFailed | includes/modules/export/hpub/class-pb-hpub.php:1091-1094 | an image whose fetch failed, or whose bytes are no image, keeps its source |
| Knead.KneadImagesSaved | includes/modules/export/hpub/class-pb-hpub.php:1089-1095 | no file is lost. Every rewritten source is `images/` plus the name of a file that holds the bytes fetched from the old source |
| Knead.ScrapeAndKneadImages | includes/modules/export/hpub/class-pb-hpub.php:1084-1098 | the loop over the image sources leaves the sources and the directory as `Knead.KneadImages` says |
| Knead.KneadAnchorOutcomes | includes/modules/export/hpub/class-pb-hpub.php:1158-1185 | a blank href is kept. The href is removed exactly when it wraps a matching image. A changed href is the internal target or the canonical form of a non-fragment link |
| Knead.KneadAll | includes/modules/export/hpub/class-pb-hpub.php:1155-1187 | every anchor is processed, keeping the count |
| Knead.KneadAllEach | includes/modules/export/hpub/class-pb-hpub.php:1156-1187 | each anchor is processed on its own, independently of the others |
| Knead.KneadHref | includes/modules/export/hpub/class-pb-hpub.php:1153-1190 | the loop leaves the anchors as `Knead.KneadAll` says |
| Knead.KneadOne | includes/modules/export/hpub/class-pb-hpub.php:1158-1185 | one anchor is rewritten as `Knead.KneadAnchor` says |
| Knead.HasMatchingImage | includes/modules/export/hpub/class-pb-hpub.php:1168-1173 | the child loop finds a match exactly when some child is an image whose name matches the link |
| Knead.ReopenTag | includes/modules/export/hpub/class-pb-hpub.php:1063-1068 | a self-closed tag is rewritten to start with its name and attributes |
| Knead.ReopenVoid | includes/modules/export/hpub/class-pb-hpub.php:1065-1067 | an XHTML void tag stays self-closed as a single tag ending in ` />` |
| Knead.ReopenNonVoid | includes/modules/export/hpub/class-pb-hpub.php:1065-1067 | any other tag is opened and closed explicitly, with no `/>` left |
| Css.Dedup | includes/modules/export/hpub/class-pb-hpub.php:376 | `array_unique` keeps each reference once, the same set, never more, in the order of their first occurrences in the input |
| Css.InsertByLength | includes/modules/export/hpub/class-pb-hpub.php:377-379 | one insertion step of the sort adds exactly the element |
| Css.DedupOrderStep | includes/modules/export/hpub/class-pb-hpub.php:376 | one more reference at the end of the input keeps the first-occurrence order of the references kept so far, and a new one comes after them all |
| Css.FirstAt | includes/modules/export/hpub/class-pb-hpub.php:376 | the index of the first occurrence of a reference; it is the length exactly when the reference is absent |
| Css.InsertKeepsTies | includes/modules/export/hpub/class-pb-hpub.php:377-379 | one insertion step puts the element before the references of its own length, which keep their order |
| Css.SortKeepsTies | includes/modules/export/hpub/class-pb-hpub.php:377-379 | the sort is stable: references of equal length keep their relative order |
| Css.SortLongestFirst | includes/modules/export/hpub/class-pb-hpub.php:377-379 | the sort orders the references longest first and is a permutation that keeps them distinct |
| Css.NoEarlierInsideLater | includes/modules/export/hpub/class-pb-hpub.php:376-381 | after dedup and sort, no reference occurs inside a later one, so replacing a reference cannot break a later one |
| Css.LocalIsDirectChild | includes/modules/export/hpub/class-pb-hpub.php:384 | a reference is local exactly when it is `../images/` followed by a name without `/` |
| Css.CountZero | includes/modules/export/hpub/class-pb-hpub.php:384 | `substr_count` is 0 exactly when the character does not occur |
| Css.TextKeptWhenFetchesFail | includes/modules/export/hpub/class-pb-hpub.php:394-400 | when no fetch succeeds, the stylesheet text is unchanged |
| Css.TextKeptWithoutRemote | includes/modules/export/hpub/class-pb-hpub.php:394 | without remote image references, the stylesheet text is unchanged |
| Css.NamesKept | includes/modules/export/hpub/class-pb-hpub.php:381-403 | no file name is lost from the directory; a local copy may replace the content under its name |
| Css.RemoteRewritten | includes/modules/export/hpub/class-pb-hpub.php:398-400 | a fetched reference has every occurrence replaced by `../images/` plus its saved name, and the saved file is in the directory |
| Css.ScrapeAndKneadCss | includes/modules/export/hpub/class-pb-hpub.php:366-407 | the stylesheet text and the directory come out as `Css.KneadCss` says: references handled longest first, equal lengths in order of first occurrence |
| Css.HandleRefs | includes/modules/export/hpub/class-pb-hpub.php:381-403 | the loop over the ordered references leaves the text and the directory as `Css.KneadRefs` says, handling the references one after the other |
| Text.Lower | includes/modules/export/hpub/class-pb-hpub.php:1211 | `strtolower` keeps the length and lowers every character with `Text.LowerChar` |
| Text.FindFrom | includes/modules/export/hpub/class-pb-hpub.php:1305 | the search finds the first occurrence at or after the start, and fails only when there is none |
| Text.TrimStart | includes/modules/export/hpub/class-pb-hpub.php:1250 | trimming the front removes exactly the leading blanks |
| Text.TrimEnd | includes/modules/export/hpub/class-pb-hpub.php:1250 | trimming the back removes exactly the trailing blanks |
| Text.TrimEndChar | includes/modules/export/hpub/class-pb-hpub.php:1251 | `rtrim($url, '/')` removes exactly the trailing slashes |
| Text.FirstPiece | includes/modules/export/hpub/class-pb-hpub.php:1119 | the first `explode` piece is a prefix without the separator |
| Text.LastPiece | includes/modules/export/hpub/class-pb-hpub.php:1253-1254 | the last `explode` piece is a suffix without the separator |
| Text.LastPieceAfter | includes/modules/export/hpub/class-pb-hpub.php:1253-1254 | the last piece is what follows the last separator |
| Text.FirstPieceBefore | includes/modules/export/hpub/class-pb-hpub.php:1119 | the first piece is what precedes the first separator |
| Text.Basename | includes/modules/export/hpub/class-pb-hpub.php:1205 | `basename` has no `/` |
| Text.ReplaceAbsent | includes/modules/export/hpub/class-pb-hpub.php:399 | `str_replace` of a string that does not occur changes nothing |
| Text.NoOccurrenceUnchanged | includes/modules/export/hpub/class-pb-hpub.php:399 | the same, stated with occurrences |
| Text.Pad3 | includes/modules/export/hpub/class-pb-hpub.php:625 | `%03s` gives at least three characters, ending in a digit |
| Text.Pad3RoundTrip | includes/modules/export/hpub/class-pb-hpub.php:625 | the padded ordinal is all digits and reads back as the ordinal |
| Text.Pad3Injective | includes/modules/export/hpub/class-pb-hpub.php:625 | different ordinals give different padded strings |

## Left out

- Files, directories, the zip archive and the temporary directory are not modelled. Only the `images/` directory is kept, as a map from name to bytes.
- Templates, the HTML text of pages and the table of contents markup, and `Sanitize\decode` are left out. A page is its manifest entry, and a table-of-contents item is its class and entry.
- The `introduction` class is not visible in the manifest. It is tracked as the list of file names rendered with it.
- Collaborators are parameters, not models:
  - `get_post_meta`, the section types, and the title, subtitle and author options;
  - the host's media path and the image editor; whether the cover could be resized is a parameter;
  - `get_bloginfo` and `wp_guess_url`.
- HTML parsing and serialisation (`DOMDocument`, `saveHtml`, the doctype strip) are not modelled. A page is given as its image sources and its anchors with their children. The libxml error list is not modelled, since it is never used.
- Knead.ReopenTag models only the callback of the self-closing rewrite. The `preg_replace_callback` scan that finds the tags is not modelled.
- Knead.ReopenNonVoid: requires attributes that do not end in `/`. The regex captures such attributes only for a tag written with `//>`, and the rewrite then leaves a `/>` in the output; that case is not covered.
- The `url()` extraction of `preg_match_all` is not modelled: the extracted references are an input of `Css.KneadCss`.
- `realpath` becomes a function from a reference to the bytes of the local file, if any, and `copy` a write of them.
- Network and file-name cleaning are functions given to the model:
  - the network (`wp_remote_get` with its timeout);
  - `imagecreatefromstring`;
  - `urldecode`, `sanitize_file_name` and `force_ascii`;
  - `wp_unique_filename`;
  - `parse_url`'s host;
  - `canonicalizeUrl`.
- Assets.FetchAndSave: the `md5` comparison is read as equality of contents, ignoring hash collisions.
- Links.LooseEq: PHP numeric strings are modelled as digit strings only. Signs, decimals, exponents and surrounding blanks are not modelled.
- Css.SortLongestFirst: `usort` is modelled as a stable sort, which it is from PHP 8 on. Earlier versions may order references of equal length differently.
- Json.IndexJson: builds the corrected book URL (`Json.BookUrl`), not the second `mb_split` piece the code keeps. The two differ only for a site URL holding a second `://` (`Json.SecondSeparatorCuts`, `Json.BookUrlAgrees`).
- Hpub.Exporter.CreateJson: writes the index of `Json.IndexJson`, so it also carries the corrected book URL rather than the code as written.
- Links.ResolvesToSection: states the target of the corrected exact slug comparison. The code as written gives the same page only under the conditions of `Links.ScansAgree`.
- Links.HrefTargetCases: describes the corrected target; with PHP's `==` the ordinal may stop at an earlier, loosely equal slug (`Links.LooseSlugComparison`).
- Knead.KneadAnchor: resolves internal links with the corrected exact slug comparison (`Links.HrefTarget`), not PHP's `==`. The two differ only where `Links.ScansAgree` does not apply.
- Knead.KneadOne: calls `Links.FuzzyHrefMatch` with the exact comparison, as in `Knead.KneadAnchor`.
- Knead.KneadAll: applies `Knead.KneadAnchor`, so its internal targets use the corrected slug comparison.
- Knead.KneadHref: rewrites anchors as `Knead.KneadAll`, which uses the corrected slug comparison of `Knead.KneadAnchor`.
- Knead.KneadAnchorOutcomes: the internal target it names is the corrected one of `Links.HrefTarget`.
- The `$type` argument of `kneadHref` and `fuzzyHrefMatch` is passed but never read, so it is not modelled. The export lookup (`getBookStructure()['__export_lookup']`) is an input.
- `createStylesheet`, `createContainer`, `convert`, `validate`, the mimetype and the `preProcessBookContents` step are not modelled. They only move files or call into the rest of the plugin.
- Text.TrimEnd: only the blanks PHP `trim` removes are modelled. The regex `$` before a final newline is modelled only in `Css.EndsInImageExtension`.
- The `json_encode` text of `book.json` is not modelled; the index is its fields.
- Observations modelled but not counted as findings:
  - A file name of `"0"` is falsy, so the image is saved but its `src` is not rewritten.
  - A local stylesheet image overwrites a file of the same name in `images/`.

## Findings

| source | as written | input that shows it | evidently intended | confidence | as-written member | corrected member |
|---|---|---|---|---|---|---|
| includes/modules/export/hpub/class-pb-hpub.php:1281 | the scan over the export lookup stops at the first slug loosely equal to the link's slug (`$p == $last_part`), so a numeric-looking slug matches another written differently | lookup `[("01", part), ("1", chapter)]` and a link ending in `/1`: the scan stops at the part, and the link becomes `chapter-000-1.html` | stop at the slug itself and link to `chapter-001-1.html` | not executed | Links.LooseSlugComparison | Links.HrefTargetCases |
| includes/modules/export/hpub/class-pb-hpub.php:1305 | `list($_garbage, $book_url) = mb_split('://', $url)` keeps only the text between the first and the second `://` | site URL `http://example.com/a://b` gives `book://example.com/a` | replace the scheme only and keep the rest: `book://example.com/a://b` | not executed | Json.SecondSeparatorCuts | Json.BookUrlReplacesScheme |

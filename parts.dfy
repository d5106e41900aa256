/** What createPartsAndChapters does to the manifest, stated part by part:
    independent part and chapter counters, the part entry inserted at the
    manifest length recorded before its chapters, and the single page that
    receives the "introduction" class when the front matter has none. */
module Parts {
  import opened Wrappers
  import opened Text
  import opened Manifest
  import opened Book

  /** What the part loop carries from one part to the next: the manifest,
      the introduction flag, the part counter `$i`, the chapter counter `$j`,
      and the file names of the pages rendered with the introduction class. */
  datatype Progress = Progress(m: Manifest, hasIntroduction: bool, partNo: nat, chapterNo: nat, introduced: seq<string>)

  function PartEntry(p: Part, n: nat): (string, Entry) {
    var key := NumberedKey(PartPrefix, n);
    (key, Entry(p.id, p.title, key + "-" + p.slug + ".html"))
  }

  predicate HasChapters(p: Part) {
    Exported(p.chapters) != []
  }

  /** The chapters of `p` that the part loop numbers, from counter `j`. */
  function ChapterEntries(p: Part, j: nat): Manifest {
    Numbered(ChapterPrefix, Exported(p.chapters), j)
  }

  /** The manifest after one part: its chapters assigned in order, then,
      when it has any and the book has several parts, the part entry
      inserted at the length the manifest had before them. */
  function PartManifest(st: Progress, p: Part, multi: bool): Manifest {
    var es := ChapterEntries(p, st.chapterNo);
    var m := PutAll(st.m, es);
    var pe := PartEntry(p, st.partNo);
    if es != [] && multi then InsertAt(m, |st.m|, pe.0, pe.1) else m
  }

  /** One iteration of the part loop; `multi` is `count($parts) > 1`. */
  function PartStep(st: Progress, p: Part, multi: bool): Progress {
    var injected := !st.hasIntroduction && multi;
    var h := st.hasIntroduction || injected;
    var es := ChapterEntries(p, st.chapterNo);
    var chapterIntro := if !h && es != [] then [es[0].1.filename] else [];
    var emitted := es != [] && multi;
    var partIntro := if emitted && injected then [PartEntry(p, st.partNo).1.filename] else [];
    Progress(
      PartManifest(st, p, multi),
      if injected && es == [] then false else h || es != [],
      if emitted then st.partNo + 1 else st.partNo,
      st.chapterNo + |es|,
      st.introduced + chapterIntro + partIntro)
  }

  /** One part, told in the order the loop does it: the class injected
      into the part when the flag is clear in a book of several parts, the
      chapters numbered (the first taking the class if the flag is still
      clear), then the part entry inserted, or the flag given back. */
  lemma PartStepPhases(st: Progress, p: Part, multi: bool)
    ensures var injected := !st.hasIntroduction && multi;
            var hasChapters := Exported(p.chapters) != [];
            var m1 := PutAll(st.m, Numbered(ChapterPrefix, Exported(p.chapters), st.chapterNo));
            var intro1 := st.introduced
                          + if !(st.hasIntroduction || injected) && hasChapters
                            then [NumberedEntry(ChapterPrefix, Exported(p.chapters)[0], st.chapterNo).1.filename] else [];
            var pe := PartEntry(p, st.partNo);
            PartStep(st, p, multi)
            == Progress(
                 if hasChapters && multi then InsertAt(m1, |st.m|, pe.0, pe.1) else m1,
                 if injected && !hasChapters then false else st.hasIntroduction || injected || hasChapters,
                 if hasChapters && multi then st.partNo + 1 else st.partNo,
                 st.chapterNo + |Exported(p.chapters)|,
                 intro1 + if hasChapters && multi && injected then [pe.1.filename] else [])
  {
    var es := ChapterEntries(p, st.chapterNo);
    assert |es| == |Exported(p.chapters)|;
  }

  /** The part loop over `parts`. */
  function Run(st: Progress, parts: seq<Part>, multi: bool): Progress {
    if parts == [] then st else PartStep(Run(st, parts[..|parts| - 1], multi), parts[|parts| - 1], multi)
  }

  /** The first part with at least one exported chapter. */
  function FirstWithChapters(parts: seq<Part>): (r: Option<nat>)
    ensures r.Some? ==> r.value < |parts| && HasChapters(parts[r.value])
    ensures r.Some? ==> forall j :: 0 <= j < r.value ==> !HasChapters(parts[j])
    ensures r.None? ==> forall j :: 0 <= j < |parts| ==> !HasChapters(parts[j])
  {
    if parts == [] then None
    else match FirstWithChapters(parts[..|parts| - 1])
      case Some(k) => Some(k)
      case None => if HasChapters(parts[|parts| - 1]) then Some(|parts| - 1) else None
  }

  /** The facts about the manifest the part loop relies on and keeps. */
  ghost predicate Sound(st: Progress) {
    && UniqueKeys(st.m)
    && OrdinalsBelow(st.m, ChapterPrefix, st.chapterNo)
    && OrdinalsBelow(st.m, PartPrefix, st.partNo)
    && |st.m| >= 1
  }

  /** Every entry from position `from` on has a `chapter-` or `part-` id. */
  predicate ChapterOrPartFrom(m: Manifest, from: nat) {
    forall i :: from <= i < |m| ==> |m[i].0| > 0 && (m[i].0[0] == 'c' || m[i].0[0] == 'p')
  }

  /** One part adds its chapters, numbered from the chapter counter, and —
      only when it has exported chapters and the book has several parts —
      its own entry, placed immediately before those chapters. Nothing
      already in the manifest moves. */
  lemma PartStepShape(st: Progress, p: Part, multi: bool)
    requires Sound(st)
    ensures HasChapters(p) && multi ==>
              PartStep(st, p, multi).m == st.m + [PartEntry(p, st.partNo)] + ChapterEntries(p, st.chapterNo)
    ensures !(HasChapters(p) && multi) ==>
              PartStep(st, p, multi).m == st.m + ChapterEntries(p, st.chapterNo)
  {
    assert PartStep(st, p, multi).m == PartManifest(st, p, multi);
    if HasChapters(p) && multi {
      PartManifestEmits(st, p);
    } else {
      PartManifestAppends(st, p, multi);
    }
  }

  /** A part with exported chapters in a book of several parts: its entry,
      then its chapters, after everything already there. */
  lemma PartManifestEmits(st: Progress, p: Part)
    requires Sound(st) && HasChapters(p)
    ensures PartManifest(st, p, true) == st.m + [PartEntry(p, st.partNo)] + ChapterEntries(p, st.chapterNo)
  {
    var chs := Exported(p.chapters);
    var es := Numbered(ChapterPrefix, chs, st.chapterNo);
    NumberedAppends(st.m, ChapterPrefix, chs, st.chapterNo);
    NumberedKeepsOtherOrdinals(st.m, ChapterPrefix, chs, st.chapterNo, PartPrefix, st.partNo);
    var pe := PartEntry(p, st.partNo);
    assert PartManifest(st, p, true) == InsertAt(st.m + es, |st.m|, pe.0, pe.1);
    EmitBeforeChapters(st.m, es, p, st.partNo, st.chapterNo + |es|);
  }

  /** Otherwise the part's chapters are appended and nothing else. */
  lemma PartManifestAppends(st: Progress, p: Part, multi: bool)
    requires Sound(st) && !(HasChapters(p) && multi)
    ensures PartManifest(st, p, multi) == st.m + ChapterEntries(p, st.chapterNo)
  {
    NumberedAppends(st.m, ChapterPrefix, Exported(p.chapters), st.chapterNo);
  }

  /** One part keeps the manifest's keys unique and both counters ahead. */
  lemma PartStepSound(st: Progress, p: Part, multi: bool)
    requires Sound(st)
    ensures Sound(PartStep(st, p, multi))
  {
    var chs := Exported(p.chapters);
    var es := Numbered(ChapterPrefix, chs, st.chapterNo);
    NumberedAppends(st.m, ChapterPrefix, chs, st.chapterNo);
    NumberedKeepsOtherOrdinals(st.m, ChapterPrefix, chs, st.chapterNo, PartPrefix, st.partNo);
    if es != [] && multi {
      EmitBeforeChapters(st.m, es, p, st.partNo, st.chapterNo + |es|);
    }
  }

  /** The insertion of a part entry at the length recorded before its chapters. */
  lemma EmitBeforeChapters(m0: Manifest, es: Manifest, p: Part, partNo: nat, chapterNo: nat)
    requires |m0| >= 1 && UniqueKeys(m0 + es)
    requires OrdinalsBelow(m0 + es, PartPrefix, partNo)
    requires OrdinalsBelow(m0 + es, ChapterPrefix, chapterNo)
    ensures var pe := PartEntry(p, partNo);
            && InsertAt(m0 + es, |m0|, pe.0, pe.1) == m0 + [pe] + es
            && UniqueKeys(m0 + [pe] + es)
            && OrdinalsBelow(m0 + [pe] + es, PartPrefix, partNo + 1)
            && OrdinalsBelow(m0 + [pe] + es, ChapterPrefix, chapterNo)
  {
    var pe := PartEntry(p, partNo);
    var m := m0 + es;
    NumberedKeyFresh(m, PartPrefix, partNo);
    InsertAtMiddle(m, |m0|, pe.0, pe.1);
    assert m[..|m0|] == m0 && m[|m0|..] == es;
    var r := m0 + [pe] + es;
    forall i, n | 0 <= i < |r| && partNo + 1 <= n
      ensures r[i].0 != NumberedKey(PartPrefix, n)
    {
      if i < |m0| {
        assert r[i] == m[i];
      } else if i > |m0| {
        assert r[i] == m[i - 1];
      } else if r[i].0 == NumberedKey(PartPrefix, n) {
        NumberedKeyInjective(PartPrefix, partNo, n);
      }
    }
    forall i, n | 0 <= i < |r| && chapterNo <= n
      ensures r[i].0 != NumberedKey(ChapterPrefix, n)
    {
      if i < |m0| {
        assert r[i] == m[i];
      } else if i > |m0| {
        assert r[i] == m[i - 1];
      } else {
        NumberedKeyOtherPrefix(PartPrefix, ChapterPrefix, partNo, n);
      }
    }
  }

  /** Entries whose ids start with `c` or `p`. */
  predicate ChapterOrPartKeys(es: Manifest) {
    forall k :: 0 <= k < |es| ==> |es[k].0| > 0 && (es[k].0[0] == 'c' || es[k].0[0] == 'p')
  }

  lemma ChapterEntriesKeys(p: Part, j: nat)
    ensures ChapterOrPartKeys(ChapterEntries(p, j))
  {
    var es := ChapterEntries(p, j);
    forall k | 0 <= k < |es| ensures |es[k].0| > 0 && es[k].0[0] == 'c' {
      assert es[k].0 == NumberedKey(ChapterPrefix, j + k);
    }
  }

  lemma AppendChapterOrPart(m0: Manifest, added: Manifest)
    requires ChapterOrPartKeys(added)
    ensures (m0 + added)[..|m0|] == m0
    ensures ChapterOrPartFrom(m0 + added, |m0|)
  {
    var m := m0 + added;
    forall i | |m0| <= i < |m| ensures |m[i].0| > 0 && (m[i].0[0] == 'c' || m[i].0[0] == 'p') {
      assert m[i] == added[i - |m0|];
    }
  }

  lemma PrependPartEntry(m0: Manifest, pe: (string, Entry), es: Manifest)
    requires |pe.0| > 0 && pe.0[0] == 'p'
    requires ChapterOrPartKeys(es)
    ensures (m0 + [pe] + es)[..|m0|] == m0
    ensures ChapterOrPartFrom(m0 + [pe] + es, |m0|)
  {
    var added := [pe] + es;
    assert m0 + [pe] + es == m0 + added;
    forall k | 0 <= k < |added| ensures |added[k].0| > 0 && (added[k].0[0] == 'c' || added[k].0[0] == 'p') {
      if k > 0 {
        assert added[k] == es[k - 1];
      }
    }
    AppendChapterOrPart(m0, added);
  }

  /** One part only appends, and only `chapter-` and `part-` entries. */
  lemma StepAppends(st: Progress, p: Part, multi: bool)
    requires Sound(st)
    ensures |PartStep(st, p, multi).m| >= |st.m|
    ensures PartStep(st, p, multi).m[..|st.m|] == st.m
    ensures ChapterOrPartFrom(PartStep(st, p, multi).m, |st.m|)
    ensures !multi ==> PartStep(st, p, multi).partNo == st.partNo
  {
    PartStepShape(st, p, multi);
    ChapterEntriesKeys(p, st.chapterNo);
    if HasChapters(p) && multi {
      PrependPartEntry(st.m, PartEntry(p, st.partNo), ChapterEntries(p, st.chapterNo));
    } else {
      AppendChapterOrPart(st.m, ChapterEntries(p, st.chapterNo));
    }
  }

  lemma {:induction false} RunSound(st: Progress, parts: seq<Part>, multi: bool)
    requires Sound(st)
    ensures Sound(Run(st, parts, multi))
  {
    if parts != [] {
      RunSound(st, parts[..|parts| - 1], multi);
      PartStepSound(Run(st, parts[..|parts| - 1], multi), parts[|parts| - 1], multi);
    }
  }

  /** The part loop only appends, and only `chapter-` and `part-` entries. */
  lemma {:induction false} RunAppends(st: Progress, parts: seq<Part>, multi: bool)
    requires Sound(st)
    ensures |Run(st, parts, multi).m| >= |st.m|
    ensures Run(st, parts, multi).m[..|st.m|] == st.m
    ensures ChapterOrPartFrom(Run(st, parts, multi).m, |st.m|)
    ensures !multi ==> Run(st, parts, multi).partNo == st.partNo
  {
    if parts != [] {
      var init := parts[..|parts| - 1];
      RunAppends(st, init, multi);
      RunSound(st, init, multi);
      var mid := Run(st, init, multi);
      StepAppends(mid, parts[|parts| - 1], multi);
      var r := Run(st, parts, multi).m;
      assert r[..|mid.m|] == mid.m;
      assert r[..|st.m|] == mid.m[..|st.m|];
      forall i | |st.m| <= i < |r| ensures |r[i].0| > 0 && (r[i].0[0] == 'c' || r[i].0[0] == 'p') {
        if i < |mid.m| {
          assert r[i] == mid.m[i];
        }
      }
    }
  }

  /** A part loop in which no part has exported chapters changes nothing
      that later parts look at. */
  lemma {:induction false} RunWithoutChapters(st: Progress, parts: seq<Part>, multi: bool)
    requires !st.hasIntroduction
    requires forall j :: 0 <= j < |parts| ==> !HasChapters(parts[j])
    ensures var r := Run(st, parts, multi);
            r.m == st.m && !r.hasIntroduction && r.partNo == st.partNo
            && r.chapterNo == st.chapterNo && r.introduced == st.introduced
  {
    if parts != [] {
      RunWithoutChapters(st, parts[..|parts| - 1], multi);
    }
  }

  /** Once the introduction flag is set, no page receives the class. */
  lemma {:induction false} IntroductionAlreadyPresent(st: Progress, parts: seq<Part>, multi: bool)
    requires st.hasIntroduction
    ensures Run(st, parts, multi).hasIntroduction
    ensures Run(st, parts, multi).introduced == st.introduced
  {
    if parts != [] {
      IntroductionAlreadyPresent(st, parts[..|parts| - 1], multi);
    }
  }

  /** The part loop keeps what was there, adds only part and chapter
      pages after it, and keeps ids unique. */
  lemma RunShape(st: Progress, parts: seq<Part>, multi: bool)
    requires Sound(st)
    ensures var r := Run(st, parts, multi).m;
            && |r| >= |st.m|
            && r == st.m + r[|st.m|..]
            && ChapterOrPartKeys(r[|st.m|..])
            && UniqueKeys(r)
  {
    RunAppends(st, parts, multi);
    RunSound(st, parts, multi);
    AppendedShape(st.m, Run(st, parts, multi).m);
  }

  /** A manifest that starts with `m0` and has only part and chapter pages
      after it is `m0` followed by those pages. */
  lemma AppendedShape(m0: Manifest, m: Manifest)
    requires |m| >= |m0| && m[..|m0|] == m0 && ChapterOrPartFrom(m, |m0|)
    ensures m == m0 + m[|m0|..]
    ensures ChapterOrPartKeys(m[|m0|..])
  {
    assert m == m[..|m0|] + m[|m0|..];
    var added := m[|m0|..];
    forall k | 0 <= k < |added| ensures |added[k].0| > 0 && (added[k].0[0] == 'c' || added[k].0[0] == 'p') {
      assert added[k] == m[|m0| + k];
    }
  }

  /** A part leaves the introduction flag set and marks no page once an
      introduction has been found. */
  lemma PartStepKeepsMarker(st: Progress, p: Part, multi: bool)
    requires st.hasIntroduction
    ensures PartStep(st, p, multi).hasIntroduction
    ensures PartStep(st, p, multi).introduced == st.introduced
  {
  }

  /** Without an introduction so far, a part without exported chapters
      gives the flag back and marks nothing. */
  lemma PartStepGivesBack(st: Progress, p: Part, multi: bool)
    requires !st.hasIntroduction && !HasChapters(p)
    ensures !PartStep(st, p, multi).hasIntroduction
    ensures PartStep(st, p, multi).introduced == st.introduced
  {
    assert ChapterEntries(p, st.chapterNo) == [];
  }

  /** Without an introduction so far, a part with exported chapters sets
      the flag and marks one page: its own entry in a book of several parts,
      its first exported chapter otherwise. */
  lemma PartStepMarks(st: Progress, p: Part, multi: bool)
    requires !st.hasIntroduction && HasChapters(p)
    ensures PartStep(st, p, multi).hasIntroduction
    ensures PartStep(st, p, multi).introduced
            == st.introduced +
               [if multi then PartEntry(p, st.partNo).1.filename
                else NumberedEntry(ChapterPrefix, Exported(p.chapters)[0], st.chapterNo).1.filename]
  {
    var es := ChapterEntries(p, st.chapterNo);
    assert es[0] == NumberedEntry(ChapterPrefix, Exported(p.chapters)[0], st.chapterNo);
  }

  /** Without an introduction in the front matter, exactly one page gets the
      introduction class when some part has an exported chapter, and none
      otherwise: in a book of several parts it is the entry of the first part
      that has exported chapters (a part without any gives the flag back);
      in a one-part book it is the first exported chapter. */
  lemma {:induction false} IntroductionMarker(st: Progress, parts: seq<Part>, multi: bool)
    requires !st.hasIntroduction
    ensures var r := Run(st, parts, multi);
      match FirstWithChapters(parts)
      case None => !r.hasIntroduction && r.introduced == st.introduced
      case Some(k) =>
        r.hasIntroduction &&
        r.introduced == st.introduced +
          [if multi then PartEntry(parts[k], st.partNo).1.filename
           else NumberedEntry(ChapterPrefix, Exported(parts[k].chapters)[0], st.chapterNo).1.filename]
  {
    if parts != [] {
      var init := parts[..|parts| - 1];
      var p := parts[|parts| - 1];
      IntroductionMarker(st, init, multi);
      var mid := Run(st, init, multi);
      assert Run(st, parts, multi) == PartStep(mid, p, multi);
      match FirstWithChapters(init)
      case Some(k) =>
        PartStepKeepsMarker(mid, p, multi);
        assert FirstWithChapters(parts) == Some(k);
        assert parts[k] == init[k];
      case None =>
        RunWithoutChapters(st, init, multi);
        if HasChapters(p) {
          PartStepMarks(mid, p, multi);
          assert FirstWithChapters(parts) == Some(|parts| - 1);
        } else {
          PartStepGivesBack(mid, p, multi);
        }
    }
  }

  /** A book with a single part never gets a `part-` entry: the loop only
      appends that part's exported chapters, numbered from the counter. */
  lemma SinglePartHasNoPartEntry(st: Progress, parts: seq<Part>)
    requires Sound(st) && |parts| <= 1
    ensures var r := Run(st, parts, |parts| > 1);
            && r.partNo == st.partNo
            && r.m == st.m + (if parts == [] then [] else ChapterEntries(parts[0], st.chapterNo))
  {
    if |parts| == 1 {
      var p := parts[0];
      assert parts[..0] == [];
      assert Run(st, parts, false) == PartStep(st, p, false);
      PartStepShape(st, p, false);
    }
  }
}

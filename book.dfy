/** The book as the exporter receives it (after preprocessing): front
    matter, parts with their chapters, and back matter. Each section carries
    the taxonomy type the host CMS reports for it (`front_matter_type`,
    `back_matter_type`), and the export flag. This module also gives the
    selections the builders make from these lists and the numbered manifest
    entries they produce. */
module Book {
  import opened Text
  import opened Manifest

  datatype Section = Section(id: int, title: string, slug: string, exported: bool, kind: string)

  datatype Part = Part(id: int, title: string, slug: string, chapters: seq<Section>)

  datatype Contents = Contents(frontMatter: seq<Section>, parts: seq<Part>, backMatter: seq<Section>)

  const FrontMatterPrefix := "front-matter-"
  const ChapterPrefix := "chapter-"
  const PartPrefix := "part-"
  const BackMatterPrefix := "back-matter-"

  /** Exported sections, in order. */
  function Exported(secs: seq<Section>): seq<Section>
  {
    if secs == [] then []
    else Exported(secs[..|secs| - 1]) + (if secs[|secs| - 1].exported then [secs[|secs| - 1]] else [])
  }

  /** Exported sections of one taxonomy type, in order. */
  function OfKind(secs: seq<Section>, kind: string): seq<Section>
  {
    if secs == [] then []
    else
      var s := secs[|secs| - 1];
      OfKind(secs[..|secs| - 1], kind) + (if s.exported && s.kind == kind then [s] else [])
  }

  /** All exported sections of the first kind, then all of the second, ... */
  function OfKinds(secs: seq<Section>, kinds: seq<string>): seq<Section> {
    if kinds == [] then [] else OfKinds(secs, kinds[..|kinds| - 1]) + OfKind(secs, kinds[|kinds| - 1])
  }

  /** The front-matter type of a custom title page. */
  const TitlePageKind := "title-page"

  /** The taxonomy types the front-matter pass leaves to other builders. */
  predicate HandledElsewhere(kind: string) {
    kind == "dedication" || kind == "epigraph" || kind == TitlePageKind
  }

  /** Exported front matter that is neither dedication, epigraph nor title page. */
  function Remaining(secs: seq<Section>): seq<Section>
  {
    if secs == [] then []
    else
      var s := secs[|secs| - 1];
      Remaining(secs[..|secs| - 1]) + (if s.exported && !HandledElsewhere(s.kind) then [s] else [])
  }

  /** The manifest entry of a section with ordinal `n`:
      id `<prefix>NNN`, file `<prefix>NNN-<slug>.html`. */
  function NumberedEntry(prefix: string, s: Section, n: nat): (string, Entry) {
    var key := NumberedKey(prefix, n);
    (key, Entry(s.id, s.title, key + "-" + s.slug + ".html"))
  }

  /** The entries of `secs` numbered from `start`, in order. */
  function Numbered(prefix: string, secs: seq<Section>, start: nat): (r: Manifest)
    ensures |r| == |secs|
    ensures forall k :: 0 <= k < |secs| ==> r[k] == NumberedEntry(prefix, secs[k], start + k)
  {
    if secs == [] then []
    else
      var r0 := Numbered(prefix, secs[..|secs| - 1], start);
      var e := NumberedEntry(prefix, secs[|secs| - 1], start + |secs| - 1);
      NumberedLast(prefix, secs, start, r0, e);
      r0 + [e]
  }

  /** The step of `Numbered`: numbering all but the last section, then
      the last one, numbers every section. */
  lemma NumberedLast(prefix: string, secs: seq<Section>, start: nat, r0: Manifest, e: (string, Entry))
    requires secs != [] && |r0| == |secs| - 1
    requires forall k :: 0 <= k < |r0| ==> r0[k] == NumberedEntry(prefix, secs[..|secs| - 1][k], start + k)
    requires e == NumberedEntry(prefix, secs[|secs| - 1], start + |secs| - 1)
    ensures forall k :: 0 <= k < |secs| ==> (r0 + [e])[k] == NumberedEntry(prefix, secs[k], start + k)
  {
    forall k | 0 <= k < |secs| ensures (r0 + [e])[k] == NumberedEntry(prefix, secs[k], start + k) {
      if k < |r0| {
        assert (r0 + [e])[k] == r0[k];
        assert secs[..|secs| - 1][k] == secs[k];
      } else {
        assert (r0 + [e])[k] == e;
      }
    }
  }

  /** Assigning freshly numbered entries appends them: with the counter
      ahead of every ordinal already in use, no assignment overwrites. */
  lemma {:induction false} NumberedAppends(m: Manifest, prefix: string, secs: seq<Section>, start: nat)
    requires UniqueKeys(m) && OrdinalsBelow(m, prefix, start)
    ensures PutAll(m, Numbered(prefix, secs, start)) == m + Numbered(prefix, secs, start)
    ensures UniqueKeys(m + Numbered(prefix, secs, start))
    ensures OrdinalsBelow(m + Numbered(prefix, secs, start), prefix, start + |secs|)
  {
    if secs != [] {
      var init := secs[..|secs| - 1];
      var c := start + |init|;
      var es := Numbered(prefix, secs, start);
      var es' := Numbered(prefix, init, start);
      var x := NumberedEntry(prefix, secs[|secs| - 1], c);
      assert es == es' + [x];
      assert es[..|es| - 1] == es';
      NumberedAppends(m, prefix, init, start);
      var m' := m + es';
      assert m + es == m' + [x];
      assert PutAll(m, es) == m + es && UniqueKeys(m + es) by {
        NumberedKeyFresh(m', prefix, c);
        assert PutAll(m, es) == Put(m', x.0, x.1);
      }
      assert OrdinalsBelow(m + es, prefix, start + |secs|) by {
        OrdinalsBelowStep(m', prefix, c, x.1);
        assert m' + [(NumberedKey(prefix, c), x.1)] == m + es;
      }
    }
  }

  /** One more section numbered after the others. */
  lemma NumberedSnoc(prefix: string, secs: seq<Section>, s: Section, start: nat)
    ensures Numbered(prefix, secs + [s], start)
            == Numbered(prefix, secs, start) + [NumberedEntry(prefix, s, start + |secs|)]
  {
    assert (secs + [s])[..|secs|] == secs;
  }

  /** Assigning the entries of `done` and then of one more section is
      assigning the entries of `done + [s]`. */
  lemma PutAllNumberedSnoc(m: Manifest, prefix: string, done: seq<Section>, s: Section, start: nat)
    ensures var e := NumberedEntry(prefix, s, start + |done|);
            PutAll(m, Numbered(prefix, done + [s], start)) == Put(PutAll(m, Numbered(prefix, done, start)), e.0, e.1)
  {
    NumberedSnoc(prefix, done, s, start);
    PutAllSnoc(m, Numbered(prefix, done, start), NumberedEntry(prefix, s, start + |done|));
  }

  /** Two numbering passes, the second continuing the ordinals of the
      first, assign the same entries as one pass over both lists. */
  lemma {:induction false} PutAllNumberedConcat(m: Manifest, prefix: string, a: seq<Section>, b: seq<Section>, start: nat)
    ensures PutAll(PutAll(m, Numbered(prefix, a, start)), Numbered(prefix, b, start + |a|))
            == PutAll(m, Numbered(prefix, a + b, start))
  {
    if b == [] {
      assert a + b == a;
    } else {
      var b' := b[..|b| - 1];
      var s := b[|b| - 1];
      assert b == b' + [s];
      assert a + b == (a + b') + [s];
      PutAllNumberedConcat(m, prefix, a, b', start);
      PutAllNumberedSnoc(PutAll(m, Numbered(prefix, a, start)), prefix, b', s, start + |a|);
      PutAllNumberedSnoc(m, prefix, a + b', s, start);
    }
  }

  lemma OfKindStep(secs: seq<Section>, k: nat, kind: string)
    requires k < |secs|
    ensures OfKind(secs[..k + 1], kind)
            == OfKind(secs[..k], kind) + (if secs[k].exported && secs[k].kind == kind then [secs[k]] else [])
  {
    assert secs[..k + 1][..k] == secs[..k];
  }

  lemma RemainingStep(secs: seq<Section>, k: nat)
    requires k < |secs|
    ensures Remaining(secs[..k + 1])
            == Remaining(secs[..k]) + (if secs[k].exported && !HandledElsewhere(secs[k].kind) then [secs[k]] else [])
  {
    assert secs[..k + 1][..k] == secs[..k];
  }

  lemma OfKindsStep(secs: seq<Section>, kinds: seq<string>, t: nat)
    requires t < |kinds|
    ensures OfKinds(secs, kinds[..t + 1]) == OfKinds(secs, kinds[..t]) + OfKind(secs, kinds[t])
  {
    assert kinds[..t + 1][..t] == kinds[..t];
  }

  /** Numbering under one prefix leaves the ordinals of another prefix as they were. */
  lemma NumberedKeepsOtherOrdinals(m: Manifest, p: string, secs: seq<Section>, start: nat, q: string, c: nat)
    requires |p| > 0 && |q| > 0 && p[0] != q[0]
    requires OrdinalsBelow(m, q, c)
    ensures OrdinalsBelow(m + Numbered(p, secs, start), q, c)
  {
    var es := Numbered(p, secs, start);
    var r := m + es;
    forall i, n | 0 <= i < |r| && c <= n ensures r[i].0 != NumberedKey(q, n) {
      if i < |m| {
        assert r[i] == m[i];
      } else {
        assert r[i] == es[i - |m|];
        NumberedKeyOtherPrefix(p, q, start + i - |m|, n);
      }
    }
  }
}

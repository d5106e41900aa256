/** The numbering loops of the front-matter and back-matter builders, one
    section at a time, and the closed forms of what they produce: the
    selected sections, numbered on from the counter, assigned in order. */
module Passes {
  import opened Manifest
  import opened Book

  /** The manifest and the next ordinal. */
  datatype Numbering = Numbering(m: Manifest, next: nat)

  /** The manifest, the next ordinal, and whether an introduction was seen. */
  datatype FrontMatterState = FrontMatterState(m: Manifest, next: nat, hasIntroduction: bool)

  /** Assigns section `s` under ordinal `st.next`. */
  function Assign(st: Numbering, prefix: string, s: Section): Numbering {
    var e := NumberedEntry(prefix, s, st.next);
    Numbering(Put(st.m, e.0, e.1), st.next + 1)
  }

  /** One pass of the dedication/epigraph loop: exported sections of type
      `kind` get the next ordinal. */
  function KindPass(st: Numbering, prefix: string, secs: seq<Section>, kind: string): Numbering {
    if secs == [] then st
    else
      var p := KindPass(st, prefix, secs[..|secs| - 1], kind);
      var s := secs[|secs| - 1];
      if s.exported && s.kind == kind then Assign(p, prefix, s) else p
  }

  /** The back-matter loop: every exported section gets the next ordinal. */
  function ExportedPass(st: Numbering, prefix: string, secs: seq<Section>): Numbering {
    if secs == [] then st
    else
      var p := ExportedPass(st, prefix, secs[..|secs| - 1]);
      var s := secs[|secs| - 1];
      if s.exported then Assign(p, prefix, s) else p
  }

  /** The front-matter loop: exported sections not handled elsewhere get
      the next ordinal, and an `introduction` among them sets the flag. */
  function FrontMatterPass(st: FrontMatterState, secs: seq<Section>): FrontMatterState {
    if secs == [] then st
    else
      var p := FrontMatterPass(st, secs[..|secs| - 1]);
      var s := secs[|secs| - 1];
      if s.exported && !HandledElsewhere(s.kind) then
        var e := NumberedEntry(FrontMatterPrefix, s, p.next);
        FrontMatterState(Put(p.m, e.0, e.1), p.next + 1, p.hasIntroduction || s.kind == "introduction")
      else p
  }

  /** The dedication/epigraph loop assigns the matching sections, in book
      order, numbered on from the counter. */
  lemma {:induction false} KindPassNumbers(st: Numbering, prefix: string, secs: seq<Section>, kind: string)
    ensures KindPass(st, prefix, secs, kind).m == PutAll(st.m, Numbered(prefix, OfKind(secs, kind), st.next))
    ensures KindPass(st, prefix, secs, kind).next == st.next + |OfKind(secs, kind)|
  {
    if secs != [] {
      var init := secs[..|secs| - 1];
      var s := secs[|secs| - 1];
      KindPassNumbers(st, prefix, init, kind);
      if s.exported && s.kind == kind {
        assert OfKind(secs, kind) == OfKind(init, kind) + [s];
        PutAllNumberedSnoc(st.m, prefix, OfKind(init, kind), s, st.next);
      } else {
        assert OfKind(secs, kind) == OfKind(init, kind);
      }
    }
  }

  /** A kind pass run after earlier numbered sections `done` continues
      their numbering. */
  lemma KindPassContinues(m0: Manifest, prefix: string, done: seq<Section>, secs: seq<Section>, kind: string)
    ensures var r := KindPass(Numbering(PutAll(m0, Numbered(prefix, done, 1)), 1 + |done|), prefix, secs, kind);
            && r.m == PutAll(m0, Numbered(prefix, done + OfKind(secs, kind), 1))
            && r.next == 1 + |done + OfKind(secs, kind)|
  {
    KindPassNumbers(Numbering(PutAll(m0, Numbered(prefix, done, 1)), 1 + |done|), prefix, secs, kind);
    PutAllNumberedConcat(m0, prefix, done, OfKind(secs, kind), 1);
  }

  /** The back-matter loop assigns every exported section, in book order,
      numbered on from the counter. */
  lemma {:induction false} ExportedPassNumbers(st: Numbering, prefix: string, secs: seq<Section>)
    ensures ExportedPass(st, prefix, secs).m == PutAll(st.m, Numbered(prefix, Exported(secs), st.next))
    ensures ExportedPass(st, prefix, secs).next == st.next + |Exported(secs)|
  {
    if secs != [] {
      var init := secs[..|secs| - 1];
      var s := secs[|secs| - 1];
      ExportedPassNumbers(st, prefix, init);
      if s.exported {
        assert Exported(secs) == Exported(init) + [s];
        PutAllNumberedSnoc(st.m, prefix, Exported(init), s, st.next);
      } else {
        assert Exported(secs) == Exported(init);
      }
    }
  }

  /** The front-matter loop assigns the remaining front matter, in book
      order, numbered on from the counter. */
  lemma {:induction false} FrontMatterPassNumbers(st: FrontMatterState, secs: seq<Section>)
    ensures FrontMatterPass(st, secs).m == PutAll(st.m, Numbered(FrontMatterPrefix, Remaining(secs), st.next))
    ensures FrontMatterPass(st, secs).next == st.next + |Remaining(secs)|
  {
    if secs != [] {
      var init := secs[..|secs| - 1];
      var s := secs[|secs| - 1];
      FrontMatterPassNumbers(st, init);
      if s.exported && !HandledElsewhere(s.kind) {
        assert Remaining(secs) == Remaining(init) + [s];
        PutAllNumberedSnoc(st.m, FrontMatterPrefix, Remaining(init), s, st.next);
      } else {
        assert Remaining(secs) == Remaining(init);
      }
    }
  }

  /** The flag ends up set exactly when it was set before or the front
      matter has an exported introduction. */
  lemma {:induction false} FrontMatterPassIntroduction(st: FrontMatterState, secs: seq<Section>)
    ensures FrontMatterPass(st, secs).hasIntroduction == (st.hasIntroduction || OfKind(secs, "introduction") != [])
  {
    if secs != [] {
      var init := secs[..|secs| - 1];
      var s := secs[|secs| - 1];
      FrontMatterPassIntroduction(st, init);
      if s.exported && s.kind == "introduction" {
        assert !HandledElsewhere(s.kind);
        assert OfKind(secs, "introduction") == OfKind(init, "introduction") + [s];
      } else {
        assert OfKind(secs, "introduction") == OfKind(init, "introduction");
      }
    }
  }

  /** The manifest, the chapter counter, the introduction flag and the pages
      given the introduction class, as the chapter loop of one part sees them. */
  datatype ChapterState = ChapterState(m: Manifest, next: nat, hasIntroduction: bool, introduced: seq<string>)

  /** The chapter loop of one part: every exported chapter gets the next
      ordinal, and the first one met while the flag is clear gets the class. */
  function ChapterPass(st: ChapterState, secs: seq<Section>): ChapterState {
    if secs == [] then st
    else
      var p := ChapterPass(st, secs[..|secs| - 1]);
      var s := secs[|secs| - 1];
      if s.exported then
        var e := NumberedEntry(ChapterPrefix, s, p.next);
        ChapterState(Put(p.m, e.0, e.1), p.next + 1, true,
                     p.introduced + if p.hasIntroduction then [] else [e.1.filename])
      else p
  }

  /** The chapter loop numbers exactly as the back-matter loop does. */
  lemma {:induction false} ChapterPassNumbers(st: ChapterState, secs: seq<Section>)
    ensures ChapterPass(st, secs).m == PutAll(st.m, Numbered(ChapterPrefix, Exported(secs), st.next))
    ensures ChapterPass(st, secs).next == st.next + |Exported(secs)|
  {
    if secs != [] {
      var init := secs[..|secs| - 1];
      var s := secs[|secs| - 1];
      ChapterPassNumbers(st, init);
      if s.exported {
        assert Exported(secs) == Exported(init) + [s];
        PutAllNumberedSnoc(st.m, ChapterPrefix, Exported(init), s, st.next);
      } else {
        assert Exported(secs) == Exported(init);
      }
    }
  }

  /** The flag ends up set when it was set or a chapter was exported, and the
      class goes to the first exported chapter only if the flag was clear. */
  lemma {:induction false} ChapterPassIntroduction(st: ChapterState, secs: seq<Section>)
    ensures ChapterPass(st, secs).hasIntroduction == (st.hasIntroduction || Exported(secs) != [])
    ensures ChapterPass(st, secs).introduced
            == st.introduced
               + if !st.hasIntroduction && Exported(secs) != []
                 then [NumberedEntry(ChapterPrefix, Exported(secs)[0], st.next).1.filename] else []
  {
    if secs != [] {
      var init := secs[..|secs| - 1];
      var s := secs[|secs| - 1];
      ChapterPassIntroduction(st, init);
      if s.exported {
        assert Exported(secs) == Exported(init) + [s];
        if Exported(init) == [] {
          ChapterPassNumbers(st, init);
        }
      } else {
        assert Exported(secs) == Exported(init);
      }
    }
  }
}

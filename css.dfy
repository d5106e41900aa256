/** `scrapeAndKneadCss`: the `url(...)` references of the book's stylesheet
    are de-duplicated and sorted longest first; a local `../images/x`
    reference has its file copied into the bundle, and a remote image is
    fetched into the bundle and the stylesheet is rewritten to point at the
    copy. The references are given as the list the `url(...)` pattern
    extracted from the stylesheet. */
module Css {
  import opened Wrappers
  import opened Text
  import opened Assets
  import opened Manifest

  // ---------------------------------------------------------------------
  // array_unique

  /** No reference occurs twice. */
  predicate Distinct(s: seq<string>) {
    forall i, j :: 0 <= i < j < |s| ==> s[i] != s[j]
  }

  /** Where `x` first occurs in `s`; `|s|` when it does not occur. */
  function FirstAt(s: seq<string>, x: string): (r: nat)
    ensures r <= |s| && (r < |s| <==> x in s)
    ensures r < |s| ==> s[r] == x
    ensures forall j :: 0 <= j < r ==> s[j] != x
  {
    if s == [] then 0 else if s[0] == x then 0 else 1 + FirstAt(s[1..], x)
  }

  /** A reference added at the end leaves every first occurrence where it
      was, and is itself first met there when it is new. */
  lemma {:induction false} FirstAtSnoc(s: seq<string>, x: string, y: string)
    ensures y in s ==> FirstAt(s + [x], y) == FirstAt(s, y)
    ensures y !in s && y == x ==> FirstAt(s + [x], y) == |s|
  {
    if s != [] {
      assert (s + [x])[1..] == s[1..] + [x];
      assert y in s <==> y == s[0] || y in s[1..];
      FirstAtSnoc(s[1..], x, y);
    }
  }

  /** `array_unique`: every reference once, at its first occurrence, so
      the references come in the order of their first occurrences. */
  function Dedup(s: seq<string>): (r: seq<string>)
    ensures Distinct(r)
    ensures forall x :: x in r <==> x in s
    ensures |r| <= |s|
    ensures forall i, j :: 0 <= i < j < |r| ==> FirstAt(s, r[i]) < FirstAt(s, r[j])
  {
    if s == [] then []
    else
      var s' := s[..|s| - 1];
      var d := Dedup(s');
      var x := s[|s| - 1];
      assert s == s' + [x];
      assert forall y :: y in s <==> y in s' || y == x;
      DedupOrderStep(s', x, d);
      if x in d then d else d + [x]
  }

  /** Appending `x` to the input keeps the first-occurrence order of the
      references kept so far, and puts a new `x` after all of them. */
  lemma DedupOrderStep(s: seq<string>, x: string, d: seq<string>)
    requires forall y :: y in d <==> y in s
    requires forall i, j :: 0 <= i < j < |d| ==> FirstAt(s, d[i]) < FirstAt(s, d[j])
    ensures forall i, j :: 0 <= i < j < |d| ==> FirstAt(s + [x], d[i]) < FirstAt(s + [x], d[j])
    ensures x !in d ==> forall i, j :: 0 <= i < j < |d + [x]| ==>
              FirstAt(s + [x], (d + [x])[i]) < FirstAt(s + [x], (d + [x])[j])
  {
    forall k | 0 <= k < |d| ensures FirstAt(s + [x], d[k]) == FirstAt(s, d[k]) < |s| {
      FirstAtSnoc(s, x, d[k]);
    }
    if x !in d {
      FirstAtSnoc(s, x, x);
    }
  }

  // ---------------------------------------------------------------------
  // usort by decreasing length

  /** Longer references come first. */
  predicate LongestFirst(s: seq<string>) {
    forall i, j :: 0 <= i < j < |s| ==> |s[i]| >= |s[j]|
  }

  /** Insert `x` before the first reference not longer than it, so that
      it comes before the references of its own length. */
  function InsertByLength(x: string, s: seq<string>): (r: seq<string>)
    ensures multiset(r) == multiset(s) + multiset{x}
  {
    if s == [] || |s[0]| <= |x| then [x] + s
    else
      assert s == [s[0]] + s[1..];
      [s[0]] + InsertByLength(x, s[1..])
  }

  /** The inserted sequence holds `x` and what was there. */
  lemma InsertMembers(x: string, s: seq<string>)
    ensures forall y :: y in InsertByLength(x, s) <==> y == x || y in s
  {
    var r := InsertByLength(x, s);
    forall y ensures y in r <==> y == x || y in s {
      assert y in r <==> y in multiset(r);
      assert y in s <==> y in multiset(s);
    }
  }

  /** Inserting keeps the order by length. */
  lemma {:induction false} InsertKeepsOrder(x: string, s: seq<string>)
    requires LongestFirst(s)
    ensures LongestFirst(InsertByLength(x, s))
  {
    if s != [] && |s[0]| > |x| {
      var rest := InsertByLength(x, s[1..]);
      InsertKeepsOrder(x, s[1..]);
      InsertMembers(x, s[1..]);
      assert forall y :: y in s[1..] ==> |s[0]| >= |y| by {
        forall y | y in s[1..] ensures |s[0]| >= |y| {
          var k :| 0 <= k < |s[1..]| && s[1..][k] == y;
          assert s[1..][k] == s[k + 1];
        }
      }
      assert forall k :: 0 <= k < |rest| ==> |s[0]| >= |rest[k]| by {
        forall k | 0 <= k < |rest| ensures |s[0]| >= |rest[k]| {
          assert rest[k] in rest;
        }
      }
      assert InsertByLength(x, s) == [s[0]] + rest;
    }
  }

  /** Inserting a new reference keeps the references distinct. */
  lemma {:induction false} InsertKeepsDistinct(x: string, s: seq<string>)
    requires Distinct(s) && x !in s
    ensures Distinct(InsertByLength(x, s))
  {
    if s != [] && |s[0]| > |x| {
      var rest := InsertByLength(x, s[1..]);
      InsertKeepsDistinct(x, s[1..]);
      InsertMembers(x, s[1..]);
      assert s[0] !in s[1..] by {
        forall k | 0 <= k < |s[1..]| ensures s[1..][k] != s[0] {
          assert s[1..][k] == s[k + 1];
        }
      }
      assert s[0] !in rest;
      assert InsertByLength(x, s) == [s[0]] + rest;
    }
  }

  /** The `usort` with comparator `strlen($b) - strlen($a)`, references of
      equal length keeping their order. */
  function SortLongestFirst(s: seq<string>): (r: seq<string>)
    ensures LongestFirst(r)
    ensures multiset(r) == multiset(s)
    ensures Distinct(s) ==> Distinct(r)
  {
    if s == [] then []
    else
      assert s == [s[0]] + s[1..];
      var sorted := SortLongestFirst(s[1..]);
      InsertKeepsOrder(s[0], sorted);
      assert s[0] in sorted <==> s[0] in s[1..] by {
        assert s[0] in sorted <==> s[0] in multiset(sorted);
      }
      if Distinct(s) then
        assert s[0] !in s[1..];
        InsertKeepsDistinct(s[0], sorted);
        InsertByLength(s[0], sorted)
      else InsertByLength(s[0], sorted)
  }

  /** The references of length `n`, in their order in `s`. */
  function OfLength(s: seq<string>, n: nat): seq<string>
  {
    if s == [] then [] else (if |s[0]| == n then [s[0]] else []) + OfLength(s[1..], n)
  }

  /** `OfLength` of a sequence with a first element. */
  lemma OfLengthCons(y: string, t: seq<string>, n: nat)
    ensures OfLength([y] + t, n) == (if |y| == n then [y] else []) + OfLength(t, n)
  {
    assert ([y] + t)[1..] == t;
  }

  /** An insertion step puts `x` in front of the references of its length
      and moves no other reference past one of the same length. */
  lemma {:induction false} InsertKeepsTies(x: string, s: seq<string>, n: nat)
    ensures OfLength(InsertByLength(x, s), n) == (if |x| == n then [x] else []) + OfLength(s, n)
  {
    if s == [] || |s[0]| <= |x| {
      assert InsertByLength(x, s) == [x] + s;
      OfLengthCons(x, s, n);
    } else {
      var rest := InsertByLength(x, s[1..]);
      var a := if |s[0]| == n then [s[0]] else [];
      var b := if |x| == n then [x] else [];
      assert OfLength(InsertByLength(x, s), n) == a + OfLength(rest, n) by {
        assert InsertByLength(x, s) == [s[0]] + rest;
        OfLengthCons(s[0], rest, n);
      }
      assert OfLength(s, n) == a + OfLength(s[1..], n) by {
        assert s == [s[0]] + s[1..];
        OfLengthCons(s[0], s[1..], n);
      }
      InsertKeepsTies(x, s[1..], n);
      if |s[0]| == n {
        assert b == [];
      } else {
        assert a == [];
      }
    }
  }

  /** The sort is stable: the references of any one length come out in
      the order they went in. */
  lemma {:induction false} SortKeepsTies(s: seq<string>, n: nat)
    ensures OfLength(SortLongestFirst(s), n) == OfLength(s, n)
  {
    if s != [] {
      SortKeepsTies(s[1..], n);
      InsertKeepsTies(s[0], SortLongestFirst(s[1..]), n);
    }
  }

  /** The point of the sort: with distinct references, longest first, no
      reference is part of a reference after it, so rewriting a shorter
      reference can never cut into the text of a longer one that is still
      to be rewritten. */
  lemma NoEarlierInsideLater(refs: seq<string>)
    ensures var order := SortLongestFirst(Dedup(refs));
            forall i, j, k :: 0 <= i < j < |order| && 0 <= k ==> !OccursAt(order[j], order[i], k)
  {
    var order := SortLongestFirst(Dedup(refs));
    assert Distinct(order) && LongestFirst(order);
  }

  // ---------------------------------------------------------------------
  // Classification

  /** How a reference is handled. */
  datatype Kind = Local | Remote | Untouched

  /** The number of `c` in `s` (`substr_count`). */
  function Count(s: string, c: char): nat {
    if s == [] then 0 else Count(s[..|s| - 1], c) + (if s[|s| - 1] == c then 1 else 0)
  }

  /** The text ends, case-insensitively, in `.jpg`, `.jpeg`, `.gif` or
      `.png`. */
  predicate ImageExtension(s: string) {
    var l := Lower(s);
    HasSuffix(l, ".jpg") || HasSuffix(l, ".jpeg") || HasSuffix(l, ".gif") || HasSuffix(l, ".png")
  }

  /** `preg_match('/(\.jpe?g|\.gif|\.png)$/i', $s)`: `$` matches at the end
      or just before a final newline. */
  predicate EndsInImageExtension(s: string) {
    ImageExtension(s) || (|s| > 0 && s[|s| - 1] == '\n' && ImageExtension(s[..|s| - 1]))
  }

  /** A reference is local when it starts with `../images/` and has no
      other `/`; it is remote when it starts with `http://` or `https://`
      (in any case) and ends in an image extension. */
  function Classify(url: string): Kind {
    if HasPrefix(url, "../images/") && Count(url, '/') == 2 then Local
    else if (HasPrefix(Lower(url), "http://") || HasPrefix(Lower(url), "https://")) && EndsInImageExtension(url)
    then Remote
    else Untouched
  }

  /** Local references are exactly the files directly inside `../images/`:
      one with a further `/` (a subdirectory, or `..` climbing out) is
      never copied. */
  lemma LocalIsDirectChild(url: string)
    ensures Classify(url) == Local <==> HasPrefix(url, "../images/") && '/' !in url[10..]
  {
    if HasPrefix(url, "../images/") {
      assert Count(url, '/') == 2 + Count(url[10..], '/') by {
        assert url == "../images/" + url[10..];
        CountAppend("../images/", url[10..], '/');
        ImagesDirSlashes();
      }
      CountZero(url[10..], '/');
    }
  }

  /** `../images/` holds two `/`. */
  lemma ImagesDirSlashes()
    ensures Count("../images/", '/') == 2
  {
    assert "../images/" == ".." + "/" + "images" + "/";
    CountAppend(".." + "/" + "images", "/", '/');
    CountAppend(".." + "/", "images", '/');
    CountAppend("..", "/", '/');
    CountZero("..", '/');
    CountZero("images", '/');
    assert Count("/", '/') == 1 by {
      assert "/"[..0] == [];
    }
  }

  /** No `c` at all, and only then, is a count of 0. */
  lemma {:induction false} CountZero(s: string, c: char)
    ensures Count(s, c) == 0 <==> c !in s
  {
    if s != [] {
      CountZero(s[..|s| - 1], c);
      assert s == s[..|s| - 1] + [s[|s| - 1]];
    }
  }

  lemma {:induction false} CountAppend(a: string, b: string, c: char)
    ensures Count(a + b, c) == Count(a, c) + Count(b, c)
    decreases |b|
  {
    if b != [] {
      var ab := a + b;
      assert ab[..|ab| - 1] == a + b[..|b| - 1];
      assert ab[|ab| - 1] == b[|b| - 1];
      CountAppend(a, b[..|b| - 1], c);
      assert Count(ab, c) == Count(ab[..|ab| - 1], c) + (if ab[|ab| - 1] == c then 1 else 0);
    } else {
      assert a + b == a;
    }
  }

  // ---------------------------------------------------------------------
  // The loop over the references

  /** What the stylesheet pass calls out to: the network and the image
      check, `sanitize_file_name`, and, for a local reference, the file
      `realpath` finds next to the stylesheet (None when there is none). */
  datatype Env = Env(net: Network, sanitize: string -> string, localFile: string -> Option<Bytes>)

  /** The stylesheet text and the images directory. */
  datatype State = State(css: string, files: Store)

  /** One reference: a local file found is copied over whatever the
      directory held under its name; a remote image saved is substituted
      for every occurrence of the reference in the stylesheet. */
  function KneadRef(st: State, url: string, env: Env): State {
    match Classify(url)
    case Local =>
      (match env.localFile(url)
       case None => st
       case Some(bytes) => State(st.css, st.files[env.sanitize(Basename(url)) := bytes]))
    case Remote =>
      var (files, name) := FetchAndSave(st.files, url, env.net);
      if Truthy(name) then State(ReplaceAll(st.css, url, "../images/" + name), files)
      else State(st.css, files)
    case Untouched => st
  }

  /** The references handled one after the other. */
  function KneadRefs(st: State, refs: seq<string>, env: Env): State {
    if refs == [] then st
    else KneadRef(KneadRefs(st, refs[..|refs| - 1], env), refs[|refs| - 1], env)
  }

  /** The whole pass: the stylesheet as rewritten and the directory after
      it. */
  function KneadCss(css: string, matches: seq<string>, files: Store, env: Env): State {
    KneadRefs(State(css, files), SortLongestFirst(Dedup(matches)), env)
  }

  /** A remote reference whose fetch fails, or gives no image. */
  predicate FetchFails(url: string, env: Env) {
    env.net.fetch(url).WpError? || !env.net.isImage(env.net.fetch(url).body)
  }

  /** The stylesheet text changes only through remote images that were
      saved: when every remote reference fails, the text is as it was. */
  lemma {:induction false} TextKeptWhenFetchesFail(st: State, refs: seq<string>, env: Env)
    requires forall i :: 0 <= i < |refs| && Classify(refs[i]) == Remote ==> FetchFails(refs[i], env)
    ensures KneadRefs(st, refs, env).css == st.css
  {
    if refs != [] {
      var init := refs[..|refs| - 1];
      assert forall i :: 0 <= i < |init| ==> init[i] == refs[i];
      TextKeptWhenFetchesFail(st, init, env);
    }
  }

  /** Local references and references left alone never change the text:
      a stylesheet without remote image references comes out as it went
      in. */
  lemma {:induction false} TextKeptWithoutRemote(st: State, refs: seq<string>, env: Env)
    requires forall i :: 0 <= i < |refs| ==> Classify(refs[i]) != Remote
    ensures KneadRefs(st, refs, env).css == st.css
  {
    TextKeptWhenFetchesFail(st, refs, env);
  }

  /** The directory only grows: every file name there before is there
      after (a local copy may replace the content under its name). */
  lemma {:induction false} NamesKept(st: State, refs: seq<string>, env: Env)
    ensures st.files.Keys <= KneadRefs(st, refs, env).files.Keys
  {
    if refs != [] {
      var init := refs[..|refs| - 1];
      NamesKept(st, init, env);
      var mid := KneadRefs(st, init, env);
      var url := refs[|refs| - 1];
      if Classify(url) == Remote {
        var (files, name) := FetchAndSave(mid.files, url, env.net);
        assert mid.files.Keys <= files.Keys;
      }
    }
  }

  /** A remote image saved under `name` has every occurrence of its
      reference replaced by `../images/name`. */
  lemma RemoteRewritten(st: State, url: string, env: Env)
    requires Classify(url) == Remote
    requires Truthy(FetchAndSave(st.files, url, env.net).1)
    ensures var name := FetchAndSave(st.files, url, env.net).1;
            KneadRef(st, url, env).css == ReplaceAll(st.css, url, "../images/" + name)
            && name in KneadRef(st, url, env).files
  {
  }

  /** `scrapeAndKneadCss`: the new stylesheet text; the images directory
      receives the copies and the fetched images. */
  method ScrapeAndKneadCss(dir: ImageDir, css: string, matches: seq<string>, env: Env) returns (out: string)
    modifies dir
    ensures State(out, dir.files) == KneadCss(css, matches, old(dir.files), env)
  {
    out := HandleRefs(dir, css, SortLongestFirst(Dedup(matches)), env);
  }

  /** The loop of `scrapeAndKneadCss` over the references, in the order
      given. */
  method HandleRefs(dir: ImageDir, css: string, refs: seq<string>, env: Env) returns (out: string)
    modifies dir
    ensures State(out, dir.files) == KneadRefs(State(css, old(dir.files)), refs, env)
  {
    out := css;
    for i := 0 to |refs|
      invariant State(out, dir.files) == KneadRefs(State(css, old(dir.files)), refs[..i], env)
    {
      var url := refs[i];
      assert refs[..i + 1][..i] == refs[..i] && refs[..i + 1][i] == url;
      var kind := Classify(url);
      if kind == Local {
        var mine := env.localFile(url);
        if mine.Some? {
          dir.files := dir.files[env.sanitize(Basename(url)) := mine.value];
        }
      } else if kind == Remote {
        var newName := dir.FetchAndSaveUniqueImage(url, env.net);
        if Truthy(newName) {
          out := ReplaceAll(out, url, "../images/" + newName);
        }
      }
    }
    assert refs[..|refs|] == refs;
  }
}

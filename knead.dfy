/** The passes `kneadHtml` makes over a parsed HTML fragment: the images are
    fetched into the bundle and repointed (`scrapeAndKneadImages`), every
    anchor is kept, stripped, rewritten to an internal page or
    canonicalised (`kneadHref`), and an element serialised as self-closing
    is reopened unless it is a void element (the callback of the last
    `preg_replace_callback`). A fragment is given as its `<img>` sources and
    its `<a>` elements, already parsed. */
module Knead {
  import opened Wrappers
  import opened Text
  import opened Links
  import opened Assets

  // ---------------------------------------------------------------------
  // scrapeAndKneadImages

  /** The `src` an image ends with: `images/<name>` when the fetch gave a
      (truthy) file name, its old value otherwise. */
  function Repointed(src: string, name: string): string {
    if Truthy(name) then "images/" + name else src
  }

  /** The images of a fragment, in document order, passed one after the
      other through `fetchAndSaveUniqueImage`: their new sources and the
      directory after the last one. */
  function KneadImages(srcs: seq<string>, files: Store, net: Network): (r: (seq<string>, Store))
    ensures |r.0| == |srcs|
  {
    if srcs == [] then ([], files)
    else
      var (outs, mid) := KneadImages(srcs[..|srcs| - 1], files, net);
      var (after, name) := FetchAndSave(mid, srcs[|srcs| - 1], net);
      (outs + [Repointed(srcs[|srcs| - 1], name)], after)
  }

  /** An image whose fetch failed, or whose bytes are no image, keeps its
      source. */
  lemma {:induction false} KneadImagesKeepsFailed(srcs: seq<string>, files: Store, net: Network, i: nat)
    requires i < |srcs|
    requires net.fetch(srcs[i]).WpError? || !net.isImage(net.fetch(srcs[i]).body)
    ensures KneadImages(srcs, files, net).0[i] == srcs[i]
  {
    var init := srcs[..|srcs| - 1];
    var (outs, mid) := KneadImages(init, files, net);
    if i < |srcs| - 1 {
      assert init[i] == srcs[i];
      KneadImagesKeepsFailed(init, files, net, i);
      assert KneadImages(srcs, files, net).0[i] == outs[i];
    } else {
      assert FetchAndSave(mid, srcs[i], net).1 == "";
    }
  }

  /** `out` is `images/<name>` and the file `name` holds `content`. */
  predicate SavedAs(out: string, files: Store, content: Bytes) {
    HasPrefix(out, "images/") && out[7..] in files && files[out[7..]] == content
  }

  /** With `wp_unique_filename` answering unused names, the pass keeps
      every file that was in the directory, and every image it repointed
      points at a file that, at the end, holds the bytes fetched from the
      image's old source. */
  lemma {:induction false} KneadImagesSaved(srcs: seq<string>, files: Store, net: Network)
    requires FreshNames(net)
    ensures var (outs, after) := KneadImages(srcs, files, net);
            && (forall k :: k in files ==> k in after && after[k] == files[k])
            && (forall i :: 0 <= i < |srcs| && outs[i] != srcs[i] ==>
                  net.fetch(srcs[i]).Body? && SavedAs(outs[i], after, net.fetch(srcs[i]).body))
  {
    if srcs != [] {
      var init := srcs[..|srcs| - 1];
      var last := srcs[|srcs| - 1];
      KneadImagesSaved(init, files, net);
      var (outs, mid) := KneadImages(init, files, net);
      var (after, name) := FetchAndSave(mid, last, net);
      FetchAndSaveKeeps(mid, last, net);
      var outs' := outs + [Repointed(last, name)];
      assert KneadImages(srcs, files, net) == (outs', after);
      forall i | 0 <= i < |srcs| && outs'[i] != srcs[i]
        ensures net.fetch(srcs[i]).Body? && SavedAs(outs'[i], after, net.fetch(srcs[i]).body)
      {
        if i < |srcs| - 1 {
          assert outs'[i] == outs[i] && srcs[i] == init[i];
        } else {
          assert Truthy(name) && outs'[i] == "images/" + name;
          assert outs'[i][7..] == name;
        }
      }
    }
  }

  /** One more image: the pass over the first `i + 1` sources is the pass
      over the first `i`, followed by the fetch of source `i`. */
  lemma KneadImagesStep(srcs: seq<string>, i: nat, files: Store, net: Network)
    requires i < |srcs|
    ensures KneadImages(srcs[..i + 1], files, net)
            == var (outs, mid) := KneadImages(srcs[..i], files, net);
               var (after, name) := FetchAndSave(mid, srcs[i], net);
               (outs + [Repointed(srcs[i], name)], after)
  {
    assert srcs[..i + 1][..i] == srcs[..i];
  }

  /** `scrapeAndKneadImages`: the `src` of every image of the fragment is
      updated in place, and the images directory grows as the fetches
      save files. */
  method ScrapeAndKneadImages(dir: ImageDir, srcs: array<string>, net: Network)
    modifies dir, srcs
    ensures (srcs[..], dir.files) == KneadImages(old(srcs[..]), old(dir.files), net)
  {
    ghost var srcs0 := srcs[..];
    ghost var files0 := dir.files;
    for i := 0 to srcs.Length
      invariant srcs[i..] == srcs0[i..]
      invariant (srcs[..i], dir.files) == KneadImages(srcs0[..i], files0, net)
    {
      ghost var before := srcs[..i];
      ghost var mid := dir.files;
      var url := srcs[i];
      assert url == srcs0[i] by {
        assert srcs[i..][0] == srcs0[i..][0];
      }
      ghost var rest := srcs[i + 1..];
      assert rest == srcs0[i + 1..] by {
        assert srcs[i + 1..] == srcs[i..][1..] && srcs0[i + 1..] == srcs0[i..][1..];
      }
      var filename := dir.FetchAndSaveUniqueImage(url, net);
      if Truthy(filename) {
        srcs[i] := "images/" + filename;
      }
      assert srcs[..i + 1] == before + [Repointed(url, filename)];
      assert srcs[i + 1..] == rest;
      KneadImagesStep(srcs0, i, files0, net);
    }
    assert srcs[..] == srcs[..srcs.Length];
    assert srcs0[..srcs.Length] == srcs0;
  }

  // ---------------------------------------------------------------------
  // kneadHref

  /** A child node of an anchor: its name, and its `src` attribute ("" when
      it has none, which is what `getAttribute` answers). */
  datatype Node = Node(name: string, src: string)

  /** An `<a>` element: its `href` attribute, absent or a value, and its
      child nodes. */
  datatype Anchor = Anchor(href: Option<string>, children: seq<Node>)

  /** `getAttribute('href')`: the value, or "" when there is none. */
  function Href(a: Anchor): string {
    if a.href.Some? then a.href.value else ""
  }

  /** The node is an `<img>` naming the same picture as `url`. */
  predicate ShowsImage(node: Node, url: string) {
    node.name == "img" && FuzzyImageNameMatch(url, node.src)
  }

  /** The anchor wraps an `<img>` naming the same picture as `url`. */
  predicate WrapsImage(a: Anchor, url: string) {
    exists i :: 0 <= i < |a.children| && ShowsImage(a.children[i], url)
  }

  /** What the link rewriting needs to know: the position of the page
      being kneaded, the book's slug => type lookup, `parse_url`'s host,
      the site's host, and `canonicalizeUrl`. */
  datatype Site = Site(pos: nat, lookup: Lookup, hostOf: string -> string, siteHost: string,
                       canonicalize: string -> string)

  /** `kneadHref` on one anchor. The decisions are taken in order: a blank
      link is left alone; a link around a picture of the same name loses
      its `href`; a link to a page of the book is rewritten to that page's
      file; any other link not starting with `#` is canonicalised. */
  function KneadAnchor(a: Anchor, site: Site): Anchor {
    var cur := Href(a);
    if !Truthy(Trim(cur)) then a
    else if WrapsImage(a, cur) then a.(href := None)
    else
      match HrefTarget(cur, site.pos, site.lookup, site.hostOf, site.siteHost)
      case Some(target) => a.(href := Some(target))
      case None => if cur[0] != '#' then a.(href := Some(site.canonicalize(cur))) else a
  }

  /** What `KneadAnchor` does, outcome by outcome: the children are never
      touched; a blank link stays as it is; the `href` disappears exactly
      when it wraps a matching picture (or was absent), whatever the link
      points at; a changed `href` is the internal file name when the link
      is internal, and otherwise the canonical form of a link that is not
      a fragment. */
  lemma KneadAnchorOutcomes(a: Anchor, site: Site)
    ensures KneadAnchor(a, site).children == a.children
    ensures !Truthy(Trim(Href(a))) ==> KneadAnchor(a, site) == a
    ensures KneadAnchor(a, site).href.None? <==> a.href.None? || (Truthy(Trim(Href(a))) && WrapsImage(a, Href(a)))
    ensures var r := KneadAnchor(a, site);
            var cur := Href(a);
            var internal := HrefTarget(cur, site.pos, site.lookup, site.hostOf, site.siteHost);
            r.href.Some? && r.href != a.href ==>
              internal == r.href || (internal.None? && cur[0] != '#' && r.href == Some(site.canonicalize(cur)))
  {
  }

  /** `kneadHref` over the anchors of a fragment, in document order. */
  function KneadAll(anchors: seq<Anchor>, site: Site): (r: seq<Anchor>)
    ensures |r| == |anchors|
  {
    if anchors == [] then []
    else KneadAll(anchors[..|anchors| - 1], site) + [KneadAnchor(anchors[|anchors| - 1], site)]
  }

  /** Every anchor is kneaded on its own: anchor `j` of the result is
      `KneadAnchor` of anchor `j`, whatever the other anchors are. */
  lemma {:induction false} KneadAllEach(anchors: seq<Anchor>, site: Site)
    ensures forall j :: 0 <= j < |anchors| ==> KneadAll(anchors, site)[j] == KneadAnchor(anchors[j], site)
  {
    if anchors != [] {
      var init := anchors[..|anchors| - 1];
      KneadAllEach(init, site);
      forall j | 0 <= j < |anchors| - 1
        ensures KneadAll(anchors, site)[j] == KneadAnchor(anchors[j], site)
      {
        assert KneadAll(anchors, site)[j] == KneadAll(init, site)[j];
        assert anchors[j] == init[j];
      }
    }
  }

  /** One more anchor: the pass over the first `i + 1` anchors extends the
      pass over the first `i`. */
  lemma KneadAllStep(anchors: seq<Anchor>, i: nat, site: Site)
    requires i < |anchors|
    ensures KneadAll(anchors[..i + 1], site) == KneadAll(anchors[..i], site) + [KneadAnchor(anchors[i], site)]
  {
    assert anchors[..i + 1][..i] == anchors[..i];
  }

  /** `kneadHref`: the anchors of a fragment, each updated in place. */
  method KneadHref(anchors: array<Anchor>, site: Site)
    modifies anchors
    ensures anchors[..] == KneadAll(old(anchors[..]), site)
  {
    ghost var before := anchors[..];
    for i := 0 to anchors.Length
      invariant anchors[..i] == KneadAll(before[..i], site)
      invariant anchors[i..] == before[i..]
    {
      ghost var done := anchors[..i];
      var a := anchors[i];
      assert a == before[i] by {
        assert anchors[i..][0] == before[i..][0];
      }
      ghost var rest := anchors[i + 1..];
      assert rest == before[i + 1..] by {
        assert anchors[i + 1..] == anchors[i..][1..] && before[i + 1..] == before[i..][1..];
      }
      var r := KneadOne(a, site);
      anchors[i] := r;
      assert anchors[..i + 1] == done + [r];
      assert anchors[i + 1..] == rest;
      KneadAllStep(before, i, site);
    }
    assert anchors[..] == anchors[..anchors.Length];
    assert before[..anchors.Length] == before;
  }

  /** The body of the `foreach` of `kneadHref`, for one anchor. */
  method KneadOne(a: Anchor, site: Site) returns (r: Anchor)
    ensures r == KneadAnchor(a, site)
  {
    r := a;
    var cur := Href(a);
    if !Truthy(Trim(cur)) {
      return;
    }
    var wraps := HasMatchingImage(a, cur);
    if wraps {
      return a.(href := None);
    }
    var internal := FuzzyHrefMatch(cur, site.pos, site.lookup, site.hostOf, site.siteHost, false);
    if internal.Some? {
      return a.(href := internal);
    }
    if cur[0] != '#' {
      r := a.(href := Some(site.canonicalize(cur)));
    }
  }

  /** The `foreach` over the anchor's child nodes, stopping at the first
      `<img>` that matches. */
  method HasMatchingImage(a: Anchor, url: string) returns (found: bool)
    ensures found <==> WrapsImage(a, url)
  {
    var i := 0;
    while i < |a.children|
      invariant 0 <= i <= |a.children|
      invariant forall j :: 0 <= j < i ==> !ShowsImage(a.children[j], url)
    {
      var node := a.children[i];
      if ShowsImage(node, url) {
        return true;
      }
      i := i + 1;
    }
    return false;
  }

  // ---------------------------------------------------------------------
  // The self-closing callback of kneadHtml

  /** The elements that may stay self-closing in the output. */
  const VoidTags: seq<string> := ["br", "hr", "input", "frame", "img", "area", "link", "col", "base",
                                  "basefont", "param", "meta"]

  /** A character `\w` matches. */
  predicate IsWordChar(c: char) {
    'a' <= c <= 'z' || 'A' <= c <= 'Z' || '0' <= c <= '9' || c == '_'
  }

  // The replacement for a match of the pattern  <(\w+)([^>]*)\s*/>  given
  // its two groups (a word, then text without `>` up to the closing `/>`):
  // a void element stays self-closing, any other is written as an opening
  // tag followed by its closing tag.
  function ReopenTag(name: string, attrs: string): (r: string)
    requires name != [] && forall i :: 0 <= i < |name| ==> IsWordChar(name[i])
    requires '>' !in attrs
    ensures HasPrefix(r, "<" + name + attrs)
  {
    if name in VoidTags then "<" + name + attrs + " />"
    else "<" + name + attrs + "></" + name + ">"
  }

  /** A void element comes out self-closing: one tag, whose only `>` is
      the last character, ending in ` />`. */
  lemma ReopenVoid(name: string, attrs: string)
    requires name != [] && forall i :: 0 <= i < |name| ==> IsWordChar(name[i])
    requires '>' !in attrs
    requires name in VoidTags
    ensures var r := ReopenTag(name, attrs);
            HasSuffix(r, " />") && '>' !in r[..|r| - 1]
  {
    var r := ReopenTag(name, attrs);
    assert r[..|r| - 1] == "<" + name + attrs + " /";
    forall i | 0 <= i < |name| ensures name[i] != '>' {
      assert IsWordChar(name[i]);
    }
  }

  /** Any other element comes out as an empty element with its closing
      tag, and nothing in it reads `/>` any more, provided the text before
      the `/>` of the match did not itself end in `/`. */
  lemma ReopenNonVoid(name: string, attrs: string)
    requires name != [] && forall i :: 0 <= i < |name| ==> IsWordChar(name[i])
    requires '>' !in attrs
    requires attrs == [] || attrs[|attrs| - 1] != '/'
    requires name !in VoidTags
    ensures var r := ReopenTag(name, attrs);
            HasSuffix(r, "</" + name + ">") && forall j: nat :: !OccursAt(r, "/>", j)
  {
    var r := ReopenTag(name, attrs);
    assert r == "<" + name + attrs + "></" + name + ">";
    assert HasSuffix(r, "</" + name + ">") by {
      assert r[|r| - (|name| + 3)..] == "</" + name + ">";
    }
    forall j: nat ensures !OccursAt(r, "/>", j) {
      if j + 2 <= |r| {
        assert r[j..j + 2][0] == r[j] && r[j..j + 2][1] == r[j + 1];
        if r[j + 1] == '>' {
          ClosedAt(name, attrs, j + 1);
          NotSlashBeforeClose(name, attrs);
        }
      }
    }
  }

  /** The two `>` of an element reopened with its closing tag: after the
      attributes and at the very end. */
  lemma ClosedAt(name: string, attrs: string, i: nat)
    requires name != [] && forall i :: 0 <= i < |name| ==> IsWordChar(name[i])
    requires '>' !in attrs
    requires i < |"<" + name + attrs + "></" + name + ">"|
    ensures ("<" + name + attrs + "></" + name + ">")[i] == '>' ==>
            i == |name| + 1 + |attrs| || i == 2 * |name| + |attrs| + 4
  {
    var r := "<" + name + attrs + "></" + name + ">";
    var n, k := |name|, |attrs|;
    if i == 0 {
      assert r[i] == '<';
    } else if i <= n {
      assert r[i] == name[i - 1] && IsWordChar(name[i - 1]);
    } else if i <= n + k {
      assert r[i] == attrs[i - n - 1];
    } else if n + 4 + k <= i < |r| - 1 {
      assert r[i] == name[i - (n + 4 + k)] && IsWordChar(name[i - (n + 4 + k)]);
    } else if i == n + 2 + k || i == n + 3 + k {
      assert r[n + 2 + k] == '<' && r[n + 3 + k] == '/';
    }
  }

  /** Neither `>` of the reopened element follows a `/`. */
  lemma NotSlashBeforeClose(name: string, attrs: string)
    requires name != [] && forall i :: 0 <= i < |name| ==> IsWordChar(name[i])
    requires attrs == [] || attrs[|attrs| - 1] != '/'
    ensures var r := "<" + name + attrs + "></" + name + ">";
            r[|name| + |attrs|] != '/' && r[2 * |name| + |attrs| + 3] != '/'
  {
    var r := "<" + name + attrs + "></" + name + ">";
    var n, k := |name|, |attrs|;
    assert IsWordChar(name[n - 1]);
    if k == 0 {
      assert r[n + k] == name[n - 1];
    } else {
      assert r[n + k] == attrs[k - 1];
    }
    assert r[2 * n + k + 3] == name[n - 1];
  }
}

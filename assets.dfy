/** The images directory of the bundle and `fetchAndSaveUniqueImage`: fetch
    a remote image, check that it is one, and save it under a name derived
    from its URL, reusing the file already under that name when it holds
    the same bytes and taking a fresh name when it holds others. */
module Assets {
  import opened Wrappers
  import opened Text

  type Bytes = seq<bv8>

  /** What `wp_remote_get` returns: an error, or a response body. */
  datatype Response = WpError | Body(body: Bytes)

  /** The collaborators the image code calls, as functions fixed for one
      build: `wp_remote_get` with its timeout, whether
      `imagecreatefromstring` accepts the bytes, the file-name cleaning
      chain (`urldecode`, `sanitize_file_name`, `force_ascii`), and
      `wp_unique_filename`, which picks a name not yet used in the
      directory. */
  datatype Network = Network(
    fetch: string -> Response,
    isImage: Bytes -> bool,
    clean: string -> string,
    unique: (set<string>, string) -> string)

  /** `wp_unique_filename` never answers a name that is in use. */
  ghost predicate FreshNames(net: Network) {
    forall used: set<string>, name: string :: net.unique(used, name) !in used
  }

  /** File name => content of the files in `images/`. */
  type Store = map<string, Bytes>

  /** Every name `file_exists` reports as present: the files, and the empty
      name, under which the directory itself is found. */
  function Names(files: Store): set<string> {
    files.Keys + {""}
  }

  /** What `file_exists` and `file_get_contents` see under `name`: the
      file, or for the empty name the directory, which reads as empty. */
  function Existing(files: Store, name: string): Option<Bytes> {
    if name in files then Some(files[name]) else if name == "" then Some([]) else None
  }

  /** The name derived from a URL: its base name without the query string,
      cleaned. */
  function CandidateName(url: string, clean: string -> string): string {
    clean(FirstPiece(Basename(url), '?'))
  }

  /** The save step, with the md5 comparison read as equality of contents:
      a new name is written, the same content under the name is reused,
      and other content under it makes the bytes go to a fresh name. */
  function SaveUnique(files: Store, name: string, content: Bytes, unique: (set<string>, string) -> string): (r: (Store, string))
    ensures r.1 != "" ==> r.1 in r.0 && r.0[r.1] == content
    ensures r.0.Keys <= files.Keys + {r.1}
    ensures forall k :: k in files && k != r.1 ==> k in r.0 && r.0[k] == files[k]
  {
    match Existing(files, name)
    case None => (files[name := content], name)
    case Some(stored) =>
      if stored == content then (files, name)
      else
        var other := unique(Names(files), name);
        (files[other := content], other)
  }

  /** `fetchAndSaveUniqueImage(url)`: the new directory and the file name
      ("" when nothing usable was fetched). */
  function FetchAndSave(files: Store, url: string, net: Network): (r: (Store, string))
    ensures net.fetch(url).WpError? || !net.isImage(net.fetch(url).body) ==> r == (files, "")
    ensures r.1 != "" ==> net.fetch(url).Body? && r.1 in r.0 && r.0[r.1] == net.fetch(url).body
    ensures r.0.Keys <= files.Keys + {r.1}
    ensures forall k :: k in files && k != r.1 ==> k in r.0 && r.0[k] == files[k]
  {
    match net.fetch(url)
    case WpError => (files, "")
    case Body(b) =>
      if !net.isImage(b) then (files, "")
      else SaveUnique(files, CandidateName(url, net.clean), b, net.unique)
  }

  /** With `wp_unique_filename` answering unused names, saving never
      overwrites a file: every file there before is there after, with the
      same content. */
  lemma FetchAndSaveKeeps(files: Store, url: string, net: Network)
    requires FreshNames(net)
    ensures var (after, name) := FetchAndSave(files, url, net);
            forall k :: k in files ==> k in after && after[k] == files[k]
  {
    var c := CandidateName(url, net.clean);
    match net.fetch(url)
    case WpError =>
    case Body(b) =>
      if net.isImage(b) && Existing(files, c).Some? && Existing(files, c).value != b {
        assert net.unique(Names(files), c) !in Names(files);
      }
  }

  /** The same image fetched twice within one build gives one file, named
      by both calls: the second call finds the bytes under the name and
      writes nothing. This holds unless the name was already taken by
      other bytes, see `RefetchAfterCollision`. */
  lemma FetchTwiceOneFile(files: Store, url: string, net: Network)
    requires net.fetch(url).Body? && net.isImage(net.fetch(url).body)
    requires var c := CandidateName(url, net.clean);
             c != "" && (c in files ==> files[c] == net.fetch(url).body)
    ensures var (once, name1) := FetchAndSave(files, url, net);
            var (twice, name2) := FetchAndSave(once, url, net);
            && name1 == name2 == CandidateName(url, net.clean)
            && twice == once
            && once == files[name1 := net.fetch(url).body]
  {
  }

  /** Two different images whose URLs give the same name, the name being
      free: the first takes it, the second goes under a fresh name, and
      the first file is left as it is. */
  lemma SameNameDifferentContent(files: Store, url1: string, url2: string, net: Network)
    requires FreshNames(net)
    requires net.fetch(url1).Body? && net.isImage(net.fetch(url1).body)
    requires net.fetch(url2).Body? && net.isImage(net.fetch(url2).body)
    requires net.fetch(url1).body != net.fetch(url2).body
    requires CandidateName(url1, net.clean) == CandidateName(url2, net.clean)
    requires CandidateName(url1, net.clean) !in Names(files)
    ensures var (s1, n1) := FetchAndSave(files, url1, net);
            var (s2, n2) := FetchAndSave(s1, url2, net);
            && n1 == CandidateName(url1, net.clean)
            && n2 != n1 && n2 !in Names(s1)
            && s2 == s1[n2 := net.fetch(url2).body]
            && s2[n1] == net.fetch(url1).body
  {
    var c := CandidateName(url1, net.clean);
    var s1 := files[c := net.fetch(url1).body];
    assert FetchAndSave(files, url1, net) == (s1, c);
    assert Existing(s1, c) == Some(net.fetch(url1).body);
    var n2 := net.unique(Names(s1), c);
    assert n2 !in Names(s1);
  }

  /** The reuse check looks only at the file under the derived name. When
      that name already holds other bytes, every fetch of the same image
      is saved once more under a new name. */
  lemma RefetchAfterCollision(files: Store, url: string, net: Network)
    requires FreshNames(net)
    requires net.fetch(url).Body? && net.isImage(net.fetch(url).body)
    requires var c := CandidateName(url, net.clean);
             c in files && files[c] != net.fetch(url).body
    ensures var (once, name1) := FetchAndSave(files, url, net);
            var (twice, name2) := FetchAndSave(once, url, net);
            && name1 != name2
            && name1 in twice && name2 in twice
            && twice[name1] == twice[name2] == net.fetch(url).body
  {
    var c := CandidateName(url, net.clean);
    var b := net.fetch(url).body;
    var name1 := net.unique(Names(files), c);
    assert name1 !in Names(files);
    var once := files[name1 := b];
    assert FetchAndSave(files, url, net) == (once, name1);
    assert c != name1 && once[c] == files[c];
    var name2 := net.unique(Names(once), c);
    assert name2 !in Names(once);
    assert FetchAndSave(once, url, net) == (once[name2 := b], name2);
  }

  /** The `images/` directory of the bundle. */
  class ImageDir {
    var files: Store

    constructor ()
      ensures files == map[]
    {
      files := map[];
    }

    /** Fetch `url`, and save its bytes if they are an image; the answer is
        the file name in `images/`, or "" when nothing was saved. */
    method FetchAndSaveUniqueImage(url: string, net: Network) returns (filename: string)
      modifies this
      ensures (files, filename) == FetchAndSave(old(files), url, net)
    {
      var response := net.fetch(url);
      if response.WpError? {
        return "";
      }
      filename := CandidateName(url, net.clean);
      var contents := response.body;
      if !net.isImage(contents) {
        return "";
      }
      var existing := Existing(files, filename);
      if existing.None? {
        files := files[filename := contents];
      } else if existing.value != contents {
        filename := net.unique(Names(files), filename);
        files := files[filename := contents];
      }
    }
  }
}

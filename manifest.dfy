/** The exporter's manifest: a PHP array from file id (`chapter-002`) to an
    entry, whose iteration order is the reading order of the book. The PHP
    operations the exporter applies to it are modelled exactly: assignment
    `$m[$k] = $v`, `array_slice(..., true)`, the array union `+`, and the
    slice-and-union insertion built from them. */
module Manifest {
  import opened Wrappers
  import opened Text

  /** `array('ID' => ..., 'post_title' => ..., 'filename' => ...)`. */
  datatype Entry = Entry(id: int, title: string, filename: string)

  type Manifest = seq<(string, Entry)>

  function Keys(m: Manifest): seq<string> {
    seq(|m|, i requires 0 <= i < |m| => m[i].0)
  }

  function Filenames(m: Manifest): seq<string> {
    seq(|m|, i requires 0 <= i < |m| => m[i].1.filename)
  }

  /** A PHP array never holds the same key twice. */
  predicate UniqueKeys(m: Manifest) {
    forall i, j :: 0 <= i < j < |m| ==> m[i].0 != m[j].0
  }

  /** `array_search($k, $keys)`: the first position of `k`. */
  function IndexOf(ks: seq<string>, k: string): (r: Option<nat>)
    ensures r.Some? ==> r.value < |ks| && ks[r.value] == k
    ensures r.Some? ==> forall j :: 0 <= j < r.value ==> ks[j] != k
    ensures r.None? <==> k !in ks
  {
    if ks == [] then None
    else if ks[0] == k then Some(0)
    else match IndexOf(ks[1..], k)
      case None => None
      case Some(i) => Some(i + 1)
  }

  /** `$m[$k] = $e`: an existing key keeps its place and takes the new
      value; a new key goes to the end. */
  function Put(m: Manifest, k: string, e: Entry): (r: Manifest)
    ensures k !in Keys(m) ==> r == m + [(k, e)]
    ensures k in Keys(m) ==> |r| == |m| && Keys(r) == Keys(m)
    ensures UniqueKeys(m) ==> UniqueKeys(r)
  {
    match IndexOf(Keys(m), k)
    case None =>
      assert forall i :: 0 <= i < |m| ==> Keys(m)[i] == m[i].0;
      m + [(k, e)]
    case Some(i) => m[i := (k, e)]
  }

  /** The assignments of `es`, one after the other. */
  function PutAll(m: Manifest, es: Manifest): Manifest {
    if es == [] then m else Put(PutAll(m, es[..|es| - 1]), es[|es| - 1].0, es[|es| - 1].1)
  }

  /** One more assignment at the end of a run of assignments. */
  lemma PutAllSnoc(m: Manifest, es: Manifest, x: (string, Entry))
    ensures PutAll(m, es + [x]) == Put(PutAll(m, es), x.0, x.1)
  {
    assert (es + [x])[..|es|] == es;
  }

  /** `array_slice($m, $offset, $length, true)` for a non-negative offset;
      a negative length stops that many entries before the end. */
  function Slice(m: Manifest, offset: nat, length: int): (r: Manifest)
    ensures |r| <= |m|
  {
    var lo := if offset <= |m| then offset else |m|;
    var hi := if length >= 0 then (if lo + length <= |m| then lo + length else |m|)
              else (if |m| + length >= lo then |m| + length else lo);
    m[lo..hi]
  }

  /** The array union `$a + $b`: each entry of `b`, in order, is added unless
      its key is already present. */
  function Union(a: Manifest, b: Manifest): Manifest {
    if b == [] then a
    else
      var u := Union(a, b[..|b| - 1]);
      if b[|b| - 1].0 in Keys(u) then u else u + [b[|b| - 1]]
  }

  /** The insertion idiom of the exporter:
      `array_slice($m, 0, $at, true) + array($k => $e) + array_slice($m, $at, count($m) - 1, true)`. */
  function InsertAt(m: Manifest, at: nat, k: string, e: Entry): Manifest {
    Union(Union(Slice(m, 0, at), [(k, e)]), Slice(m, at, |m| - 1))
  }

  // ---------------------------------------------------------------------
  // Lemmas about the PHP operations

  lemma KeysAppend(a: Manifest, b: Manifest)
    ensures Keys(a + b) == Keys(a) + Keys(b)
  {
  }

  lemma KeysSlice(m: Manifest, lo: nat, hi: nat)
    requires lo <= hi <= |m|
    ensures Keys(m[lo..hi]) == Keys(m)[lo..hi]
  {
  }

  /** Union of arrays whose keys do not meet is concatenation. */
  lemma {:induction false} UnionDisjoint(a: Manifest, b: Manifest)
    requires UniqueKeys(b)
    requires forall i :: 0 <= i < |b| ==> b[i].0 !in Keys(a)
    ensures Union(a, b) == a + b
  {
    if b != [] {
      var b' := b[..|b| - 1];
      var x := b[|b| - 1];
      UnionDisjoint(a, b');
      KeysAppend(a, b');
      assert x.0 !in Keys(b') by {
        forall i | 0 <= i < |b'| ensures Keys(b')[i] != x.0 {
          assert b[i].0 != b[|b| - 1].0;
        }
      }
      assert x.0 !in Keys(a + b');
      assert b == b' + [x];
    }
  }

  /** Inserting a new key at a position after the first entry puts it
      there and keeps every other entry, in order. */
  lemma InsertAtMiddle(m: Manifest, at: nat, k: string, e: Entry)
    requires UniqueKeys(m) && k !in Keys(m)
    requires 1 <= at <= |m|
    ensures InsertAt(m, at, k, e) == m[..at] + [(k, e)] + m[at..]
    ensures UniqueKeys(InsertAt(m, at, k, e))
  {
    InsertAtSplices(m, at, k, e);
    SplicedUnique(m, at, k, e);
  }

  /** The slices and unions of `InsertAt` splice the entry in. */
  lemma InsertAtSplices(m: Manifest, at: nat, k: string, e: Entry)
    requires UniqueKeys(m) && k !in Keys(m)
    requires 1 <= at <= |m|
    ensures InsertAt(m, at, k, e) == m[..at] + [(k, e)] + m[at..]
  {
    var left := m[..at] + [(k, e)];
    assert Slice(m, 0, at) == m[..at];
    assert Slice(m, at, |m| - 1) == m[at..];
    assert Union(m[..at], [(k, e)]) == left by {
      assert Union(m[..at], []) == m[..at];
      assert Keys(m[..at]) == Keys(m)[..at];
    }
    forall i | 0 <= i < |m[at..]| ensures m[at..][i].0 !in Keys(left) {
      KeysAppend(m[..at], [(k, e)]);
      assert m[at..][i].0 == Keys(m)[at + i];
      forall j | 0 <= j < at ensures Keys(m)[j] != Keys(m)[at + i] {
        assert m[j].0 != m[at + i].0;
      }
      assert Keys(m)[at + i] != k;
    }
    UnionDisjoint(left, m[at..]);
  }

  /** A new key spliced into a manifest with unique keys keeps them unique. */
  lemma SplicedUnique(m: Manifest, at: nat, k: string, e: Entry)
    requires UniqueKeys(m) && k !in Keys(m)
    requires at <= |m|
    ensures UniqueKeys(m[..at] + [(k, e)] + m[at..])
  {
    var r := m[..at] + [(k, e)] + m[at..];
    forall i, j | 0 <= i < j < |r| ensures r[i].0 != r[j].0 {
      if i < at && j > at {
        assert r[i] == m[i] && r[j] == m[j - 1];
      } else if i > at {
        assert r[i] == m[i - 1] && r[j] == m[j - 1];
      } else if i == at {
        assert r[j] == m[j - 1];
        assert Keys(m)[j - 1] == m[j - 1].0;
      } else if j == at {
        assert r[i] == m[i];
        assert Keys(m)[i] == m[i].0;
      } else {
        assert r[i] == m[i] && r[j] == m[j];
      }
    }
  }

  /** Inserting at position 0 of a non-empty manifest, as written, keeps
      only the first `count - 1` entries after the new one: the last entry
      is dropped. */
  lemma InsertAtFrontDropsLast(m: Manifest, k: string, e: Entry)
    requires UniqueKeys(m) && k !in Keys(m) && |m| >= 1
    ensures InsertAt(m, 0, k, e) == [(k, e)] + m[..|m| - 1]
  {
    assert Slice(m, 0, 0) == [];
    assert Slice(m, 0, |m| - 1) == m[..|m| - 1];
    assert Union([], []) == [];
    assert Union([], [(k, e)]) == [(k, e)];
    var rest := m[..|m| - 1];
    forall i | 0 <= i < |rest| ensures rest[i].0 !in Keys([(k, e)]) {
      assert rest[i].0 == Keys(m)[i];
    }
    UnionDisjoint([(k, e)], rest);
  }

  // ---------------------------------------------------------------------
  // Numbered file ids: `chapter-` . sprintf("%03s", $j)

  function NumberedKey(prefix: string, n: nat): string {
    prefix + Pad3(n)
  }

  /** Two numbered ids under one prefix are equal only for equal ordinals. */
  lemma NumberedKeyInjective(prefix: string, m: nat, n: nat)
    requires NumberedKey(prefix, m) == NumberedKey(prefix, n)
    ensures m == n
  {
    assert NumberedKey(prefix, m)[|prefix|..] == Pad3(m);
    assert NumberedKey(prefix, n)[|prefix|..] == Pad3(n);
    Pad3Injective(m, n);
  }

  /** Ids built on prefixes with different first letters never coincide. */
  lemma NumberedKeyOtherPrefix(p: string, q: string, m: nat, n: nat)
    requires |p| > 0 && |q| > 0 && p[0] != q[0]
    ensures NumberedKey(p, m) != NumberedKey(q, n)
  {
    assert NumberedKey(p, m)[0] == p[0] && NumberedKey(q, n)[0] == q[0];
  }

  /** No id in `m` is `prefix` followed by an ordinal of `c` or more: the
      counter `c` is ahead of every ordinal in use. */
  ghost predicate OrdinalsBelow(m: Manifest, prefix: string, c: nat) {
    forall i, n :: 0 <= i < |m| && c <= n ==> m[i].0 != NumberedKey(prefix, n)
  }

  /** A counter that is ahead of every ordinal in use names a new key. */
  lemma NumberedKeyFresh(m: Manifest, prefix: string, c: nat)
    requires OrdinalsBelow(m, prefix, c)
    ensures NumberedKey(prefix, c) !in Keys(m)
  {
    forall i | 0 <= i < |m| ensures Keys(m)[i] != NumberedKey(prefix, c) {
      assert m[i].0 != NumberedKey(prefix, c);
    }
  }

  /** Appending the id with ordinal `c` moves the counter to `c + 1`. */
  lemma OrdinalsBelowStep(m: Manifest, prefix: string, c: nat, e: Entry)
    requires OrdinalsBelow(m, prefix, c)
    ensures OrdinalsBelow(m + [(NumberedKey(prefix, c), e)], prefix, c + 1)
  {
    var r := m + [(NumberedKey(prefix, c), e)];
    forall i, n | 0 <= i < |r| && c + 1 <= n ensures r[i].0 != NumberedKey(prefix, n) {
      if i < |m| {
        assert r[i] == m[i];
      } else if r[i].0 == NumberedKey(prefix, n) {
        NumberedKeyInjective(prefix, c, n);
      }
    }
  }

  /** Appending an id under another prefix leaves the counter valid. */
  lemma OrdinalsBelowOther(m: Manifest, p: string, k: nat, e: Entry, q: string, c: nat)
    requires |p| > 0 && |q| > 0 && p[0] != q[0]
    requires OrdinalsBelow(m, q, c)
    ensures OrdinalsBelow(m + [(NumberedKey(p, k), e)], q, c)
  {
    var r := m + [(NumberedKey(p, k), e)];
    forall i, n | 0 <= i < |r| && c <= n ensures r[i].0 != NumberedKey(q, n) {
      if i < |m| {
        assert r[i] == m[i];
      } else {
        NumberedKeyOtherPrefix(p, q, k, n);
      }
    }
  }
}

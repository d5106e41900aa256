/** The PHP string primitives the exporter relies on, stated on `seq<char>`:
    truthiness of strings, ASCII `strtolower`, `trim`/`rtrim`, the first and
    last pieces of `explode`, `basename`, `strpos`, `str_replace`, and the
    `sprintf("%03s", $n)` ordinal used in every generated file name. */
module Text {
  import opened Wrappers

  /** PHP's boolean reading of a string: both "" and "0" are false. */
  predicate Truthy(s: string) {
    s != "" && s != "0"
  }

  // ---------------------------------------------------------------------
  // Case folding

  function LowerChar(c: char): char {
    if 'A' <= c <= 'Z' then (c as int + 32) as char else c
  }

  /** `strtolower` on ASCII letters; every other character is kept. */
  function Lower(s: string): (r: string)
    ensures |r| == |s|
    ensures forall i :: 0 <= i < |s| ==> r[i] == LowerChar(s[i])
  {
    if s == [] then [] else [LowerChar(s[0])] + Lower(s[1..])
  }

  // ---------------------------------------------------------------------
  // Prefixes, suffixes and occurrences

  predicate HasPrefix(s: string, p: string) {
    |p| <= |s| && s[..|p|] == p
  }

  predicate HasSuffix(s: string, p: string) {
    |p| <= |s| && s[|s| - |p|..] == p
  }

  predicate OccursAt(s: string, pat: string, i: nat) {
    i + |pat| <= |s| && s[i..i + |pat|] == pat
  }

  /** `strpos($s, $pat, $from)`: the first occurrence at or after `from`. */
  function FindFrom(s: string, pat: string, from: nat): (r: Option<nat>)
    ensures r.Some? ==> from <= r.value && OccursAt(s, pat, r.value)
    ensures r.Some? ==> forall j :: from <= j < r.value ==> !OccursAt(s, pat, j)
    ensures r.None? ==> forall j :: from <= j ==> !OccursAt(s, pat, j)
    decreases |s| - from
  {
    if from + |pat| > |s| then None
    else if s[from..from + |pat|] == pat then Some(from)
    else FindFrom(s, pat, from + 1)
  }

  function Find(s: string, pat: string): Option<nat> {
    FindFrom(s, pat, 0)
  }

  // ---------------------------------------------------------------------
  // trim / rtrim

  /** The characters PHP's `trim` removes by default. */
  predicate IsBlank(c: char) {
    c == ' ' || c == '\t' || c == '\n' || c == '\r' || c == '\0' || c as int == 11
  }

  function TrimStart(s: string): (r: string)
    ensures HasSuffix(s, r)
    ensures r == [] || !IsBlank(r[0])
    ensures forall i :: 0 <= i < |s| - |r| ==> IsBlank(s[i])
  {
    if s != [] && IsBlank(s[0]) then TrimStart(s[1..]) else s
  }

  /** `rtrim($s, $c)` for a single character `c`. */
  function TrimEndChar(s: string, c: char): (r: string)
    ensures HasPrefix(s, r)
    ensures r == [] || r[|r| - 1] != c
    ensures forall i :: |r| <= i < |s| ==> s[i] == c
  {
    if s != [] && s[|s| - 1] == c then TrimEndChar(s[..|s| - 1], c) else s
  }

  function TrimEnd(s: string): (r: string)
    ensures HasPrefix(s, r)
    ensures r == [] || !IsBlank(r[|r| - 1])
    ensures forall i :: |r| <= i < |s| ==> IsBlank(s[i])
  {
    if s != [] && IsBlank(s[|s| - 1]) then TrimEnd(s[..|s| - 1]) else s
  }

  /** PHP `trim`. */
  function Trim(s: string): string {
    TrimEnd(TrimStart(s))
  }

  // ---------------------------------------------------------------------
  // explode: the first piece (`$parts[0]`) and the last piece (`end($parts)`)

  /** The text before the first `c` of `s`, or all of `s`. */
  function FirstPiece(s: string, c: char): (r: string)
    ensures HasPrefix(s, r) && c !in r
  {
    if s == [] || s[0] == c then [] else [s[0]] + FirstPiece(s[1..], c)
  }

  /** The text after the last `c` of `s`, or all of `s`. */
  function LastPiece(s: string, c: char): (r: string)
    ensures HasSuffix(s, r) && c !in r
  {
    if s == [] || s[|s| - 1] == c then [] else LastPiece(s[..|s| - 1], c) + [s[|s| - 1]]
  }

  /** The piece after the last separator is what follows it. */
  lemma {:induction false} LastPieceAfter(a: string, c: char, b: string)
    requires c !in b
    ensures LastPiece(a + [c] + b, c) == b
  {
    if b == [] {
    } else {
      var b' := b[..|b| - 1];
      assert (a + [c] + b)[..|a + [c] + b| - 1] == a + [c] + b';
      LastPieceAfter(a, c, b');
    }
  }

  /** The piece before the first separator is what precedes it. */
  lemma {:induction false} FirstPieceBefore(a: string, c: char, b: string)
    requires c !in a
    ensures FirstPiece(a + [c] + b, c) == a
  {
    if a != [] {
      assert (a + [c] + b)[1..] == a[1..] + [c] + b;
      FirstPieceBefore(a[1..], c, b);
    }
  }

  /** PHP `basename` for '/'-separated paths: trailing slashes are dropped,
      then the last component is taken. */
  function Basename(path: string): (r: string)
    ensures '/' !in r
  {
    LastPiece(TrimEndChar(path, '/'), '/')
  }

  // ---------------------------------------------------------------------
  // str_replace

  /** PHP `str_replace($pat, $rep, $s)`: every non-overlapping occurrence,
      scanning left to right; an empty search string leaves `s` alone. */
  function ReplaceAll(s: string, pat: string, rep: string): string
    decreases |s|
  {
    if pat == [] || |s| < |pat| then s
    else if s[..|pat|] == pat then rep + ReplaceAll(s[|pat|..], pat, rep)
    else [s[0]] + ReplaceAll(s[1..], pat, rep)
  }

  /** A string that does not contain the search text is returned unchanged. */
  lemma {:induction false} ReplaceAbsent(s: string, pat: string, rep: string)
    requires Find(s, pat).None?
    ensures ReplaceAll(s, pat, rep) == s
  {
    NoOccurrenceUnchanged(s, pat, rep);
  }

  lemma {:induction false} NoOccurrenceUnchanged(s: string, pat: string, rep: string)
    requires forall j :: 0 <= j ==> !OccursAt(s, pat, j)
    ensures ReplaceAll(s, pat, rep) == s
    decreases |s|
  {
    if pat == [] || |s| < |pat| {
    } else {
      assert !OccursAt(s, pat, 0);
      forall j | 0 <= j
        ensures !OccursAt(s[1..], pat, j)
      {
        assert !OccursAt(s, pat, j + 1);
        if j + |pat| <= |s[1..]| {
          assert s[1..][j..j + |pat|] == s[j + 1..j + 1 + |pat|];
        }
      }
      NoOccurrenceUnchanged(s[1..], pat, rep);
      assert s == [s[0]] + s[1..];
    }
  }

  // ---------------------------------------------------------------------
  // Decimal ordinals: sprintf("%03s", $n)

  predicate IsDigit(c: char) {
    '0' <= c <= '9'
  }

  predicate AllDigits(s: string) {
    forall i :: 0 <= i < |s| ==> IsDigit(s[i])
  }

  function DigitChar(d: nat): (c: char)
    requires d < 10
    ensures IsDigit(c)
  {
    ('0' as int + d) as char
  }

  function DigitValue(c: char): nat
    requires IsDigit(c)
  {
    c as int - '0' as int
  }

  /** The decimal form of `n`, without leading zeros. */
  function NatToString(n: nat): (r: string)
    ensures |r| >= 1 && IsDigit(r[|r| - 1])
  {
    if n < 10 then [DigitChar(n)] else NatToString(n / 10) + [DigitChar(n % 10)]
  }

  /** `d` left-padded with '0' to `width` characters; a longer `d` is
      kept whole. */
  function PadLeft(d: string, width: nat): (r: string)
    ensures |r| >= width && |r| >= |d|
    ensures d != [] ==> r[|r| - 1] == d[|d| - 1]
    decreases width - |d|
  {
    if |d| >= width then d else PadLeft(['0'] + d, width)
  }

  /** `sprintf("%03s", $n)`: the decimal form left-padded with '0' to three
      characters; wider numbers are not truncated. */
  function Pad3(n: nat): (r: string)
    ensures |r| >= 3 && IsDigit(r[|r| - 1])
  {
    PadLeft(NatToString(n), 3)
  }

  /** The value of a string of decimal digits, read left to right. */
  function Parse(s: string): nat
    requires AllDigits(s)
  {
    if s == [] then 0 else Parse(s[..|s| - 1]) * 10 + DigitValue(s[|s| - 1])
  }

  lemma {:induction false} NatToStringDigits(n: nat)
    ensures AllDigits(NatToString(n))
  {
    if n >= 10 {
      NatToStringDigits(n / 10);
    }
  }

  lemma {:induction false} ParseNatToString(n: nat)
    ensures AllDigits(NatToString(n)) && Parse(NatToString(n)) == n
  {
    NatToStringDigits(n);
    if n >= 10 {
      var d := NatToString(n);
      assert d[..|d| - 1] == NatToString(n / 10);
      ParseNatToString(n / 10);
    }
  }

  /** A leading zero does not change the value. */
  lemma {:induction false} ParseLeadingZero(s: string)
    requires AllDigits(s)
    ensures AllDigits(['0'] + s) && Parse(['0'] + s) == Parse(s)
  {
    var z := ['0'] + s;
    if s != [] {
      assert z[..|z| - 1] == ['0'] + s[..|s| - 1];
      ParseLeadingZero(s[..|s| - 1]);
    } else {
      assert z[..|z| - 1] == [];
    }
  }

  /** Padding with zeros does not change the value. */
  lemma {:induction false} ParsePadLeft(d: string, width: nat)
    requires AllDigits(d)
    ensures AllDigits(PadLeft(d, width)) && Parse(PadLeft(d, width)) == Parse(d)
    decreases width - |d|
  {
    if |d| < width {
      ParseLeadingZero(d);
      ParsePadLeft(['0'] + d, width);
    }
  }

  /** The padded ordinal reads back as the number it was made from. */
  lemma Pad3RoundTrip(n: nat)
    ensures AllDigits(Pad3(n)) && Parse(Pad3(n)) == n
  {
    ParseNatToString(n);
    ParsePadLeft(NatToString(n), 3);
  }

  /** Distinct ordinals give distinct padded forms, so file ids never clash. */
  lemma Pad3Injective(m: nat, n: nat)
    requires Pad3(m) == Pad3(n)
    ensures m == n
  {
    Pad3RoundTrip(m);
    Pad3RoundTrip(n);
  }
}

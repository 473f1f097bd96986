/** The filename sanitiser of the downloader's helper module: keep letters,
    digits and the four characters space, `.`, `_`, `-`, then strip trailing
    whitespace. */
module Filenames {
  import opened Text

  /** The characters `sanitize_filename` keeps. */
  predicate IsKept(c: char) {
    IsAlnum(c) || c in {' ', '.', '_', '-'}
  }

  /** `a` can be obtained from `b` by deleting characters. */
  predicate IsSubsequence(a: string, b: string)
    decreases |b|
  {
    a == [] || (|b| > 0 && ((a[0] == b[0] && IsSubsequence(a[1..], b[1..])) || IsSubsequence(a, b[1..])))
  }

  /** The generator inside `"".join(...)`: the kept characters, in order. */
  function Keep(s: string): (r: string)
    ensures |r| <= |s|
    ensures forall i :: 0 <= i < |r| ==> IsKept(r[i])
  {
    if s == [] then []
    else if IsKept(s[0]) then [s[0]] + Keep(s[1..])
    else Keep(s[1..])
  }

  /** `sanitize_filename` */
  function Sanitize(filename: string): (r: string)
    ensures forall i :: 0 <= i < |r| ==> IsKept(r[i])
    ensures r == [] || r[|r| - 1] != ' '
    ensures '/' !in r && '\\' !in r
  {
    var r := RStrip(Keep(filename));
    assert forall i :: 0 <= i < |r| ==> r[i] == Keep(filename)[i];
    assert forall c :: c in r ==> IsKept(c);
    r
  }

  /** Every kept character occurs as often in the filter's output as in its
      input, and nothing else occurs at all. */
  lemma {:induction false} KeepCounts(s: string, c: char)
    ensures IsKept(c) ==> Count(Keep(s), c) == Count(s, c)
    ensures !IsKept(c) ==> Count(Keep(s), c) == 0
  {
    if s != [] {
      KeepCounts(s[1..], c);
      if IsKept(s[0]) {
        assert ([s[0]] + Keep(s[1..]))[1..] == Keep(s[1..]);
      }
    }
  }

  /** The filter keeps the input's order. */
  lemma {:induction false} KeepIsSubsequence(s: string)
    ensures IsSubsequence(Keep(s), s)
  {
    if s != [] {
      KeepIsSubsequence(s[1..]);
      if IsKept(s[0]) {
        assert ([s[0]] + Keep(s[1..]))[1..] == Keep(s[1..]);
      }
    }
  }

  /** Dropping the end of a subsequence leaves a subsequence. */
  lemma {:induction false} PrefixOfSubsequence(a: string, b: string, n: nat)
    requires n <= |a| && IsSubsequence(a, b)
    ensures IsSubsequence(a[..n], b)
    decreases |b|
  {
    if n > 0 {
      if a[0] == b[0] && IsSubsequence(a[1..], b[1..]) {
        PrefixOfSubsequence(a[1..], b[1..], n - 1);
        assert a[1..][..n - 1] == a[..n][1..];
      } else {
        PrefixOfSubsequence(a, b[1..], n);
      }
    }
  }

  /** A subsequence is never longer than the sequence it comes from. */
  lemma {:induction false} SubsequenceLength(a: string, b: string)
    requires IsSubsequence(a, b)
    ensures |a| <= |b|
    decreases |b|
  {
    if a != [] {
      if a[0] == b[0] && IsSubsequence(a[1..], b[1..]) {
        SubsequenceLength(a[1..], b[1..]);
      } else {
        SubsequenceLength(a, b[1..]);
      }
    }
  }

  /** The sanitised name is an order-preserving selection of the input's
      characters; what the filter kept and the strip removed is whitespace. */
  lemma SanitizeIsSubsequence(filename: string)
    ensures IsSubsequence(Sanitize(filename), filename)
    ensures |Sanitize(filename)| <= |filename|
    ensures forall i :: |Sanitize(filename)| <= i < |Keep(filename)| ==> Keep(filename)[i] == ' '
  {
    var k := Keep(filename);
    KeepIsSubsequence(filename);
    PrefixOfSubsequence(k, filename, |RStrip(k)|);
    SubsequenceLength(Sanitize(filename), filename);
    forall i | |Sanitize(filename)| <= i < |k|
      ensures k[i] == ' '
    {
      assert IsSpace(k[i]) && IsKept(k[i]);
    }
  }

  /** A name made of kept characters that does not end in whitespace passes
      through unchanged. */
  lemma {:induction false} CleanUnchanged(filename: string)
    requires forall i :: 0 <= i < |filename| ==> IsKept(filename[i])
    requires filename == [] || filename[|filename| - 1] != ' '
    ensures Sanitize(filename) == filename
  {
    KeepAll(filename);
    if filename != [] {
      assert IsKept(filename[|filename| - 1]);
    }
  }

  lemma {:induction false} KeepAll(s: string)
    requires forall i :: 0 <= i < |s| ==> IsKept(s[i])
    ensures Keep(s) == s
  {
    if s != [] {
      KeepAll(s[1..]);
    }
  }

  /** Sanitising twice is the same as sanitising once. */
  lemma SanitizeIdempotent(filename: string)
    ensures Sanitize(Sanitize(filename)) == Sanitize(filename)
  {
    CleanUnchanged(Sanitize(filename));
  }
}

/** Python string operations used throughout the bot, stated over `string`
    (a sequence of Unicode scalar values, which is what Python's `str` is).
    Case mapping covers ASCII letters only; whitespace follows `str.isspace`. */
module Text {

  datatype Option<+T> = None | Some(value: T) {
    function GetOr(default: T): T {
      match this
      case Some(v) => v
      case None => default
    }
  }

  /** A failure-compatible result: `Err` carries the text of a Python exception. */
  datatype Result<+T> = Ok(value: T) | Err(error: string) {
    predicate IsFailure() { Err? }
    /** Total, so that a `:-` whose failure branch cannot be taken leaves
        nothing to check in that branch. */
    function PropagateFailure<U>(): Result<U> {
      match this
      case Err(e) => Err(e)
      case Ok(_) => Err("")
    }
    function Extract(): T
      requires Ok?
    {
      value
    }
  }

  // ---------------------------------------------------------------------------
  // Characters

  predicate IsAsciiUpper(c: char) { 'A' <= c <= 'Z' }
  predicate IsAsciiLower(c: char) { 'a' <= c <= 'z' }
  predicate IsAsciiLetter(c: char) { IsAsciiUpper(c) || IsAsciiLower(c) }
  predicate IsDigit(c: char) { '0' <= c <= '9' }
  predicate IsAlnum(c: char) { IsAsciiLetter(c) || IsDigit(c) }

  /** The regular-expression class `\w` over ASCII. */
  predicate IsWordChar(c: char) { IsAlnum(c) || c == '_' }

  /** Python's `str.isspace`: the characters of bidirectional class WS, B or S
      and of category Zs. */
  predicate IsSpace(c: char) {
    || c == ' ' || c == '\t' || c == '\n' || c == '\r'
    || c == '\U{000B}' || c == '\U{000C}'
    || ('\U{001C}' <= c <= '\U{001F}')
    || c == '\U{0085}' || c == '\U{00A0}' || c == '\U{1680}'
    || ('\U{2000}' <= c <= '\U{200A}')
    || c == '\U{2028}' || c == '\U{2029}' || c == '\U{202F}' || c == '\U{205F}' || c == '\U{3000}'
  }

  function LowerChar(c: char): (r: char)
    ensures !IsAsciiUpper(r)
    ensures IsAsciiUpper(c) ==> IsAsciiLower(r) && r as int == c as int + 32
    ensures !IsAsciiUpper(c) ==> r == c
  {
    if IsAsciiUpper(c) then (c as int + 32) as char else c
  }

  /** `s.lower()` restricted to ASCII letters. */
  function Lower(s: string): (r: string)
    ensures |r| == |s|
    ensures forall i :: 0 <= i < |s| ==> r[i] == LowerChar(s[i])
  {
    if s == [] then [] else [LowerChar(s[0])] + Lower(s[1..])
  }

  lemma LowerHasNoUpper(s: string)
    ensures forall i :: 0 <= i < |s| ==> !IsAsciiUpper(Lower(s)[i])
  {
  }

  lemma LowerIdempotent(s: string)
    ensures Lower(Lower(s)) == Lower(s)
  {
    var a, b := Lower(s), Lower(Lower(s));
    assert forall i :: 0 <= i < |a| ==> b[i] == a[i];
  }

  /** Text with no upper-case ASCII letter is its own lower-case form. */
  lemma LowerUnchanged(s: string)
    requires forall i :: 0 <= i < |s| ==> !IsAsciiUpper(s[i])
    ensures Lower(s) == s
  {
    assert forall i :: 0 <= i < |s| ==> Lower(s)[i] == s[i];
  }

  // ---------------------------------------------------------------------------
  // Prefixes, suffixes and substrings

  predicate StartsWith(s: string, p: string) {
    |p| <= |s| && s[..|p|] == p
  }

  predicate EndsWith(s: string, p: string) {
    |p| <= |s| && s[|s| - |p|..] == p
  }

  /** Python's `sub in s`. */
  predicate Contains(s: string, sub: string)
    decreases |s|
  {
    StartsWith(s, sub) || (|s| > 0 && Contains(s[1..], sub))
  }

  /** `sub` occurs in `s` starting at position `i`. */
  predicate OccursAt(s: string, sub: string, i: nat) {
    i + |sub| <= |s| && s[i..i + |sub|] == sub
  }

  /** `Contains` holds exactly when `sub` occurs at some position of `s`. */
  lemma {:induction false} ContainsAt(s: string, sub: string)
    ensures Contains(s, sub) <==> exists i: nat :: OccursAt(s, sub, i)
    decreases |s|
  {
    if StartsWith(s, sub) {
      assert OccursAt(s, sub, 0);
    } else if |s| > 0 {
      ContainsAt(s[1..], sub);
      if Contains(s[1..], sub) {
        var i: nat :| OccursAt(s[1..], sub, i);
        assert OccursAt(s, sub, i + 1);
      }
      if exists i: nat :: OccursAt(s, sub, i) {
        var i: nat :| OccursAt(s, sub, i);
        assert i != 0;
        assert OccursAt(s[1..], sub, i - 1);
      }
    }
  }

  /** What a suffix contains, the whole string contains. */
  lemma {:induction false} ContainsInSuffix(s: string, k: nat, sub: string)
    requires k <= |s|
    requires Contains(s[k..], sub)
    ensures Contains(s, sub)
    decreases k
  {
    if k > 0 {
      assert s[1..][k - 1..] == s[k..];
      ContainsInSuffix(s[1..], k - 1, sub);
    }
  }

  /** What the end of a string contains, the whole string contains. */
  lemma ContainsInEnd(s: string, t: string, sub: string)
    requires EndsWith(s, t) && Contains(t, sub)
    ensures Contains(s, sub)
  {
    ContainsInSuffix(s, |s| - |t|, sub);
  }

  /** `a` occurs inside `p + a + q`. */
  lemma ContainsInfix(p: string, a: string, q: string)
    ensures Contains(p + a + q, a)
  {
    var s := p + a + q;
    assert OccursAt(s, a, |p|);
    ContainsAt(s, a);
  }

  /** A string that contains a character-free pattern's first character nowhere
      cannot contain the pattern. */
  lemma NotContainsByChar(s: string, sub: string)
    requires |sub| > 0
    requires sub[0] !in s
    ensures !Contains(s, sub)
  {
    forall i: nat
      ensures !OccursAt(s, sub, i)
    {
      if i < |s| {
        assert s[i] in s;
      }
    }
    ContainsAt(s, sub);
  }

  /** Python's `any(x in s for x in xs)`. */
  predicate ContainsAny(s: string, xs: seq<string>) {
    exists i :: 0 <= i < |xs| && Contains(s, xs[i])
  }

  // ---------------------------------------------------------------------------
  // Searching

  /** `s.find(c)`: the first position of `c`, if any. */
  function IndexOf(s: string, c: char): (r: Option<nat>)
    ensures r.None? <==> c !in s
    ensures r.Some? ==> r.value < |s| && s[r.value] == c && c !in s[..r.value]
  {
    if s == [] then None
    else if s[0] == c then Some(0)
    else match IndexOf(s[1..], c)
      case None => None
      case Some(k) => assert s[..k + 1] == [s[0]] + s[1..][..k]; Some(k + 1)
  }

  /** `s.rfind(c)`: the last position of `c`, if any. */
  function LastIndexOf(s: string, c: char): (r: Option<nat>)
    ensures r.None? <==> c !in s
    ensures r.Some? ==> r.value < |s| && s[r.value] == c && c !in s[r.value + 1..]
  {
    if s == [] then None
    else if s[|s| - 1] == c then Some(|s| - 1)
    else match LastIndexOf(s[..|s| - 1], c)
      case None => None
      case Some(k) => assert s[k + 1..] == s[..|s| - 1][k + 1..] + [s[|s| - 1]]; Some(k)
  }

  /** The first position at which any character of `cs` occurs, or `|s|`. */
  function FirstOfAny(s: string, cs: set<char>): (r: nat)
    ensures r <= |s|
    ensures r < |s| ==> s[r] in cs
    ensures forall i :: 0 <= i < r ==> s[i] !in cs
  {
    if s == [] then 0
    else if s[0] in cs then 0
    else 1 + FirstOfAny(s[1..], cs)
  }

  /** The first occurrence of `c` is where `c` occurs with none before it. */
  lemma IndexOfIs(s: string, c: char, k: nat)
    requires k < |s| && s[k] == c && c !in s[..k]
    ensures IndexOf(s, c) == Some(k)
  {
    var r := IndexOf(s, c);
    assert s[k] in s;
    assert forall j :: 0 <= j < k ==> s[..k][j] == s[j];
    assert forall j :: 0 <= j < r.value ==> s[..r.value][j] == s[j];
  }

  lemma LastIndexOfIs(s: string, c: char, k: nat)
    requires k < |s| && s[k] == c && c !in s[k + 1..]
    ensures LastIndexOf(s, c) == Some(k)
  {
    var r := LastIndexOf(s, c);
    assert s[k] in s;
    assert forall j :: k < j < |s| ==> s[k + 1..][j - k - 1] == s[j];
    assert forall j :: r.value < j < |s| ==> s[r.value + 1..][j - r.value - 1] == s[j];
  }

  lemma FirstOfAnyIs(s: string, cs: set<char>, k: nat)
    requires k <= |s| && (k < |s| ==> s[k] in cs)
    requires forall i :: 0 <= i < k ==> s[i] !in cs
    ensures FirstOfAny(s, cs) == k
  {
  }

  // ---------------------------------------------------------------------------
  // Stripping

  /** `s.lstrip()` */
  function LStrip(s: string): (r: string)
    ensures |r| <= |s| && r == s[|s| - |r|..]
    ensures forall i :: 0 <= i < |s| - |r| ==> IsSpace(s[i])
    ensures r == [] || !IsSpace(r[0])
  {
    if s != [] && IsSpace(s[0]) then
      var r := LStrip(s[1..]);
      assert forall i :: 1 <= i < |s| - |r| ==> s[i] == s[1..][i - 1];
      r
    else s
  }

  /** `s.rstrip()` */
  function RStrip(s: string): (r: string)
    ensures |r| <= |s| && r == s[..|r|]
    ensures forall i :: |r| <= i < |s| ==> IsSpace(s[i])
    ensures r == [] || !IsSpace(r[|r| - 1])
  {
    if s != [] && IsSpace(s[|s| - 1]) then RStrip(s[..|s| - 1]) else s
  }

  /** `s.strip()` */
  function Strip(s: string): (r: string)
    ensures r == [] || (!IsSpace(r[0]) && !IsSpace(r[|r| - 1]))
    ensures exists a, b :: 0 <= a <= b <= |s| && r == s[a..b]
  {
    var l := LStrip(s);
    var r := RStrip(l);
    assert r == s[|s| - |l|..|s| - |l| + |r|];
    r
  }

  /** `s.rstrip(c)` for one character `c`. */
  function RStripChar(s: string, c: char): (r: string)
    ensures |r| <= |s| && r == s[..|r|]
    ensures forall i :: |r| <= i < |s| ==> s[i] == c
    ensures r == [] || r[|r| - 1] != c
  {
    if s != [] && s[|s| - 1] == c then RStripChar(s[..|s| - 1], c) else s
  }

  /** `s.lstrip(c)` for one character `c`. */
  function LStripChar(s: string, c: char): (r: string)
    ensures |r| <= |s| && r == s[|s| - |r|..]
    ensures forall i :: 0 <= i < |s| - |r| ==> s[i] == c
    ensures r == [] || r[0] != c
  {
    if s != [] && s[0] == c then LStripChar(s[1..], c) else s
  }

  /** `s.strip(c)` for one character `c`. */
  function StripChar(s: string, c: char): (r: string)
    ensures r == [] || (r[0] != c && r[|r| - 1] != c)
  {
    RStripChar(LStripChar(s, c), c)
  }

  // ---------------------------------------------------------------------------
  // Splitting and joining

  /** `s.split(c)` for a one-character separator. */
  function Split(s: string, c: char): (parts: seq<string>)
    ensures |parts| >= 1
    ensures forall i :: 0 <= i < |parts| ==> c !in parts[i]
    decreases |s|
  {
    match IndexOf(s, c)
    case None => [s]
    case Some(k) => [s[..k]] + Split(s[k + 1..], c)
  }

  /** `sep.join(parts)` */
  function Join(parts: seq<string>, sep: string): string {
    if parts == [] then []
    else if |parts| == 1 then parts[0]
    else parts[0] + sep + Join(parts[1..], sep)
  }

  /** Splitting and joining back with the same separator is the identity. */
  lemma {:induction false} JoinSplit(s: string, c: char)
    ensures Join(Split(s, c), [c]) == s
    decreases |s|
  {
    match IndexOf(s, c)
    case None =>
    case Some(k) =>
      var rest := Split(s[k + 1..], c);
      JoinSplit(s[k + 1..], c);
      assert Split(s, c) == [s[..k]] + rest;
      assert Join([s[..k]] + rest, [c]) == s[..k] + [c] + Join(rest, [c]);
      assert s == s[..k] + [c] + s[k + 1..];
  }

  /** Joining the parts from `k` on gives an end of the joined whole. */
  lemma {:induction false} JoinEndsWith(parts: seq<string>, sep: string, k: nat)
    requires k < |parts|
    ensures EndsWith(Join(parts, sep), Join(parts[k..], sep))
    decreases k
  {
    if k > 0 {
      JoinEndsWith(parts[1..], sep, k - 1);
      assert parts[1..][k - 1..] == parts[k..];
      var whole, tail := Join(parts, sep), Join(parts[1..], sep);
      assert whole == parts[0] + sep + tail;
      assert whole[|whole| - |tail|..] == tail;
    }
  }

  /** `p` ends `s`, holds no `c`, and follows a `c` unless it is all of `s`. */
  predicate LastPiece(s: string, p: string, c: char) {
    EndsWith(s, p) && c !in p && (|p| < |s| ==> s[|s| - |p| - 1] == c)
  }

  /** What follows the last `c` in `s`, or all of `s` when it holds none. */
  function LastPart(s: string, c: char): (p: string)
    decreases |s|
  {
    match IndexOf(s, c)
    case None => s
    case Some(k) => LastPart(s[k + 1..], c)
  }

  /** The end after the last separator is a last piece. */
  lemma {:induction false} LastPartIsLastPiece(s: string, c: char)
    ensures LastPiece(s, LastPart(s, c), c)
    decreases |s|
  {
    match IndexOf(s, c)
    case None =>
      assert s[0..] == s;
    case Some(k) =>
      LastPartIsLastPiece(s[k + 1..], c);
      EndAfter(s, k, LastPart(s[k + 1..], c), c);
  }

  /** The last part of a split is the end after the last separator. */
  lemma {:induction false} SplitLastPart(s: string, c: char)
    ensures Split(s, c)[|Split(s, c)| - 1] == LastPart(s, c)
    decreases |s|
  {
    match IndexOf(s, c)
    case None =>
      SplitWithout(s, c);
    case Some(k) =>
      SplitLastPart(s[k + 1..], c);
      SplitLastPartStep(s, c, k);
  }

  /** The inductive step of `SplitLastPart`. */
  lemma SplitLastPartStep(s: string, c: char, k: nat)
    requires IndexOf(s, c) == Some(k)
    requires Split(s[k + 1..], c)[|Split(s[k + 1..], c)| - 1] == LastPart(s[k + 1..], c)
    ensures Split(s, c)[|Split(s, c)| - 1] == LastPart(s, c)
  {
    assert LastPart(s, c) == LastPart(s[k + 1..], c);
    SplitLastAfter(s, c, k);
  }

  /** The last part of a split is the end of the string after its last
      separator, or the whole string when there is none. */
  lemma SplitLast(s: string, c: char)
    ensures LastPiece(s, Split(s, c)[|Split(s, c)| - 1], c)
  {
    SplitLastPart(s, c);
    LastPartIsLastPiece(s, c);
  }

  /** The last part of a split is the last part of the split after the
      first separator. */
  lemma SplitLastAfter(s: string, c: char, k: nat)
    requires IndexOf(s, c) == Some(k)
    ensures k < |s| && s[k] == c
    ensures Split(s, c)[|Split(s, c)| - 1] == Split(s[k + 1..], c)[|Split(s[k + 1..], c)| - 1]
  {
    var rest := Split(s[k + 1..], c);
    assert Split(s, c) == [s[..k]] + rest;
    LastOfCons(s[..k], rest);
  }

  lemma LastOfAppend<T>(r: seq<T>, x: T)
    ensures (r + [x])[|r + [x]| - 1] == x
  {
  }

  lemma LastOfCons<T>(x: T, r: seq<T>)
    requires |r| > 0
    ensures ([x] + r)[|[x] + r| - 1] == r[|r| - 1]
  {
  }

  /** An end of the string after a separator at `k` is an end of the
      whole string, preceded by a separator. */
  lemma EndAfter(s: string, k: nat, p: string, c: char)
    requires k < |s| && s[k] == c
    requires LastPiece(s[k + 1..], p, c)
    ensures LastPiece(s, p, c)
  {
    var t := s[k + 1..];
    var i := |s| - |p|;
    assert i == k + 1 + (|t| - |p|);
    forall j | 0 <= j < |p|
      ensures s[i + j] == p[j]
    {
      assert t[|t| - |p| + j] == p[j];
    }
    assert s[i..] == p;
    if |p| < |t| {
      assert s[i - 1] == t[|t| - |p| - 1];
    }
  }

  /** Splitting at a separator between two strings splits each of them. */
  lemma {:induction false} SplitAround(a: string, b: string, c: char)
    ensures Split(a + [c] + b, c) == Split(a, c) + Split(b, c)
    decreases |a|
  {
    if c !in a {
      SplitCons(a, b, c);
      SplitWithout(a, c);
    } else {
      var k := IndexOf(a, c).value;
      var a0, a1 := a[..k], a[k + 1..];
      assert a == a0 + [c] + a1;
      SplitAround(a1, b, c);
      SplitAroundStep(a0, a1, b, c);
    }
  }

  /** The inductive step of `SplitAround`: a first part without the
      separator is split off both sides alike. */
  lemma {:induction false} SplitAroundStep(a0: string, a1: string, b: string, c: char)
    requires c !in a0
    requires Split(a1 + [c] + b, c) == Split(a1, c) + Split(b, c)
    ensures Split(a0 + [c] + a1 + [c] + b, c) == Split(a0 + [c] + a1, c) + Split(b, c)
  {
    var tail := a1 + [c] + b;
    var p1, pb := Split(a1, c), Split(b, c);
    assert Split(a0 + [c] + a1 + [c] + b, c) == [a0] + (p1 + pb) by {
      assert a0 + [c] + a1 + [c] + b == a0 + [c] + tail;
      SplitCons(a0, tail, c);
    }
    assert Split(a0 + [c] + a1, c) == [a0] + p1 by {
      SplitCons(a0, a1, c);
    }
    AppendAssoc([a0], p1, pb);
  }

  lemma AppendAssoc<T>(x: seq<T>, y: seq<T>, z: seq<T>)
    ensures x + (y + z) == (x + y) + z
  {
  }

  /** A string without the separator splits into itself alone. */
  lemma SplitWithout(s: string, c: char)
    requires c !in s
    ensures Split(s, c) == [s]
  {
  }

  /** The parts of `a + [c] + b` when `a` holds no `c`. */
  lemma SplitCons(a: string, b: string, c: char)
    requires c !in a
    ensures Split(a + [c] + b, c) == [a] + Split(b, c)
  {
    var s := a + [c] + b;
    assert s[..|a|] == a;
    assert c !in s[..|a|];
    assert s[|a|] == c;
    assert s[|a| + 1..] == b;
  }

  /** Joining parts that contain no separator and splitting again returns the parts. */
  lemma {:induction false} SplitJoin(parts: seq<string>, c: char)
    requires |parts| >= 1
    requires forall i :: 0 <= i < |parts| ==> c !in parts[i]
    ensures Split(Join(parts, [c]), c) == parts
    decreases |parts|
  {
    if |parts| == 1 {
      SplitWithout(parts[0], c);
    } else {
      SplitJoin(parts[1..], c);
      SplitCons(parts[0], Join(parts[1..], [c]), c);
      assert parts[0] + [c] + Join(parts[1..], [c]) == Join(parts, [c]);
      assert parts == [parts[0]] + parts[1..];
    }
  }

  /** `s.split(c)` has one more part than `s` has separators. */
  function Count(s: string, c: char): nat {
    if s == [] then 0 else (if s[0] == c then 1 else 0) + Count(s[1..], c)
  }

  lemma {:induction false} SplitLength(s: string, c: char)
    ensures |Split(s, c)| == Count(s, c) + 1
    decreases |s|
  {
    match IndexOf(s, c)
    case None =>
      CountAbsent(s, c);
    case Some(k) =>
      SplitLength(s[k + 1..], c);
      CountAbsent(s[..k], c);
      CountAppend(s[..k], [c] + s[k + 1..], c);
      CountAppend([c], s[k + 1..], c);
      assert s == s[..k] + ([c] + s[k + 1..]);
  }

  lemma CountAbsent(s: string, c: char)
    requires c !in s
    ensures Count(s, c) == 0
  {
    if s != [] {
      CountAbsent(s[1..], c);
    }
  }

  lemma {:induction false} CountAppend(a: string, b: string, c: char)
    ensures Count(a + b, c) == Count(a, c) + Count(b, c)
    decreases |a|
  {
    if a != [] {
      var s := a + b;
      assert s[0] == a[0];
      assert s[1..] == a[1..] + b;
      CountAppend(a[1..], b, c);
      assert Count(s, c) == (if a[0] == c then 1 else 0) + Count(a[1..] + b, c);
    } else {
      assert a + b == b;
    }
  }

  // ---------------------------------------------------------------------------
  // Replacing and filtering

  /** `s.replace(pat, rep)`: leftmost, non-overlapping occurrences, one pass. */
  function Replace(s: string, pat: string, rep: string): (r: string)
    requires |pat| > 0
    ensures !Contains(s, pat) ==> r == s
    ensures |rep| <= |pat| ==> |r| <= |s|
    decreases |s|
  {
    if |s| < |pat| then s
    else if s[..|pat|] == pat then rep + Replace(s[|pat|..], pat, rep)
    else [s[0]] + Replace(s[1..], pat, rep)
  }

  /** Positions before which `pat` cannot start leave the front untouched. */
  lemma {:induction false} ReplaceSkip(a: string, b: string, pat: string, rep: string)
    requires |pat| > 0
    requires forall i: nat :: i < |a| ==> !OccursAt(a + b, pat, i)
    ensures Replace(a + b, pat, rep) == a + Replace(b, pat, rep)
    decreases |a|
  {
    if a != [] {
      var s := a + b;
      assert !OccursAt(s, pat, 0);
      assert s[1..] == a[1..] + b;
      NoOccurrenceShifts(a, b, pat);
      if |s| < |pat| {
        assert Replace(s, pat, rep) == s;
        assert Replace(b, pat, rep) == b;
      } else {
        assert s[..|pat|] != pat by { assert s[..|pat|] == s[0..0 + |pat|]; }
        ReplaceSkip(a[1..], b, pat, rep);
        assert Replace(s, pat, rep) == [s[0]] + Replace(s[1..], pat, rep);
        AppendAssoc([s[0]], a[1..], Replace(b, pat, rep));
        assert [s[0]] + a[1..] == a;
      }
    } else {
      assert a + b == b;
    }
  }

  lemma NoOccurrenceShifts(a: string, b: string, pat: string)
    requires a != [] && forall i: nat :: i < |a| ==> !OccursAt(a + b, pat, i)
    ensures forall i: nat :: i < |a[1..]| ==> !OccursAt(a[1..] + b, pat, i)
  {
    var s := a + b;
    forall i: nat | i < |a[1..]|
      ensures !OccursAt(a[1..] + b, pat, i)
    {
      assert !OccursAt(s, pat, i + 1);
      if i + |pat| <= |a[1..] + b| {
        assert (a[1..] + b)[i..i + |pat|] == s[i + 1..i + 1 + |pat|];
      }
    }
  }

  /** An occurrence at the front is replaced and the rest follows. */
  lemma ReplaceAtFront(b: string, pat: string, rep: string)
    requires |pat| > 0
    ensures Replace(pat + b, pat, rep) == rep + Replace(b, pat, rep)
  {
    assert (pat + b)[..|pat|] == pat;
    assert (pat + b)[|pat|..] == b;
  }

  /** When `a` does not contain `pat` and its last `|pat| - 1` characters
      cannot start it, no occurrence of `pat` in `a + b` starts inside `a`. */
  lemma NoOccurrenceBefore(a: string, b: string, pat: string)
    requires |pat| > 0 && !Contains(a, pat)
    requires forall i :: |a| - |pat| < i < |a| && 0 <= i ==> a[i] != pat[0]
    ensures forall i: nat :: i < |a| ==> !OccursAt(a + b, pat, i)
  {
    ContainsAt(a, pat);
    forall i: nat | i < |a|
      ensures !OccursAt(a + b, pat, i)
    {
      if i + |pat| <= |a| {
        assert (a + b)[i..i + |pat|] == a[i..i + |pat|];
        assert !OccursAt(a, pat, i);
      } else {
        assert (a + b)[i] == a[i];
      }
    }
  }

  /** Neither part contains `pat`, and none straddles the seam. */
  lemma NotContainsConcat(a: string, b: string, pat: string)
    requires |pat| > 0 && !Contains(a, pat) && !Contains(b, pat)
    requires forall i :: |a| - |pat| < i < |a| && 0 <= i ==> a[i] != pat[0]
    ensures !Contains(a + b, pat)
  {
    NoOccurrenceBefore(a, b, pat);
    ContainsAt(b, pat);
    forall i: nat
      ensures !OccursAt(a + b, pat, i)
    {
      if i >= |a| && i + |pat| <= |a + b| {
        assert (a + b)[i..i + |pat|] == b[i - |a|..i - |a| + |pat|];
        assert !OccursAt(b, pat, i - |a|);
      }
    }
    ContainsAt(a + b, pat);
  }

  /** `s.removesuffix(suf)` */
  function RemoveSuffix(s: string, suf: string): (r: string)
    ensures |suf| > 0 && EndsWith(s, suf) ==> r + suf == s
    ensures !(|suf| > 0 && EndsWith(s, suf)) ==> r == s
  {
    if |suf| > 0 && EndsWith(s, suf) then s[..|s| - |suf|] else s
  }

  /** The characters of `s` that are not in `bad`, in order. */
  function Without(s: string, bad: set<char>): (r: string)
    ensures |r| <= |s|
    ensures forall i :: 0 <= i < |r| ==> r[i] !in bad && r[i] in s
  {
    if s == [] then []
    else if s[0] in bad then Without(s[1..], bad)
    else [s[0]] + Without(s[1..], bad)
  }

  /** Removing a one-character pattern drops exactly that character. */
  lemma {:induction false} ReplaceCharIsWithout(s: string, c: char)
    ensures Replace(s, [c], []) == Without(s, {c})
    decreases |s|
  {
    if s != [] {
      ReplaceCharIsWithout(s[1..], c);
      assert s[1..] == s[|[c]|..];
    }
  }

  lemma {:induction false} WithoutTwice(s: string, a: set<char>, b: set<char>)
    ensures Without(Without(s, a), b) == Without(s, a + b)
    decreases |s|
  {
    if s != [] {
      WithoutTwice(s[1..], a, b);
    }
  }

  lemma {:induction false} WithoutNothingToDrop(s: string, bad: set<char>)
    requires forall i :: 0 <= i < |s| ==> s[i] !in bad
    ensures Without(s, bad) == s
    decreases |s|
  {
    if s != [] {
      WithoutNothingToDrop(s[1..], bad);
    }
  }

  // ---------------------------------------------------------------------------
  // Decimal numerals

  function DigitChar(d: nat): (c: char)
    requires d < 10
    ensures IsDigit(c) && c as int - '0' as int == d
  {
    ('0' as int + d) as char
  }

  function DigitValue(c: char): (d: nat)
    requires IsDigit(c)
    ensures d < 10 && DigitChar(d) == c
  {
    c as int - '0' as int
  }

  predicate AllDigits(s: string) {
    forall i :: 0 <= i < |s| ==> IsDigit(s[i])
  }

  /** `str(n)` for a natural number. */
  function Decimal(n: nat): (r: string)
    ensures |r| >= 1 && AllDigits(r)
    ensures |r| > 1 ==> r[0] != '0'
  {
    if n < 10 then [DigitChar(n)] else Decimal(n / 10) + [DigitChar(n % 10)]
  }

  /** `int(s)` for a string of digits. */
  function ParseDecimal(s: string): nat
    requires AllDigits(s)
  {
    if s == [] then 0 else 10 * ParseDecimal(s[..|s| - 1]) + DigitValue(s[|s| - 1])
  }

  /** Reading a numeral back gives the number it was written from. */
  lemma {:induction false} DecimalRoundTrip(n: nat)
    ensures ParseDecimal(Decimal(n)) == n
  {
    if n >= 10 {
      DecimalRoundTrip(n / 10);
      var s := Decimal(n);
      assert s[..|s| - 1] == Decimal(n / 10);
    }
  }

  /** `str(i)` for any integer. */
  function IntToString(i: int): (r: string)
    ensures i >= 0 ==> r == Decimal(i)
    ensures i < 0 ==> r == "-" + Decimal(-i)
  {
    if i < 0 then "-" + Decimal(-i) else Decimal(i)
  }

  /** `f"{n:02d}"` for a natural number. */
  function Pad2(n: nat): (r: string)
    ensures |r| >= 2 && AllDigits(r)
    ensures ParseDecimal(r) == n
  {
    DecimalRoundTrip(n);
    if n < 10 then
      var r := "0" + Decimal(n);
      assert r[..|r| - 1] == "0";
      r
    else Decimal(n)
  }
}

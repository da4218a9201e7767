/** The string operations the core relies on, written out: Python's
    `str.startswith`, `str.find`, `str.split(sep)`, `str(int)` and the
    case folding behind a case-insensitive `icontains` lookup. */
module Text {
  import opened Prelude

  predicate StartsWith(s: string, prefix: string) {
    |prefix| <= |s| && s[..|prefix|] == prefix
  }

  /** `sep` occurs in `s` starting at index `i`. */
  predicate OccursAt(s: string, sep: string, i: int) {
    0 <= i && i + |sep| <= |s| && s[i..i + |sep|] == sep
  }

  lemma {:induction false} ShiftOccurs(s: string, sep: string)
    requires |s| > 0
    ensures forall j :: 1 <= j ==> (OccursAt(s, sep, j) <==> OccursAt(s[1..], sep, j - 1))
  {
    forall j | 1 <= j ensures OccursAt(s, sep, j) <==> OccursAt(s[1..], sep, j - 1) {
      if j + |sep| <= |s| {
        assert s[1..][j - 1..j - 1 + |sep|] == s[j..j + |sep|];
      }
    }
  }

  /** The leftmost occurrence of `sep` in `s`, if any. */
  function Find(s: string, sep: string): (r: Option<nat>)
    ensures r.Some? ==> OccursAt(s, sep, r.value)
    ensures r.Some? ==> forall j :: 0 <= j < r.value ==> !OccursAt(s, sep, j)
    ensures r.None? ==> forall j :: !OccursAt(s, sep, j)
    decreases |s|
  {
    if |s| < |sep| then None
    else if s[..|sep|] == sep then Some(0)
    else
      ShiftOccurs(s, sep);
      match Find(s[1..], sep)
      case None => None
      case Some(k) => Some(k + 1)
  }

  predicate Contains(s: string, sep: string) {
    Find(s, sep).Some?
  }

  /** Python's `s.split(sep)` for a non-empty separator: the pieces between
      the non-overlapping occurrences of `sep`, scanning left to right. */
  function Split(s: string, sep: string): (r: seq<string>)
    requires |sep| > 0
    ensures |r| >= 1
    decreases |s|
  {
    var f := Find(s, sep);
    if f.None? then [s] else [s[..f.value]] + Split(s[f.value + |sep|..], sep)
  }

  /** Splitting at the leftmost occurrence `i`: the piece before it, then
      the split of the text after it. */
  lemma {:induction false} SplitAt(s: string, sep: string, i: nat)
    requires |sep| > 0 && Find(s, sep) == Some(i)
    ensures i + |sep| <= |s|
    ensures Split(s, sep) == [s[..i]] + Split(s[i + |sep|..], sep)
  {}

  /** An occurrence in a prefix of `s` is an occurrence in `s`. */
  lemma {:induction false} PrefixOccurs(s: string, sep: string, n: nat, j: int)
    requires n <= |s| && OccursAt(s[..n], sep, j)
    ensures j + |sep| <= n && OccursAt(s, sep, j)
  {
    assert s[..n][j..j + |sep|] == s[j..j + |sep|];
  }

  /** No piece of a split contains the separator. */
  lemma {:induction false} SplitPiecesFree(s: string, sep: string)
    requires |sep| > 0
    ensures forall k :: 0 <= k < |Split(s, sep)| ==> !Contains(Split(s, sep)[k], sep)
    decreases |s|
  {
    match Find(s, sep)
    case None =>
    case Some(i) =>
      var rest := s[i + |sep|..];
      SplitPiecesFree(rest, sep);
      var head := s[..i];
      if Contains(head, sep) {
        PrefixOccurs(s, sep, i, Find(head, sep).value);
        assert false;
      }
      var parts := Split(s, sep);
      forall k | 0 <= k < |parts| ensures !Contains(parts[k], sep) {
        if k > 0 {
          assert parts[k] == Split(rest, sep)[k - 1];
        }
      }
  }

  /** `sep` occurs at exactly one position of `s`. */
  ghost predicate OccursOnce(s: string, sep: string) {
    exists i :: OccursAt(s, sep, i) && forall j :: OccursAt(s, sep, j) ==> j == i
  }

  /** No proper suffix of `sep` is also a prefix of it, so two occurrences
      of `sep` can never overlap. */
  predicate NoSelfOverlap(sep: string) {
    forall k :: 0 < k < |sep| ==> sep[k..] != sep[..|sep| - k]
  }

  /** Two occurrences of `sep` closer than its length make a proper suffix
      of `sep` equal to a prefix of it. */
  lemma {:induction false} OverlapMatches(s: string, sep: string, i: int, j: int)
    requires OccursAt(s, sep, i) && OccursAt(s, sep, j) && i < j
    ensures j < i + |sep| ==> sep[j - i..] == sep[..|sep| - (j - i)]
  {
    var L := |sep|;
    if j < i + L {
      var d := j - i;
      assert sep[d..] == s[j..i + L] by {
        assert s[i..i + L][d..] == s[j..i + L];
      }
      assert sep[..L - d] == s[j..i + L] by {
        assert s[j..j + L][..L - d] == s[j..i + L];
      }
    }
  }

  /** Two occurrences of a separator that cannot overlap itself are at
      least a separator's length apart. */
  lemma {:induction false} OccurrencesApart(s: string, sep: string, i: int, j: int)
    requires NoSelfOverlap(sep) && OccursAt(s, sep, i) && OccursAt(s, sep, j) && i < j
    ensures i + |sep| <= j
  {
    OverlapMatches(s, sep, i, j);
  }

  /** Occurrences in the text after position `m` are occurrences in `s`
      shifted by `m`. */
  lemma {:induction false} OccursInSuffix(s: string, sep: string, m: nat, j: nat)
    requires m <= |s|
    ensures OccursAt(s[m..], sep, j) <==> OccursAt(s, sep, m + j)
  {
    if 0 <= j && j + |sep| <= |s| - m {
      assert s[m..][j..j + |sep|] == s[m + j..m + j + |sep|];
    }
  }

  /** An occurrence starts with the separator's first character. */
  lemma {:induction false} OccurrenceStartsWith(s: string, sep: string, j: int)
    requires |sep| > 0 && OccursAt(s, sep, j)
    ensures s[j] == sep[0]
  {
    assert s[j..j + |sep|][0] == s[j];
  }

  /** A one-character separator occurs exactly where that character is. */
  lemma {:induction false} OneCharOccurs(s: string, c: char, k: int)
    requires 0 <= k < |s|
    ensures OccursAt(s, [c], k) <==> s[k] == c
  {
    assert s[k..k + 1] == [s[k]];
  }

  /** An occurrence with none before it is the one `Find` returns. */
  lemma {:induction false} FindIsLeftmost(s: string, sep: string, i: nat)
    requires OccursAt(s, sep, i) && forall j :: 0 <= j < i ==> !OccursAt(s, sep, j)
    ensures Find(s, sep) == Some(i)
  {
    if Find(s, sep).Some? && Find(s, sep).value > i {
      assert false;
    }
  }

  /** A split into one piece leaves `s` whole: `sep` does not occur. */
  lemma {:induction false} SinglePieceIsWhole(s: string, sep: string)
    requires |sep| > 0
    ensures |Split(s, sep)| == 1 <==> !Contains(s, sep)
    ensures |Split(s, sep)| == 1 ==> Last(Split(s, sep)) == s
  {
    match Find(s, sep)
    case None =>
    case Some(i) =>
      SplitAt(s, sep, i);
  }

  /** The leftmost occurrence `i` is the only one when the text after it
      holds no `sep`. */
  lemma {:induction false} OnlyOccurrence(s: string, sep: string, i: nat)
    requires |sep| > 0 && NoSelfOverlap(sep) && Find(s, sep) == Some(i)
    requires i + |sep| <= |s| && !Contains(s[i + |sep|..], sep)
    ensures forall j :: OccursAt(s, sep, j) ==> j == i
  {
    forall j | OccursAt(s, sep, j) ensures j == i {
      if j < i {
        assert false;
      } else if j > i {
        OccurrencesApart(s, sep, i, j);
        OccursInSuffix(s, sep, i + |sep|, j - i - |sep|);
        assert false;
      }
    }
  }

  /** An occurrence in the text after the occurrence at `i` is a later
      occurrence in `s`. */
  lemma {:induction false} LaterOccurrence(s: string, sep: string, i: nat, k: nat)
    requires |sep| > 0 && i + |sep| <= |s| && OccursAt(s[i + |sep|..], sep, k)
    ensures OccursAt(s, sep, i + |sep| + k) && i < i + |sep| + k
  {
    OccursInSuffix(s, sep, i + |sep|, k);
  }

  /** A separator that occurs at exactly one position splits `s` in two. */
  lemma {:induction false} OnceSplitsInTwo(s: string, sep: string, i0: int)
    requires |sep| > 0 && OccursAt(s, sep, i0)
    requires forall j :: OccursAt(s, sep, j) ==> j == i0
    ensures |Split(s, sep)| == 2
  {
    assert Find(s, sep).Some?;
    var i := Find(s, sep).value;
    var rest := s[i + |sep|..];
    SplitAt(s, sep, i);
    assert i == i0;
    if Contains(rest, sep) {
      LaterOccurrence(s, sep, i, Find(rest, sep).value);
      assert false;
    }
    SinglePieceIsWhole(rest, sep);
  }

  /** Unpacking `a, b = s.split(sep)` succeeds exactly when `sep` occurs
      once in `s` (for a separator whose occurrences cannot overlap). */
  lemma {:induction false} SplitInTwo(s: string, sep: string)
    requires |sep| > 0 && NoSelfOverlap(sep)
    ensures |Split(s, sep)| == 2 <==> OccursOnce(s, sep)
  {
    SinglePieceIsWhole(s, sep);
    if |Split(s, sep)| == 2 {
      var i := Find(s, sep).value;
      var rest := s[i + |sep|..];
      SplitAt(s, sep, i);
      SinglePieceIsWhole(rest, sep);
      OnlyOccurrence(s, sep, i);
      assert OccursAt(s, sep, i);
    }
    if OccursOnce(s, sep) {
      var i0 :| OccursAt(s, sep, i0) && forall j :: OccursAt(s, sep, j) ==> j == i0;
      OnceSplitsInTwo(s, sep, i0);
    }
  }

  /** Python's `parts[-1]`. */
  function Last(parts: seq<string>): string
    requires |parts| >= 1
  {
    parts[|parts| - 1]
  }

  lemma {:induction false} LastOfCons(head: string, tail: seq<string>)
    requires |tail| >= 1
    ensures Last([head] + tail) == Last(tail)
  {}

  lemma {:induction false} SuffixOfSuffix(s: string, m: nat, n: nat)
    requires m <= |s| && n <= |s| - m
    ensures s[m..][|s| - m - n..] == s[|s| - n..]
  {}

  /** The last piece of `s.split(sep)` is a suffix of `s`. */
  lemma {:induction false} LastPieceIsSuffix(s: string, sep: string)
    requires |sep| > 0
    ensures |Last(Split(s, sep))| <= |s|
    ensures s[|s| - |Last(Split(s, sep))|..] == Last(Split(s, sep))
    decreases |s|
  {
    match Find(s, sep)
    case None =>
    case Some(i) =>
      var m := i + |sep|;
      var rest := s[m..];
      SplitAt(s, sep, i);
      LastPieceIsSuffix(rest, sep);
      var tail := Split(rest, sep);
      LastOfCons(s[..i], tail);
      SuffixOfSuffix(s, m, |Last(tail)|);
  }

  /** The last piece of a split at the character `c` is all of `s`, or
      starts right after an occurrence of `c`. */
  lemma {:induction false} LastPieceFollowsSeparator(s: string, c: char)
    ensures |Last(Split(s, [c]))| <= |s|
    ensures |Last(Split(s, [c]))| == |s| || s[|s| - |Last(Split(s, [c]))| - 1] == c
    decreases |s|
  {
    var f := Find(s, [c]);
    if f.Some? {
      var i := f.value;
      var rest := s[i + 1..];
      OneCharOccurs(s, c, i);
      SplitAt(s, [c], i);
      LastPieceFollowsSeparator(rest, c);
      var tail := Split(rest, [c]);
      LastOfCons(s[..i], tail);
      var n := |Last(tail)|;
      if n < |rest| {
        assert rest[|rest| - n - 1] == s[|s| - n - 1];
      }
    } else {
      assert Split(s, [c]) == [s];
    }
  }

  function DigitChar(d: nat): char
    requires d < 10
  {
    (48 + d) as char
  }

  function DigitValue(c: char): nat
    requires '0' <= c <= '9'
  {
    c as int - 48
  }

  predicate AllDigits(s: string) {
    forall k :: 0 <= k < |s| ==> '0' <= s[k] <= '9'
  }

  /** Python's `str(n)` for a non-negative integer. */
  function NatToString(n: nat): (r: string)
    ensures |r| >= 1 && AllDigits(r)
    decreases n
  {
    if n < 10 then [DigitChar(n)] else NatToString(n / 10) + [DigitChar(n % 10)]
  }

  /** Python's `str(i)` for any integer. */
  function IntToString(i: int): string {
    if i < 0 then "-" + NatToString(-i) else NatToString(i)
  }

  /** Reads a string of decimal digits back as a number. */
  function ParseDecimal(s: string): nat
    requires AllDigits(s)
    decreases |s|
  {
    if s == [] then 0 else 10 * ParseDecimal(s[..|s| - 1]) + DigitValue(s[|s| - 1])
  }

  /** The decimal rendering of a number reads back as that number, so
      different numbers render differently. */
  lemma {:induction false} ParseRendered(n: nat)
    ensures ParseDecimal(NatToString(n)) == n
    decreases n
  {
    var r := NatToString(n);
    if n >= 10 {
      ParseRendered(n / 10);
      assert r[..|r| - 1] == NatToString(n / 10);
    }
  }

  lemma {:induction false} RenderingInjective(a: nat, b: nat)
    requires NatToString(a) == NatToString(b)
    ensures a == b
  {
    ParseRendered(a);
    ParseRendered(b);
  }

  function LowerChar(c: char): char {
    if 'A' <= c <= 'Z' then (c as int + 32) as char else c
  }

  function Lower(s: string): string {
    seq(|s|, k requires 0 <= k < |s| => LowerChar(s[k]))
  }

  /** Django's `icontains`: `query` occurs in `s`, ignoring letter case. */
  predicate ContainsIgnoringCase(s: string, query: string) {
    Contains(Lower(s), Lower(query))
  }

  lemma {:induction false} LowerIdempotent(s: string)
    ensures Lower(Lower(s)) == Lower(s)
  {
    var once := Lower(s);
    forall k | 0 <= k < |s| ensures Lower(once)[k] == once[k] {
      assert LowerChar(LowerChar(s[k])) == LowerChar(s[k]);
    }
  }

  /** Changing the letter case of the query or of the searched text does not
      change the outcome of a case-insensitive search. */
  lemma {:induction false} IgnoresCase(s: string, query: string)
    ensures ContainsIgnoringCase(Lower(s), query) == ContainsIgnoringCase(s, query)
    ensures ContainsIgnoringCase(s, Lower(query)) == ContainsIgnoringCase(s, query)
  {
    LowerIdempotent(s);
    LowerIdempotent(query);
  }

  /** The whitespace `str.strip()` removes, restricted to ASCII: space, tab,
      line feed, vertical tab, form feed, carriage return, and the four
      separators U+001C to U+001F. */
  predicate IsSpace(c: char) {
    c == ' ' || c == '\t' || c == '\n' || c == '\r' || c == '\U{B}' || c == '\U{C}'
    || ('\U{1C}' <= c <= '\U{1F}')
  }

  function TrimStart(s: string): (r: string)
    ensures |r| <= |s| && r == s[|s| - |r|..]
    ensures r != [] ==> !IsSpace(r[0])
    decreases |s|
  {
    if s != [] && IsSpace(s[0]) then TrimStart(s[1..]) else s
  }

  function TrimEnd(s: string): (r: string)
    ensures |r| <= |s| && r == s[..|r|]
    ensures r != [] ==> !IsSpace(r[|r| - 1])
    decreases |s|
  {
    if s != [] && IsSpace(s[|s| - 1]) then TrimEnd(s[..|s| - 1]) else s
  }

  /** Every character is whitespace (the empty text included). */
  ghost predicate AllSpace(s: string) {
    forall k :: 0 <= k < |s| ==> IsSpace(s[k])
  }

  lemma {:induction false} TrimStartEmpty(s: string)
    ensures TrimStart(s) == [] <==> AllSpace(s)
    decreases |s|
  {
    if s != [] {
      TrimStartEmpty(s[1..]);
      assert AllSpace(s) <==> IsSpace(s[0]) && AllSpace(s[1..]) by {
        forall k | 0 <= k < |s[1..]| ensures s[1..][k] == s[k + 1] {}
      }
    }
  }

  lemma {:induction false} TrimEndEmpty(s: string)
    ensures TrimEnd(s) == [] <==> AllSpace(s)
    decreases |s|
  {
    if s != [] {
      var init := s[..|s| - 1];
      TrimEndEmpty(init);
      assert AllSpace(s) <==> IsSpace(s[|s| - 1]) && AllSpace(init) by {
        forall k | 0 <= k < |init| ensures init[k] == s[k] {}
      }
    }
  }

  /** `strip()` leaves nothing exactly when the text is all whitespace. */
  lemma StripEmptyIffAllSpace(s: string)
    ensures Strip(s) == [] <==> AllSpace(s)
  {
    var t := TrimStart(s);
    TrimStartEmpty(s);
    TrimEndEmpty(t);
  }

  /** Python's `str.strip()`: the text without leading or trailing
      whitespace. */
  function Strip(s: string): (r: string)
    ensures |r| <= |s|
    ensures r != [] ==> !IsSpace(r[0]) && !IsSpace(r[|r| - 1])
  {
    TrimEnd(TrimStart(s))
  }
}

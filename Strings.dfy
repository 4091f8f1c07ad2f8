/** String operations of the JavaScript standard library that the site
    generator relies on, stated over `seq<char>`: first-occurrence search,
    `String.prototype.replace` with a string pattern, global replacement,
    `split`/`join`, `trim`, ASCII lower-casing and decimal numbers. */
module Strings {

  /** `pat` occurs in `s` starting at index `i`. */
  predicate OccursAt(s: string, pat: string, i: int) {
    0 <= i && i + |pat| <= |s| && s[i..i + |pat|] == pat
  }

  lemma OccursAtTail(s: string, pat: string, j: int)
    requires |s| > 0 && 0 <= j
    ensures OccursAt(s[1..], pat, j) <==> OccursAt(s, pat, j + 1)
  {
    if 0 <= j && j + |pat| <= |s| - 1 {
      assert s[1..][j..j + |pat|] == s[j + 1..j + 1 + |pat|];
    }
  }

  /** `s.indexOf(pat)`: the first index at which `pat` occurs, or -1. */
  function IndexOf(s: string, pat: string): (r: int)
    ensures -1 <= r <= |s|
    ensures r >= 0 ==> OccursAt(s, pat, r)
    ensures r >= 0 ==> forall j :: 0 <= j < r ==> !OccursAt(s, pat, j)
    ensures r == -1 ==> forall j :: !OccursAt(s, pat, j)
    decreases |s|
  {
    if |s| < |pat| then
      -1
    else if pat <= s then
      assert s[0..|pat|] == pat;
      assert OccursAt(s, pat, 0);
      0
    else
      var k := IndexOf(s[1..], pat);
      assert !OccursAt(s, pat, 0);
      forall j | 0 <= j ensures OccursAt(s[1..], pat, j) <==> OccursAt(s, pat, j + 1) {
        OccursAtTail(s, pat, j);
      }
      assert forall j :: OccursAt(s, pat, j) ==> j == 0 || OccursAt(s[1..], pat, j - 1);
      if k < 0 then -1 else k + 1
  }

  /** `s.match(pat) !== null` for a pattern without special characters. */
  predicate Contains(s: string, pat: string) {
    IndexOf(s, pat) >= 0
  }

  lemma ContainsAt(s: string, pat: string, i: int)
    requires OccursAt(s, pat, i)
    ensures Contains(s, pat)
  {
  }

  /** A pattern whose first character does not appear in `s` does not occur in it. */
  lemma {:induction false} NotContainsFirstChar(s: string, pat: string)
    requires |pat| > 0 && pat[0] !in s
    ensures !Contains(s, pat)
  {
    forall j | 0 <= j && j + |pat| <= |s| ensures !OccursAt(s, pat, j) {
      assert s[j..j + |pat|][0] == s[j];
    }
  }

  /** A pattern containing a character that `s` lacks does not occur in it. */
  lemma NotContainsChar(s: string, pat: string, k: nat)
    requires k < |pat| && pat[k] !in s
    ensures !Contains(s, pat)
  {
    forall j | 0 <= j && j + |pat| <= |s| ensures !OccursAt(s, pat, j) {
      assert s[j..j + |pat|][k] == s[j + k];
    }
  }

  /** An occurrence in a prefix or a suffix is an occurrence in the whole. */
  lemma ContainsInConcat(a: string, b: string, pat: string)
    ensures Contains(a, pat) ==> Contains(a + b, pat)
    ensures Contains(b, pat) ==> Contains(a + b, pat)
  {
    if Contains(a, pat) {
      OccursInLeft(a, b, pat, IndexOf(a, pat));
    }
    if Contains(b, pat) {
      OccursInRight(a, b, pat, IndexOf(b, pat));
    }
  }

  lemma OccursInLeft(a: string, b: string, pat: string, i: int)
    requires OccursAt(a, pat, i)
    ensures OccursAt(a + b, pat, i)
  {
    assert (a + b)[i..i + |pat|] == a[i..i + |pat|];
  }

  lemma OccursInRight(a: string, b: string, pat: string, i: int)
    requires OccursAt(b, pat, i)
    ensures OccursAt(a + b, pat, |a| + i)
  {
    assert (a + b)[|a| + i..|a| + i + |pat|] == b[i..i + |pat|];
  }

  /** When the first character of `pat` is absent from `a`, the first
      occurrence of `pat` in `a + b` lies in `b`. */
  lemma IndexOfAfter(a: string, b: string, pat: string)
    requires |pat| > 0 && pat[0] !in a
    ensures IndexOf(a + b, pat) == (if IndexOf(b, pat) < 0 then -1 else |a| + IndexOf(b, pat))
  {
    var r := IndexOf(a + b, pat);
    var k := IndexOf(b, pat);
    NoneInPrefix(a, b, pat);
    if k >= 0 {
      ShiftOccurs(a, b, pat, |a| + k);
      ShiftOccurs(a, b, pat, r);
    } else {
      forall j | |a| <= j ensures !OccursAt(a + b, pat, j) {
        ShiftOccurs(a, b, pat, j);
      }
    }
  }

  /** No occurrence of `pat` in `a + b` starts inside `a` when `a` lacks
      the first character of `pat`. */
  lemma NoneInPrefix(a: string, b: string, pat: string)
    requires |pat| > 0 && pat[0] !in a
    ensures forall j :: 0 <= j < |a| ==> !OccursAt(a + b, pat, j)
  {
    forall j | 0 <= j < |a| && j + |pat| <= |a + b| ensures !OccursAt(a + b, pat, j) {
      assert (a + b)[j..j + |pat|][0] == a[j];
    }
  }

  /** An occurrence past `a` in `a + b` is an occurrence in `b`, and back. */
  lemma ShiftOccurs(a: string, b: string, pat: string, j: int)
    requires |a| <= j
    ensures OccursAt(a + b, pat, j) <==> OccursAt(b, pat, j - |a|)
  {
    if j + |pat| <= |a + b| {
      assert (a + b)[j..j + |pat|] == b[j - |a|..j - |a| + |pat|];
    }
  }

  /** Concatenation regrouped, for proofs that cut strings at several points. */
  lemma AppendAssoc<T>(a: seq<T>, b: seq<T>, c: seq<T>)
    ensures a + b + c == a + (b + c)
  {
  }

  /** A non-empty sequence is its head before its tail. */
  lemma ConsThen<T>(a: seq<T>, v: seq<T>)
    requires |a| > 0
    ensures [a[0]] + (a[1..] + v) == a + v
  {
    assert [a[0]] + a[1..] == a;
  }

  /** `s.replace(pat, rep)` with a string pattern: only the first occurrence
      is replaced; an absent pattern leaves `s` as it is. ('$' sequences in
      `rep` are not interpreted.) */
  function ReplaceFirst(s: string, pat: string, rep: string): string {
    var i := IndexOf(s, pat);
    if i < 0 then s else s[..i] + rep + s[i + |pat|..]
  }

  /** Replacing a token that follows a stretch free of its first character. */
  lemma ReplaceFirstAt(a: string, pat: string, c: string, rep: string)
    requires |pat| > 0 && pat[0] !in a
    ensures ReplaceFirst(a + pat + c, pat, rep) == a + rep + c
  {
    var s := a + pat + c;
    assert s == a + (pat + c);
    IndexOfAfter(a, pat + c, pat);
    assert (pat + c)[0..|pat|] == pat;
    assert IndexOf(pat + c, pat) == 0;
    assert s[..|a|] == a;
    assert s[|a| + |pat|..] == c;
  }

  /** `s.replace(/pat/g, rep)` for a literal, non-empty pattern: occurrences
      are replaced left to right without overlapping. */
  function ReplaceAll(s: string, pat: string, rep: string): (r: string)
    requires |pat| > 0
    decreases |s|
  {
    if |s| < |pat| then s
    else if pat <= s then rep + ReplaceAll(s[|pat|..], pat, rep)
    else [s[0]] + ReplaceAll(s[1..], pat, rep)
  }

  /** Global replacement leaves text without the pattern unchanged. */
  lemma {:induction false} ReplaceAllAbsent(s: string, pat: string, rep: string)
    requires |pat| > 0 && !Contains(s, pat)
    ensures ReplaceAll(s, pat, rep) == s
    decreases |s|
  {
    if |s| >= |pat| {
      assert !OccursAt(s, pat, 0);
      assert s[0..|pat|] == s[..|pat|];
      forall j | 0 <= j ensures !OccursAt(s[1..], pat, j) {
        OccursAtTail(s, pat, j);
      }
      ReplaceAllAbsent(s[1..], pat, rep);
    }
  }

  /** `s.replace(/c/g, d)` for a single character. */
  function ReplaceChar(s: string, c: char, d: char): (r: string)
    ensures |r| == |s|
    ensures forall i :: 0 <= i < |s| ==> r[i] == (if s[i] == c then d else s[i])
  {
    seq(|s|, i requires 0 <= i < |s| => if s[i] == c then d else s[i])
  }

  lemma ReplaceCharConcat(a: string, b: string, c: char, d: char)
    ensures ReplaceChar(a + b, c, d) == ReplaceChar(a, c, d) + ReplaceChar(b, c, d)
  {
  }

  lemma ReplaceCharAbsent(s: string, c: char, d: char)
    requires c !in s
    ensures ReplaceChar(s, c, d) == s
  {
  }

  /** `s.split(sep)` for a non-empty separator: the pieces between the
      occurrences of `sep`, in order, empty pieces included. */
  function Split(s: string, sep: string): (parts: seq<string>)
    requires |sep| > 0
    ensures |parts| >= 1
    decreases |s|
  {
    var i := IndexOf(s, sep);
    if i < 0 then [s] else [s[..i]] + Split(s[i + |sep|..], sep)
  }

  /** No piece contains the separator. */
  lemma {:induction false} SplitPiecesFree(s: string, sep: string)
    requires |sep| > 0
    ensures forall k :: 0 <= k < |Split(s, sep)| ==> !Contains(Split(s, sep)[k], sep)
    decreases |s|
  {
    var i := IndexOf(s, sep);
    if i >= 0 {
      var head := s[..i];
      forall j | 0 <= j && j + |sep| <= |head| ensures !OccursAt(head, sep, j) {
        assert j < i && !OccursAt(s, sep, j);
        assert head[j..j + |sep|] == s[j..j + |sep|];
      }
      SplitPiecesFree(s[i + |sep|..], sep);
      SplitStep(s, sep, i);
    }
  }

  /** `parts.join(sep)`. */
  function Join(parts: seq<string>, sep: string): string {
    if |parts| == 0 then ""
    else if |parts| == 1 then parts[0]
    else parts[0] + sep + Join(parts[1..], sep)
  }

  /** Splitting and joining again with the same separator gives back the text. */
  lemma {:induction false} JoinSplit(s: string, sep: string)
    requires |sep| > 0
    ensures Join(Split(s, sep), sep) == s
    decreases |s|
  {
    var i := IndexOf(s, sep);
    if i >= 0 {
      var rest := s[i + |sep|..];
      JoinSplit(rest, sep);
      var tail := Split(rest, sep);
      SplitStep(s, sep, i);
      JoinCons(s[..i], tail, sep);
      Reassemble(s, sep, i);
    }
  }

  /** The first piece, then the pieces after the first separator. */
  lemma SplitStep(s: string, sep: string, i: int)
    requires |sep| > 0 && i == IndexOf(s, sep) && i >= 0
    ensures Split(s, sep) == [s[..i]] + Split(s[i + |sep|..], sep)
  {
  }

  lemma JoinCons(head: string, tail: seq<string>, sep: string)
    requires |tail| >= 1
    ensures Join([head] + tail, sep) == head + sep + Join(tail, sep)
  {
    assert ([head] + tail)[1..] == tail;
  }

  /** The text around an occurrence of `sep`, put back together. */
  lemma Reassemble(s: string, sep: string, i: int)
    requires OccursAt(s, sep, i)
    ensures s == s[..i] + sep + s[i + |sep|..]
  {
    assert s[i..i + |sep|] == sep;
  }

  /** Joining pieces that do not contain the one-character separator and
      splitting again gives back the pieces. */
  lemma {:induction false} SplitJoin(parts: seq<string>, c: char)
    requires |parts| >= 1 && forall k :: 0 <= k < |parts| ==> c !in parts[k]
    ensures Split(Join(parts, [c]), [c]) == parts
    decreases |parts|
  {
    var sep := [c];
    if |parts| == 1 {
      NotContainsFirstChar(parts[0], sep);
    } else {
      var rest := Join(parts[1..], sep);
      assert Join(parts, sep) == parts[0] + (sep + rest);
      IndexOfAfter(parts[0], sep + rest, sep);
      assert sep <= sep + rest;
      assert OccursAt(sep + rest, sep, 0);
      assert IndexOf(sep + rest, sep) == 0;
      assert (parts[0] + (sep + rest))[|parts[0]| + 1..] == rest;
      assert (parts[0] + (sep + rest))[..|parts[0]|] == parts[0];
      SplitJoin(parts[1..], c);
    }
  }

  /** The characters JavaScript's `trim` removes: white space and line terminators. */
  predicate IsJsSpace(c: char) {
    c == ' ' || c == '\t' || c == '\n' || c == '\r' || c == '\U{000B}' || c == '\U{000C}'
    || c == '\U{00A0}' || c == '\U{1680}' || ('\U{2000}' <= c <= '\U{200A}')
    || c == '\U{2028}' || c == '\U{2029}' || c == '\U{202F}' || c == '\U{205F}'
    || c == '\U{3000}' || c == '\U{FEFF}'
  }

  function TrimStart(s: string): (r: string)
    ensures |r| <= |s| && r == s[|s| - |r|..]
  {
    if |s| > 0 && IsJsSpace(s[0]) then TrimStart(s[1..]) else s
  }

  function TrimEnd(s: string): (r: string)
    ensures |r| <= |s| && r == s[..|r|]
  {
    if |s| > 0 && IsJsSpace(s[|s| - 1]) then TrimEnd(s[..|s| - 1]) else s
  }

  /** What is left does not start with white space. */
  lemma {:induction false} TrimStartFirst(s: string)
    ensures TrimStart(s) == [] || !IsJsSpace(TrimStart(s)[0])
    decreases |s|
  {
    if |s| > 0 && IsJsSpace(s[0]) {
      TrimStartFirst(s[1..]);
    }
  }

  /** What is left does not end with white space. */
  lemma {:induction false} TrimEndLast(s: string)
    ensures TrimEnd(s) == [] || !IsJsSpace(TrimEnd(s)[|TrimEnd(s)| - 1])
    decreases |s|
  {
    if |s| > 0 && IsJsSpace(s[|s| - 1]) {
      TrimEndLast(s[..|s| - 1]);
    }
  }

  /** Only white space is cut from the front. */
  lemma {:induction false} TrimStartCuts(s: string)
    ensures forall i :: 0 <= i < |s| - |TrimStart(s)| ==> IsJsSpace(s[i])
    decreases |s|
  {
    if |s| > 0 && IsJsSpace(s[0]) {
      TrimStartCuts(s[1..]);
      forall i | 1 <= i < |s| - |TrimStart(s)| ensures IsJsSpace(s[i]) {
        assert s[i] == s[1..][i - 1];
      }
    }
  }

  /** Only white space is cut from the back. */
  lemma {:induction false} TrimEndCuts(s: string)
    ensures forall i :: |TrimEnd(s)| <= i < |s| ==> IsJsSpace(s[i])
    decreases |s|
  {
    if |s| > 0 && IsJsSpace(s[|s| - 1]) {
      TrimEndCuts(s[..|s| - 1]);
      forall i | |TrimEnd(s)| <= i < |s| - 1 ensures IsJsSpace(s[i]) {
        assert s[i] == s[..|s| - 1][i];
      }
    }
  }

  /** `s.trim()`: the text with the white space at both ends removed. */
  function Trim(s: string): (r: string)
  {
    TrimEnd(TrimStart(s))
  }

  /** The trimmed text is the stretch of the input that starts at the first
      and ends at the last non-white-space character: only white space was
      cut away, and none is left at either end. */
  lemma TrimSpec(s: string)
    ensures var i, r := |s| - |TrimStart(s)|, Trim(s);
      && i + |r| <= |s| && r == s[i..i + |r|]
      && (forall k :: 0 <= k < i ==> IsJsSpace(s[k]))
      && (forall k :: i + |r| <= k < |s| ==> IsJsSpace(s[k]))
      && (r == [] || (!IsJsSpace(r[0]) && !IsJsSpace(r[|r| - 1])))
  {
    TrimSpan(s);
    TrimCutsSpace(s);
    TrimEnds(s);
  }

  lemma {:induction false} TrimSpan(s: string)
    ensures var i, r := |s| - |TrimStart(s)|, Trim(s);
      i + |r| <= |s| && r == s[i..i + |r|]
  {
    var t := TrimStart(s);
    var r := TrimEnd(t);
    PrefixOfSuffix(s, t, r);
  }

  /** A prefix of a suffix of `s` is a slice of `s`. */
  lemma PrefixOfSuffix<T>(s: seq<T>, t: seq<T>, r: seq<T>)
    requires |t| <= |s| && t == s[|s| - |t|..]
    requires |r| <= |t| && r == t[..|r|]
    ensures r == s[|s| - |t|..|s| - |t| + |r|]
  {
  }

  lemma {:induction false} TrimCutsSpace(s: string)
    ensures var i, r := |s| - |TrimStart(s)|, Trim(s);
      && (forall k :: 0 <= k < i ==> IsJsSpace(s[k]))
      && (forall k :: i + |r| <= k < |s| ==> IsJsSpace(s[k]))
  {
    var t := TrimStart(s);
    var r := TrimEnd(t);
    var i := |s| - |t|;
    TrimStartCuts(s);
    TrimEndCuts(t);
    SuffixShift(s, i, |r|, IsJsSpace);
  }

  /** A property of the tail of `s[i..]` past `m` holds of the tail of `s` past `i + m`. */
  lemma SuffixShift(s: string, i: nat, m: nat, p: char -> bool)
    requires i <= |s| && m <= |s| - i
    requires forall k :: m <= k < |s| - i ==> p(s[i..][k])
    ensures forall k :: i + m <= k < |s| ==> p(s[k])
  {
    forall k | i + m <= k < |s| ensures p(s[k]) {
      assert s[k] == s[i..][k - i];
    }
  }

  lemma {:induction false} TrimEnds(s: string)
    ensures var r := Trim(s);
      r == [] || (!IsJsSpace(r[0]) && !IsJsSpace(r[|r| - 1]))
  {
    var t := TrimStart(s);
    var r := TrimEnd(t);
    TrimStartFirst(s);
    TrimEndLast(t);
    if r != [] {
      assert r[0] == t[0];
    }
  }

  predicate IsDigit(c: char) {
    '0' <= c <= '9'
  }

  predicate AllDigits(s: string) {
    forall i :: 0 <= i < |s| ==> IsDigit(s[i])
  }

  function DigitChar(d: nat): (c: char)
    requires d < 10
    ensures IsDigit(c)
  {
    ['0', '1', '2', '3', '4', '5', '6', '7', '8', '9'][d]
  }

  function DigitValue(c: char): (d: nat)
    requires IsDigit(c)
  {
    c as int - '0' as int
  }

  /** `n.toString()` for a natural number: decimal, no leading zeros. */
  function NatToString(n: nat): (r: string)
    ensures |r| >= 1 && AllDigits(r)
    ensures |r| == 1 <==> n < 10
    ensures |r| > 1 ==> r[0] != '0'
    decreases n
  {
    if n < 10 then [DigitChar(n)] else NatToString(n / 10) + [DigitChar(n % 10)]
  }

  /** The value of a decimal digit string (what `Number(s)` yields for one). */
  function ParseNat(s: string): nat
    requires AllDigits(s)
  {
    if |s| == 0 then 0 else 10 * ParseNat(s[..|s| - 1]) + DigitValue(s[|s| - 1])
  }

  lemma DigitRoundTrip(d: nat)
    requires d < 10
    ensures DigitValue(DigitChar(d)) == d
  {
  }

  /** Printing a number in decimal and reading it back gives the number. */
  lemma {:induction false} ParseNatToString(n: nat)
    ensures ParseNat(NatToString(n)) == n
    decreases n
  {
    var r := NatToString(n);
    if n < 10 {
      DigitRoundTrip(n);
    } else {
      ParseNatToString(n / 10);
      DigitRoundTrip(n % 10);
      assert r[..|r| - 1] == NatToString(n / 10);
    }
  }

  /** A leading zero does not change the value. */
  lemma ParseNatLeadingZero(s: string)
    requires AllDigits(s)
    ensures AllDigits("0" + s) && ParseNat("0" + s) == ParseNat(s)
    decreases |s|
  {
    if |s| > 0 {
      assert ("0" + s)[..|"0" + s| - 1] == "0" + s[..|s| - 1];
      ParseNatLeadingZero(s[..|s| - 1]);
    }
  }

  /** ASCII `toLowerCase`. */
  function ToLower(c: char): (d: char) {
    if 'A' <= c <= 'Z' then (c as int + 32) as char else c
  }

  lemma ToLowerSpec(c: char)
    ensures 'A' <= c <= 'Z' ==> 'a' <= ToLower(c) <= 'z' && ToLower(c) as int - c as int == 32
    ensures !('A' <= c <= 'Z') ==> ToLower(c) == c
  {
  }
}

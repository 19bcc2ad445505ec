/** String primitives with the meaning of the JavaScript built-ins the previewer relies on:
    `\s` and `trim`, `indexOf`, `lastIndexOf`, `includes`, `split` on a literal separator,
    character counts and the decimal rendering of a number in a template literal. */
module Strings {

  datatype Option<T> = None | Some(value: T)

  /** A character JavaScript's `\s` matches and `String.prototype.trim` strips
      (white space and line terminators). */
  predicate IsWhitespace(c: char)
  {
    || c == ' ' || c == '\t' || c == '\n' || c == '\r' || c == '\U{B}' || c == '\U{C}'
    || c == '\U{A0}' || c == '\U{1680}' || ('\U{2000}' <= c <= '\U{200A}')
    || c == '\U{2028}' || c == '\U{2029}' || c == '\U{202F}' || c == '\U{205F}'
    || c == '\U{3000}' || c == '\U{FEFF}'
  }

  /** A JavaScript line terminator: where `.` stops and where `^` and `$` match in multiline mode. */
  predicate IsLineTerminator(c: char)
  {
    c == '\n' || c == '\r' || c == '\U{2028}' || c == '\U{2029}'
  }

  predicate AllWhitespace(s: string)
  {
    forall k :: 0 <= k < |s| ==> IsWhitespace(s[k])
  }

  /** No white space at either end: what `trim` leaves behind. */
  predicate Trimmed(s: string)
  {
    s == [] || (!IsWhitespace(s[0]) && !IsWhitespace(s[|s| - 1]))
  }

  /** `s.trimStart()` */
  function TrimStart(s: string): (r: string)
    ensures |r| <= |s|
  {
    if s != [] && IsWhitespace(s[0]) then TrimStart(s[1..]) else s
  }

  /** `trimStart` cuts off the longest all-white-space prefix. */
  lemma {:induction false} TrimStartSpec(s: string)
    ensures var r := TrimStart(s);
      && r == s[|s| - |r|..]
      && AllWhitespace(s[..|s| - |r|])
      && (r == [] || !IsWhitespace(r[0]))
  {
    if s != [] && IsWhitespace(s[0]) {
      var r := TrimStart(s[1..]);
      TrimStartSpec(s[1..]);
      assert s[1..][|s| - 1 - |r|..] == s[|s| - |r|..];
      forall k | 0 <= k < |s| - |r| ensures IsWhitespace(s[k]) {
        if k > 0 { assert s[k] == s[1..][..|s| - 1 - |r|][k - 1]; }
      }
    }
  }

  /** `s.trimEnd()` */
  function TrimEnd(s: string): (r: string)
    ensures |r| <= |s|
  {
    if s != [] && IsWhitespace(s[|s| - 1]) then TrimEnd(s[..|s| - 1]) else s
  }

  /** `trimEnd` cuts off the longest all-white-space suffix. */
  lemma {:induction false} TrimEndSpec(s: string)
    ensures var r := TrimEnd(s);
      && r == s[..|r|]
      && AllWhitespace(s[|r|..])
      && (r == [] || !IsWhitespace(r[|r| - 1]))
  {
    if s != [] && IsWhitespace(s[|s| - 1]) {
      var r := TrimEnd(s[..|s| - 1]);
      TrimEndSpec(s[..|s| - 1]);
      assert s[..|s| - 1][..|r|] == s[..|r|];
      forall k | |r| <= k < |s| ensures IsWhitespace(s[k]) {
        if k < |s| - 1 { assert s[k] == s[..|s| - 1][|r|..][k - |r|]; }
      }
    }
  }

  /** `s.trim()` */
  function Trim(s: string): (r: string)
    ensures |r| <= |s|
  {
    TrimEnd(TrimStart(s))
  }

  /** `trim` cuts `s` into white space, an infix with no white space at either end, and
      white space; the infix is empty exactly when `s` is all white space. */
  lemma TrimSpec(s: string)
    ensures var r := Trim(s);
      var a := |s| - |TrimStart(s)|;
      && a + |r| <= |s| && r == s[a..a + |r|]
      && AllWhitespace(s[..a]) && AllWhitespace(s[a + |r|..])
      && Trimmed(r)
      && (r == [] <==> AllWhitespace(s))
  {
    TrimLayout(s);
    TrimEmptyIff(s);
  }

  lemma TrimLayout(s: string)
    ensures var r := Trim(s);
      var a := |s| - |TrimStart(s)|;
      && a + |r| <= |s| && r == s[a..a + |r|]
      && AllWhitespace(s[..a]) && AllWhitespace(s[a + |r|..])
      && Trimmed(r)
  {
    var t := TrimStart(s);
    var r := TrimEnd(t);
    var a := |s| - |t|;
    assert t == s[a..] && AllWhitespace(s[..a]) && (t == [] || !IsWhitespace(t[0])) by {
      TrimStartSpec(s);
    }
    assert r == t[..|r|] && AllWhitespace(t[|r|..]) && (r == [] || !IsWhitespace(r[|r| - 1])) by {
      TrimEndSpec(t);
    }
    SuffixSlices(s, t, a, |r|);
    assert AllWhitespace(s[a + |r|..]);
    assert Trimmed(r);
  }

  /** Slices of a suffix `t == s[a..]`, located in `s`. */
  lemma SuffixSlices(s: string, t: string, a: nat, n: nat)
    requires a <= |s| && t == s[a..] && n <= |t|
    ensures a + n <= |s| && t[..n] == s[a..a + n] && t[n..] == s[a + n..]
    ensures n > 0 ==> t[..n][0] == t[0]
  {
  }

  lemma TrimEmptyIff(s: string)
    ensures Trim(s) == [] <==> AllWhitespace(s)
  {
    var t := TrimStart(s);
    var r := TrimEnd(t);
    var a := |s| - |t|;
    TrimStartSpec(s);
    TrimEndSpec(t);
    if r == [] {
      assert t == [] by { assert AllWhitespace(t[|r|..]); }
      forall k | 0 <= k < |s| ensures IsWhitespace(s[k]) {
        assert s[k] == s[..a][k];
      }
    } else {
      assert t[..|r|] == r;
      assert s[a] == t[0] == r[0];
    }
  }

  /** Every character of `Trim(s)` is a character of `s`. */
  lemma TrimChars(s: string, c: char)
    requires c in Trim(s)
    ensures c in s
  {
    TrimSpec(s);
    var r := Trim(s);
    var a := |s| - |TrimStart(s)|;
    var k :| 0 <= k < |r| && r[k] == c;
    assert s[a + k] == c;
  }

  /** Leading white space does not change the trim. */
  lemma {:induction false} TrimStartDropsSpace(s: string, j: nat)
    requires j <= |s| && forall k :: 0 <= k < j ==> IsWhitespace(s[k])
    ensures TrimStart(s[j..]) == TrimStart(s)
  {
    if j > 0 {
      TrimStartDropsSpace(s[1..], j - 1);
      assert s[1..][j - 1..] == s[j..];
    }
  }

  lemma TrimDropsLeadingSpace(s: string, j: nat)
    requires j <= |s| && forall k :: 0 <= k < j ==> IsWhitespace(s[k])
    ensures Trim(s[j..]) == Trim(s)
  {
    TrimStartDropsSpace(s, j);
  }

  /** A string with nothing to trim is its own trim. */
  lemma TrimOfTrimmed(s: string)
    requires Trimmed(s)
    ensures Trim(s) == s
  {
    if s != [] {
      assert TrimStart(s) == s;
      assert TrimEnd(s) == s;
    }
  }

  /** `trim` is idempotent. */
  lemma TrimIdempotent(s: string)
    ensures Trim(Trim(s)) == Trim(s)
  {
    TrimSpec(s);
    TrimOfTrimmed(Trim(s));
  }

  /** `items.filter(item => item.trim())`: the pieces that are not blank, in order. */
  function NonBlank(pieces: seq<string>): (r: seq<string>)
    ensures |r| <= |pieces|
  {
    if pieces == [] then []
    else
      var rest := NonBlank(pieces[1..]);
      if Trim(pieces[0]) != [] then [pieces[0]] + rest else rest
  }

  /** The filter keeps exactly the pieces that are not blank. */
  lemma {:induction false} NonBlankMembers(pieces: seq<string>, x: string)
    ensures x in NonBlank(pieces) <==> x in pieces && Trim(x) != []
    decreases |pieces|
  {
    if pieces != [] {
      NonBlankMembers(pieces[1..], x);
      assert pieces == [pieces[0]] + pieces[1..];
    }
  }

  /** The filter keeps the order: it works piece by piece, a blank piece giving nothing and
      any other piece itself. */
  lemma {:induction false} NonBlankAppend(a: seq<string>, b: seq<string>)
    ensures NonBlank(a + b) == NonBlank(a) + NonBlank(b)
    decreases |a|
  {
    if a != [] {
      var x, t := a[0], a[1..];
      NonBlankAppend(t, b);
      assert a == [x] + t && a + b == [x] + (t + b);
      NonBlankCons(x, t);
      NonBlankCons(x, t + b);
    } else {
      assert a + b == b;
    }
  }

  /** One piece in front: itself when it is not blank, nothing otherwise. */
  lemma NonBlankCons(x: string, rest: seq<string>)
    ensures NonBlank([x] + rest) == (if Trim(x) != [] then [x] else []) + NonBlank(rest)
  {
    assert ([x] + rest)[1..] == rest;
  }

  /** `s.length`: the number of UTF-16 code units, two for a character above U+FFFF. */
  function Utf16Length(s: string): (n: nat)
    ensures |s| <= n <= 2 * |s|
  {
    if s == [] then 0 else (if s[0] as int > 0xFFFF then 2 else 1) + Utf16Length(s[1..])
  }

  lemma {:induction false} Utf16LengthAppend(a: string, b: string)
    ensures Utf16Length(a + b) == Utf16Length(a) + Utf16Length(b)
    decreases |a|
  {
    if a != [] {
      Utf16LengthAppend(a[1..], b);
      assert (a + b)[0] == a[0] && (a + b)[1..] == a[1..] + b;
    } else {
      assert a + b == b;
    }
  }

  /** Without characters above U+FFFF the two lengths agree; each one above adds a unit. */
  lemma {:induction false} Utf16LengthBasic(s: string)
    ensures (forall k :: 0 <= k < |s| ==> s[k] as int <= 0xFFFF) ==> Utf16Length(s) == |s|
    ensures (exists k :: 0 <= k < |s| && s[k] as int > 0xFFFF) ==> Utf16Length(s) > |s|
  {
    if s != [] {
      Utf16LengthBasic(s[1..]);
      if exists k :: 0 <= k < |s| && s[k] as int > 0xFFFF {
        var k :| 0 <= k < |s| && s[k] as int > 0xFFFF;
        if k > 0 {
          assert s[1..][k - 1] == s[k];
        }
      }
      if forall k :: 0 <= k < |s| ==> s[k] as int <= 0xFFFF {
        assert forall k :: 0 <= k < |s| - 1 ==> s[1..][k] == s[k + 1];
      }
    }
  }

  /** `pat` occurs in `s` at position `p`. */
  predicate StartsAt(s: string, p: nat, pat: string)
  {
    p + |pat| <= |s| && s[p..p + |pat|] == pat
  }

  /** An occurrence, character by character. */
  lemma StartsAtChars(s: string, p: nat, pat: string)
    requires StartsAt(s, p, pat)
    ensures forall j :: 0 <= j < |pat| ==> s[p + j] == pat[j]
  {
    forall j | 0 <= j < |pat| ensures s[p + j] == pat[j] {
      assert s[p..p + |pat|][j] == s[p + j];
    }
  }

  /** Matching characters make an occurrence. */
  lemma CharsStartAt(s: string, p: nat, pat: string)
    requires p + |pat| <= |s| && forall j :: 0 <= j < |pat| ==> s[p + j] == pat[j]
    ensures StartsAt(s, p, pat)
  {
    assert s[p..p + |pat|] == pat;
  }

  /** `s.indexOf(pat, from)`: the first occurrence at or after `from`. */
  function IndexOf(s: string, pat: string, from: nat): (r: Option<nat>)
    decreases |s| - from
    ensures r.Some? ==> from <= r.value && StartsAt(s, r.value, pat)
    ensures r.Some? ==> forall k :: from <= k < r.value ==> !StartsAt(s, k, pat)
    ensures r.None? ==> forall k :: from <= k ==> !StartsAt(s, k, pat)
  {
    if from + |pat| > |s| then None
    else if StartsAt(s, from, pat) then Some(from)
    else IndexOf(s, pat, from + 1)
  }

  /** `s.lastIndexOf(pat)`, searching positions `at` and below. */
  function LastIndexFrom(s: string, pat: string, at: nat): (r: Option<nat>)
    ensures r.Some? ==> r.value <= at && StartsAt(s, r.value, pat)
    ensures r.Some? ==> forall k :: r.value < k <= at ==> !StartsAt(s, k, pat)
    ensures r.None? ==> forall k: nat :: k <= at ==> !StartsAt(s, k, pat)
  {
    if StartsAt(s, at, pat) then Some(at)
    else if at == 0 then None
    else LastIndexFrom(s, pat, at - 1)
  }

  /** `s.lastIndexOf(pat)`: the last occurrence. */
  function LastIndexOf(s: string, pat: string): (r: Option<nat>)
    ensures r.Some? ==> StartsAt(s, r.value, pat)
    ensures r.Some? ==> forall k :: r.value < k ==> !StartsAt(s, k, pat)
    ensures r.None? ==> forall k: nat :: !StartsAt(s, k, pat)
  {
    LastIndexFrom(s, pat, |s|)
  }

  /** `s.includes(pat)` */
  predicate Contains(s: string, pat: string)
  {
    IndexOf(s, pat, 0).Some?
  }

  /** An occurrence inside a prefix or a suffix is an occurrence in the whole string. */
  lemma StartsAtInPrefix(s: string, n: nat, k: nat, pat: string)
    requires n <= |s| && StartsAt(s[..n], k, pat)
    ensures StartsAt(s, k, pat)
  {
    assert s[..n][k..k + |pat|] == s[k..k + |pat|];
  }

  lemma StartsAtInSuffix(s: string, n: nat, k: nat, pat: string)
    requires n <= |s| && StartsAt(s[n..], k, pat)
    ensures StartsAt(s, n + k, pat)
  {
    assert s[n..][k..k + |pat|] == s[n + k..n + k + |pat|];
  }

  /** The middle part of a concatenation occurs right after the first part. */
  lemma StartsAtJoin(a: string, b: string, c: string)
    ensures StartsAt(a + b + c, |a|, b)
  {
    assert (a + b + c)[|a|..|a| + |b|] == b;
  }

  /** An occurrence stays where it is when text is appended. */
  lemma StartsAtExtend(s: string, t: string, k: nat, pat: string)
    requires StartsAt(s, k, pat)
    ensures StartsAt(s + t, k, pat)
  {
    assert (s + t)[k..k + |pat|] == s[k..k + |pat|];
  }

  /** An occurrence moves along by the length of text put in front. */
  lemma StartsAtPrepend(s: string, t: string, k: nat, pat: string)
    requires StartsAt(t, k, pat)
    ensures StartsAt(s + t, |s| + k, pat)
  {
    assert (s + t)[|s| + k..|s| + k + |pat|] == t[k..k + |pat|];
  }

  /** The second of four or five parts, located in the whole (concatenation groups to the left). */
  lemma StartsAtSecond(a: string, b: string, c: string, d: string, e: string)
    ensures StartsAt(a + b + c + d, |a|, b)
    ensures StartsAt(a + b + c + d + e, |a|, b)
  {
    StartsAtJoin(a, b, c);
    StartsAtExtend(a + b + c, d, |a|, b);
    StartsAtExtend(a + b + c + d, e, |a|, b);
  }

  /** Occurrences in the two ends of `a + b + c` and the middle part itself, located in the whole. */
  lemma StartsAtAround(a: string, b: string, c: string, i: nat, x: string, j: nat, y: string)
    requires StartsAt(a, i, x) && StartsAt(c, j, y)
    ensures StartsAt(a + b + c, i, x)
    ensures StartsAt(a + b + c, |a|, b)
    ensures StartsAt(a + b + c, |a| + |b| + j, y)
  {
    StartsAtExtend(a, b, i, x);
    StartsAtExtend(a + b, c, i, x);
    StartsAtJoin(a, b, c);
    StartsAtPrepend(a + b, c, j, y);
  }

  /** Concatenation regrouped, stated once so that long proofs need not rediscover it. */
  lemma ConcatAssoc(a: string, b: string, c: string)
    ensures a + (b + c) == (a + b) + c
  {
  }

  /** `s.split(sep)` for a non-empty literal separator. */
  function Split(s: string, sep: string): (r: seq<string>)
    requires sep != []
    decreases |s|
    ensures |r| >= 1
  {
    match IndexOf(s, sep, 0)
    case None => [s]
    case Some(p) => [s[..p]] + Split(s[p + |sep|..], sep)
  }

  /** `parts.join(sep)` */
  function Join(parts: seq<string>, sep: string): string
    requires |parts| >= 1
  {
    if |parts| == 1 then parts[0] else parts[0] + sep + Join(parts[1..], sep)
  }

  /** Splitting loses nothing: joining the pieces with the separator gives the string back. */
  lemma {:induction false} SplitJoin(s: string, sep: string)
    requires sep != []
    ensures Join(Split(s, sep), sep) == s
  {
    match IndexOf(s, sep, 0)
    case None =>
    case Some(p) =>
      var rest := s[p + |sep|..];
      SplitJoin(rest, sep);
      SplitFound(s, sep, p);
      JoinPrepend(s[..p], Split(rest, sep), sep);
      CutAt(s, p, sep);
  }

  lemma JoinPrepend(x: string, parts: seq<string>, sep: string)
    requires |parts| >= 1
    ensures Join([x] + parts, sep) == x + sep + Join(parts, sep)
  {
    assert ([x] + parts)[1..] == parts;
  }

  /** An occurrence cuts the text into what comes before it, itself and what follows. */
  lemma CutAt(s: string, p: nat, pat: string)
    requires StartsAt(s, p, pat)
    ensures s == s[..p] + pat + s[p + |pat|..]
  {
    assert s == s[..p] + s[p..p + |pat|] + s[p + |pat|..];
  }

  /** No piece of a split contains the separator. */
  lemma {:induction false} SplitPiecesFree(s: string, sep: string, i: nat)
    requires sep != [] && i < |Split(s, sep)|
    ensures !Contains(Split(s, sep)[i], sep)
  {
    match IndexOf(s, sep, 0)
    case None =>
    case Some(p) =>
      SplitFound(s, sep, p);
      if i == 0 {
        if Contains(s[..p], sep) {
          var k := IndexOf(s[..p], sep, 0).value;
          StartsAtInPrefix(s, p, k, sep);
        }
      } else {
        var rest := s[p + |sep|..];
        SplitPiecesFree(rest, sep, i - 1);
        IndexPrepend(s[..p], Split(rest, sep), i);
      }
  }

  /** The split has more than one piece exactly when the separator occurs. */
  lemma SplitCount(s: string, sep: string)
    requires sep != []
    ensures |Split(s, sep)| >= 2 <==> Contains(s, sep)
  {
  }

  /** The text after the last occurrence of `pat`, or all of `s` when it never occurs. */
  function AfterLast(s: string, pat: string): string
  {
    match LastIndexOf(s, pat)
    case None => s
    case Some(p) => s[p + |pat|..]
  }

  /** The last piece of a split on a one-character separator is the text after the last
      occurrence of that character (`s.split(sep).pop()`). */
  lemma {:induction false} SplitLast(s: string, sep: string)
    requires |sep| == 1
    ensures var parts := Split(s, sep);
      parts[|parts| - 1] == AfterLast(s, sep)
    decreases |s|
  {
    match IndexOf(s, sep, 0)
    case None =>
      assert LastIndexOf(s, sep).None? by {
        assert forall k: nat :: !StartsAt(s, k, sep);
      }
    case Some(p) =>
      SplitLast(s[p + 1..], sep);
      SplitFoundLast(s, sep, p);
      AfterLastFound(s, sep, p);
  }

  /** What follows the last occurrence is what follows it in the text after the first one. */
  lemma AfterLastFound(s: string, sep: string, p: nat)
    requires |sep| == 1 && IndexOf(s, sep, 0) == Some(p)
    ensures p + 1 <= |s| && AfterLast(s, sep) == AfterLast(s[p + 1..], sep)
  {
    var rest := s[p + 1..];
    match LastIndexOf(rest, sep)
    case None =>
      LastAtFirst(s, sep, p);
    case Some(r) =>
      LastInRest(s, sep, p + 1, r);
      assert rest[r + 1..] == s[p + 1 + r + 1..];
  }

  /** A split that finds `sep` first at `p` cuts off `s[..p]` and splits the rest. */
  lemma SplitFound(s: string, sep: string, p: nat)
    requires sep != [] && IndexOf(s, sep, 0) == Some(p)
    ensures p + |sep| <= |s|
    ensures Split(s, sep) == [s[..p]] + Split(s[p + |sep|..], sep)
  {
  }

  /** ... and its last piece is the last piece of the rest. */
  lemma SplitFoundLast(s: string, sep: string, p: nat)
    requires sep != [] && IndexOf(s, sep, 0) == Some(p)
    ensures p + |sep| <= |s|
    ensures var parts, tail := Split(s, sep), Split(s[p + |sep|..], sep);
      parts[|parts| - 1] == tail[|tail| - 1]
  {
    SplitFound(s, sep, p);
    LastOfPrepend(Split(s, sep), s[..p], Split(s[p + |sep|..], sep));
  }

  lemma LastOfPrepend<T>(parts: seq<T>, x: T, tail: seq<T>)
    requires parts == [x] + tail && |tail| >= 1
    ensures parts[|parts| - 1] == tail[|tail| - 1]
  {
  }

  lemma IndexPrepend<T>(x: T, t: seq<T>, i: nat)
    requires 0 < i <= |t|
    ensures ([x] + t)[i] == t[i - 1]
  {
  }

  /** An occurrence with none after it is the last one. */
  lemma LastIndexOfIs(s: string, pat: string, q: nat)
    requires StartsAt(s, q, pat) && forall k :: q < k ==> !StartsAt(s, k, pat)
    ensures LastIndexOf(s, pat) == Some(q)
  {
    var r := LastIndexOf(s, pat);
    assert r.Some?;
    assert r.value <= q;
  }

  /** The last occurrence in a suffix `s[n..]` is the last occurrence in `s`, shifted by `n`. */
  lemma LastInRest(s: string, pat: string, n: nat, r: nat)
    requires n <= |s| && LastIndexOf(s[n..], pat) == Some(r)
    ensures LastIndexOf(s, pat) == Some(n + r)
  {
    StartsAtInSuffix(s, n, r, pat);
    forall k | n + r < k ensures !StartsAt(s, k, pat) {
      if k + |pat| <= |s| {
        assert !StartsAt(s[n..], k - n, pat);
        assert s[n..][k - n..k - n + |pat|] == s[k..k + |pat|];
      }
    }
    LastIndexOfIs(s, pat, n + r);
  }

  /** When a one-character separator first occurs at `p` and never after it, `p` is also
      its last occurrence. */
  lemma LastAtFirst(s: string, sep: string, p: nat)
    requires |sep| == 1 && IndexOf(s, sep, 0) == Some(p) && LastIndexOf(s[p + 1..], sep).None?
    ensures LastIndexOf(s, sep) == Some(p)
  {
    forall k | p < k ensures !StartsAt(s, k, sep) {
      if k + 1 <= |s| {
        assert !StartsAt(s[p + 1..], k - p - 1, sep);
        assert s[p + 1..][k - p - 1..k - p] == s[k..k + 1];
      }
    }
    LastIndexOfIs(s, sep, p);
  }

  /** The number of occurrences of `c` in `s`: `(s.match(/c/g) || []).length`. */
  function Count(s: string, c: char): (n: nat)
    ensures n == multiset(s)[c]
  {
    if s == [] then 0
    else
      assert s == [s[0]] + s[1..];
      (if s[0] == c then 1 else 0) + Count(s[1..], c)
  }

  /** The decimal digits of `n`, as a template literal renders a non-negative integer. */
  function Decimal(n: nat): (r: string)
    ensures |r| >= 1
    ensures forall k :: 0 <= k < |r| ==> '0' <= r[k] <= '9'
  {
    if n < 10 then [Digit(n)] else Decimal(n / 10) + [Digit(n % 10)]
  }

  function Digit(d: nat): (c: char)
    requires d < 10
    ensures '0' <= c <= '9' && (c as int) - ('0' as int) == d
  {
    (('0' as int) + d) as char
  }

  /** Distinct numbers have distinct decimal renderings. */
  lemma {:induction false} DecimalInjective(a: nat, b: nat)
    requires Decimal(a) == Decimal(b)
    ensures a == b
  {
    var da, db := Decimal(a), Decimal(b);
    assert a >= 10 ==> |da| >= 2 by { if a >= 10 { assert |Decimal(a / 10)| >= 1; } }
    assert b >= 10 ==> |db| >= 2 by { if b >= 10 { assert |Decimal(b / 10)| >= 1; } }
    if a >= 10 && b >= 10 {
      assert da[|da| - 1] == Digit(a % 10) && db[|db| - 1] == Digit(b % 10);
      assert Decimal(a / 10) == da[..|da| - 1] == db[..|db| - 1] == Decimal(b / 10);
      DecimalInjective(a / 10, b / 10);
    } else {
      assert a < 10 && b < 10;
      assert da[0] == Digit(a) && db[0] == Digit(b);
    }
  }
}

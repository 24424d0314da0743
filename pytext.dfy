/**
 * The parts of Python's string semantics the application relies on:
 * str.isspace and str.strip(), str.lower(), str.split(sep), str.split(),
 * the `in` operator on strings, str(n) for a natural number, str.join and
 * os.path.splitext on POSIX paths.
 */
module PyText {

  /** Python's str.isspace() for one code point (the Unicode whitespace set). */
  predicate IsSpace(c: char) {
    c == ' ' || '\U{9}' <= c <= '\U{D}' || '\U{1C}' <= c <= '\U{1F}'
    || c == '\U{85}' || c == '\U{A0}' || c == '\U{1680}'
    || '\U{2000}' <= c <= '\U{200A}' || c == '\U{2028}' || c == '\U{2029}'
    || c == '\U{202F}' || c == '\U{205F}' || c == '\U{3000}'
  }

  /** The number of whitespace characters at the start of s. */
  function LeadingSpace(s: string): (n: nat)
    ensures n <= |s|
    ensures n < |s| ==> !IsSpace(s[n])
  {
    if s == [] || !IsSpace(s[0]) then 0 else 1 + LeadingSpace(s[1..])
  }

  /** Every character before the count is whitespace. */
  lemma {:induction false} LeadingSpaceAll(s: string)
    ensures forall k :: 0 <= k < LeadingSpace(s) ==> IsSpace(s[k])
    decreases |s|
  {
    if s != [] && IsSpace(s[0]) {
      LeadingSpaceAll(s[1..]);
      assert forall k :: 1 <= k < LeadingSpace(s) ==> s[k] == s[1..][k - 1];
    }
  }

  /** The number of whitespace characters at the end of s. */
  function TrailingSpace(s: string): (n: nat)
    ensures n <= |s|
    ensures n < |s| ==> !IsSpace(s[|s| - 1 - n])
  {
    if s == [] || !IsSpace(s[|s| - 1]) then 0 else 1 + TrailingSpace(s[..|s| - 1])
  }

  /** The trailing whitespace stops before a first character that is not whitespace. */
  lemma {:induction false} TrailingSpaceStops(t: string)
    requires t != [] && !IsSpace(t[0])
    ensures TrailingSpace(t) < |t|
    decreases |t|
  {
    if |t| > 1 && IsSpace(t[|t| - 1]) {
      TrailingSpaceStops(t[..|t| - 1]);
    }
  }

  /** Python's s.strip(): s without its leading and trailing whitespace. */
  function Strip(s: string): (r: string)
    ensures |r| <= |s|
    ensures r != [] ==> !IsSpace(r[0]) && !IsSpace(r[|r| - 1])
    ensures s == [] || (!IsSpace(s[0]) && !IsSpace(s[|s| - 1])) ==> r == s
  {
    var i := LeadingSpace(s);
    var t := s[i..];
    var n := TrailingSpace(t);
    assert t != [] ==> !IsSpace(t[0]);
    assert n < |t| ==> !IsSpace(t[|t| - 1 - n]);
    if t != [] then TrailingSpaceStops(t); t[..|t| - n] else t
  }

  /** Every character the trailing count covers is whitespace. */
  lemma {:induction false} TrailingSpaceAll(s: string)
    ensures forall k :: |s| - TrailingSpace(s) <= k < |s| ==> IsSpace(s[k])
    decreases |s|
  {
    if s != [] && IsSpace(s[|s| - 1]) {
      var t := s[..|s| - 1];
      TrailingSpaceAll(t);
      assert forall k :: |t| - TrailingSpace(t) <= k < |t| ==> s[k] == t[k];
    }
  }

  /** The stripped text is the infix after the leading and before the trailing whitespace. */
  lemma StripInfix(s: string)
    ensures var i := LeadingSpace(s);
      i + TrailingSpace(s[i..]) + |Strip(s)| == |s| && Strip(s) == s[i..i + |Strip(s)|]
  {
    var i := LeadingSpace(s);
    var t := s[i..];
    if t != [] {
      TrailingSpaceStops(t);
    }
  }

  /**
   * Stripping removes only whitespace: the result is the infix of s that
   * starts after the leading whitespace, and everything outside it is
   * whitespace.
   */
  lemma StripTrims(s: string)
    ensures LeadingSpace(s) + |Strip(s)| <= |s|
    ensures Strip(s) == s[LeadingSpace(s)..LeadingSpace(s) + |Strip(s)|]
    ensures forall k :: 0 <= k < LeadingSpace(s) ==> IsSpace(s[k])
    ensures forall k :: LeadingSpace(s) + |Strip(s)| <= k < |s| ==> IsSpace(s[k])
  {
    var i := LeadingSpace(s);
    var t := s[i..];
    StripInfix(s);
    LeadingSpaceAll(s);
    TrailingSpaceAll(t);
    var m := i + |Strip(s)|;
    assert |t| - TrailingSpace(t) == m - i;
    forall k | m <= k < |s|
      ensures IsSpace(s[k])
    {
      assert s[k] == t[k - i];
    }
  }

  /** Stripping leaves nothing exactly when every character is whitespace. */
  lemma StripBlank(s: string)
    ensures Strip(s) == [] <==> forall k :: 0 <= k < |s| ==> IsSpace(s[k])
  {
    var i := LeadingSpace(s);
    LeadingSpaceAll(s);
    if i < |s| {
      var t := s[i..];
      assert t != [] && !IsSpace(t[0]);
      TrailingSpaceStops(t);
      assert !IsSpace(s[i]);
    }
  }

  /** Stripping twice is stripping once. */
  lemma StripIdempotent(s: string)
    ensures Strip(Strip(s)) == Strip(s)
  {
  }

  /** Python's str.lower() on one character; only A to Z are changed. */
  function LowerChar(c: char): (d: char)
    ensures 'A' <= c <= 'Z' ==> d as int == c as int + 32
    ensures !('A' <= c <= 'Z') ==> d == c
  {
    if 'A' <= c <= 'Z' then (c as int + 32) as char else c
  }

  /** Python's s.lower(), character by character. */
  function Lower(s: string): (r: string)
    ensures |r| == |s|
  {
    seq(|s|, k requires 0 <= k < |s| => LowerChar(s[k]))
  }

  /** Each character of the lower-cased string is the lower-cased character, none of them upper-case. */
  lemma LowerChars(s: string)
    ensures forall k :: 0 <= k < |s| ==> Lower(s)[k] == LowerChar(s[k])
    ensures forall k :: 0 <= k < |s| ==> !('A' <= Lower(s)[k] <= 'Z')
  {
  }

  /** Lower-casing a concatenation lower-cases each part. */
  lemma LowerAppend(a: string, b: string)
    ensures Lower(a + b) == Lower(a) + Lower(b)
  {
    assert forall k :: 0 <= k < |a + b| ==> Lower(a + b)[k] == (Lower(a) + Lower(b))[k];
  }

  /** A lower-cased string lower-cases to itself. */
  lemma LowerIdempotent(s: string)
    ensures Lower(Lower(s)) == Lower(s)
  {
  }

  /** Python's needle in hay for two strings, scanning the start positions from the left. */
  predicate Contains(hay: string, needle: string)
    decreases |hay|
  {
    |hay| >= |needle| && (hay[..|needle|] == needle || Contains(hay[1..], needle))
  }

  /** needle occurs in hay starting at index i. */
  predicate OccursAt(hay: string, needle: string, i: nat)
    requires i <= |hay| - |needle|
  {
    hay[i..i + |needle|] == needle
  }

  /** The scan finds the needle exactly when it occurs contiguously somewhere in hay. */
  lemma {:induction false} ContainsIff(hay: string, needle: string)
    ensures Contains(hay, needle) <==> exists i :: 0 <= i <= |hay| - |needle| && OccursAt(hay, needle, i)
    decreases |hay|
  {
    if |hay| >= |needle| {
      if hay[..|needle|] == needle {
        assert OccursAt(hay, needle, 0);
      } else if |hay| > |needle| {
        var tail := hay[1..];
        ContainsIff(tail, needle);
        forall i | 1 <= i <= |hay| - |needle|
          ensures OccursAt(hay, needle, i) <==> OccursAt(tail, needle, i - 1)
        {
          assert hay[i..i + |needle|] == tail[i - 1..i - 1 + |needle|];
        }
        if Contains(tail, needle) {
          var j :| 0 <= j <= |tail| - |needle| && OccursAt(tail, needle, j);
          assert OccursAt(hay, needle, j + 1);
        }
        if exists i :: 0 <= i <= |hay| - |needle| && OccursAt(hay, needle, i) {
          var i :| 0 <= i <= |hay| - |needle| && OccursAt(hay, needle, i);
          assert i != 0;
          assert OccursAt(tail, needle, i - 1);
        }
      } else {
        assert Contains(hay, needle) == Contains(hay[1..], needle);
      }
    }
  }

  /** A string that occurs in hay takes every piece of itself along. */
  lemma ContainsPart(hay: string, needle: string, i: nat, j: nat)
    requires i <= j <= |needle| && Contains(hay, needle)
    ensures Contains(hay, needle[i..j])
  {
    ContainsIff(hay, needle);
    var p :| 0 <= p <= |hay| - |needle| && OccursAt(hay, needle, p);
    var piece := needle[i..j];
    forall k | 0 <= k < |piece|
      ensures hay[p + i..p + j][k] == piece[k]
    {
      assert hay[p..p + |needle|][i + k] == needle[i + k];
    }
    assert hay[p + i..p + j] == piece;
    assert OccursAt(hay, piece, p + i);
    ContainsIff(hay, piece);
  }

  /** Two characters occur in hay only where they stand side by side. */
  lemma ContainsPair(hay: string, a: char, b: char)
    requires Contains(hay, [a, b])
    ensures exists k :: 0 <= k < |hay| - 1 && hay[k] == a && hay[k + 1] == b
  {
    ContainsIff(hay, [a, b]);
    var p :| 0 <= p <= |hay| - 2 && OccursAt(hay, [a, b], p);
    var pair := hay[p..p + 2];
    assert pair == [a, b];
    assert hay[p] == pair[0] && hay[p + 1] == pair[1];
  }

  /** A string occurs in any string built around it. */
  lemma ContainsInfix(pre: string, mid: string, post: string)
    ensures Contains(pre + mid + post, mid)
  {
    var hay := pre + mid + post;
    assert OccursAt(hay, mid, |pre|);
    ContainsIff(hay, mid);
  }

  /** The index of the first occurrence of c in s. */
  function IndexOf(s: string, c: char): (i: nat)
    requires c in s
    ensures i < |s| && s[i] == c && c !in s[..i]
  {
    if s[0] == c then 0 else 1 + IndexOf(s[1..], c)
  }

  /** Python's s.split(sep) for a one-character separator. */
  function SplitOn(s: string, sep: char): (parts: seq<string>)
    ensures |parts| >= 1
    ensures forall k :: 0 <= k < |parts| ==> sep !in parts[k]
    decreases |s|
  {
    if sep !in s then [s]
    else
      var i := IndexOf(s, sep);
      [s[..i]] + SplitOn(s[i + 1..], sep)
  }

  /** Python's sep.join(parts). */
  function Join(parts: seq<string>, sep: string): string {
    if parts == [] then ""
    else if |parts| == 1 then parts[0]
    else parts[0] + sep + Join(parts[1..], sep)
  }

  /** Joining the pieces of a split with the separator gives back the string. */
  lemma {:induction false} JoinSplitOn(s: string, sep: char)
    ensures Join(SplitOn(s, sep), [sep]) == s
    decreases |s|
  {
    if sep in s {
      var i := IndexOf(s, sep);
      var rest := s[i + 1..];
      var tail := SplitOn(rest, sep);
      JoinSplitOn(rest, sep);
      assert SplitOn(s, sep) == [s[..i]] + tail;
      assert ([s[..i]] + tail)[1..] == tail;
      assert Join([s[..i]] + tail, [sep]) == s[..i] + [sep] + Join(tail, [sep]);
      assert s == s[..i] + [sep] + rest;
    }
  }

  /** Splitting a join of separator-free pieces gives back the pieces. */
  lemma {:induction false} SplitOnJoin(parts: seq<string>, sep: char)
    requires parts != []
    requires forall k :: 0 <= k < |parts| ==> sep !in parts[k]
    ensures SplitOn(Join(parts, [sep]), sep) == parts
    decreases |parts|
  {
    if |parts| > 1 {
      var tail := Join(parts[1..], [sep]);
      var s := parts[0] + [sep] + tail;
      assert s[|parts[0]|] == sep;
      assert s[..|parts[0]|] == parts[0];
      assert IndexOf(s, sep) == |parts[0]| by {
        IndexOfPrefix(parts[0], [sep] + tail, sep);
        assert s == parts[0] + ([sep] + tail);
      }
      assert s[|parts[0]| + 1..] == tail;
      SplitOnJoin(parts[1..], sep);
    }
  }

  /** The first occurrence of c in a + b, when a has none, is the first in b. */
  lemma {:induction false} IndexOfPrefix(a: string, b: string, c: char)
    requires c !in a && c in b
    ensures c in a + b && IndexOf(a + b, c) == |a| + IndexOf(b, c)
    decreases |a|
  {
    assert (a + b)[|a| + IndexOf(b, c)] == c;
    if a != [] {
      assert (a + b)[1..] == a[1..] + b;
      IndexOfPrefix(a[1..], b, c);
    }
  }

  /** The length of the run of non-whitespace characters at the start of s. */
  function WordLength(s: string): (n: nat)
    ensures n <= |s|
    ensures forall k :: 0 <= k < n ==> !IsSpace(s[k])
    ensures n < |s| ==> IsSpace(s[n])
  {
    if s == [] || IsSpace(s[0]) then 0 else 1 + WordLength(s[1..])
  }

  /** A word: a non-empty run of non-whitespace characters. */
  predicate IsWord(w: string) {
    w != [] && forall k :: 0 <= k < |w| ==> !IsSpace(w[k])
  }

  /** Python's s.split() with no argument: the maximal runs of non-whitespace. */
  function Words(s: string): (ws: seq<string>)
    ensures forall k :: 0 <= k < |ws| ==> IsWord(ws[k])
    decreases |s|
  {
    if s == [] then []
    else if IsSpace(s[0]) then Words(s[1..])
    else
      var n := WordLength(s);
      [s[..n]] + Words(s[n..])
  }

  /** Splitting words joined by single spaces gives back the words. */
  lemma {:induction false} WordsJoin(ws: seq<string>)
    requires forall k :: 0 <= k < |ws| ==> IsWord(ws[k])
    ensures Words(Join(ws, " ")) == ws
    decreases |ws|
  {
    if ws == [] {
    } else if |ws| == 1 {
      WordsOfWord(ws[0], "");
      assert ws[0] + "" == ws[0];
    } else {
      var tail := Join(ws[1..], " ");
      var s := ws[0] + " " + tail;
      WordsOfWord(ws[0], " " + tail);
      assert s == ws[0] + (" " + tail);
      assert Words(" " + tail) == Words(tail) by {
        assert (" " + tail)[1..] == tail;
      }
      WordsJoin(ws[1..]);
    }
  }

  /** A word followed by nothing or by whitespace is split off first. */
  lemma WordsOfWord(w: string, rest: string)
    requires IsWord(w)
    requires rest == [] || IsSpace(rest[0])
    ensures Words(w + rest) == [w] + Words(rest)
  {
    var s := w + rest;
    assert WordLength(s) == |w| by { WordLengthOfWord(w, rest); }
    assert s[..|w|] == w && s[|w|..] == rest;
  }

  lemma {:induction false} WordLengthOfWord(w: string, rest: string)
    requires forall k :: 0 <= k < |w| ==> !IsSpace(w[k])
    requires rest == [] || IsSpace(rest[0])
    ensures WordLength(w + rest) == |w|
    decreases |w|
  {
    if w != [] {
      assert (w + rest)[1..] == w[1..] + rest;
      WordLengthOfWord(w[1..], rest);
    }
  }

  /** The decimal digit for d. */
  function DigitChar(d: nat): (c: char)
    requires d < 10
    ensures '0' <= c <= '9' && c as int - '0' as int == d
  {
    (d + '0' as int) as char
  }

  predicate IsDigits(s: string) {
    forall k :: 0 <= k < |s| ==> '0' <= s[k] <= '9'
  }

  /** Python's str(n) for a natural number: its decimal digits, no leading zero. */
  function NatToString(n: nat): (s: string)
    ensures s != [] && IsDigits(s)
    ensures s[0] == '0' ==> n == 0
    decreases n
  {
    if n < 10 then [DigitChar(n)] else NatToString(n / 10) + [DigitChar(n % 10)]
  }

  /** The value of a string of decimal digits. */
  function DigitsValue(s: string): nat
    requires IsDigits(s)
  {
    if s == [] then 0 else 10 * DigitsValue(s[..|s| - 1]) + (s[|s| - 1] as int - '0' as int)
  }

  /** Reading back the decimal digits of n gives n. */
  lemma {:induction false} NatToStringValue(n: nat)
    ensures DigitsValue(NatToString(n)) == n
    decreases n
  {
    if n >= 10 {
      var s := NatToString(n);
      assert s[..|s| - 1] == NatToString(n / 10);
      NatToStringValue(n / 10);
    }
  }

  /** The index of the last occurrence of c in s, or -1 (Python's s.rfind(c)). */
  function RFind(s: string, c: char): (i: int)
    ensures -1 <= i < |s|
    ensures i >= 0 ==> s[i] == c
    ensures forall k :: i < k < |s| ==> s[k] != c
  {
    if s == [] then -1 else if s[|s| - 1] == c then |s| - 1 else RFind(s[..|s| - 1], c)
  }

  /** The last occurrence in a + b lies in b when b has one, and in a otherwise. */
  lemma RFindAppend(a: string, b: string, c: char)
    ensures c in b ==> RFind(a + b, c) == |a| + RFind(b, c)
    ensures c !in b ==> RFind(a + b, c) == RFind(a, c)
  {
    var i := RFind(a + b, c);
    if c in b {
      var j := RFind(b, c);
      var k :| 0 <= k < |b| && b[k] == c;
      assert (a + b)[|a| + k] == c;
      assert (a + b)[|a| + j] == c;
    } else {
      var j := RFind(a, c);
      assert forall k :: |a| <= k < |a + b| ==> (a + b)[k] == b[k - |a|];
      if j >= 0 { assert (a + b)[j] == c; }
    }
    RFindUnique(a + b, c, i);
  }

  /** RFind is the only index with its two properties. */
  lemma RFindUnique(s: string, c: char, i: int)
    requires -1 <= i < |s|
    requires i >= 0 ==> s[i] == c
    requires forall k :: i < k < |s| ==> s[k] != c
    ensures RFind(s, c) == i
  {
  }

  /**
   * The extension os.path.splitext(p)[1] returns on POSIX: from the last dot
   * to the end, provided that dot lies after the last slash and is preceded,
   * after that slash, by at least one character that is not a dot; otherwise
   * the empty string.
   */
  function Extension(p: string): (ext: string)
    ensures ext == [] || (|ext| <= |p| && ext == p[|p| - |ext|..] && ext[0] == '.')
    ensures forall k :: 0 < k < |ext| ==> ext[k] != '.' && ext[k] != '/'
  {
    var slash := RFind(p, '/');
    var dot := RFind(p, '.');
    if dot > slash && exists k :: slash < k < dot && p[k] != '.' then p[dot..] else ""
  }
}

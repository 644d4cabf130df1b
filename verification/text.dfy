/**
 * The string operations the pipeline uses, with JavaScript's semantics:
 * `toLowerCase` (restricted to ASCII), the `clean_title` regular-expression
 * replacement, `split` on a one-character separator, and `trim`.
 */
module Text {
  import opened Wrappers
  import opened Seqs

  predicate IsUpperAscii(c: char) {
    'A' <= c <= 'Z'
  }

  /** `toLowerCase` on one character: ASCII capitals map to their small letters,
      every other character is left as it is. */
  function LowerChar(c: char): (d: char)
    ensures !IsUpperAscii(d)
    ensures d != c <==> IsUpperAscii(c)
    ensures IsUpperAscii(c) ==> 'a' <= d <= 'z' && d as int - 'a' as int == c as int - 'A' as int
  {
    if IsUpperAscii(c) then (c as int + 32) as char else c
  }

  /** `String.prototype.toLowerCase`, character by character. */
  function Lower(s: string): (r: string)
    ensures |r| == |s|
    ensures forall i :: 0 <= i < |s| ==> r[i] == LowerChar(s[i])
  {
    seq(|s|, i requires 0 <= i < |s| => LowerChar(s[i]))
  }

  /** No ASCII capital letter occurs in `s`. */
  predicate IsLowercase(s: string) {
    forall i :: 0 <= i < |s| ==> !IsUpperAscii(s[i])
  }

  /** Lowercasing yields a lowercase string, and a lowercase string is its own
      lowercasing; hence lowercasing twice is lowercasing once. */
  lemma LowerIsLowercase(s: string)
    ensures IsLowercase(Lower(s))
    ensures IsLowercase(s) <==> Lower(s) == s
    ensures Lower(Lower(s)) == Lower(s)
  {
  }

  // ---------------------------------------------------------------------------
  // clean_title: the lowercased title with every character outside the
  // case-insensitive class [a-z0-9] deleted
  // ---------------------------------------------------------------------------

  /** A character of the class `[a-z0-9]`. */
  predicate IsLowerAlnum(c: char) {
    'a' <= c <= 'z' || '0' <= c <= '9'
  }

  /** A character the `i`-flagged class `[a-z0-9]` matches: the flag folds ASCII case. */
  predicate MatchesClassIgnoringCase(c: char) {
    IsLowerAlnum(LowerChar(c))
  }

  /** The normalised title: lowercase, then delete every character the negated
      class `[^a-z0-9]` (with the `i` flag) matches, keeping the others in order. */
  function CleanTitle(title: string): string {
    Filter(MatchesClassIgnoringCase, Lower(title))
  }

  /** After lowercasing, the `i` flag changes nothing: the clean title keeps exactly
      the characters of `[a-z0-9]` of the lowercased title. */
  lemma {:induction false} CleanTitleIgnoresCaseFlag(title: string)
    ensures CleanTitle(title) == Filter(IsLowerAlnum, Lower(title))
  {
    var s := Lower(title);
    var idx := KeptIndices(Keep(MatchesClassIgnoringCase), s);
    forall k | 0 <= k < |idx|
      ensures Keep(IsLowerAlnum)(s[idx[k]]) == Some(CleanTitle(title)[k])
    {
      assert LowerChar(s[idx[k]]) == s[idx[k]];
    }
    forall i | 0 <= i < |s| && Keep(IsLowerAlnum)(s[i]).Some?
      ensures i in idx
    {
      assert LowerChar(s[i]) == s[i];
    }
    EnumerationDeterminesResult(Keep(IsLowerAlnum), s, idx, CleanTitle(title));
  }

  /** The clean title is the in-order subsequence of the `[a-z0-9]` characters of the
      lowercased title: `idx` picks the surviving positions of `title`, each survivor
      is the lowercased character at its position, and a position survives exactly
      when its lowercased character is in `[a-z0-9]`. */
  lemma CleanTitleSubsequence(title: string)
    ensures var r, idx := CleanTitle(title), KeptIndices(Keep(IsLowerAlnum), Lower(title));
      && |idx| == |r|
      && (forall k :: 0 <= k < |idx| ==> idx[k] < |title| && r[k] == LowerChar(title[idx[k]]))
      && (forall k, l :: 0 <= k < l < |idx| ==> idx[k] < idx[l])
      && (forall i :: 0 <= i < |title| ==> (i in idx <==> IsLowerAlnum(LowerChar(title[i]))))
  {
    CleanTitleIgnoresCaseFlag(title);
  }

  /** Only lowercase ASCII letters and digits survive. */
  lemma CleanTitleAlphabet(title: string)
    ensures forall k :: 0 <= k < |CleanTitle(title)| ==> IsLowerAlnum(CleanTitle(title)[k])
  {
    CleanTitleIgnoresCaseFlag(title);
    FilterSound(IsLowerAlnum, Lower(title));
  }

  /** Normalising a clean title again leaves it unchanged. */
  lemma CleanTitleIdempotent(title: string)
    ensures CleanTitle(CleanTitle(title)) == CleanTitle(title)
  {
    var c := CleanTitle(title);
    CleanTitleAlphabet(title);
    assert Lower(c) == c;
    FilterMapIdentity(Keep(MatchesClassIgnoringCase), c);
  }

  // ---------------------------------------------------------------------------
  // String.prototype.split with a one-character separator, and its inverse join
  // ---------------------------------------------------------------------------

  /** The pieces of `s` between occurrences of `sep`; the empty string splits into
      one empty piece, and adjacent separators give empty pieces. */
  function Split(s: string, sep: char): (parts: seq<string>)
    ensures |parts| >= 1
    ensures forall k :: 0 <= k < |parts| ==> sep !in parts[k]
    ensures forall k, i :: 0 <= k < |parts| && 0 <= i < |parts[k]| ==> parts[k][i] in s
    decreases |s|
  {
    if |s| == 0 then [""]
    else
      var rest := Split(s[1..], sep);
      if s[0] == sep then [""] + rest
      else [[s[0]] + rest[0]] + rest[1..]
  }

  /** `Array.prototype.join` with a one-character separator. */
  function Join(parts: seq<string>, sep: char): string
    decreases |parts|
  {
    if |parts| == 0 then ""
    else if |parts| == 1 then parts[0]
    else parts[0] + [sep] + Join(parts[1..], sep)
  }

  /** Joining the pieces back with the separator restores the string. */
  lemma {:induction false} JoinSplit(s: string, sep: char)
    ensures Join(Split(s, sep), sep) == s
    decreases |s|
  {
    if |s| > 0 {
      var rest := Split(s[1..], sep);
      JoinSplit(s[1..], sep);
      if s[0] == sep {
        assert ([""] + rest)[1..] == rest;
      } else {
        var parts := [[s[0]] + rest[0]] + rest[1..];
        assert parts[1..] == rest[1..];
        if |rest| > 1 {
          assert Join(rest, sep) == rest[0] + [sep] + Join(rest[1..], sep);
        }
      }
    }
  }

  /** A piece free of the separator, followed by more text, splits off as one piece. */
  lemma {:induction false} SplitCons(p: string, sep: char, t: string)
    requires sep !in p
    ensures Split(p + t, sep)[0] == p + Split(t, sep)[0]
    ensures Split(p + t, sep)[1..] == Split(t, sep)[1..]
    decreases |p|
  {
    if |p| > 0 {
      assert (p + t)[1..] == p[1..] + t;
      SplitCons(p[1..], sep, t);
      assert [p[0]] + (p[1..] + Split(t, sep)[0]) == p + Split(t, sep)[0];
    } else {
      assert p + t == t;
    }
  }

  /** Splitting a join of separator-free pieces gives the pieces back. */
  lemma {:induction false} SplitJoin(parts: seq<string>, sep: char)
    requires |parts| >= 1
    requires forall k :: 0 <= k < |parts| ==> sep !in parts[k]
    ensures Split(Join(parts, sep), sep) == parts
    decreases |parts|
  {
    if |parts| == 1 {
      SplitCons(parts[0], sep, "");
      assert parts[0] + "" == parts[0];
    } else {
      var tail := Join(parts[1..], sep);
      SplitJoin(parts[1..], sep);
      var u := [sep] + tail;
      assert u[0] == sep && u[1..] == tail;
      assert Split(u, sep) == [""] + parts[1..];
      SplitCons(parts[0], sep, u);
      assert Join(parts, sep) == parts[0] + u;
      var x := Split(parts[0] + u, sep);
      assert x[0] == parts[0] + "" == parts[0];
      assert x == [x[0]] + x[1..];
    }
  }

  /** `p` is the part of `s` before the first `sep`, or all of `s` if there is none. */
  predicate IsPrefixBefore(p: string, s: string, sep: char) {
    && |p| <= |s|
    && p == s[..|p|]
    && sep !in p
    && (|p| == |s| || s[|p|] == sep)
  }

  /** Only one string is the text before the first separator. */
  lemma {:induction false} PrefixBeforeUnique(p: string, q: string, s: string, sep: char)
    requires IsPrefixBefore(p, s, sep) && IsPrefixBefore(q, s, sep)
    ensures p == q
  {
  }

  /** The first piece of a split is the text before the first separator. */
  lemma {:induction false} FirstPieceIsPrefixBefore(s: string, sep: char)
    ensures IsPrefixBefore(Split(s, sep)[0], s, sep)
    decreases |s|
  {
    if |s| > 0 && s[0] != sep {
      FirstPieceIsPrefixBefore(s[1..], sep);
    }
  }

  // ---------------------------------------------------------------------------
  // String.prototype.trim
  // ---------------------------------------------------------------------------

  /** The characters `trim` removes: ECMAScript's WhiteSpace (tab, vertical tab,
      form feed, space, no-break space, byte order mark and the space separators of
      Unicode category Zs) and LineTerminator (line feed, carriage return, line and
      paragraph separators). */
  predicate IsJsWhitespace(c: char) {
    || c == '\t' || c == '\n' || c == '\U{000B}' || c == '\U{000C}' || c == '\r' || c == ' '
    || c == '\U{00A0}' || c == '\U{1680}' || ('\U{2000}' <= c <= '\U{200A}')
    || c == '\U{2028}' || c == '\U{2029}' || c == '\U{202F}' || c == '\U{205F}'
    || c == '\U{3000}' || c == '\U{FEFF}'
  }

  /** The length of the longest whitespace prefix of `s`. */
  function LeadingWhitespace(s: string): (n: nat)
    ensures n <= |s|
    ensures forall k :: 0 <= k < n ==> IsJsWhitespace(s[k])
    ensures n < |s| ==> !IsJsWhitespace(s[n])
    decreases |s|
  {
    if |s| > 0 && IsJsWhitespace(s[0]) then 1 + LeadingWhitespace(s[1..]) else 0
  }

  /** The length of the longest whitespace suffix of `s`. */
  function TrailingWhitespace(s: string): (n: nat)
    ensures n <= |s|
    ensures forall k :: |s| - n <= k < |s| ==> IsJsWhitespace(s[k])
    ensures n < |s| ==> !IsJsWhitespace(s[|s| - n - 1])
    decreases |s|
  {
    if |s| > 0 && IsJsWhitespace(s[|s| - 1]) then 1 + TrailingWhitespace(s[..|s| - 1]) else 0
  }

  /** `String.prototype.trim`: whitespace removed from both ends. */
  function Trim(s: string): string {
    var a := LeadingWhitespace(s);
    if a == |s| then "" else s[a..|s| - TrailingWhitespace(s)]
  }

  /** The trimmed string is the slice `s[a..a + |r|]` with only whitespace cut off on
      either side, and it neither starts nor ends with whitespace. */
  lemma {:induction false} TrimIsSlice(s: string)
    ensures var r, a := Trim(s), LeadingWhitespace(s);
      && a + |r| <= |s|
      && r == s[a..a + |r|]
      && (forall k :: 0 <= k < a ==> IsJsWhitespace(s[k]))
      && (forall k :: a + |r| <= k < |s| ==> IsJsWhitespace(s[k]))
      && (|r| > 0 ==> !IsJsWhitespace(r[0]) && !IsJsWhitespace(r[|r| - 1]))
  {
    var a := LeadingWhitespace(s);
    if a < |s| {
      var b := |s| - TrailingWhitespace(s);
      assert a < b by {
        assert !IsJsWhitespace(s[a]);
      }
      assert Trim(s) == s[a..b];
    }
  }

  /** Lowercasing never turns a character into whitespace or out of it. */
  lemma LowerKeepsWhitespace(c: char)
    ensures IsJsWhitespace(LowerChar(c)) <==> IsJsWhitespace(c)
  {
  }
}

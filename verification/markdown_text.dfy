/** The string helpers of the mdast → ProseMirror direction. */
module MarkdownText {

  /** A markdown space or tab: character codes 9 and 32. */
  predicate IsMarkdownSpace(c: char)
  {
    c == '\t' || c == ' '
  }

  /** Every character is a space or a tab. */
  predicate AllMarkdownSpace(s: string)
  {
    forall i :: 0 <= i < |s| ==> IsMarkdownSpace(s[i])
  }

  /** `value` without its leading spaces and tabs, used on the text after a hard break. */
  function TrimSpaceStart(value: string): (r: string)
    ensures |r| <= |value| && r == value[|value| - |r|..]
    ensures AllMarkdownSpace(value[..|value| - |r|])
    ensures |r| == 0 || !IsMarkdownSpace(r[0])
    decreases |value|
  {
    if |value| > 0 && IsMarkdownSpace(value[0]) then
      var r := TrimSpaceStart(value[1..]);
      assert value[..|value| - |r|] == [value[0]] + value[1..][..|value[1..]| - |r|];
      r
    else value
  }

  /** `trimMarkdownSpaceStart(value)`: the index walk over the character codes, stopping at
      the first code that is neither 9 nor 32 (past the end `charCodeAt` gives NaN). */
  method TrimMarkdownSpaceStart(value: string) returns (r: string)
    ensures r == TrimSpaceStart(value)
  {
    var index := 0;
    while index < |value| && IsMarkdownSpace(value[index])
      invariant 0 <= index <= |value|
      invariant TrimSpaceStart(value) == TrimSpaceStart(value[index..])
    {
      assert value[index..][1..] == value[index + 1..];
      index := index + 1;
    }
    r := value[index..];
  }

  /** Trimming twice trims no more than trimming once. */
  lemma TrimSpaceStartIdempotent(value: string)
    ensures TrimSpaceStart(TrimSpaceStart(value)) == TrimSpaceStart(value)
  {
    var r := TrimSpaceStart(value);
    if |r| > 0 {
      assert !IsMarkdownSpace(r[0]);
    }
  }

  /** The trim removes exactly the leading run of spaces and tabs: whatever blank prefix
      is put in front of a string that does not start with one, it comes back off. */
  lemma {:induction false} TrimSpaceStartExact(blanks: string, rest: string)
    requires AllMarkdownSpace(blanks)
    requires |rest| == 0 || !IsMarkdownSpace(rest[0])
    ensures TrimSpaceStart(blanks + rest) == rest
    decreases |blanks|
  {
    if |blanks| > 0 {
      assert (blanks + rest)[1..] == blanks[1..] + rest;
      TrimSpaceStartExact(blanks[1..], rest);
    } else {
      assert blanks + rest == rest;
    }
  }

  /** What `replaceNewlines` puts at position `i`: a space for a line feed that has a
      following character other than a line feed, the character itself otherwise. */
  function ReplacedAt(text: string, i: nat): char
    requires i < |text|
  {
    if text[i] == '\n' && i + 1 < |text| && text[i + 1] != '\n' then ' ' else text[i]
  }

  /** `text.replaceAll(/\n([^\n])/g, " $1")`: the global match scans left to right, and a
      match consumes the line feed and the character after it. */
  function ReplaceNewlines(text: string): (r: string)
    ensures |r| == |text|
    ensures forall i :: 0 <= i < |text| ==> r[i] == ReplacedAt(text, i)
    decreases |text|
  {
    if |text| >= 2 && text[0] == '\n' && text[1] != '\n' then
      var t := text[2..];
      var r := [' ', text[1]] + ReplaceNewlines(t);
      forall i | 2 <= i < |text|
        ensures r[i] == ReplacedAt(text, i)
      {
        assert r[i] == ReplaceNewlines(t)[i - 2] == ReplacedAt(t, i - 2);
        assert text[i] == t[i - 2];
        if i + 1 < |text| {
          assert text[i + 1] == t[i - 1];
        }
      }
      r
    else if |text| == 0 then ""
    else
      var t := text[1..];
      var r := [text[0]] + ReplaceNewlines(t);
      forall i | 1 <= i < |text|
        ensures r[i] == ReplacedAt(text, i)
      {
        assert r[i] == ReplaceNewlines(t)[i - 1] == ReplacedAt(t, i - 1);
        assert text[i] == t[i - 1];
        if i + 1 < |text| {
          assert text[i + 1] == t[i];
        }
      }
      r
  }

  /** A text without a line feed followed by another character is left alone. */
  lemma ReplaceNewlinesKeepsSingleLines(text: string)
    requires forall i :: 0 <= i < |text| - 1 ==> text[i] != '\n'
    ensures ReplaceNewlines(text) == text
  {
    var r := ReplaceNewlines(text);
    assert forall i :: 0 <= i < |text| ==> r[i] == ReplacedAt(text, i) == text[i];
  }

  /** The upper-case of one character (ASCII letters only). */
  function UpperChar(c: char): (u: char)
    ensures 'a' <= c <= 'z' ==> u as int == c as int - 32
    ensures !('a' <= c <= 'z') ==> u == c
  {
    if 'a' <= c <= 'z' then (c as int - 32) as char else c
  }

  /** `String(identifier).toUpperCase()`, the normal form of a definition identifier. */
  function Upper(s: string): (r: string)
    ensures |r| == |s|
    ensures forall i :: 0 <= i < |s| ==> r[i] == UpperChar(s[i])
  {
    seq(|s|, i requires 0 <= i < |s| => UpperChar(s[i]))
  }

  /** Normalising an identifier twice changes nothing more. */
  lemma UpperIdempotent(s: string)
    ensures Upper(Upper(s)) == Upper(s)
  {
    var u := Upper(s);
    forall i | 0 <= i < |s|
      ensures Upper(u)[i] == u[i]
    {
      assert !('a' <= u[i] <= 'z');
    }
  }

  /** An ASCII letter. */
  predicate IsAsciiLetter(c: char)
  {
    'A' <= c <= 'Z' || 'a' <= c <= 'z'
  }

  /** Two characters that are equal, or the same ASCII letter in the two cases, which sit
      32 code points apart. */
  predicate CaseVariant(c: char, d: char)
  {
    c == d || (IsAsciiLetter(c) && IsAsciiLetter(d) && (c as int - d as int == 32 || d as int - c as int == 32))
  }

  lemma CaseVariantUpper(c: char, d: char)
    requires CaseVariant(c, d)
    ensures UpperChar(c) == UpperChar(d)
  {
    if c != d {
      assert ('a' <= c <= 'z') != ('a' <= d <= 'z');
    }
  }

  /** Identifiers that differ only in the case of ASCII letters normalise alike. */
  lemma UpperIgnoresCase(a: string, b: string)
    requires |a| == |b|
    requires forall i :: 0 <= i < |a| ==> CaseVariant(a[i], b[i])
    ensures Upper(a) == Upper(b)
  {
    forall i | 0 <= i < |a|
      ensures Upper(a)[i] == Upper(b)[i]
    {
      CaseVariantUpper(a[i], b[i]);
    }
  }
}

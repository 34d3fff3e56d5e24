/** The text primitives the extractor relies on: Python's `str.strip`,
    `str.join`, `str.replace(c, "")` and the substring test `m in s`, plus
    BeautifulSoup's `get_text` over the text fragments under an element. */
module Text {

  /** The no-break space U+00A0 that the team extractor deletes. */
  const NBSP: char := '\U{A0}'

  /** The whitespace `strip` removes in this model: the ASCII spaces and the
      no-break space (Python counts U+00A0 as whitespace). */
  predicate IsSpace(c: char) {
    c == ' ' || c == '\t' || c == '\n' || c == '\r' || c == '\U{0B}' || c == '\U{0C}' || c == NBSP
  }

  /** True when `s` neither starts nor ends with whitespace. */
  predicate Trimmed(s: string) {
    s == [] || (!IsSpace(s[0]) && !IsSpace(s[|s| - 1]))
  }

  /** `s.lstrip()`: the longest suffix of `s` that does not start with whitespace. */
  function TrimStart(s: string): (r: string)
    ensures r == [] || !IsSpace(r[0])
  {
    if s != [] && IsSpace(s[0]) then TrimStart(s[1..]) else s
  }

  /** `s.rstrip()`: the longest prefix of `s` that does not end with whitespace. */
  function TrimEnd(s: string): (r: string)
    ensures |r| <= |s| && r == s[..|r|]
    ensures r == [] || !IsSpace(r[|r| - 1])
  {
    if s != [] && IsSpace(s[|s| - 1]) then TrimEnd(s[..|s| - 1]) else s
  }

  /** `s.strip()`. */
  function Strip(s: string): (r: string)
    ensures Trimmed(r)
  {
    TrimEnd(TrimStart(s))
  }

  /** Stripping a string that has no whitespace at either end changes nothing. */
  lemma StripTrimmed(s: string)
    requires Trimmed(s)
    ensures Strip(s) == s
  {
    assert TrimStart(s) == s;
    assert TrimEnd(s) == s;
  }

  /** `sep.join(parts)`. */
  function Join(parts: seq<string>, sep: string): string {
    if |parts| == 0 then ""
    else if |parts| == 1 then parts[0]
    else parts[0] + sep + Join(parts[1..], sep)
  }

  /** A joined string starts with the first part's first character and ends
      with the last part's last character. */
  lemma {:induction false} JoinEnds(parts: seq<string>, sep: string)
    requires |parts| > 0 && forall k :: 0 <= k < |parts| ==> parts[k] != []
    ensures var r := Join(parts, sep);
      r != [] && r[0] == parts[0][0] && r[|r| - 1] == parts[|parts| - 1][|parts[|parts| - 1]| - 1]
  {
    if |parts| > 1 {
      JoinEnds(parts[1..], sep);
      assert Join(parts, sep) == parts[0] + sep + Join(parts[1..], sep);
    }
  }

  /** The fragments that survive `strip=True`: each one stripped, the empty
      ones dropped, in document order. */
  function StrippedFragments(fragments: seq<string>): seq<string> {
    if fragments == [] then []
    else
      var head := Strip(fragments[0]);
      (if head == [] then [] else [head]) + StrippedFragments(fragments[1..])
  }

  /** Every surviving fragment is non-empty and has no whitespace at either end. */
  lemma {:induction false} StrippedFragmentsTrimmed(fragments: seq<string>)
    ensures forall k :: 0 <= k < |StrippedFragments(fragments)| ==>
      StrippedFragments(fragments)[k] != [] && Trimmed(StrippedFragments(fragments)[k])
  {
    if fragments != [] {
      StrippedFragmentsTrimmed(fragments[1..]);
      var head := Strip(fragments[0]);
      var rest := StrippedFragments(fragments[1..]);
      assert StrippedFragments(fragments) == (if head == [] then [] else [head]) + rest;
    }
  }

  /** BeautifulSoup's `get_text(sep, strip=True)`. */
  function GetText(fragments: seq<string>, sep: string): string {
    Join(StrippedFragments(fragments), sep)
  }

  /** `get_text(sep, strip=True)` never starts or ends with whitespace: the
      first and last surviving fragments are stripped and non-empty. */
  lemma GetTextTrimmed(fragments: seq<string>, sep: string)
    ensures Trimmed(GetText(fragments, sep))
  {
    var parts := StrippedFragments(fragments);
    if parts != [] {
      StrippedFragmentsTrimmed(fragments);
      JoinEnds(parts, sep);
    }
  }

  /** BeautifulSoup's `get_text()`: the fragments concatenated as they are. */
  function Concat(fragments: seq<string>): string {
    if fragments == [] then "" else fragments[0] + Concat(fragments[1..])
  }

  /** Concatenating two runs of fragments is concatenating their texts. */
  lemma {:induction false} ConcatAppend(a: seq<string>, b: seq<string>)
    ensures Concat(a + b) == Concat(a) + Concat(b)
  {
    if a != [] {
      ConcatAppend(a[1..], b);
      assert (a + b)[1..] == a[1..] + b;
    } else {
      assert a + b == b;
    }
  }

  /** `s.replace(c, "")`: `s` with every occurrence of `c` deleted. */
  function Without(s: string, c: char): (r: string)
    ensures c !in r
  {
    if s == [] then []
    else if s[0] == c then Without(s[1..], c)
    else [s[0]] + Without(s[1..], c)
  }

  /** Deleting `c` keeps every other character: a first or last character
      other than `c` stays first or last. */
  lemma {:induction false} WithoutEnds(s: string, c: char)
    requires s != []
    ensures s[0] != c ==> Without(s, c) != [] && Without(s, c)[0] == s[0]
    ensures s[|s| - 1] != c ==> Without(s, c) != [] && Without(s, c)[|Without(s, c)| - 1] == s[|s| - 1]
  {
    if |s| > 1 {
      WithoutEnds(s[1..], c);
    }
  }

  /** Deleting a character that does not occur changes nothing. */
  lemma {:induction false} WithoutAbsent(s: string, c: char)
    requires c !in s
    ensures Without(s, c) == s
  {
    if s != [] {
      assert s == [s[0]] + s[1..];
      WithoutAbsent(s[1..], c);
    }
  }

  /** `m` occurs in `s` starting at index `i`. */
  predicate OccursAt(s: string, m: string, i: int) {
    0 <= i && i + |m| <= |s| && s[i..i + |m|] == m
  }

  /** Python's substring test `m in s`. */
  predicate Contains(s: string, m: string) {
    exists i | 0 <= i <= |s| - |m| :: OccursAt(s, m, i)
  }
}

/** Object-name normalisation: `replace_whitespace`, i.e. Python's `text.strip().replace(" ", "_")`. */
module Names {

  /** The characters Python's `str.isspace()` accepts, which `str.strip()` with no argument removes. */
  predicate IsSpace(c: char) {
    ('\U{0009}' <= c <= '\U{000D}') || ('\U{001C}' <= c <= '\U{001F}') || c == ' '
    || c == '\U{0085}' || c == '\U{00A0}' || c == '\U{1680}' || ('\U{2000}' <= c <= '\U{200A}')
    || c == '\U{2028}' || c == '\U{2029}' || c == '\U{202F}' || c == '\U{205F}' || c == '\U{3000}'
  }

  /** The length of the maximal run of whitespace at the start of `s`. */
  function LeadingSpaces(s: string): (k: nat)
    ensures k <= |s|
  {
    if s == [] || !IsSpace(s[0]) then 0 else 1 + LeadingSpaces(s[1..])
  }

  lemma {:induction false} LeadingSpacesMaximal(s: string)
    ensures forall i :: 0 <= i < LeadingSpaces(s) ==> IsSpace(s[i])
    ensures LeadingSpaces(s) < |s| ==> !IsSpace(s[LeadingSpaces(s)])
  {
    if s != [] && IsSpace(s[0]) {
      LeadingSpacesMaximal(s[1..]);
    }
  }

  /** The length of the maximal run of whitespace at the end of `s`. */
  function TrailingSpaces(s: string): (k: nat)
    ensures k <= |s|
  {
    if s == [] || !IsSpace(s[|s| - 1]) then 0 else 1 + TrailingSpaces(s[..|s| - 1])
  }

  lemma {:induction false} TrailingSpacesMaximal(s: string)
    ensures forall i :: |s| - TrailingSpaces(s) <= i < |s| ==> IsSpace(s[i])
    ensures TrailingSpaces(s) < |s| ==> !IsSpace(s[|s| - 1 - TrailingSpaces(s)])
  {
    if s != [] && IsSpace(s[|s| - 1]) {
      TrailingSpacesMaximal(s[..|s| - 1]);
    }
  }

  /** Python's `s.strip()`: `s` without its leading and trailing whitespace. */
  function Strip(s: string): (r: string)
    ensures |r| <= |s|
  {
    var t := s[LeadingSpaces(s)..];
    t[..|t| - TrailingSpaces(t)]
  }

  /** `Strip(s)` is the middle of `s` between two maximal runs of whitespace: it neither starts
      nor ends with whitespace, and only whitespace was cut from either end. */
  lemma StripRemovesMaximalRuns(s: string)
    ensures var r := Strip(s);
      r == [] || (!IsSpace(r[0]) && !IsSpace(r[|r| - 1]))
    ensures var r := Strip(s);
      LeadingSpaces(s) + |r| <= |s| && r == s[LeadingSpaces(s)..LeadingSpaces(s) + |r|]
    ensures forall i :: 0 <= i < LeadingSpaces(s) ==> IsSpace(s[i])
    ensures forall i :: LeadingSpaces(s) + |Strip(s)| <= i < |s| ==> IsSpace(s[i])
  {
    LeadingSpacesMaximal(s);
    var t := s[LeadingSpaces(s)..];
    TrailingSpacesMaximal(t);
  }

  /** Python's `s.replace(" ", "_")`: every space becomes an underscore, nothing else changes. */
  function ReplaceSpaces(s: string): (r: string)
    ensures |r| == |s|
  {
    if s == [] then [] else ReplaceSpaces(s[..|s| - 1]) + [if s[|s| - 1] == ' ' then '_' else s[|s| - 1]]
  }

  lemma {:induction false} ReplaceSpacesPointwise(s: string)
    ensures forall i :: 0 <= i < |s| ==> ReplaceSpaces(s)[i] == (if s[i] == ' ' then '_' else s[i])
  {
    if s != [] {
      ReplaceSpacesPointwise(s[..|s| - 1]);
    }
  }

  /** `replace_whitespace(text)`: strip both ends, then turn each remaining space into `_`. */
  function ReplaceWhitespace(text: string): string
  {
    ReplaceSpaces(Strip(text))
  }

  /** A normalised name has no space, does not start or end with whitespace, is as long as the
      stripped text, and differs from it only where that has a space. */
  lemma ReplaceWhitespaceShape(text: string)
    ensures var r := ReplaceWhitespace(text);
      ' ' !in r && (r == [] || (!IsSpace(r[0]) && !IsSpace(r[|r| - 1])))
    ensures var r := ReplaceWhitespace(text);
      var t := Strip(text);
      |r| == |t| && forall i :: 0 <= i < |t| ==> r[i] == (if t[i] == ' ' then '_' else t[i])
  {
    StripRemovesMaximalRuns(text);
    ReplaceSpacesPointwise(Strip(text));
  }

  /** Normalising an already normalised name changes nothing. */
  lemma ReplaceWhitespaceIdempotent(text: string)
    ensures ReplaceWhitespace(ReplaceWhitespace(text)) == ReplaceWhitespace(text)
  {
    var r := ReplaceWhitespace(text);
    ReplaceWhitespaceShape(text);
    assert LeadingSpaces(r) == 0;
    assert TrailingSpaces(r) == 0;
    assert Strip(r) == r;
    ReplaceSpacesPointwise(r);
    assert ReplaceSpaces(r) == r;
  }

  predicate NoSpace(s: string) {
    forall i :: 0 <= i < |s| ==> !IsSpace(s[i])
  }

  /** Runs of spaces are not collapsed: `k` spaces between two words become `k` underscores. */
  lemma ReplaceWhitespaceKeepsRuns(a: string, b: string, k: nat)
    requires a != [] && b != [] && NoSpace(a) && NoSpace(b)
    ensures ReplaceWhitespace(a + seq(k, _ => ' ') + b) == a + seq(k, _ => '_') + b
  {
    var s := a + seq(k, _ => ' ') + b;
    assert s[0] == a[0] && s[|s| - 1] == b[|b| - 1];
    assert s[LeadingSpaces(s)..] == s;
    assert Strip(s) == s;
    ReplaceSpacesPointwise(s);
    var r := ReplaceWhitespace(s);
    assert forall i :: 0 <= i < |s| ==> r[i] == (a + seq(k, _ => '_') + b)[i];
  }
}

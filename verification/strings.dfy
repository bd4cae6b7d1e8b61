/**
 * Python's `str.strip`, the one string builtin the core relies on besides `re`.
 * `s.strip(chars)` removes every leading and trailing character that belongs to
 * `chars`; `s.strip()` does the same with the characters Python calls whitespace.
 */
module PyStrings {

  /** The characters for which Python's `str.isspace()` holds, the set `str.strip()` removes. */
  const Whitespace: set<char> := {
    '\t', '\n', '\U{000B}', '\U{000C}', '\r', '\U{001C}', '\U{001D}', '\U{001E}', '\U{001F}',
    ' ', '\U{0085}', '\U{00A0}', '\U{1680}',
    '\U{2000}', '\U{2001}', '\U{2002}', '\U{2003}', '\U{2004}', '\U{2005}', '\U{2006}',
    '\U{2007}', '\U{2008}', '\U{2009}', '\U{200A}',
    '\U{2028}', '\U{2029}', '\U{202F}', '\U{205F}', '\U{3000}'
  }

  /** The number of leading characters of `s` in `cs`. */
  function LeadingCount(s: string, cs: set<char>): (i: nat)
    ensures i <= |s|
    ensures forall k :: 0 <= k < i ==> s[k] in cs
    ensures i < |s| ==> s[i] !in cs
  {
    if s == [] || s[0] !in cs then 0
    else 1 + LeadingCount(s[1..], cs)
  }

  /** The length of `s` once its trailing characters in `cs` are cut off. */
  function TrailingCut(s: string, cs: set<char>): (j: nat)
    ensures j <= |s|
    ensures forall k :: j <= k < |s| ==> s[k] in cs
    ensures j > 0 ==> s[j - 1] !in cs
  {
    if s == [] || s[|s| - 1] !in cs then |s|
    else TrailingCut(s[..|s| - 1], cs)
  }

  /** `s[i..j]` is what is left of `s` when its ends are stripped of `cs`: only characters of
      `cs` lie outside the slice, and a non-empty slice neither starts nor ends with one. */
  ghost predicate StripBounds(s: string, cs: set<char>, i: int, j: int) {
    && 0 <= i <= j <= |s|
    && (forall k :: 0 <= k < i ==> s[k] in cs)
    && (forall k :: j <= k < |s| ==> s[k] in cs)
    && (i < j ==> s[i] !in cs && s[j - 1] !in cs)
  }

  ghost predicate StrippedFrom(r: string, s: string, cs: set<char>) {
    exists i, j :: StripBounds(s, cs, i, j) && r == s[i..j]
  }

  /** `s.strip(cs)`. */
  function Strip(s: string, cs: set<char>): (r: string)
    ensures StrippedFrom(r, s, cs)
  {
    var i := LeadingCount(s, cs);
    var j := i + TrailingCut(s[i..], cs);
    assert forall k :: j <= k < |s| ==> s[k] == s[i..][k - i];
    assert StripBounds(s, cs, i, j);
    s[i..j]
  }

  /** Stripping has exactly one outcome: any slice meeting the description is `Strip`'s. */
  lemma StripUnique(r: string, s: string, cs: set<char>)
    requires StrippedFrom(r, s, cs)
    ensures r == Strip(s, cs)
  {
    var i, j :| StripBounds(s, cs, i, j) && r == s[i..j];
    if i == j {
      AllStripped(s, cs, i);
    } else {
      SameBounds(s, cs, i, j);
    }
  }

  /** When the description's slice is empty, every character is in `cs`, and `Strip` is empty too. */
  lemma AllStripped(s: string, cs: set<char>, i: int)
    requires StripBounds(s, cs, i, i)
    ensures Strip(s, cs) == []
  {
    var i' := LeadingCount(s, cs);
    assert forall k :: 0 <= k < |s| ==> s[k] in cs;
    assert i' == |s|;
  }

  /** A non-empty slice meeting the description starts and ends where `Strip` cuts. */
  lemma SameBounds(s: string, cs: set<char>, i: int, j: int)
    requires StripBounds(s, cs, i, j) && i < j
    ensures Strip(s, cs) == s[i..j]
  {
    var i' := LeadingCount(s, cs);
    assert i' == i;
    var t := s[i..];
    var n := TrailingCut(t, cs);
    assert t[j - i - 1] == s[j - 1];
    assert forall k :: j - i <= k < |t| ==> t[k] == s[k + i];
    assert n == j - i;
  }
}

/**
 * The Markdown-link rewriter of the chat endpoint (`markdown_to_html` in main.py).
 *
 * The source is a single `re.sub` with the pattern `\[([^\]]+)\]\(([^)]+)\)`.
 * Python's `re.sub` scans left to right: at each position it tries the pattern,
 * replaces a match and resumes after it, or copies one character and moves on.
 * Because both groups are greedy negated classes, a match at a position is
 * determined by the text alone: the link text is the run of non-`]` characters
 * after `[` (it must be non-empty and be followed by `]`), and the URL is the run of
 * non-`)` characters after `](` (non-empty, followed by `)`). Negated classes also
 * match newlines. Nothing is escaped.
 *
 * The scanner is written as `Tokenize`, which cuts the input into plain characters
 * and links, and `Render`, which prints each piece; `MarkdownToHtml` is the two
 * composed.
 */
module Markdown {
  import opened Wrappers

  /** One piece of the scanned input: a character copied verbatim, or a link. */
  datatype Segment = Plain(c: char) | Link(text: string, url: string)

  /** What the pattern demands of the two groups. */
  predicate ValidLink(text: string, url: string) {
    |text| > 0 && |url| > 0 && ']' !in text && ')' !in url
  }

  /** The Markdown form `[text](url)`. */
  function LinkSource(text: string, url: string): string {
    "[" + text + "](" + url + ")"
  }

  /** The replacement template `<a href="\2" target="_blank">\1</a>`. */
  function Anchor(text: string, url: string): string {
    "<a href=\"" + url + "\" target=\"_blank\">" + text + "</a>"
  }

  /** A link `[t](u)` occurs in `s` starting at index `i`. */
  ghost predicate LinkAt(s: string, i: int, t: string, u: string) {
    0 <= i <= |s| && ValidLink(t, u) && LinkSource(t, u) <= s[i..]
  }

  /** `s` holds no occurrence of the link syntax anywhere. */
  ghost predicate NoLink(s: string) {
    forall i, t, u :: !LinkAt(s, i, t, u)
  }

  /** The first index at or after `from` holding `c`, if any. */
  function FindChar(s: string, c: char, from: nat): (r: Option<nat>)
    requires from <= |s|
    ensures r.Some? ==> from <= r.value < |s| && s[r.value] == c
    ensures r.Some? ==> forall i :: from <= i < r.value ==> s[i] != c
    ensures r.None? ==> forall i :: from <= i < |s| ==> s[i] != c
    decreases |s| - from
  {
    if from == |s| then None
    else if s[from] == c then Some(from)
    else FindChar(s, c, from + 1)
  }

  /** Tries the pattern at the start of `s` (one step of the regex engine). */
  function MatchLink(s: string): (r: Option<Segment>)
    ensures r.Some? ==> r.value.Link? && ValidLink(r.value.text, r.value.url)
    ensures r.Some? ==> LinkSource(r.value.text, r.value.url) <= s
  {
    if |s| == 0 || s[0] != '[' then None
    else match FindChar(s, ']', 1)
      case None => None
      case Some(j) =>
        if j == 1 || j + 1 >= |s| || s[j + 1] != '(' then None
        else match FindChar(s, ')', j + 2)
          case None => None
          case Some(k) =>
            if k == j + 2 then None
            else
              assert s[..k + 1] == LinkSource(s[1..j], s[j + 2..k]);
              Some(Link(s[1..j], s[j + 2..k]))
  }

  /** The scan of `re.sub`: leftmost matches, never overlapping, other characters one by one. */
  function Tokenize(s: string): (r: seq<Segment>)
    ensures forall i :: 0 <= i < |r| && r[i].Link? ==> ValidLink(r[i].text, r[i].url)
    decreases |s|
  {
    if s == [] then []
    else match MatchLink(s)
      case Some(l) => [l] + Tokenize(s[|LinkSource(l.text, l.url)|..])
      case None => [Plain(s[0])] + Tokenize(s[1..])
  }

  /** The input text a segment was scanned from. */
  function Source(g: Segment): string {
    match g
    case Plain(c) => [c]
    case Link(t, u) => LinkSource(t, u)
  }

  /** The output text a segment is replaced by. */
  function Html(g: Segment): string {
    match g
    case Plain(c) => [c]
    case Link(t, u) => Anchor(t, u)
  }

  function Unparse(gs: seq<Segment>): string {
    if gs == [] then [] else Source(gs[0]) + Unparse(gs[1..])
  }

  function Render(gs: seq<Segment>): string {
    if gs == [] then [] else Html(gs[0]) + Render(gs[1..])
  }

  function LinkCount(gs: seq<Segment>): nat {
    if gs == [] then 0 else (if gs[0].Link? then 1 else 0) + LinkCount(gs[1..])
  }

  /** `markdown_to_html(md_text)`. */
  function MarkdownToHtml(s: string): string {
    Render(Tokenize(s))
  }

  // ---------------------------------------------------------------------------
  // The pattern at one position
  // ---------------------------------------------------------------------------

  /** Whenever `[t](u)` starts `s`, the pattern matches exactly it: the text stops at the first `]`. */
  lemma MatchLinkComplete(s: string, t: string, u: string)
    requires ValidLink(t, u) && LinkSource(t, u) <= s
    ensures MatchLink(s) == Some(Link(t, u))
  {
    var src := LinkSource(t, u);
    var j := |t| + 1;
    var k := |t| + |u| + 3;
    LinkSourceLayout(t, u);
    assert s[0] == '[' && s[j] == ']' && s[j + 1] == '(' && s[k] == ')';
    forall i | 1 <= i < j ensures s[i] != ']' {
      assert s[i] == src[i];
    }
    forall i | j + 2 <= i < k ensures s[i] != ')' {
      assert s[i] == src[i];
    }
    PrefixSlice(src, s, 1, j);
    PrefixSlice(src, s, j + 2, k);
  }

  /** Where the brackets and the two groups sit in `[t](u)`. */
  lemma LinkSourceLayout(t: string, u: string)
    ensures var src := LinkSource(t, u); var j := |t| + 1; var k := |t| + |u| + 3;
      && |src| == k + 1
      && src[0] == '[' && src[j] == ']' && src[j + 1] == '(' && src[k] == ')'
      && (forall i :: 1 <= i < j ==> src[i] == t[i - 1])
      && (forall i :: j + 2 <= i < k ==> src[i] == u[i - j - 2])
      && src[1..j] == t && src[j + 2..k] == u
  {
  }

  /** A slice of a prefix is the same slice of the whole. */
  lemma PrefixSlice(p: string, s: string, a: int, b: int)
    requires p <= s && 0 <= a <= b <= |p|
    ensures s[a..b] == p[a..b]
  {
  }


  /** The pattern matches at the start of `s` exactly when some link starts there. */
  lemma MatchLinkIff(s: string)
    ensures MatchLink(s).Some? <==> exists t, u :: LinkAt(s, 0, t, u)
  {
    if MatchLink(s).Some? {
      var l := MatchLink(s).value;
      assert s[0..] == s;
      assert LinkAt(s, 0, l.text, l.url);
    } else if exists t, u :: LinkAt(s, 0, t, u) {
      var t, u :| LinkAt(s, 0, t, u);
      assert s[0..] == s;
      MatchLinkComplete(s, t, u);
    }
  }

  // ---------------------------------------------------------------------------
  // Properties of the scan
  // ---------------------------------------------------------------------------

  /** The segments put back together give the input: matches are in order, never overlap,
      and every character outside them is kept in place. */
  lemma {:induction false} TokenizeRoundTrip(s: string)
    ensures Unparse(Tokenize(s)) == s
    decreases |s|
  {
    if s != [] {
      match MatchLink(s)
      case Some(l) =>
        var n := |LinkSource(l.text, l.url)|;
        TokenizeRoundTrip(s[n..]);
        UnparseCons(l, Tokenize(s[n..]));
        assert s == s[..n] + s[n..];
      case None =>
        TokenizeRoundTrip(s[1..]);
        UnparseCons(Plain(s[0]), Tokenize(s[1..]));
        assert s == [s[0]] + s[1..];
    }
  }

  lemma UnparseCons(g: Segment, gs: seq<Segment>)
    ensures Unparse([g] + gs) == Source(g) + Unparse(gs)
  {
    assert ([g] + gs)[1..] == gs;
  }

  lemma {:induction false} RenderLength(gs: seq<Segment>)
    ensures |Render(gs)| == |Unparse(gs)| + 27 * LinkCount(gs)
  {
    if gs != [] {
      RenderLength(gs[1..]);
    }
  }

  /** Each link lengthens the text by exactly 27 characters; nothing else changes the length. */
  lemma MarkdownLength(s: string)
    ensures |MarkdownToHtml(s)| == |s| + 27 * LinkCount(Tokenize(s))
  {
    RenderLength(Tokenize(s));
    TokenizeRoundTrip(s);
  }

  /** A link at the front is replaced by exactly its anchor, text and URL copied verbatim. */
  lemma LinkRewritten(t: string, u: string, rest: string)
    requires ValidLink(t, u)
    ensures MarkdownToHtml(LinkSource(t, u) + rest) == Anchor(t, u) + MarkdownToHtml(rest)
  {
    var s := LinkSource(t, u) + rest;
    MatchLinkComplete(s, t, u);
    assert s[|LinkSource(t, u)|..] == rest;
  }

  /** A character at which no link starts is copied unchanged. */
  lemma PlainCopied(c: char, rest: string)
    requires forall t, u :: !LinkAt([c] + rest, 0, t, u)
    ensures MarkdownToHtml([c] + rest) == [c] + MarkdownToHtml(rest)
  {
    MatchLinkIff([c] + rest);
    assert ([c] + rest)[1..] == rest;
  }

  /** Text without any link occurrence comes back unchanged. */
  lemma {:induction false} NoLinkUnchanged(s: string)
    requires NoLink(s)
    ensures MarkdownToHtml(s) == s
    decreases |s|
  {
    if s != [] {
      MatchLinkIff(s);
      forall i, t, u | LinkAt(s[1..], i, t, u) ensures false {
        assert s[1..][i..] == s[i + 1..];
        assert LinkAt(s, i + 1, t, u);
      }
      NoLinkUnchanged(s[1..]);
      assert s == [s[0]] + s[1..];
    }
  }

  /** Any link occurrence, even one swallowed by an earlier match, means the scan matched something. */
  lemma {:induction false} LinkAtIsMatched(s: string, i: int, t: string, u: string)
    requires LinkAt(s, i, t, u)
    ensures LinkCount(Tokenize(s)) >= 1
    decreases |s|
  {
    if MatchLink(s).None? {
      if i == 0 {
        MatchLinkIff(s);
        assert false;
      }
      assert s[1..][i - 1..] == s[i..];
      assert LinkAt(s[1..], i - 1, t, u);
      LinkAtIsMatched(s[1..], i - 1, t, u);
    }
  }

  /** The rewriter changes its input if and only if the input holds a link. */
  lemma UnchangedIffNoLink(s: string)
    ensures MarkdownToHtml(s) == s <==> NoLink(s)
  {
    if NoLink(s) {
      NoLinkUnchanged(s);
    } else {
      var i, t, u :| LinkAt(s, i, t, u);
      LinkAtIsMatched(s, i, t, u);
      MarkdownLength(s);
    }
  }

  /** Without a `[` there is nothing to rewrite. */
  lemma NoBracketUnchanged(s: string)
    requires '[' !in s
    ensures MarkdownToHtml(s) == s
  {
    if !NoLink(s) {
      var i, t, u :| LinkAt(s, i, t, u);
      LinkAtShape(s, i, t, u);
      assert false;
    }
    NoLinkUnchanged(s);
  }

  // ---------------------------------------------------------------------------
  // Worked cases
  // ---------------------------------------------------------------------------

  /** Link text stops at the first `]`, and a `[` inside it is ordinary text:
      `[x [y](z)` becomes an anchor with text `x [y`. */
  lemma InnerBracketIsText(x: string, y: string, z: string)
    requires ']' !in x && ']' !in y && |z| > 0 && ')' !in z
    ensures MarkdownToHtml("[" + x + "[" + y + "](" + z + ")") == Anchor(x + "[" + y, z)
  {
    var t := x + "[" + y;
    assert ']' !in t by {
      forall i | 0 <= i < |t| ensures t[i] != ']' {
        if i < |x| { assert t[i] == x[i]; }
        else if i > |x| { assert t[i] == y[i - |x| - 1]; }
      }
    }
    LinkLiteral(t, z, "[" + x + "[" + y + "](" + z + ")");
    LinkRewritten(t, z, "");
    assert MarkdownToHtml("") == "";
  }

  /** Helper: `[t](u)` followed by nothing, written out. */
  lemma LinkLiteral(t: string, u: string, s: string)
    requires s == "[" + t + "](" + u + ")"
    ensures s == LinkSource(t, u) + ""
  {
  }

  /** An occurrence inside an earlier match is not rewritten: in `[t](x[y](z)` the link
      `[y](z)` occurs, but the scan has already taken `x[y](z` as the first link's URL
      (so `[a](b[c](d)` becomes one anchor to `b[c](d`). */
  lemma InnerOccurrenceInUrl(t: string, x: string, y: string, z: string)
    requires ValidLink(t, x + "[" + y + "](" + z) && ValidLink(y, z)
    ensures LinkAt(LinkSource(t, x + "[" + y + "](" + z), |t| + 3 + |x|, y, z)
    ensures MarkdownToHtml(LinkSource(t, x + "[" + y + "](" + z)) == Anchor(t, x + "[" + y + "](" + z)
  {
    var u := x + "[" + y + "](" + z;
    var s := LinkSource(t, u);
    var front := "[" + t + "](" + x;
    assert s == front + LinkSource(y, z);
    assert s[|front|..] == LinkSource(y, z);
    assert s == s + "";
    LinkRewritten(t, u, "");
  }

  /** Empty link text keeps the brackets literal: `[](u)` is unchanged when `u` holds no `[`. */
  lemma EmptyTextStaysLiteral(u: string)
    requires '[' !in u
    ensures MarkdownToHtml("[](" + u + ")") == "[](" + u + ")"
  {
    var s := "[](" + u + ")";
    assert forall i :: 3 <= i < 3 + |u| ==> s[i] == u[i - 3];
    EmptyPartsNoLink(s);
  }

  /** An empty URL keeps the brackets literal: `[t]()` is unchanged when `t` holds no `(`. */
  lemma EmptyUrlStaysLiteral(t: string)
    requires '(' !in t
    ensures MarkdownToHtml("[" + t + "]()") == "[" + t + "]()"
  {
    var s := "[" + t + "]()";
    assert forall i :: 1 <= i < 1 + |t| ==> s[i] == t[i - 1];
    EmptyPartsNoLink(s);
  }

  /** Helper for the worked cases: every `[` is followed directly by `]` or every `(` directly by `)`. */
  lemma EmptyPartsNoLink(s: string)
    requires (forall i :: 0 <= i < |s| - 1 && s[i] == '[' ==> s[i + 1] == ']')
          || (forall i :: 0 <= i < |s| - 1 && s[i] == '(' ==> s[i + 1] == ')')
    ensures MarkdownToHtml(s) == s
  {
    if !NoLink(s) {
      var i, t, u :| LinkAt(s, i, t, u);
      LinkAtShape(s, i, t, u);
      assert false;
    }
    NoLinkUnchanged(s);
  }

  /** What an occurrence of `[t](u)` at `i` says about the characters of `s`. */
  lemma LinkAtShape(s: string, i: int, t: string, u: string)
    requires LinkAt(s, i, t, u)
    ensures i + |t| + 3 < |s|
    ensures s[i] == '[' && s[i + 1] != ']'
    ensures s[i + |t| + 2] == '(' && s[i + |t| + 3] != ')'
  {
    var src := LinkSource(t, u);
    assert s[i..][0] == src[0];
    assert s[i..][1] == src[1] == t[0];
    assert s[i..][|t| + 2] == src[|t| + 2];
    assert s[i..][|t| + 3] == src[|t| + 3] == u[0];
  }
}

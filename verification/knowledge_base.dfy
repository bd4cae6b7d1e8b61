/**
 * The index-build script (build_knowledge_vector_db.py): cutting the knowledge file
 * into one section per course heading, tagging the splitter's chunks, and the
 * decision between loading a persisted vector store and building a new one.
 *
 * `re.split(r'(### [A-Za-z0-9 &]+)\n', text)` is modelled by `Split`; the
 * text splitter, the id generator and the vector store are parameters.
 */
module KnowledgeBase {
  import opened Wrappers
  import opened PyStrings

  /** The `source` metadata every section and chunk carries. */
  const KnowledgeFile := "knowledge.txt"

  /** The characters `strip(" #\n")` removes from a heading. */
  const HeadingTrim: set<char> := {' ', '#', '\n'}

  /** A section of the knowledge file: a LangChain `Document` with `source` and `course` metadata. */
  datatype Section = Section(content: string, source: string, course: string)

  /** A piece of a section as stored in the vector store, with its `chunk_id`. */
  datatype Chunk = Chunk(text: string, source: string, course: string, chunkId: string)

  // ---------------------------------------------------------------------------
  // The heading pattern and re.split
  // ---------------------------------------------------------------------------

  /** The class `[A-Za-z0-9 &]` (ASCII only: the pattern has no flags). */
  predicate IsHeadingChar(c: char) {
    ('A' <= c <= 'Z') || ('a' <= c <= 'z') || ('0' <= c <= '9') || c == ' ' || c == '&'
  }

  /** `s` starts with the literal `### `. */
  predicate HashPrefix(s: string) {
    |s| >= 4 && s[0] == '#' && s[1] == '#' && s[2] == '#' && s[3] == ' '
  }

  /** The pattern matches at the start of `s` and its newline is at index `n`:
      `### `, then one or more heading characters, then `\n`. */
  ghost predicate HeadingEndsAt(s: string, n: int) {
    5 <= n < |s| && HashPrefix(s) && (forall i :: 4 <= i < n ==> IsHeadingChar(s[i])) && s[n] == '\n'
  }

  /** What the capturing group `(### [A-Za-z0-9 &]+)` can hold. */
  ghost predicate IsHeadingGroup(g: string) {
    |g| >= 5 && HashPrefix(g) && forall i :: 4 <= i < |g| ==> IsHeadingChar(g[i])
  }

  /** The end of the run of heading characters starting at `from`. */
  function RunEnd(s: string, from: nat): (e: nat)
    requires from <= |s|
    ensures from <= e <= |s|
    ensures forall i :: from <= i < e ==> IsHeadingChar(s[i])
    ensures e < |s| ==> !IsHeadingChar(s[e])
    decreases |s| - from
  {
    if from == |s| || !IsHeadingChar(s[from]) then from else RunEnd(s, from + 1)
  }

  /** One attempt of the pattern at the start of `s`: the index of its newline, if it matches. */
  function HeadingAt(s: string): (r: Option<nat>)
    ensures r.Some? ==> HeadingEndsAt(s, r.value)
  {
    if |s| < 5 || !HashPrefix(s) then None
    else
      var e := RunEnd(s, 4);
      if e > 4 && e < |s| && s[e] == '\n' then Some(e) else None
  }

  /** The pattern matches at the start of `s` whenever it can: `HeadingAt` misses no match. */
  lemma HeadingAtComplete(s: string, n: int)
    requires HeadingEndsAt(s, n)
    ensures HeadingAt(s) == Some(n)
  {
    assert !IsHeadingChar(s[n]);
  }

  /** `re.split` with one capturing group: `[preamble, h1, c1, ..., hn, cn]`. Matches are tried
      at every position from the left; after a match the scan resumes past its newline,
      which belongs to no piece. */
  function Split(s: string): (r: seq<string>)
    ensures |r| % 2 == 1
    ensures forall i :: 0 <= i < |r| && i % 2 == 1 ==> IsHeadingGroup(r[i])
    decreases |s|
  {
    if s == [] then [""]
    else match HeadingAt(s)
      case Some(n) => ["", s[..n]] + Split(s[n + 1..])
      case None =>
        var rest := Split(s[1..]);
        [[s[0]] + rest[0]] + rest[1..]
  }

  lemma SplitAtMatch(s: string, n: nat)
    requires HeadingAt(s) == Some(n)
    ensures Split(s) == ["", s[..n]] + Split(s[n + 1..])
  {
  }

  lemma SplitPastChar(s: string)
    requires s != [] && HeadingAt(s).None?
    ensures Split(s) == [[s[0]] + Split(s[1..])[0]] + Split(s[1..])[1..]
  {
  }

  /** The inverse of `Split`: the pieces with each heading's newline put back. */
  function Join(r: seq<string>): string
    decreases |r|
  {
    if r == [] then "" else if |r| == 1 then r[0] else r[0] + (r[1] + ("\n" + Join(r[2..])))
  }

  /** The number of positions of `s` at which the heading pattern matches. */
  function CountHeadings(s: string): nat
    decreases |s|
  {
    if s == [] then 0
    else (if HeadingAt(s).Some? then 1 else 0) + CountHeadings(s[1..])
  }

  /** A heading's course label: `heading.strip(" #\n")`. */
  function Label(heading: string): string {
    Strip(heading, HeadingTrim)
  }

  /** The documents the odd-index loop builds from the pieces of `re.split`: the heading at
      index 1 with the content at index 2, then the same for the pieces from index 2 on. */
  function SectionsOf(parts: seq<string>): seq<Section>
    decreases |parts|
  {
    if |parts| < 3 then []
    else [Section(Strip(parts[2], Whitespace), KnowledgeFile, Label(parts[1]))] + SectionsOf(parts[2..])
  }

  /** `2n+1` pieces give `n` sections. */
  lemma {:induction false} SectionsLength(parts: seq<string>, n: nat)
    requires |parts| == 2 * n + 1
    ensures |SectionsOf(parts)| == n
    decreases n
  {
    if n > 0 {
      SectionsLength(parts[2..], n - 1);
    }
  }

  /** The sections from piece `i - 1` on start with the pair at indices `i` and `i + 1`. */
  lemma NextSection(parts: seq<string>, i: nat)
    requires 1 <= i && i + 1 < |parts|
    ensures SectionsOf(parts[i - 1..]) ==
      [Section(Strip(parts[i + 1], Whitespace), KnowledgeFile, Label(parts[i]))] + SectionsOf(parts[i + 1..])
  {
    assert parts[i - 1..][2..] == parts[i + 1..];
  }

  // ---------------------------------------------------------------------------
  // The section loop (lines 47-56)
  // ---------------------------------------------------------------------------

  /** Splits the knowledge text and pairs every heading with the content that follows it;
      the text before the first heading is dropped. */
  method SplitSections(knowledgeText: string) returns (docs: seq<Section>)
    ensures docs == SectionsOf(Split(knowledgeText))
    ensures |docs| == CountHeadings(knowledgeText)
  {
    var courseSections := Split(knowledgeText);
    ghost var m := CountHeadings(knowledgeText);
    SplitCount(knowledgeText);
    docs := [];
    var i := 1;
    while i < |courseSections|
      invariant i == 2 * |docs| + 1 && |docs| <= m
      invariant SectionsOf(courseSections) == docs + SectionsOf(courseSections[i - 1..])
    {
      // i and |courseSections| are both odd, so i + 1 is in bounds
      var heading := Label(courseSections[i]);
      var content := Strip(courseSections[i + 1], Whitespace);
      var section := Section(content, KnowledgeFile, heading);
      NextSection(courseSections, i);
      AppendAssoc(docs, [section], SectionsOf(courseSections[i + 1..]));
      docs := docs + [section];
      i := i + 2;
    }
    assert |courseSections[i - 1..]| == 1;
  }

  // ---------------------------------------------------------------------------
  // The chunk-tagging loop (lines 75-81)
  // ---------------------------------------------------------------------------

  /** The chunks of one section, tagged with its course and the ids drawn from `first` on. */
  function Tagged(doc: Section, pieces: seq<string>, first: nat, mint: nat -> string): (r: seq<Chunk>)
  {
    seq(|pieces|, j requires 0 <= j < |pieces| => Chunk(pieces[j], doc.source, doc.course, mint(first + j)))
  }

  /** `split_docs`: every section's chunks in turn; `mint(k)` is the `k`-th id drawn. */
  function AllChunks(docs: seq<Section>, split: string -> seq<string>, mint: nat -> string): seq<Chunk>
    decreases |docs|
  {
    if docs == [] then []
    else
      var prev := AllChunks(docs[..|docs| - 1], split, mint);
      var doc := docs[|docs| - 1];
      prev + Tagged(doc, split(doc.content), |prev|, mint)
  }

  /** Runs the splitter over each section and tags each chunk with an id and the section's course. */
  method TagChunks(docs: seq<Section>, split: string -> seq<string>, mint: nat -> string)
    returns (splitDocs: seq<Chunk>)
    ensures splitDocs == AllChunks(docs, split, mint)
  {
    splitDocs := [];
    for d := 0 to |docs|
      invariant splitDocs == AllChunks(docs[..d], split, mint)
    {
      var doc := docs[d];
      var chunks := split(doc.content);
      ghost var before := splitDocs;
      for j := 0 to |chunks|
        invariant splitDocs == before + Tagged(doc, chunks[..j], |before|, mint)
      {
        var chunk := Chunk(chunks[j], doc.source, doc.course, mint(|splitDocs|));
        splitDocs := splitDocs + [chunk];
      }
      assert chunks[..|chunks|] == chunks;
      assert docs[..d + 1][..d] == docs[..d];
    }
    assert docs[..|docs|] == docs;
  }

  // ---------------------------------------------------------------------------
  // Load or build (line 88)
  // ---------------------------------------------------------------------------

  /** The persistence directory as the script sees it: absent, or present with its entries. */
  datatype DbDirectory = Missing | Present(entries: seq<string>)

  /** The vector store the script ends with: the persisted one, or a new one holding `embedded`. */
  datatype VectorDb = Loaded | Built(embedded: seq<Chunk>)

  /** `os.path.exists(VECTOR_DB_DIR) and os.listdir(VECTOR_DB_DIR)`. */
  predicate HasPersistedDb(dir: DbDirectory) {
    dir.Present? && dir.entries != []
  }

  /** The whole script: sections, chunks, then load the existing store or embed the chunks. */
  method BuildKnowledgeVectorDb(knowledgeText: string, dir: DbDirectory,
                                split: string -> seq<string>, mint: nat -> string)
    returns (db: VectorDb)
    ensures HasPersistedDb(dir) ==> db == Loaded
    ensures !HasPersistedDb(dir) ==> db == Built(AllChunks(SectionsOf(Split(knowledgeText)), split, mint))
  {
    var docs := SplitSections(knowledgeText);
    var splitDocs := TagChunks(docs, split, mint);
    if HasPersistedDb(dir) {
      db := Loaded;
    } else {
      db := Built(splitDocs);
    }
  }

  // ---------------------------------------------------------------------------
  // Lemmas: the split
  // ---------------------------------------------------------------------------

  lemma JoinHeading(g: string, r: seq<string>)
    requires r != []
    ensures Join(["", g] + r) == g + ("\n" + Join(r))
  {
    var parts := ["", g] + r;
    assert parts[0] == "" && parts[1] == g && parts[2..] == r;
  }

  lemma JoinConsHead(c: char, x: string, tail: seq<string>)
    ensures Join([[c] + x] + tail) == [c] + Join([x] + tail)
  {
    var parts := [[c] + x] + tail;
    var parts' := [x] + tail;
    if |tail| > 0 {
      assert parts[0] == [c] + x && parts[1] == tail[0] && parts[2..] == tail[1..];
      assert parts'[0] == x && parts'[1] == tail[0] && parts'[2..] == tail[1..];
      AppendAssoc([c], x, tail[0] + ("\n" + Join(tail[1..])));
    } else {
      assert parts[0] == [c] + x && parts'[0] == x;
    }
  }

  lemma AppendAssoc<T>(a: seq<T>, b: seq<T>, c: seq<T>)
    ensures (a + b) + c == a + (b + c)
  {
  }

  /** Putting the pieces back together gives the text: nothing but the headings' newlines
      is dropped, and pieces keep their order. */
  lemma {:induction false} SplitJoin(s: string)
    ensures Join(Split(s)) == s
    decreases |s|
  {
    if s != [] {
      if HeadingAt(s).Some? {
        var n := HeadingAt(s).value;
        SplitJoinAtMatch(s, n);
      } else {
        SplitJoinPastChar(s);
      }
    }
  }

  lemma SplitNonEmpty(s: string)
    ensures Split(s) != []
  {
    assert |Split(s)| % 2 == 1;
  }

  /** The step of `SplitJoin` at a match. */
  lemma {:induction false} SplitJoinAtMatch(s: string, n: nat)
    requires HeadingAt(s) == Some(n)
    ensures Join(Split(s)) == s
    decreases |s|, 0
  {
    var tail := s[n + 1..];
    SplitNonEmpty(tail);
    SplitJoin(tail);
    SplitAtMatch(s, n);
    JoinHeading(s[..n], Split(tail));
    CutAtChar(s, n);
  }

  /** A string is the part before index `n`, its character there, and the part after. */
  lemma CutAtChar(s: string, n: nat)
    requires n < |s|
    ensures s == s[..n] + ([s[n]] + s[n + 1..])
  {
  }

  /** The step of `SplitJoin` at a position where the pattern does not match. */
  lemma {:induction false} SplitJoinPastChar(s: string)
    requires s != [] && HeadingAt(s).None?
    ensures Join(Split(s)) == s
    decreases |s|, 0
  {
    var tail := s[1..];
    var rest := Split(tail);
    SplitPastChar(s);
    SplitJoin(tail);
    JoinConsHead(s[0], rest[0], rest[1..]);
    assert [rest[0]] + rest[1..] == rest;
    assert s == [s[0]] + tail;
  }

  /** Two heading matches never overlap: none starts inside another. */
  lemma NoOverlap(s: string, n: nat, p: nat)
    requires HeadingAt(s) == Some(n) && 1 <= p <= n
    ensures HeadingAt(s[p..]).None?
  {
    assert s[3] == ' ';
    if HeadingAt(s[p..]).Some? {
      assert false;
    }
  }

  /** Positions where the pattern does not match add nothing to the count. */
  lemma {:induction false} CountSkip(s: string, p: nat)
    requires p <= |s|
    requires forall q :: 0 <= q < p ==> HeadingAt(s[q..]).None?
    ensures CountHeadings(s) == CountHeadings(s[p..])
    decreases p
  {
    if p > 0 {
      assert s[0..] == s;
      forall q | 0 <= q < p - 1 ensures HeadingAt(s[1..][q..]).None? {
        assert s[1..][q..] == s[q + 1..];
      }
      CountSkip(s[1..], p - 1);
      assert s[1..][p - 1..] == s[p..];
    }
  }

  /** `re.split` yields one heading and one content piece per match, plus the preamble,
      which is why `i + 1` is always in bounds in the odd-index loop. */
  lemma {:induction false} SplitCount(s: string)
    ensures |Split(s)| == 2 * CountHeadings(s) + 1
    decreases |s|
  {
    if s != [] {
      if HeadingAt(s).Some? {
        var n := HeadingAt(s).value;
        SplitAtMatch(s, n);
        SplitCount(s[n + 1..]);
        forall q | 0 <= q < n ensures HeadingAt(s[1..][q..]).None? {
          assert s[1..][q..] == s[q + 1..];
          NoOverlap(s, n, q + 1);
        }
        CountSkip(s[1..], n);
        assert s[1..][n..] == s[n + 1..];
      } else {
        SplitPastChar(s);
        SplitCount(s[1..]);
      }
    }
  }

  /** A heading line is recognised and opens a new piece, whatever precedes it. */
  lemma SplitAtHeading(run: string, rest: string)
    requires |run| > 0 && forall i :: 0 <= i < |run| ==> IsHeadingChar(run[i])
    ensures Split("### " + run + "\n" + rest) == ["", "### " + run] + Split(rest)
  {
    var s := "### " + run + "\n" + rest;
    var n := 4 + |run|;
    assert HeadingEndsAt(s, n);
    HeadingAtComplete(s, n);
    SplitAtMatch(s, n);
    assert s[..n] == "### " + run;
    assert s[n + 1..] == rest;
  }

  /** Text at whose positions the pattern never matches is glued to the piece before what follows. */
  lemma {:induction false} SplitGlues(p: string, rest: string)
    requires forall i :: 0 <= i < |p| ==> HeadingAt((p + rest)[i..]).None?
    ensures Split(p + rest) == [p + Split(rest)[0]] + Split(rest)[1..]
    decreases |p|
  {
    var r := Split(rest);
    SplitNonEmpty(rest);
    if p == [] {
      assert p + rest == rest;
      GlueNothing(r);
    } else {
      var s := p + rest;
      var tail := p[1..] + rest;
      assert s[1..] == tail;
      assert s[0..] == s;
      forall i | 0 <= i < |p[1..]| ensures HeadingAt(tail[i..]).None? {
        assert tail[i..] == s[i + 1..];
      }
      SplitGlues(p[1..], rest);
      SplitPastChar(s);
      GlueOneMore(p, Split(tail), r);
    }
  }

  /** Gluing nothing onto the first piece changes nothing. */
  lemma GlueNothing(r: seq<string>)
    requires r != []
    ensures [[] + r[0]] + r[1..] == r
  {
    assert [] + r[0] == r[0];
  }

  /** Gluing `p[0]` onto a split that already has `p[1..]` glued on glues all of `p`. */
  lemma GlueOneMore(p: string, t: seq<string>, r: seq<string>)
    requires p != [] && r != [] && t == [p[1..] + r[0]] + r[1..]
    ensures [[p[0]] + t[0]] + t[1..] == [p + r[0]] + r[1..]
  {
    assert t[0] == p[1..] + r[0] && t[1..] == r[1..];
    AppendAssoc([p[0]], p[1..], r[0]);
    assert [p[0]] + p[1..] == p;
  }

  /** `t` holds no `###`. */
  predicate NoTripleHash(t: string) {
    forall q :: 0 <= q && q + 2 < |t| ==> !(t[q] == '#' && t[q + 1] == '#' && t[q + 2] == '#')
  }

  /** Text holding no `###` has no match position before a heading group that follows it:
      a match would need `###` inside the text or a space where the group has a `#`. */
  lemma NoMatchBeforeHashes(p: string, x: string)
    requires NoTripleHash(p) && HashPrefix(x)
    ensures forall i :: 0 <= i < |p| ==> HeadingAt((p + x)[i..]).None?
  {
    forall i | 0 <= i < |p| ensures HeadingAt((p + x)[i..]).None? {
      var u := (p + x)[i..];
      if i + 2 < |p| {
        assert u[0] == p[i] && u[1] == p[i + 1] && u[2] == p[i + 2];
      } else {
        assert u[3] == x[3 - (|p| - i)];
      }
    }
  }

  /** No anchor: a heading preceded by ordinary text on the same line still starts a section. */
  lemma HeadingAnywhere(p: string, run: string, rest: string)
    requires NoTripleHash(p)
    requires |run| > 0 && forall i :: 0 <= i < |run| ==> IsHeadingChar(run[i])
    ensures Split(p + ("### " + run + "\n" + rest)) == [p, "### " + run] + Split(rest)
  {
    var x := "### " + run + "\n" + rest;
    NoMatchBeforeHashes(p, x);
    SplitGlues(p, x);
    SplitAtHeading(run, rest);
    GlueOntoEmpty(p, "### " + run, Split(rest));
  }

  /** Gluing text onto the empty piece before a heading. */
  lemma GlueOntoEmpty(p: string, g: string, r: seq<string>)
    ensures [p + (["", g] + r)[0]] + (["", g] + r)[1..] == [p, g] + r
  {
    assert (["", g] + r)[1..] == [g] + r;
    assert p + "" == p;
  }

  /** No match of the pattern starts inside the `t` part of a line `### t` that holds
      no `###` and is not followed by `##` where it ends in `#`. */
  lemma NoMatchInLineText(t: string, rest: string, q: nat)
    requires NoTripleHash(t)
    requires t != [] && t[|t| - 1] == '#' ==> rest == [] || rest[0] != '#'
    requires 4 <= q < 4 + |t|
    ensures HeadingAt((("### " + t) + rest)[q..]).None?
  {
    var p := "### " + t;
    var u := (p + rest)[q..];
    if q + 2 < |p| {
      assert u[0] == t[q - 4] && u[1] == t[q - 3] && u[2] == t[q - 2];
    } else if rest == [] {
      assert |u| <= 2;
    } else if t[|t| - 1] != '#' {
      assert u[|p| - 1 - q] == t[|t| - 1];
    } else {
      assert u[|p| - q] == rest[0];
    }
  }

  /** A `### ` line containing a character outside `[A-Za-z0-9 &]` (`### C++`, `### C#`) is
      no heading: when the line holds no `###` and ends at a newline or the end of the text
      (or at any text not starting with `#`, or its last character is not `#`), the pattern
      matches nowhere inside it, so it stays in the piece before it. */
  lemma NonHeadingLineGlues(t: string, rest: string)
    requires '\n' !in t && NoTripleHash(t)
    requires exists i :: 0 <= i < |t| && !IsHeadingChar(t[i])
    requires t != [] && t[|t| - 1] == '#' ==> rest == [] || rest[0] != '#'
    ensures Split(("### " + t) + rest) == [("### " + t) + Split(rest)[0]] + Split(rest)[1..]
  {
    var p := "### " + t;
    var s := p + rest;
    forall q | 0 <= q < |p| ensures HeadingAt(s[q..]).None? {
      if q < 4 {
        NoMatchInLineStart(t, rest, q);
      } else {
        NoMatchInLineText(t, rest, q);
      }
    }
    SplitGlues(p, rest);
  }

  /** No match of the pattern starts in the `### ` of a line `### t` whose `t` holds a
      character outside the class and no newline. */
  lemma NoMatchInLineStart(t: string, rest: string, q: nat)
    requires '\n' !in t
    requires exists i :: 0 <= i < |t| && !IsHeadingChar(t[i])
    requires q < 4
    ensures HeadingAt((("### " + t) + rest)[q..]).None?
  {
    var s := ("### " + t) + rest;
    if q == 0 {
      var i :| 0 <= i < |t| && !IsHeadingChar(t[i]);
      assert s[4 + i] == t[i];
      var e := RunEnd(s, 4);
      assert e <= 4 + i;
      assert s[e] == t[e - 4];
    } else {
      assert s[q..][3 - q] == s[3] == ' ';
    }
  }

  // ---------------------------------------------------------------------------
  // Lemmas: the sections
  // ---------------------------------------------------------------------------

  /** One section per heading match. */
  lemma SectionCount(s: string)
    ensures |SectionsOf(Split(s))| == CountHeadings(s)
  {
    SplitCount(s);
    SectionsLength(Split(s), CountHeadings(s));
  }

  /** The preamble never becomes a section: text before the first heading changes nothing. */
  lemma PreambleDropped(p: string, rest: string)
    requires forall i :: 0 <= i < |p| ==> HeadingAt((p + rest)[i..]).None?
    ensures SectionsOf(Split(p + rest)) == SectionsOf(Split(rest))
  {
    SplitGlues(p, rest);
    SplitNonEmpty(rest);
    SectionsIgnorePreamble(Split(p + rest), Split(rest));
  }

  /** The sections do not depend on the first piece. */
  lemma SectionsIgnorePreamble(x: seq<string>, y: seq<string>)
    requires |x| == |y| >= 1 && x[1..] == y[1..]
    ensures SectionsOf(x) == SectionsOf(y)
  {
    if |x| >= 3 {
      assert x[1] == y[1] && x[2] == y[2];
      assert x[2..] == x[1..][1..] == y[2..];
    }
  }

  /** A `### C++` or `### C#` line after a heading stays inside that heading's section
      content, when the body between them has no match position and the line meets the
      conditions of `NonHeadingLineGlues`. */
  lemma NonHeadingLineInSection(run: string, body: string, t: string, rest: string)
    requires |run| > 0 && forall i :: 0 <= i < |run| ==> IsHeadingChar(run[i])
    requires forall i :: 0 <= i < |body| ==> HeadingAt((body + (("### " + t) + rest))[i..]).None?
    requires '\n' !in t && NoTripleHash(t)
    requires exists i :: 0 <= i < |t| && !IsHeadingChar(t[i])
    requires t != [] && t[|t| - 1] == '#' ==> rest == [] || rest[0] != '#'
    ensures var parts := Split("### " + run + "\n" + (body + (("### " + t) + rest)));
      && |SectionsOf(parts)| >= 1
      && SectionsOf(parts)[0].course == Label("### " + run)
      && SectionsOf(parts)[0].content == Strip(body + ("### " + t) + Split(rest)[0], Whitespace)
  {
    var line := "### " + t;
    var y := line + rest;
    var x := body + y;
    var g := "### " + run;
    SplitAtHeading(run, x);
    SplitGlues(body, y);
    NonHeadingLineGlues(t, rest);
    var rx := Split(x);
    var ry := Split(y);
    assert rx[0] == body + ry[0];
    assert ry[0] == line + Split(rest)[0];
    AppendAssoc(body, line, Split(rest)[0]);
    SplitNonEmpty(x);
    FirstSection(g, rx);
  }

  /** The first section pairs the first heading with the piece after it. */
  lemma FirstSection(g: string, r: seq<string>)
    requires r != []
    ensures |SectionsOf(["", g] + r)| >= 1
    ensures SectionsOf(["", g] + r)[0] == Section(Strip(r[0], Whitespace), KnowledgeFile, Label(g))
  {
    var parts := ["", g] + r;
    assert parts[1] == g && parts[2] == r[0];
  }

  /** A heading's label is its run with the surrounding spaces removed (possibly empty). */
  lemma HeadingLabel(run: string)
    requires |run| > 0 && forall i :: 0 <= i < |run| ==> IsHeadingChar(run[i])
    ensures Label("### " + run) == Strip(run, {' '})
    ensures forall i :: 0 <= i < |Label("### " + run)| ==> IsHeadingChar(Label("### " + run)[i])
  {
    var r := Strip(run, {' '});
    var i, j :| StripBounds(run, {' '}, i, j) && r == run[i..j];
    LabelOfGroup(run, i, j);
    forall k | 0 <= k < |r| ensures IsHeadingChar(r[k]) {
      assert r[k] == run[i + k];
    }
  }

  /** The label of a heading group is the slice its run keeps when stripped of spaces. */
  lemma LabelOfGroup(run: string, i: int, j: int)
    requires forall k :: 0 <= k < |run| ==> IsHeadingChar(run[k])
    requires StripBounds(run, {' '}, i, j)
    ensures Label("### " + run) == run[i..j]
  {
    var g := "### " + run;
    ShiftedBounds(run, i, j);
    SliceAfterPrefix("### ", run, i, j);
    StripUnique(run[i..j], g, HeadingTrim);
  }

  /** Slicing past a prefix is slicing the rest. */
  lemma SliceAfterPrefix(p: string, t: string, i: int, j: int)
    requires 0 <= i <= j <= |t|
    ensures (p + t)[i + |p|..j + |p|] == t[i..j]
  {
  }

  /** Stripping spaces from a run and stripping `" #\n"` from its heading group cut the same
      characters: the group's `### ` lies in the part removed. */
  lemma ShiftedBounds(run: string, i: int, j: int)
    requires forall k :: 0 <= k < |run| ==> IsHeadingChar(run[k])
    requires StripBounds(run, {' '}, i, j)
    ensures StripBounds("### " + run, HeadingTrim, i + 4, j + 4)
  {
    var g := "### " + run;
    forall k | 0 <= k < i + 4 ensures g[k] in HeadingTrim {
      if k >= 4 {
        assert g[k] == run[k - 4];
      }
    }
    forall k | j + 4 <= k < |g| ensures g[k] in HeadingTrim {
      assert g[k] == run[k - 4];
    }
    if i < j {
      assert g[i + 4] == run[i] && IsHeadingChar(run[i]);
      assert g[j + 3] == run[j - 1] && IsHeadingChar(run[j - 1]);
    }
  }


  // ---------------------------------------------------------------------------
  // Lemmas: the chunks
  // ---------------------------------------------------------------------------

  /** Ids are drawn in order: the `k`-th chunk carries the `k`-th id. */
  lemma {:induction false} ChunkIdsInOrder(docs: seq<Section>, split: string -> seq<string>, mint: nat -> string)
    ensures forall k :: 0 <= k < |AllChunks(docs, split, mint)| ==> AllChunks(docs, split, mint)[k].chunkId == mint(k)
    decreases |docs|
  {
    if docs != [] {
      ChunkIdsInOrder(docs[..|docs| - 1], split, mint);
    }
  }

  /** Distinct draws give distinct chunk ids. */
  lemma ChunkIdsDistinct(docs: seq<Section>, split: string -> seq<string>, mint: nat -> string)
    requires forall a: nat, b: nat :: a != b ==> mint(a) != mint(b)
    ensures forall k, l :: 0 <= k < l < |AllChunks(docs, split, mint)| ==>
      AllChunks(docs, split, mint)[k].chunkId != AllChunks(docs, split, mint)[l].chunkId
  {
    ChunkIdsInOrder(docs, split, mint);
  }

  /** The `k`-th chunk is the `j`-th piece of the `i`-th section, tagged with that section's
      own source and course label and the `k`-th id: the sections before it hold exactly
      the `k - j` chunks before its section's first one. */
  lemma {:induction false} ChunkInheritsCourse(docs: seq<Section>, split: string -> seq<string>, mint: nat -> string, k: nat)
    requires k < |AllChunks(docs, split, mint)|
    ensures exists i, j :: (0 <= i < |docs| && 0 <= j < |split(docs[i].content)|
      && k == |AllChunks(docs[..i], split, mint)| + j
      && AllChunks(docs, split, mint)[k] == Chunk(split(docs[i].content)[j], docs[i].source, docs[i].course, mint(k)))
    decreases |docs|
  {
    var init := docs[..|docs| - 1];
    var prev := AllChunks(init, split, mint);
    var last := |docs| - 1;
    if k < |prev| {
      ChunkInheritsCourse(init, split, mint, k);
      var i, j :| 0 <= i < |init| && 0 <= j < |split(init[i].content)|
        && k == |AllChunks(init[..i], split, mint)| + j
        && prev[k] == Chunk(split(init[i].content)[j], init[i].source, init[i].course, mint(k));
      assert init[..i] == docs[..i];
      assert init[i] == docs[i];
      assert AllChunks(docs, split, mint)[k] == prev[k];
    } else {
      var pieces := split(docs[last].content);
      assert docs[..last] == init;
      assert AllChunks(docs, split, mint)[k] == Tagged(docs[last], pieces, |prev|, mint)[k - |prev|];
    }
  }

  /** The pieces the splitter makes of each section, concatenated section by section. */
  function Pieces(docs: seq<Section>, split: string -> seq<string>): seq<string>
    decreases |docs|
  {
    if docs == [] then [] else split(docs[0].content) + Pieces(docs[1..], split)
  }

  function Texts(chunks: seq<Chunk>): seq<string> {
    seq(|chunks|, k requires 0 <= k < |chunks| => chunks[k].text)
  }

  lemma {:induction false} PiecesSnoc(docs: seq<Section>, split: string -> seq<string>)
    requires docs != []
    ensures Pieces(docs, split) == Pieces(docs[..|docs| - 1], split) + split(docs[|docs| - 1].content)
    decreases |docs|
  {
    if |docs| > 1 {
      PiecesSnoc(docs[1..], split);
      assert docs[1..][..|docs| - 2] == docs[..|docs| - 1][1..];
    }
  }

  /** `split_docs` holds exactly the splitter's pieces, section after section, in order. */
  lemma {:induction false} ChunkTexts(docs: seq<Section>, split: string -> seq<string>, mint: nat -> string)
    ensures Texts(AllChunks(docs, split, mint)) == Pieces(docs, split)
    decreases |docs|
  {
    if docs != [] {
      var init := docs[..|docs| - 1];
      ChunkTexts(init, split, mint);
      PiecesSnoc(docs, split);
    }
  }
}

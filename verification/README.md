# SkillCapital course chatbot — verified model of its deterministic core

The SkillCapital chatbot answers questions about courses. It retrieves passages from a
vector store, sends them with the conversation so far to a language-model chain, and
serves the answer through a `/chat` web endpoint. Most of the repository is glue around
foreign services. This project models the three pieces of logic that sit between those
calls, and proves properties of them in Dafny:

- **The Markdown-link rewriter** (`markdown_to_html`, `markdown.dfy`). It is one regex
  substitution, `\[([^\]]+)\]\(([^)]+)\)` → `<a href="\2" target="_blank">\1</a>`.
  The model is a left-to-right scanner: `Tokenize` cuts the text into plain characters
  and links, and `Render` prints them. Proved: the pieces put back together give the input,
  so matches are in order, never overlap, and everything else is kept. Each `[T](U)`
  the left-to-right scan matches becomes exactly its anchor, with T and U copied
  unescaped. An occurrence inside an earlier match is not rewritten: in `[a](b[c](d)`
  the URL of the one link is `b[c](d`. Link text ends at the first `]`. `[](u)` stays
  literal when u holds no `[`, and `[t]()` stays literal when t holds no `(`. Text is
  unchanged if and only if it holds no link. Each link the scan matches adds exactly
  27 characters.
- **The chat endpoint** (`chat_endpoint`, `chat_api.dfy`). It passes the bot's session id
  through unchanged and renders the bot's answer with the rewriter.
- **The session store and answer pipeline** (`course_advisor.dfy`). `Advisor` is a class
  whose `memoryStore` field maps session ids to transcripts. `GetMemory` creates a
  transcript on first use. `AskCourseBot` resolves or takes the minted session id, then
  either short-circuits to the fallback `Please contact hello@skillcapital.ai` or calls
  the chain, saves one turn and normalises the result. The result shapes are a tagged
  variant: string, dict with optional `answer`/`output_text`, another object with `get`,
  an object without it, or raised. Each
  method's postcondition ties the new store and the answer to the pure functions
  `WithSession`, `Respond` and `Record`. The lemmas cover session isolation, the
  empty-retrieval short cut, when a turn is saved, and how the stored output and the
  returned answer can differ.
- **The knowledge-file sectioner and chunk tagger** (`knowledge_base.dfy`, with Python's
  `str.strip` in `strings.dfy`). `Split` models `re.split(r'(### [A-Za-z0-9 &]+)\n', …)`.
  Proved: it has odd length `2n+1`, where n is the number of positions where the heading
  pattern matches. Heading matches can never overlap. Joining the pieces back gives the
  text. Headings match anywhere in the text, not only at the start of a line. A `### C++`
  line is not a heading. `SplitSections` is the odd-index loop, with its `i + 1` bound
  proved. `TagChunks` is the nested tagging loop. `BuildKnowledgeVectorDb` is the whole
  script, ending in the load-or-build decision.

Foreign calls become parameters: the retriever and the chain are functions fixed when the
`Advisor` is constructed, the text splitter is a function from a section's content to its
chunks, and the ids `uuid4` would mint are inputs (`minted`, and `mint(k)` for the `k`-th
chunk id).

Behaviour of the code that the model keeps as it is:
- An empty retrieval returns the fallback without saving any turn.
- A string result is returned as it is, even when empty.
- A result without a `get` method (neither a string, a dict nor another object with
  `get`) makes `res.get` raise while the turn is being saved. So the request answers
  with the fallback and saves nothing. A non-dict object that does have `get` saves
  `res.get("answer", "")` and answers with the fallback.
- `get_memory` runs before the `try`. So the session's entry is created even when
  the request then fails or short-circuits.
- A heading made only of spaces (`###    ` followed by a newline) matches the pattern
  and gives a section whose course label is empty.

## Model

| member | source | states |
|---|---|---|
| `Markdown.FindChar` | main.py:40 | The result is the first index at or after `from` holding the character, or none when no such index exists; this is how the greedy negated classes `[^\]]+` and `[^)]+` end. |
| `Markdown.MatchLink` | main.py:40 | A match at the start of the text is a link whose text is non-empty without `]`, whose URL is non-empty without `)`, and whose `[T](U)` form is a prefix of the text. |
| `Markdown.MatchLinkComplete` | main.py:40 | Whenever `[T](U)` with valid T and U starts the text, the pattern matches exactly that T and U, so the link text stops at the first `]`. |
| `Markdown.MatchLinkIff` | main.py:40 | The pattern matches at the start of a text if and only if some link occurrence starts there. |
| `Markdown.Tokenize` | main.py:39-43 | Every link the scan produces has non-empty text without `]` and a non-empty URL without `)`. |
| `Markdown.MarkdownToHtml` | main.py:35-44 | `markdown_to_html`: the scan's pieces printed, links as anchors. No contract of its own; its meaning is stated by `LinkRewritten`, `PlainCopied`, `UnchangedIffNoLink` and `MarkdownLength`. |
| `Markdown.TokenizeRoundTrip` | main.py:39-43 | Concatenating the source of the scanned pieces gives back the input: matches are found left to right, never overlap, and characters outside them keep their order. |
| `Markdown.MarkdownLength` | main.py:39-43 | The output length is the input length plus 27 times the number of links replaced. |
| `Markdown.LinkRewritten` | main.py:40-41 | A valid `[T](U)` at the front becomes exactly `<a href="U" target="_blank">T</a>`, with T and U copied unescaped, followed by the rewriting of the rest. |
| `Markdown.PlainCopied` | main.py:39-43 | A character at which no link starts is copied unchanged, followed by the rewriting of the rest. |
| `Markdown.NoLinkUnchanged` | main.py:39-43 | A text holding no occurrence of `[T](U)` is returned unchanged. |
| `Markdown.LinkAtIsMatched` | main.py:39-43 | Any link occurrence in the text, even one inside an earlier match, means the scan replaced at least one link. |
| `Markdown.UnchangedIffNoLink` | main.py:39-43 | The rewriter returns its input unchanged if and only if the input holds no link occurrence. |
| `Markdown.NoBracketUnchanged` | main.py:39-43 | A text without `[` is returned unchanged. |
| `Markdown.InnerBracketIsText` | main.py:40 | In `[x[y](z)`, with no `]` in x or y, the link text is `x[y`: an inner `[` is ordinary text (this covers `[x [y](z)`). |
| `Markdown.InnerOccurrenceInUrl` | main.py:39-43 | In `[t](x[y](z)` the link `[y](z)` occurs, yet the whole text becomes one anchor whose URL is `x[y](z`: an occurrence inside an earlier match is not rewritten. |
| `Markdown.EmptyTextStaysLiteral` | main.py:40 | `[](u)` stays literal (when u holds no `[`), because the link text needs at least one character; `u` empty gives `[]()`. |
| `Markdown.EmptyUrlStaysLiteral` | main.py:40 | `[t]()` stays literal (when t holds no `(`), because the URL needs at least one character. |
| `ChatApi.ChatEndpoint` | main.py:164-169 | The response carries the session id `ask_course_bot` resolved, unchanged, and the bot's answer passed through the link rewriter; the memory store changes as the bot changes it. |
| `ChatApi.FallbackReplyUnchanged` | main.py:166-168 | The fallback message holds no link, so the endpoint returns it unchanged. |
| `PyStrings.Strip` | build_knowledge_vector_db.py:51-52 | The result is a slice of the input with only characters of the strip set outside it, and, when non-empty, neither starts nor ends with one of them. |
| `PyStrings.StripUnique` | build_knowledge_vector_db.py:51-52 | Any slice meeting that description is the one `Strip` returns, so the description fixes `strip`'s result. |
| `KnowledgeBase.RunEnd` | build_knowledge_vector_db.py:47 | The run of `[A-Za-z0-9 &]` characters from a position ends at the first character outside the class, or at the end of the text. |
| `KnowledgeBase.HeadingAt` | build_knowledge_vector_db.py:47 | A reported match is `### `, one or more heading characters, and a newline at the reported index. |
| `KnowledgeBase.HeadingAtComplete` | build_knowledge_vector_db.py:47 | Every way the heading pattern can match at a position is the one `HeadingAt` reports: no match is missed. |
| `KnowledgeBase.Split` | build_knowledge_vector_db.py:47 | `re.split` with one capturing group has odd length, and every odd-index piece is a heading group `### ` plus one or more heading characters. |
| `KnowledgeBase.CountHeadings` | build_knowledge_vector_db.py:47 | The number of positions at which the heading pattern matches. No contract of its own; `SplitCount` ties it to the length of the split and `SectionCount` to the number of sections. |
| `KnowledgeBase.SplitJoin` | build_knowledge_vector_db.py:47 | Joining the pieces, with each heading's newline put back, gives the original text: pieces keep their order and only those newlines are dropped. |
| `KnowledgeBase.NoOverlap` | build_knowledge_vector_db.py:47 | No heading match starts inside another heading match. |
| `KnowledgeBase.SplitCount` | build_knowledge_vector_db.py:47-52 | The split has length `2n+1`, where n is the number of positions at which the heading pattern matches; so index `i+1` is in bounds for every odd `i`. |
| `KnowledgeBase.SplitAtHeading` | build_knowledge_vector_db.py:47 | A heading line at the front yields an empty preamble, the heading group without its newline, and then the split of the rest. |
| `KnowledgeBase.SplitGlues` | build_knowledge_vector_db.py:47 | Text at whose positions the pattern never matches is prepended to the first piece of what follows. |
| `KnowledgeBase.HeadingAnywhere` | build_knowledge_vector_db.py:47 | A heading is recognised after any text holding no `###` on the same line, because the pattern has no anchor: that text becomes the preamble piece. |
| `KnowledgeBase.NonHeadingLineGlues` | build_knowledge_vector_db.py:47 | A `### t` line is not a heading when t contains a character outside `[A-Za-z0-9 &]` (`### C++`, `### C#`), holds no newline and no `###`, and is not followed by `#` when it ends in `#` (a line ending at a newline or at the end of the text always qualifies). The pattern then matches nowhere in the line, which is glued to the piece that follows. |
| `KnowledgeBase.NonHeadingLineInSection` | build_knowledge_vector_db.py:47-52 | Such a line stays in the content of the heading before it, when the text between the two has no position where the pattern matches. |
| `KnowledgeBase.SplitSections` | build_knowledge_vector_db.py:47-56 | The loop builds exactly one section per heading match, in order: the k-th pairs the stripped k-th heading with the whitespace-stripped content after it, with source `knowledge.txt`; the preamble is dropped. |
| `KnowledgeBase.SectionsOf` | build_knowledge_vector_db.py:50-56 | The sections the odd-index loop builds from the pieces: pieces 1 and 2 paired, then the same from piece 2 on. No contract of its own; `SplitSections` proves the loop computes it, and `SectionCount`, `PreambleDropped` and `NonHeadingLineInSection` state what it contains. |
| `KnowledgeBase.Label` | build_knowledge_vector_db.py:51 | A heading's course label, `strip(" #\n")`. No contract of its own; `HeadingLabel` characterises it and `PyStrings.Strip` states what the strip keeps. |
| `KnowledgeBase.SectionCount` | build_knowledge_vector_db.py:47-56 | The number of sections equals the number of heading matches. |
| `KnowledgeBase.PreambleDropped` | build_knowledge_vector_db.py:50-56 | Text before the first heading does not change the sections. |
| `KnowledgeBase.HeadingLabel` | build_knowledge_vector_db.py:51 | The course label of `### ` plus a run of heading characters is that run with its leading and trailing spaces removed (so it holds only heading characters). |
| `KnowledgeBase.TagChunks` | build_knowledge_vector_db.py:75-81 | The nested loop yields `split_docs`: each section's chunks in turn, each tagged with its section's source and course and the next minted id. |
| `KnowledgeBase.Tagged` | build_knowledge_vector_db.py:78-81 | One section's pieces tagged with its source, course and consecutive ids. No contract of its own; it is characterised through `AllChunks`. |
| `KnowledgeBase.AllChunks` | build_knowledge_vector_db.py:75-81 | `split_docs`. No contract of its own; `TagChunks` proves the loop computes it, and `ChunkIdsInOrder`, `ChunkIdsDistinct`, `ChunkInheritsCourse` and `ChunkTexts` state its ids, tags and texts. |
| `KnowledgeBase.ChunkIdsInOrder` | build_knowledge_vector_db.py:79 | The k-th chunk of `split_docs` carries the k-th minted id. |
| `KnowledgeBase.ChunkIdsDistinct` | build_knowledge_vector_db.py:79 | If the minted ids are distinct, so are the chunk ids. |
| `KnowledgeBase.ChunkInheritsCourse` | build_knowledge_vector_db.py:75-81 | Chunk k is piece j of its own parent section i, where k is j plus the number of chunks of the sections before i. It carries that section's source and course label and the id `mint(k)`. |
| `KnowledgeBase.ChunkTexts` | build_knowledge_vector_db.py:75-81 | The texts of `split_docs` are exactly the splitter's pieces of each section, concatenated in section order. |
| `KnowledgeBase.BuildKnowledgeVectorDb` | build_knowledge_vector_db.py:88-102 | A present, non-empty DB directory is loaded and nothing is embedded; otherwise a store is built from exactly `split_docs`. |
| `KnowledgeBase.HasPersistedDb` | build_knowledge_vector_db.py:88 | The condition for loading: the directory exists and has at least one entry. No contract of its own; `BuildKnowledgeVectorDb` states both outcomes of it. |
| `CourseAdvisor.NormaliseAnswer` | course_advisor_chatbot.py:110-115 | A string is answered as it is, and the answer is empty only for the empty string. A dict answers with `answer` if that is truthy, else with `output_text` if that is truthy, else with the fallback. Any other shape answers with the fallback. |
| `CourseAdvisor.SavedOutput` | course_advisor_chatbot.py:104-107 | The expression for the stored output raises exactly when the result has no `get` method. A string is stored as it is; a dict, or another object with `get`, stores its `answer` (default `""`). |
| `CourseAdvisor.Respond` | course_advisor_chatbot.py:93-121 | The `try` block given the session's transcript. No contract of its own; it is characterised by `EmptyRetrievalSkipsChain`, `SavedIffAnswered`, `UnsavedMeansFallback`, `EmptyAnswerOnlyFromEmptyText`, `StoredMatchesAnswerIffTruthy` and `TextKeptAsIs`. |
| `CourseAdvisor.WithSession` | course_advisor_chatbot.py:41-47 | After `get_memory(s)`, `s` is present; a new `s` gets an empty transcript; the key set grows by `s` only; every existing entry is unchanged. |
| `CourseAdvisor.Advisor.constructor` | course_advisor_chatbot.py:39 | The memory store starts empty. |
| `CourseAdvisor.Advisor.GetMemory` | course_advisor_chatbot.py:41-47 | The store becomes `WithSession` of the old store, and the returned transcript is the session's entry. |
| `CourseAdvisor.Advisor.SaveContext` | course_advisor_chatbot.py:104-107 | Exactly one turn (input, output) is appended to the session's transcript and nothing else changes. |
| `CourseAdvisor.Advisor.AskCourseBot` | course_advisor_chatbot.py:88-121 | Every path returns the caller's session id, or the minted one when none was given; the answer and the new store are those of `Respond` and `Record` applied to the store after `get_memory`. |
| `CourseAdvisor.EmptyRetrievalSkipsChain` | course_advisor_chatbot.py:95-97 | An empty retrieval answers with the fallback, saves nothing, and gives the same result for every chain: the chain is not consulted. |
| `CourseAdvisor.SavedIffAnswered` | course_advisor_chatbot.py:104-107 | A turn is saved if and only if retrieval found documents and the chain returned a string, a dict or another object with `get`; the turn's input is the query and its output the string or the dict's `answer` (default `""`). |
| `CourseAdvisor.UnsavedMeansFallback` | course_advisor_chatbot.py:93-121 | Every path that saves nothing (retrieval failure, empty retrieval, chain failure, a result without `get`) answers with the fallback. |
| `CourseAdvisor.EmptyAnswerOnlyFromEmptyText` | course_advisor_chatbot.py:110-115 | The reply is empty if and only if retrieval found documents and the chain returned the empty string. |
| `CourseAdvisor.StoredMatchesAnswerIffTruthy` | course_advisor_chatbot.py:104-115 | For a dict result, the stored output equals the returned answer if and only if `answer` is truthy; with only `output_text` set they differ. |
| `CourseAdvisor.TextKeptAsIs` | course_advisor_chatbot.py:106-111 | A string result is stored and returned as it is, even when empty. |
| `CourseAdvisor.SessionIsolation` | course_advisor_chatbot.py:41-47 | A request for one session neither adds, removes nor changes the entry of any other session id. |
| `CourseAdvisor.TranscriptAppendOnly` | course_advisor_chatbot.py:104-107 | The session's old transcript (empty for a new session) stays a prefix, and at most one turn is added. |
| `CourseAdvisor.Record` | course_advisor_chatbot.py:104-107 | Saving a turn keeps the key set. Every other session's transcript is unchanged. The session's transcript gets the saved turn appended, or stays as it was when nothing is saved. |
| `CourseAdvisor.WithSessionIdempotent` | course_advisor_chatbot.py:41-47 | Calling `get_memory` twice for the same id changes nothing after the first call. |

## Left out

- The HTML chat page, the FastAPI app, CORS and the HTTP 500 mapping in main.py: user interface and web plumbing.
- The OpenAI embeddings, Chroma, the LangChain prompt and the retrieval chains: foreign network and library calls. The retriever and the chain are function parameters.
- `RecursiveCharacterTextSplitter` and tiktoken token counting: library internals. The splitter is a function from a section's content to its chunks, and the model assumes it copies the section's metadata as LangChain does.
- UUID generation: ids are inputs (`minted` and `mint`). Uniqueness is assumed, not proved (`ChunkIdsDistinct` takes it as a hypothesis).
- `.env` loading, API-key checks, reading the knowledge file, the directory checks and `persist()`: environment and file-system I/O. Only the load-or-build decision on the directory's state is kept. A path that exists but is not a directory, where `os.listdir` raises, is not modelled.
- Re-running the build after a successful build: whether `persist()` leaves the directory non-empty depends on Chroma, so this is not stated.
- The interactive command-line loop, the `print` calls and test.py: console I/O.
- Prompt wording, answer quality and embedding similarity: opaque generation and floating point.
- Concurrent access to `memory_store`: the source has no locking.
- CourseAdvisor.Advisor.SaveContext: a memory is found by its session id, not held as a shared object. Aliasing between the object `get_memory` returns and the store entry is therefore captured only through the key.
- KnowledgeBase.TagChunks: each chunk is built as a new tagged value, not made by mutating the splitter's `Document` metadata in place. Nothing else holds those objects.
- CourseAdvisor.Respond: dict values, and what another object's `get("answer", "")` returns, are modelled as optional strings. A non-string value, and a `None` stored as `answer`, are not modelled. So is an object whose `get` itself raises.
- Session ids, messages and chunk texts are Unicode strings. The heading class `[A-Za-z0-9 &]` of build_knowledge_vector_db.py:47 is a set of ASCII ranges and matches no other character. The negated classes of main.py:40 match every character other than `]` and `)`, non-ASCII ones included.

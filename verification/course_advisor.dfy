/**
 * The chatbot core of course_advisor_chatbot.py: the per-session conversation
 * memories (`memory_store`, `get_memory`) and the request handler `ask_course_bot`.
 *
 * The retriever and the retrieval chain are foreign calls; the model takes them as
 * functions fixed when the advisor is created, as the source fixes them at import
 * time. A raised exception is an explicit outcome. The session id that `uuid4`
 * would mint is an input.
 */
module CourseAdvisor {
  import opened Wrappers

  /** The literal every failure and every empty retrieval answers with. */
  const Fallback := "Please contact hello@skillcapital.ai"

  /** One `save_context` call: the user's input and the stored output. */
  datatype Turn = Turn(input: string, output: string)

  /** The shapes `rag_chain.invoke` can return. A dict's keys are optional. `Getter` is an
      object that is not a dict but has a `get` method, given by what its
      `get("answer")` finds; `Other` is any other object, which has no `get`. */
  datatype ChainResult =
    | Text(text: string)
    | Mapping(answer: Option<string>, outputText: Option<string>)
    | Getter(found: Option<string>)
    | Other

  /** The chain call either returns or raises. */
  datatype ChainOutcome = Returned(result: ChainResult) | Raised

  /** The retriever call either returns documents (their page contents) or raises. */
  datatype Retrieval = Documents(docs: seq<string>) | RetrievalFailed

  /** What one request yields: the answer, and the turn it saved, if any. */
  datatype Exchange = Exchange(answer: string, saved: Option<Turn>)

  /** Python truthiness of a dict value: present and non-empty. */
  predicate Truthy(v: Option<string>) {
    v.Some? && v.value != ""
  }

  /** The output `save_context` stores: the string itself, or the dict's `answer` with
      default `""`. `None` when the expression raises: only a shape without `.get` does. */
  function SavedOutput(res: ChainResult): (r: Option<string>)
    ensures r.None? <==> res.Other?
    ensures res.Text? ==> r == Some(res.text)
    ensures res.Mapping? ==> r == Some(res.answer.GetOr(""))
    ensures res.Getter? ==> r == Some(res.found.GetOr(""))
  {
    match res
    case Text(s) => Some(s)
    case Mapping(a, _) => Some(a.GetOr(""))
    case Getter(a) => Some(a.GetOr(""))
    case Other => None
  }

  /** The answer-normalisation branch: a string as it is, a dict's `answer`, else its
      `output_text`, else the fallback; any other shape the fallback. */
  function NormaliseAnswer(res: ChainResult): (answer: string)
    ensures answer == "" <==> res == Text("")
    ensures res.Text? ==> answer == res.text
    ensures res.Mapping? && Truthy(res.answer) ==> answer == res.answer.value
    ensures res.Mapping? && !Truthy(res.answer) && Truthy(res.outputText) ==> answer == res.outputText.value
    ensures res.Mapping? && !Truthy(res.answer) && !Truthy(res.outputText) ==> answer == Fallback
    ensures res.Getter? || res.Other? ==> answer == Fallback
  {
    match res
    case Text(s) => s
    case Mapping(a, o) =>
      if Truthy(a) then a.value else if Truthy(o) then o.value else Fallback
    case Getter(_) => Fallback
    case Other => Fallback
  }

  /** The body of the `try` block of `ask_course_bot` given the session's transcript; every
      exception path ends in `except` and gives the fallback without saving. */
  function Respond(query: string, history: seq<Turn>, retrieval: Retrieval,
                   chain: (string, seq<Turn>) -> ChainOutcome): Exchange
  {
    match retrieval
    case RetrievalFailed => Exchange(Fallback, None)
    case Documents(docs) =>
      if docs == [] then Exchange(Fallback, None)
      else match chain(query, history)
        case Raised => Exchange(Fallback, None)
        case Returned(res) =>
          match SavedOutput(res)
          case None => Exchange(Fallback, None)
          case Some(out) => Exchange(NormaliseAnswer(res), Some(Turn(query, out)))
  }

  /** The memory store after `get_memory(sid)`: a fresh, empty memory for an unknown id,
      the store unchanged for a known one. */
  function WithSession(store: map<string, seq<Turn>>, sid: string): (r: map<string, seq<Turn>>)
    ensures sid in r
    ensures r[sid] == if sid in store then store[sid] else []
    ensures r.Keys == store.Keys + {sid}
    ensures forall k :: k in store ==> r[k] == store[k]
  {
    if sid in store then store else store[sid := []]
  }

  /** The memory store after the request has (or has not) saved a turn for `sid`. */
  function Record(store: map<string, seq<Turn>>, sid: string, saved: Option<Turn>): (r: map<string, seq<Turn>>)
    requires sid in store
    ensures r.Keys == store.Keys
    ensures forall k :: k in store && k != sid ==> r[k] == store[k]
    ensures saved.None? ==> r[sid] == store[sid]
    ensures saved.Some? ==> r[sid] == store[sid] + [saved.value]
  {
    if saved.Some? then store[sid := store[sid] + [saved.value]] else store
  }

  /** The chatbot: its memory store and the two foreign calls it was built with. */
  class Advisor {
    var memoryStore: map<string, seq<Turn>>
    const retrieve: string -> Retrieval
    const chain: (string, seq<Turn>) -> ChainOutcome

    constructor (retrieve: string -> Retrieval, chain: (string, seq<Turn>) -> ChainOutcome)
      ensures memoryStore == map[]
      ensures this.retrieve == retrieve && this.chain == chain
    {
      memoryStore := map[];
      this.retrieve := retrieve;
      this.chain := chain;
    }

    /** `get_memory(session_id)`: the session's transcript, created empty on first use. */
    method GetMemory(sessionId: string) returns (history: seq<Turn>)
      modifies this
      ensures memoryStore == WithSession(old(memoryStore), sessionId)
      ensures history == memoryStore[sessionId]
    {
      if sessionId !in memoryStore {
        memoryStore := memoryStore[sessionId := []];
      }
      history := memoryStore[sessionId];
    }

    /** `memory.save_context({"input": ...}, {"output": ...})` on the session's memory. */
    method SaveContext(sessionId: string, input: string, output: string)
      requires sessionId in memoryStore
      modifies this
      ensures memoryStore == old(memoryStore)[sessionId := old(memoryStore)[sessionId] + [Turn(input, output)]]
    {
      memoryStore := memoryStore[sessionId := memoryStore[sessionId] + [Turn(input, output)]];
    }

    /** `ask_course_bot(query, session_id)`; `minted` is the id `uuid4` would give. */
    method AskCourseBot(query: string, sessionId: Option<string>, minted: string)
      returns (answer: string, sid: string)
      modifies this
      ensures sid == if sessionId.Some? then sessionId.value else minted
      ensures var memories := WithSession(old(memoryStore), sid);
              var ex := Respond(query, memories[sid], retrieve(query), chain);
              answer == ex.answer && memoryStore == Record(memories, sid, ex.saved)
    {
      sid := if sessionId.Some? then sessionId.value else minted;
      var history := GetMemory(sid);
      var docs := retrieve(query);
      if docs.RetrievalFailed? || docs.docs == [] {
        return Fallback, sid;
      }
      var outcome := chain(query, history);
      if outcome.Raised? {
        return Fallback, sid;
      }
      var res := outcome.result;
      var output := SavedOutput(res);
      if output.None? {
        return Fallback, sid;
      }
      SaveContext(sid, query, output.value);
      answer := NormaliseAnswer(res);
    }
  }

  // ---------------------------------------------------------------------------
  // Lemmas: the answer
  // ---------------------------------------------------------------------------

  /** An empty retrieval gives the fallback and saves nothing, whatever the chain would do:
      the chain is never consulted. */
  lemma EmptyRetrievalSkipsChain(query: string, history: seq<Turn>,
                                 chain1: (string, seq<Turn>) -> ChainOutcome,
                                 chain2: (string, seq<Turn>) -> ChainOutcome)
    ensures Respond(query, history, Documents([]), chain1) == Exchange(Fallback, None)
    ensures Respond(query, history, Documents([]), chain1) == Respond(query, history, Documents([]), chain2)
  {
  }

  /** A turn is saved exactly when retrieval found something and the chain returned a
      string, a dict or another object with `.get`; that turn's input is the query and its output the stored one. */
  lemma SavedIffAnswered(query: string, history: seq<Turn>, retrieval: Retrieval,
                         chain: (string, seq<Turn>) -> ChainOutcome)
    ensures Respond(query, history, retrieval, chain).saved.Some? <==>
      (retrieval.Documents? && retrieval.docs != [] && chain(query, history).Returned?
        && !chain(query, history).result.Other?)
    ensures Respond(query, history, retrieval, chain).saved.Some? ==>
      Respond(query, history, retrieval, chain).saved.value
        == Turn(query, SavedOutput(chain(query, history).result).value)
  {
  }

  /** Whenever nothing is saved, the answer is the fallback. */
  lemma UnsavedMeansFallback(query: string, history: seq<Turn>, retrieval: Retrieval,
                             chain: (string, seq<Turn>) -> ChainOutcome)
    ensures Respond(query, history, retrieval, chain).saved.None? ==>
      Respond(query, history, retrieval, chain).answer == Fallback
  {
  }

  /** The answer is empty only when the chain returned the empty string. */
  lemma EmptyAnswerOnlyFromEmptyText(query: string, history: seq<Turn>, retrieval: Retrieval,
                                     chain: (string, seq<Turn>) -> ChainOutcome)
    ensures Respond(query, history, retrieval, chain).answer == "" <==>
      (retrieval.Documents? && retrieval.docs != [] && chain(query, history) == Returned(Text("")))
  {
  }

  /** For a dict, the stored output equals the returned answer exactly when `answer` is truthy:
      a dict with only `output_text` stores `""` but answers with `output_text`. */
  lemma StoredMatchesAnswerIffTruthy(a: Option<string>, o: Option<string>)
    ensures SavedOutput(Mapping(a, o)) == Some(NormaliseAnswer(Mapping(a, o))) <==> Truthy(a)
  {
  }

  /** A string result is returned and stored as it is, even when empty. */
  lemma TextKeptAsIs(s: string)
    ensures NormaliseAnswer(Text(s)) == s && SavedOutput(Text(s)) == Some(s)
  {
  }

  // ---------------------------------------------------------------------------
  // Lemmas: the memory store
  // ---------------------------------------------------------------------------

  /** A request touches no other session: every other id keeps its presence and transcript. */
  lemma SessionIsolation(store: map<string, seq<Turn>>, sid: string, saved: Option<Turn>, other: string)
    requires other != sid
    ensures other in Record(WithSession(store, sid), sid, saved) <==> other in store
    ensures other in store ==> Record(WithSession(store, sid), sid, saved)[other] == store[other]
  {
  }

  /** A request only appends to its own transcript: the old transcript (empty for a new
      session) is kept as a prefix, and at most one turn is added. */
  lemma TranscriptAppendOnly(store: map<string, seq<Turn>>, sid: string, saved: Option<Turn>)
    ensures var before := if sid in store then store[sid] else [];
            var after := Record(WithSession(store, sid), sid, saved)[sid];
            && after[..|before|] == before
            && |after| == |before| + (if saved.Some? then 1 else 0)
  {
  }

  /** Asking for a session's memory twice is the same as asking once. */
  lemma WithSessionIdempotent(store: map<string, seq<Turn>>, sid: string)
    ensures WithSession(WithSession(store, sid), sid) == WithSession(store, sid)
  {
  }
}

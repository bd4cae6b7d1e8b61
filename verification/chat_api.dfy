/**
 * The `/chat` endpoint of main.py: ask the chatbot, then turn the reply's Markdown
 * links into HTML anchors. The web framework, the HTML page and the mapping of an
 * exception to HTTP 500 are not part of this model.
 */
module ChatApi {
  import opened Wrappers
  import opened Markdown
  import opened CourseAdvisor

  /** The endpoint's response body. */
  datatype ChatResponse = ChatResponse(reply: string, sessionId: string)

  /** `chat_endpoint(req)`: the bot's session id unchanged, its answer rendered as HTML. */
  method ChatEndpoint(bot: Advisor, message: string, sessionId: Option<string>, minted: string)
    returns (response: ChatResponse)
    modifies bot
    ensures var sid := if sessionId.Some? then sessionId.value else minted;
            var memories := WithSession(old(bot.memoryStore), sid);
            var ex := Respond(message, memories[sid], bot.retrieve(message), bot.chain);
            && response == ChatResponse(MarkdownToHtml(ex.answer), sid)
            && bot.memoryStore == Record(memories, sid, ex.saved)
  {
    var reply, sid := bot.AskCourseBot(message, sessionId, minted);
    reply := MarkdownToHtml(reply);
    response := ChatResponse(reply, sid);
  }

  /** The fallback holds no link, so the endpoint passes it through unchanged. */
  lemma FallbackReplyUnchanged()
    ensures MarkdownToHtml(Fallback) == Fallback
  {
    NoBracketUnchanged(Fallback);
  }
}

/**
 What the walk down the reply promises: a reply that lacks one of the keys on
 the path to the text parses like an empty text, the `{"error": ...}` dict
 included; a reply holding a string where the endpoint puts its text parses
 that string; an empty `candidates` or `parts` list raises.
 */
module ReplyWalk {
  import opened PyText
  import opened Reply

  /** A reply of the shape the generation endpoint sends on success, with text `t`. */
  function TextReply(t: string): Json {
    Obj(map["candidates" := Arr([Obj(map["content" := Obj(map["parts" := Arr([Obj(map["text" := Str(t)])])])])])])
  }

  /** An empty text holds no marker, so it parses to the sentinel and two empty fields. */
  lemma EmptyTextParses()
    ensures ParseText("") == NoAnswer
  {
  }

  /** A dict without `candidates` parses like an empty text. */
  lemma MissingCandidates(response: Json)
    requires response.Obj? && "candidates" !in response.fields
    ensures ParseResponse(response) == Ok(NoAnswer)
  {
    EmptyTextParses();
  }

  /** The dict `generate_query` returns when the request fails parses like an empty text. */
  lemma ErrorReplyParses(message: string)
    ensures ParseResponse(ErrorReply(message)) == Ok(NoAnswer)
  {
    MissingCandidates(ErrorReply(message));
  }

  /** A first candidate without `content` parses like an empty text. */
  lemma MissingContent(response: Json, candidates: Json, candidate: Json)
    requires response.Obj? && Field(response, "candidates") == Some(candidates)
    requires Head(candidates) == Some(candidate) && candidate.Obj?
    requires "content" !in candidate.fields
    ensures ParseResponse(response) == Ok(NoAnswer)
  {
    EmptyTextParses();
  }

  /** A content without `parts` parses like an empty text. */
  lemma MissingParts(response: Json, candidates: Json, candidate: Json, content: Json)
    requires response.Obj? && Field(response, "candidates") == Some(candidates)
    requires Head(candidates) == Some(candidate) && Field(candidate, "content") == Some(content)
    requires content.Obj? && "parts" !in content.fields
    ensures ParseResponse(response) == Ok(NoAnswer)
  {
    EmptyTextParses();
  }

  /** A first part without `text` parses like an empty text. */
  lemma MissingText(response: Json, candidates: Json, candidate: Json, content: Json, parts: Json, part: Json)
    requires response.Obj? && Field(response, "candidates") == Some(candidates)
    requires Head(candidates) == Some(candidate) && Field(candidate, "content") == Some(content)
    requires Field(content, "parts") == Some(parts) && Head(parts) == Some(part)
    requires part.Obj? && "text" !in part.fields
    ensures ParseResponse(response) == Ok(NoAnswer)
  {
    EmptyTextParses();
  }

  /** An empty `candidates` list makes `[0]` raise. */
  lemma EmptyCandidates(response: Json)
    requires response.Obj? && Field(response, "candidates") == Some(Arr([]))
    ensures ParseResponse(response) == Err(IndexError)
  {
  }

  /** An empty `parts` list makes `[0]` raise. */
  lemma EmptyParts(response: Json, candidates: Json, candidate: Json, content: Json)
    requires Field(response, "candidates") == Some(candidates) && Head(candidates) == Some(candidate)
    requires Field(candidate, "content") == Some(content) && Field(content, "parts") == Some(Arr([]))
    ensures ParseResponse(response) == Err(IndexError)
  {
  }

  /** A reply holding its text where the endpoint puts it is parsed by that text. */
  lemma TextReplyParses(response: Json, t: string)
    requires TextAt(response) == Some(Str(t))
    ensures ParseResponse(response) == Ok(ParseText(t))
  {
  }

  /** The reply the endpoint sends on success holds its text where it is looked for. */
  lemma UsualShape(t: string)
    ensures TextAt(TextReply(t)) == Some(Str(t))
    ensures ParseResponse(TextReply(t)) == Ok(ParseText(t))
  {
  }

  /** A text that is not a string but a list or dict holding no marker passes every `in` test. */
  lemma MarkerFreeNonString(response: Json, items: seq<Json>)
    requires ReplyContent(response) == Ok(Arr(items))
    requires Str(SqlOpen) !in items && Str(ExplanationMarker) !in items && Str(NoteMarker) !in items
    ensures ParseResponse(response) == Ok(NoAnswer)
  {
  }
}

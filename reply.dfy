/**
 The reply side of the query-generation tool: the JSON value the generation
 endpoint (or the error path of `generate_query`) hands back, the walk down to
 the reply text with `.get` defaults, and `parse_response`, which cuts the SQL
 query, the explanation and the note out of that text.
 */
module Reply {
  import opened PyText

  /** A decoded JSON value; numbers, booleans and null are `Scalar`. */
  datatype Json = Obj(fields: map<string, Json>) | Arr(items: seq<Json>) | Str(text: string) | Scalar

  /** The Python exceptions `parse_response` can raise on an unexpected reply. */
  datatype Fault = AttributeError | IndexError | KeyError | TypeError

  datatype Result<+T> = Ok(value: T) | Err(fault: Fault) {
    predicate IsFailure() { Err? }
    function PropagateFailure<U>(): Result<U> requires Err? { Err(fault) }
    function Extract(): T requires Ok? { value }
  }

  /** The triple `parse_response` returns. */
  datatype Answer = Answer(sqlQuery: string, explanation: string, note: string)

  const SqlOpen := "```sql"
  const Fence := "```"
  const ExplanationMarker := "**Explanation:**"
  const NoteMarker := "**Note:**"
  const NoQuery := "No SQL query generated."

  /** What a reply without any text parses to. */
  const NoAnswer := Answer(NoQuery, "", "")

  /** The dict `generate_query` returns when the request fails. */
  function ErrorReply(message: string): Json {
    Obj(map["error" := Str(message)])
  }

  /** `v.get(key, default)`. */
  function Get(v: Json, key: string, default: Json): Result<Json> {
    match v
    case Obj(m) => Ok(if key in m then m[key] else default)
    case _ => Err(AttributeError)
  }

  /** `v[0]`; a JSON object has string keys only, so `[0]` is a missing key. */
  function First(v: Json): Result<Json> {
    match v
    case Arr(items) => if |items| == 0 then Err(IndexError) else Ok(items[0])
    case Str(t) => if |t| == 0 then Err(IndexError) else Ok(Str([t[0]]))
    case Obj(_) => Err(KeyError)
    case Scalar => Err(TypeError)
  }

  /** `v[key]` when `v` is a dict holding `key`. */
  function Field(v: Json, key: string): Option<Json> {
    if v.Obj? && key in v.fields then Some(v.fields[key]) else None
  }

  /** The first item of a non-empty list. */
  function Head(v: Json): Option<Json> {
    if v.Arr? && |v.items| > 0 then Some(v.items[0]) else None
  }

  /**
   The reply text where the endpoint puts it, `candidates[0].content.parts[0].text`,
   when every step of that path is there.
   */
  function TextAt(response: Json): Option<Json> {
    match Field(response, "candidates")
    case None => None
    case Some(candidates) =>
      match Head(candidates)
      case None => None
      case Some(candidate) =>
        match Field(candidate, "content")
        case None => None
        case Some(content) =>
          match Field(content, "parts")
          case None => None
          case Some(parts) =>
            match Head(parts)
            case None => None
            case Some(part) => Field(part, "text")
  }

  /**
   `response.get('candidates', [{}])[0].get('content', {}).get('parts', [{}])[0].get('text', '')`:
   the text where the endpoint puts it; otherwise, when no step raises, the
   empty string of the defaults.
   */
  function ReplyContent(response: Json): (r: Result<Json>)
    ensures TextAt(response).Some? ==> r == Ok(TextAt(response).value)
    ensures r.Ok? && r.value != Str("") ==> TextAt(response) == Some(r.value)
  {
    var candidates :- Get(response, "candidates", Arr([Obj(map[])]));
    var candidate :- First(candidates);
    var content :- Get(candidate, "content", Obj(map[]));
    var parts :- Get(content, "parts", Arr([Obj(map[])]));
    var part :- First(parts);
    Get(part, "text", Str(""))
  }

  /** The SQL query: the stripped text after the first "```sql", up to the next fence. */
  function SqlQueryOf(content: string): (q: string)
    ensures !Contains(q, Fence)
    ensures Trimmed(q)
    ensures !Contains(content, SqlOpen) ==> q == NoQuery
  {
    if Contains(content, SqlOpen) then
      FindSpec(content, SqlOpen);
      var body := Split(Split(content, SqlOpen)[1], Fence)[0];
      SplitPieceFree(Split(content, SqlOpen)[1], Fence, 0);
      StripKeepsOut(body, Fence);
      Strip(body)
    else
      MissingChar(NoQuery, Fence, 0);
      NoQuery
  }

  /**
   The explanation: the stripped text after the first "**Explanation:**", up to the
   first "**Note:**" before any second "**Explanation:**".
   */
  function ExplanationOf(content: string): (e: string)
    ensures !Contains(e, NoteMarker) && !Contains(e, ExplanationMarker)
    ensures Trimmed(e)
    ensures !Contains(content, ExplanationMarker) ==> e == ""
  {
    if Contains(content, ExplanationMarker) then
      FindSpec(content, ExplanationMarker);
      var section := Split(content, ExplanationMarker)[1];
      var body := Split(section, NoteMarker)[0];
      SplitPieceFree(content, ExplanationMarker, 1);
      SplitPieceFree(section, NoteMarker, 0);
      StripKeepsOut(body, NoteMarker);
      PrefixKeepsOut(section, |body|, ExplanationMarker);
      StripKeepsOut(body, ExplanationMarker);
      Strip(body)
    else
      ""
  }

  /** The note: the stripped text between the first and the second "**Note:**". */
  function NoteOf(content: string): (n: string)
    ensures !Contains(n, NoteMarker)
    ensures Trimmed(n)
    ensures !Contains(content, NoteMarker) ==> n == ""
  {
    if Contains(content, NoteMarker) then
      FindSpec(content, NoteMarker);
      var body := Split(content, NoteMarker)[1];
      SplitPieceFree(content, NoteMarker, 1);
      StripKeepsOut(body, NoteMarker);
      Strip(body)
    else
      ""
  }

  /**
   What every parsed field keeps to: the query holds no fence, the explanation
   neither marker, the note no `**Note:**`, and none has whitespace at an end.
   */
  predicate FieldsClean(a: Answer) {
    && !Contains(a.sqlQuery, Fence) && Trimmed(a.sqlQuery)
    && !Contains(a.explanation, NoteMarker) && !Contains(a.explanation, ExplanationMarker) && Trimmed(a.explanation)
    && !Contains(a.note, NoteMarker) && Trimmed(a.note)
  }

  /** `parse_response` once the reply text is a string. */
  function ParseText(content: string): (a: Answer)
    ensures FieldsClean(a)
    ensures content == "" ==> a == NoAnswer
  {
    Answer(SqlQueryOf(content), ExplanationOf(content), NoteOf(content))
  }

  /**
   `marker in v` for a value that is not a string: membership among the items
   of a list, or among the keys of a dict.
   */
  predicate Member(v: Json, marker: string)
    requires v.Arr? || v.Obj?
  {
    if v.Arr? then Str(marker) in v.items else marker in v.fields
  }

  /**
   The three `in` tests and `split` calls on whatever `.get('text', '')` gave:
   a string is parsed; a list or a dict passes the `in` tests and only fails at
   `split` when a marker is among its members; anything else fails at `in`.
   Whatever is not a string parses, if at all, like an empty text.
   */
  function ParseContent(content: Json): (r: Result<Answer>)
    ensures r.Ok? ==> FieldsClean(r.value)
    ensures r.Ok? && !content.Str? ==> r.value == NoAnswer
  {
    match content
    case Str(t) => Ok(ParseText(t))
    case Scalar => Err(TypeError)
    case _ =>
      if Member(content, SqlOpen) || Member(content, ExplanationMarker) || Member(content, NoteMarker)
      then Err(AttributeError)
      else Ok(ParseText(""))
  }

  /**
   `parse_response(response)`: the parse of the text where the endpoint puts
   it; the sentinel and two empty fields for a reply without such a text,
   unless the walk raises.
   */
  function ParseResponse(response: Json): (r: Result<Answer>)
    ensures TextAt(response).Some? && TextAt(response).value.Str? ==> r == Ok(ParseText(TextAt(response).value.text))
    ensures TextAt(response).None? && r.Ok? ==> r.value == NoAnswer
    ensures r.Ok? ==> FieldsClean(r.value)
  {
    var content :- ReplyContent(response);
    ParseContent(content)
  }
}

# Query Generation Tool — a Dafny model of its core

The Query Generation Tool is a small Streamlit page. It collects a source and a
target database system, a kind of validation, pasted source and target tables,
and optional conditions, columns and logic for each side. From these it builds
a prompt and sends it to the Google Gemini `generateContent` endpoint. It then
cuts three parts out of the generated reply and shows them: a SQL query, an
explanation and a note.

This project models three pieces of `new_app.py` as pure Dafny functions and
proves what they promise:

- **`parse_response`** (module `Reply`). It walks down the reply with the
  `.get` defaults of the source. It then splits the reply text on the markers
  ```` ```sql ````, ```` ``` ````, `**Explanation:**` and `**Note:**`, and strips
  each piece. Python's `str.find`, `in`, `split`, `join` and `strip` are
  modelled on `seq<char>` in module `PyText`, together with the lemmas that
  state what they mean.
  - Module `ReplyProperties` states where each field lies in the reply text,
    the round trips, and that the note stops at a second `**Note:**`.
  - Module `ReplyWalk` covers replies without text and replies that raise.
  - Module `ReplyExamples` works through a full reply and two edge cases.
- **The prompt** built by `generate_query` (module `Prompt`). It is a fixed
  header, eleven labelled lines and a fixed closing request. Module
  `PromptProperties` proves, for every form, where each line lies and what it
  shows. Target System, Validation Type and Target Table appear as they are;
  the other eight fields appear with "Not provided" in place of `None`. It
  also proves that the prompt reads back, label by label, to exactly the
  values of the form, provided no value holds the start of the line after it.
  A value may span several lines, as a rendered table does. Without that
  proviso two different forms can give the same prompt, and a lemma shows one
  such pair.
- **The "Generate Query" button** (module `Gate`). It runs three checks in a
  fixed order, and only after all of them the request and the parse. Module
  `GateProperties` proves the order and which calls are made.

The network calls are not modelled. The key check's answer comes in as
`keyValid`. The JSON value that `generate_query` returns, whether the
endpoint's reply or its `{"error": ...}` dict, comes in as `reply`.

Where the code and its documented intent differ, the model follows the code:

- The note is the text between the first and the second `**Note:**`, not
  everything after the first one (`split(...)[1]`).
- The query ends at the first fence inside the section that the next
  ```` ```sql ```` closes, because the text is split on ```` ```sql ```` first.
- A Python exception is a `Fault` value in a `Result`, not a precondition.
  That covers an empty `candidates` or `parts` list, a reply that is not a
  dict, and a `text` that is not a string.

## Model

| member | source | states |
|---|---|---|
| PyText.Find | new_app.py:154-156 | a position `str.find` reports leaves room for the separator inside the text |
| PyText.FindSpec | new_app.py:154-156 | `str.find` gives the first occurrence of the separator, and none exactly when the text does not contain it |
| PyText.FindOrEndSpec | new_app.py:154-156 | the first piece of a split ends at the first occurrence, or at the end of the text when there is none |
| PyText.Split | new_app.py:154-156 | `split` yields at least one piece, more than one exactly when the separator occurs, and the first piece is the text before the first occurrence |
| PyText.SplitPieceFree | new_app.py:154-156 | no piece of a split contains the separator |
| PyText.Join | new_app.py:154-156 | the source never calls `join`; this is `sep.join`, the reference inverse through which SplitJoin pins down `split`, and a join starts with its first piece |
| PyText.SplitJoin | new_app.py:154-156 | joining the pieces of a split with the separator gives back the text |
| PyText.Strip | new_app.py:154-156 | `strip()` gives a text with no whitespace at either end |
| PyText.StripSpec | new_app.py:154-156 | what `strip()` keeps is an infix of the text with only whitespace before and after it |
| PyText.StripUnique | new_app.py:154-156 | stripping whitespace + a trimmed text + whitespace gives back that trimmed text |
| PyText.StripKeepsOut | new_app.py:154-156 | stripping never introduces a separator |
| Reply.ReplyContent | new_app.py:153 | the walk gives the text at `candidates[0].content.parts[0].text` when every step is there, and otherwise, unless a step raises, the empty string |
| Reply.SqlQueryOf | new_app.py:154 | the query holds no fence and is trimmed; without ```` ```sql ```` it is "No SQL query generated." |
| Reply.ExplanationOf | new_app.py:155 | the explanation holds neither marker and is trimmed; without `**Explanation:**` it is empty |
| Reply.NoteOf | new_app.py:156 | the note holds no `**Note:**` and is trimmed; without `**Note:**` it is empty |
| Reply.ParseText | new_app.py:154-157 | every parsed field is trimmed and free of the markers that end it, and an empty text gives the sentinel and two empty fields |
| Reply.ParseContent | new_app.py:154-156 | a successful parse has clean fields, and a text that is a list or a dict parses, if at all, like an empty text |
| Reply.ParseResponse | new_app.py:152-157 | a reply is parsed by the text where the endpoint puts it; a reply without that text gives the sentinel and two empty fields unless the walk raises; every field of a successful parse is clean |
| ReplyProperties.SqlQueryLocated | new_app.py:154 | the query is the stripped text from the end of the first ```` ```sql ```` to the first fence inside the section that the next ```` ```sql ```` (or the end) closes |
| ReplyProperties.ExplanationLocated | new_app.py:155 | the explanation is the stripped text from the end of the first `**Explanation:**` to the first `**Note:**` inside the section that a second `**Explanation:**` (or the end) closes |
| ReplyProperties.NoteLocated | new_app.py:156 | the note is the stripped text between the first and the second `**Note:**`, or to the end when there is no second one |
| ReplyProperties.SqlRoundTrip | new_app.py:154 | a query put between ```` ```sql ```` and a fence comes back stripped, whatever comes after, when the text before it holds no ```` ```sql ````, the query holds no fence and does not end with a backtick, and the text after the fence does not start with one |
| ReplyProperties.QueryIsFirstPiece | new_app.py:154 | inside the section after ```` ```sql ````, the query is the text before the first fence |
| ReplyProperties.SectionAfterQuery | new_app.py:154 | the section after ```` ```sql ```` ends right after the query or beyond the closing fence |
| ReplyProperties.ExplanationRoundTrip | new_app.py:155 | an explanation followed by `**Note:**` comes back stripped, whatever comes after, when no `**Explanation:**` occurs before its own marker, no `**Note:**` occurs in the explanation, and no `**Explanation:**` starts inside the explanation or its `**Note:**` (each counting an occurrence that overlaps the marker after it) |
| ReplyProperties.ExplanationToEnd | new_app.py:155 | an explanation holding neither marker runs to the end of the reply and comes back stripped, when no `**Explanation:**` occurs before its own marker, even overlapping it |
| ReplyProperties.NoteToEnd | new_app.py:156 | a note holding no `**Note:**` runs to the end of the reply and comes back stripped, when no `**Note:**` occurs before its own marker, even overlapping it |
| ReplyProperties.NoteStopsAtSecondMarker | new_app.py:156 | a second `**Note:**` ends the note, and what follows it is dropped, when no `**Note:**` occurs before either marker, even overlapping it |
| ReplyExamples.FullReply | new_app.py:152-157 | a reply laid out as preamble, fenced query, any text after the fence, explanation, note gives back the three parts stripped, under the provisos of SqlRoundTrip for the query, of ExplanationRoundTrip for the explanation, and, for the note, no `**Note:**` before its marker (even overlapping it) and none in the note |
| ReplyExamples.SecondNoteDropped | new_app.py:156 | the note of `**Note:**` a `**Note:**` b is a alone, when a holds no `**Note:**`, even overlapping the second marker |
| ReplyExamples.SecondExplanationIgnored | new_app.py:155 | a second `**Explanation:**` after the note leaves the explanation whole, when no `**Explanation:**` occurs before the first marker or before the second, and no `**Note:**` in the explanation (each counting overlaps) |
| ReplyExamples.BacktickAfterFence | new_app.py:154 | a backtick followed by "sql" right after the closing fence is read into the query |
| ReplyWalk.EmptyTextParses | new_app.py:153-156 | an empty text parses to the sentinel query and two empty fields |
| ReplyWalk.MissingCandidates | new_app.py:153 | a dict without `candidates` parses like an empty text |
| ReplyWalk.ErrorReplyParses | new_app.py:141-149 | the `{"error": ...}` dict of a failed request parses like an empty text |
| ReplyWalk.MissingContent | new_app.py:153 | a first candidate without `content` parses like an empty text |
| ReplyWalk.MissingParts | new_app.py:153 | a content without `parts` parses like an empty text |
| ReplyWalk.MissingText | new_app.py:153 | a first part without `text` parses like an empty text |
| ReplyWalk.EmptyCandidates | new_app.py:153 | an empty `candidates` list raises IndexError |
| ReplyWalk.EmptyParts | new_app.py:153 | an empty `parts` list under the first candidate's content raises IndexError |
| ReplyWalk.TextReplyParses | new_app.py:153-156 | any reply holding a string at `candidates[0].content.parts[0].text` is parsed by that string |
| ReplyWalk.UsualShape | new_app.py:153 | the reply shape the endpoint sends on success holds its text where the walk looks |
| ReplyWalk.MarkerFreeNonString | new_app.py:153-156 | a list `text` holding no marker passes every `in` test and parses like an empty text |
| Prompt.Shown | new_app.py:96 | a guarded field shows its value when present, and shows "Not provided" exactly when it is `None` or holds that very text |
| Prompt.PromptOf | new_app.py:93-95 | the prompt starts with the fixed header |
| PromptProperties.PromptLayout | new_app.py:93-109 | every prompt is the header, the lines before a label, that label's line, the lines after it, and the closing request |
| PromptProperties.LineAt | new_app.py:96-106 | in every prompt each label's line holds the label and its value at its offset, and the next line starts right after it |
| PromptProperties.LinesInOrder | new_app.py:96-106 | the eleven lines come in label order |
| PromptProperties.FooterAtEnd | new_app.py:107-109 | every prompt ends with the closing request, right after the last line |
| PromptProperties.TargetFieldsVerbatim | new_app.py:97-98 | Target System and Validation Type appear as they are after their labels, in every prompt |
| PromptProperties.TargetTableVerbatim | new_app.py:100 | the target table appears as it is after its label, and an absent one as "None", in every prompt |
| PromptProperties.SourceFieldsShown | new_app.py:96-99 | the source system and source table lines show their value, or "Not provided" for `None`, in every prompt |
| PromptProperties.SourceDetailsShown | new_app.py:101-103 | the source condition, column and logic lines show their value, or "Not provided" for `None`, in every prompt |
| PromptProperties.TargetFieldsShown | new_app.py:104-106 | the target condition, column and logic lines show their value, or "Not provided" for `None`, in every prompt |
| PromptProperties.ReadLastLine | new_app.py:106-109 | the last line's value runs up to the newline before the closing request |
| PromptProperties.ReadOneLine | new_app.py:96-106 | a line's value runs up to the start of the next label's line, when it does not hold that start itself |
| PromptProperties.LinesRoundTrip | new_app.py:96-109 | the labelled lines read back to every value in label order, values spanning several lines included, when no value holds the start of the next line |
| PromptProperties.PromptRoundTrip | new_app.py:93-109 | under that proviso the prompt reads back, after the header, to exactly the values of the form |
| PromptProperties.SamePromptSameFields | new_app.py:96-106 | under that proviso equal prompts mean equal Target System, Validation Type and Target Table, and equal shown text for every guarded field |
| PromptProperties.SeparationNeeded | new_app.py:103-104 | without the proviso two forms with different values give the same prompt |
| PromptProperties.SourceNoneReadsAsNotProvided | new_app.py:96-103 | each source-side field and the source table left as `None` give the same prompt as holding "Not provided" |
| PromptProperties.TargetNoneReadsAsNotProvided | new_app.py:104-106 | each guarded target-side field left as `None` gives the same prompt as holding "Not provided" |
| Gate.OnGenerate | new_app.py:160-172 | the key is checked before any request, and at most the key check and one request are made |
| GateProperties.EmptyKeyFirst | new_app.py:161-162 | an empty key is reported first, with no call made |
| GateProperties.MissingTableSecond | new_app.py:163-164 | with a key, a missing or empty target table is reported next, with no call made |
| GateProperties.InvalidKeyThird | new_app.py:166-168 | with a key and a table, a rejected key is reported after the key check alone |
| GateProperties.AllChecksPass | new_app.py:169-172 | when all checks pass, the prompt of the form is sent and the page shows the parse of the reply or the exception it raises |
| GateProperties.GeneratesExactlyWhenChecksPass | new_app.py:160-172 | the request is made exactly when the key is non-empty, the table is present and non-empty, and the key is valid |
| GateProperties.FailedRequestShowsSentinel | new_app.py:141-149 | a failed request shows "No SQL query generated." with no explanation or note |

## Left out

- Streamlit widgets, layout and display are user interface (new_app.py:8-70, 174-183). That includes showing the explanation and the note only when they are non-empty.
- The "Verify API Key" button (new_app.py:85-89) and the standalone "Target table details are mandatory." error (new_app.py:65-66) are user interface around the same checks.
- `verify_api_key` and the request in `generate_query` are network I/O (new_app.py:73-82, 110-149). Their results are the parameters `keyValid` and `reply`. The content-type check and the three `except` branches appear only through the `{"error": ...}` dict they all return.
- `pd.read_csv` of the pasted text and the rendering of a DataFrame inside the f-string are foreign library code (new_app.py:48, 99-100). A table is its rendered text and its `.empty` flag, both taken as given.
- Temperature, top-p and the safety settings are forwarded unchanged to the endpoint (new_app.py:31-41, 121-130). They do not affect the modelled logic.
- PyText.Strip: removes only the ASCII characters that Python counts as whitespace. It does not model the non-ASCII whitespace of `str.strip()`.
- PyText.Split: requires a non-empty separator. Python raises on an empty one, and every separator in the source is a non-empty constant.
- Reply.Json: numbers, booleans and `null` are one `Scalar` case. `parse_response` treats them alike: `in` raises TypeError on them.
- ReplyProperties.SqlRoundTrip: requires that the preamble hold no ```` ```sql ````, that the query hold no fence and not end with a backtick, and that the text after the fence not start with one. Otherwise the opening or the fence is found elsewhere, possibly one or two characters off (ReplyExamples.BacktickAfterFence shows one such reply).
- ReplyProperties.ExplanationRoundTrip, ReplyProperties.ExplanationToEnd, ReplyProperties.NoteToEnd, ReplyProperties.NoteStopsAtSecondMarker: require that each marker be the first of its kind where the layout puts it, and ExplanationRoundTrip that no second `**Explanation:**` start before the end of the `**Note:**` after the explanation. The conditions are written "the marker does not occur, even overlapping the marker that follows", because `**Note:**` can overlap itself at `**`.
- PromptProperties.PromptRoundTrip, PromptProperties.LinesRoundTrip, PromptProperties.SamePromptSameFields: require that no value hold a newline followed by the start of the next label's line. The prompt itself is ambiguous without that (PromptProperties.SeparationNeeded); the layout lemmas hold for every form.
- ReplyExamples.FullReply, ReplyExamples.SecondNoteDropped, ReplyExamples.SecondExplanationIgnored: require that no marker occur before the place the layout gives it (FullReply: no ```` ```sql ```` in the preamble, no `**Explanation:**` before the explanation, no `**Note:**` before the note), that the parts hold no marker of their own kind (no fence in the query, no `**Note:**` in the explanation or the note, no `**Explanation:**` starting inside the explanation or its `**Note:**`), and FullReply that no backtick touch the closing fence (as SqlRoundTrip). Python's `split` takes the first occurrence, so an earlier marker moves the parts.

/**
 The prompt `generate_query` sends to the generation endpoint: a fixed header,
 eleven labelled lines in a fixed order, and a fixed closing request. The
 source system, the source table and the six condition, column and logic
 fields are written as "Not provided" when they are `None`; Target System,
 Validation Type and Target Table are written as they are, whatever they hold
 (an absent target table as "None").
 */
module Prompt {
  import opened PyText

  /**
   A pasted table: `rendered` is the text the DataFrame turns into inside the
   f-string, `empty` is the DataFrame's `.empty`. Both are taken as given.
   */
  datatype Table = Table(rendered: string, empty: bool)

  /** What the form hands to `generate_query`; `None` is Python's `None`. */
  datatype Form = Form(
    sourceSystem: Option<string>,
    targetSystem: string,
    validationType: string,
    sourceTable: Option<Table>,
    targetTable: Option<Table>,
    sourceCondition: Option<string>,
    sourceColumn: Option<string>,
    sourceLogic: Option<string>,
    targetCondition: Option<string>,
    targetColumn: Option<string>,
    targetLogic: Option<string>)

  const NotProvided := "Not provided"

  const Header := "\n    You are a database expert. Generate a database query according to selected Source System and target system technology and based on following details and :\n\n"

  const Footer := "\n    Generate an appropriate query:\n    "

  const SourceSystemLabel := "Source System"
  const TargetSystemLabel := "Target System"
  const ValidationTypeLabel := "Validation Type"
  const SourceTableLabel := "Source Table"
  const TargetTableLabel := "Target Table"
  const SourceConditionLabel := "Source Condition"
  const SourceColumnLabel := "Source Column"
  const SourceLogicLabel := "Source Logic"
  const TargetConditionLabel := "Target Condition"
  const TargetColumnLabel := "Target Column"
  const TargetLogicLabel := "Target Logic"

  /** The labels of the eleven lines, in the order the prompt writes them. */
  const Labels := [SourceSystemLabel, TargetSystemLabel, ValidationTypeLabel, SourceTableLabel, TargetTableLabel,
                   SourceConditionLabel, SourceColumnLabel, SourceLogicLabel,
                   TargetConditionLabel, TargetColumnLabel, TargetLogicLabel]

  /** `{x if x is not None else "Not provided"}`. */
  function Shown(x: Option<string>): (r: string)
    ensures x.Some? ==> r == x.value
    ensures r == NotProvided <==> x == None || x == Some(NotProvided)
  {
    match x
    case None => NotProvided
    case Some(v) => v
  }

  /** The rendered text of a table that may be absent. */
  function TableText(t: Option<Table>): Option<string> {
    match t
    case None => None
    case Some(table) => Some(table.rendered)
  }

  /** `{target_table}` with no guard: Python writes an absent table as "None". */
  function Unguarded(t: Option<Table>): string {
    match t
    case None => "None"
    case Some(table) => table.rendered
  }

  /** The text after each label, in the order of Labels. */
  function Values(f: Form): (vs: seq<string>)
    ensures |vs| == |Labels|
  {
    [Shown(f.sourceSystem), f.targetSystem, f.validationType, Shown(TableText(f.sourceTable)),
     Unguarded(f.targetTable), Shown(f.sourceCondition), Shown(f.sourceColumn), Shown(f.sourceLogic),
     Shown(f.targetCondition), Shown(f.targetColumn), Shown(f.targetLogic)]
  }

  /** One line of the prompt: four spaces of indentation, the label, a colon, the value. */
  function Line(name: string, value: string): string {
    LineStart(name) + value + "\n"
  }

  /** The beginning of a line, up to where its value starts. */
  function LineStart(name: string): string {
    "    " + name + ": "
  }

  function Lines(labels: seq<string>, values: seq<string>): string
    requires |labels| == |values|
  {
    if labels == [] then [] else Line(labels[0], values[0]) + Lines(labels[1..], values[1..])
  }

  /** The f-string of `generate_query`. */
  function PromptOf(f: Form): (p: string)
    ensures Header <= p
  {
    Header + Lines(Labels, Values(f)) + Footer
  }

  /**
   What ends the value of a line: the newline and the start of the next line.
   A value may span several lines (a rendered table does); only this text ends it.
   */
  function NextLine(name: string): string {
    "\n" + LineStart(name)
  }

  /**
   Reads one value per label: the label's line start, then the value up to the
   start of the next label's line, or, for the last label, up to the newline
   and the closing text `last` that end `s`.
   */
  function ReadLines(s: string, labels: seq<string>, last: string): (r: Option<seq<string>>)
    requires labels != []
    ensures r.Some? ==> |r.value| == |labels|
    decreases |labels|
  {
    var start := LineStart(labels[0]);
    if |start| <= |s| && s[..|start|] == start then
      var rest := s[|start|..];
      if |labels| == 1 then
        var end := "\n" + last;
        if |end| <= |rest| && rest[|rest| - |end|..] == end then Some([rest[..|rest| - |end|]]) else None
      else
        match Find(rest, NextLine(labels[1]))
        case None => None
        case Some(k) =>
          match ReadLines(rest[k + 1..], labels[1..], last)
          case None => None
          case Some(more) => Some([rest[..k]] + more)
    else None
  }

  /** Reads the values back out of a prompt, if it is one. */
  function ReadPrompt(p: string): Option<seq<string>> {
    if |Header| <= |p| && p[..|Header|] == Header then ReadLines(p[|Header|..], Labels, Footer)
    else None
  }

  /**
   No value holds the start of the line that follows it, so each value ends
   where the next label's line begins.
   */
  predicate Separated(labels: seq<string>, values: seq<string>)
    requires |labels| == |values|
  {
    forall i | 0 <= i < |values| - 1 :: !Contains(values[i], NextLine(labels[i + 1]))
  }

  /** No label spans two lines. */
  predicate SingleLineLabels(labels: seq<string>) {
    forall i | 0 <= i < |labels| :: '\n' !in labels[i]
  }
}

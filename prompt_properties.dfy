/**
 What the prompt promises. For every form, each value stands on its own
 labelled line, the lines come in the fixed label order, and the three
 unguarded fields appear as they are. When no value holds the start of the
 line that follows it, the prompt reads back to exactly the form's values, so
 it determines the value after every label; without that, two forms can give
 the same prompt. "Not provided" stands for `None`, and only for `None` or
 that very text.
 */
module PromptProperties {
  import opened PyText
  import opened Prompt

  /** Line start, value and line end, in one piece. */
  lemma LineParts(name: string, value: string, tail: string)
    ensures Line(name, value) + tail == LineStart(name) + (value + "\n" + tail)
  {
  }

  /** The lines of two label runs, one after the other. */
  lemma {:induction false} LinesAppend(l1: seq<string>, v1: seq<string>, l2: seq<string>, v2: seq<string>)
    requires |l1| == |v1| && |l2| == |v2|
    ensures Lines(l1 + l2, v1 + v2) == Lines(l1, v1) + Lines(l2, v2)
    decreases l1
  {
    if l1 == [] {
      assert l1 + l2 == l2 && v1 + v2 == v2;
    } else {
      assert (l1 + l2)[1..] == l1[1..] + l2 && (v1 + v2)[1..] == v1[1..] + v2;
      LinesAppend(l1[1..], v1[1..], l2, v2);
    }
  }

  /** The lines, cut at line `i`: those before it, line `i`, those after it. */
  lemma LinesAt(labels: seq<string>, values: seq<string>, i: nat)
    requires |labels| == |values| && i < |labels|
    ensures Lines(labels, values) == Lines(labels[..i], values[..i]) + Line(labels[i], values[i])
                                     + Lines(labels[i + 1..], values[i + 1..])
  {
    var l1, v1, l2, v2 := labels[..i], values[..i], labels[i..], values[i..];
    assert l1 + l2 == labels && v1 + v2 == values;
    LinesAppend(l1, v1, l2, v2);
    assert l2[1..] == labels[i + 1..] && v2[1..] == values[i + 1..];
    assert Lines(l2, v2) == Line(labels[i], values[i]) + Lines(labels[i + 1..], values[i + 1..]);
    Assoc(Lines(l1, v1), Line(labels[i], values[i]), Lines(labels[i + 1..], values[i + 1..]));
  }

  lemma Assoc(a: string, b: string, c: string)
    ensures a + (b + c) == a + b + c
  {
  }

  /** The lines up to and including line `i`. */
  lemma LinesUpTo(labels: seq<string>, values: seq<string>, i: nat)
    requires |labels| == |values| && i < |labels|
    ensures Lines(labels[..i + 1], values[..i + 1]) == Lines(labels[..i], values[..i]) + Line(labels[i], values[i])
  {
    assert labels[..i + 1] == labels[..i] + [labels[i]] && values[..i + 1] == values[..i] + [values[i]];
    LinesAppend(labels[..i], values[..i], [labels[i]], [values[i]]);
    assert Lines([labels[i]], [values[i]]) == Line(labels[i], values[i]) + Lines([], []);
  }

  /**
   The layout of every prompt: the header, the lines before label `i`, the
   line of label `i` with its value, the lines after it, the closing text.
   */
  lemma PromptLayout(f: Form, i: nat)
    requires i < |Labels|
    ensures PromptOf(f) == Header + Lines(Labels[..i], Values(f)[..i]) + Line(Labels[i], Values(f)[i])
                           + Lines(Labels[i + 1..], Values(f)[i + 1..]) + Footer
  {
    var vs := Values(f);
    var a, b, c := Lines(Labels[..i], vs[..i]), Line(Labels[i], vs[i]), Lines(Labels[i + 1..], vs[i + 1..]);
    LinesAt(Labels, vs, i);
    assert PromptOf(f) == Header + (a + b + c) + Footer;
    Assoc(Header, a + b, c);
    Assoc(Header, a, b);
  }

  /** Where the line of label `i` begins in the prompt of `f`. */
  function LineOffset(f: Form, i: nat): nat
    requires i <= |Labels|
  {
    |Header| + |Lines(Labels[..i], Values(f)[..i])|
  }

  /**
   In every prompt the line of label `i` holds that label and its value, and
   the next label's line starts right after it.
   */
  lemma LineAt(f: Form, i: nat)
    requires i < |Labels|
    ensures OccursAt(PromptOf(f), Line(Labels[i], Values(f)[i]), LineOffset(f, i))
    ensures LineOffset(f, i + 1) == LineOffset(f, i) + |Line(Labels[i], Values(f)[i])|
  {
    var before := Header + Lines(Labels[..i], Values(f)[..i]);
    var line := Line(Labels[i], Values(f)[i]);
    var after := Lines(Labels[i + 1..], Values(f)[i + 1..]) + Footer;
    PromptLayout(f, i);
    Assoc(before + line, Lines(Labels[i + 1..], Values(f)[i + 1..]), Footer);
    InfixAt(before, line, after);
    LinesUpTo(Labels, Values(f), i);
  }

  lemma InfixAt(a: string, b: string, c: string)
    ensures OccursAt(a + b + c, b, |a|)
  {
    assert (a + b + c)[|a|..|a| + |b|] == b;
  }

  /** Every prompt ends with the closing request, right after the last line. */
  lemma FooterAtEnd(f: Form)
    ensures OccursAt(PromptOf(f), Footer, LineOffset(f, |Labels|))
    ensures |PromptOf(f)| == LineOffset(f, |Labels|) + |Footer|
  {
    assert Labels[..|Labels|] == Labels && Values(f)[..|Labels|] == Values(f);
    var p := PromptOf(f);
    assert p[LineOffset(f, |Labels|)..] == Footer;
  }

  /** The line of label `i`, given the label and the value it holds. */
  lemma FieldLine(f: Form, i: nat, name: string, value: string)
    requires i < |Labels| && Labels[i] == name && Values(f)[i] == value
    ensures OccursAt(PromptOf(f), Line(name, value), LineOffset(f, i))
  {
    LineAt(f, i);
  }

  /**
   Target System and Validation Type are written as they are in every prompt,
   each on its own line.
   */
  lemma TargetFieldsVerbatim(f: Form)
    ensures OccursAt(PromptOf(f), Line(TargetSystemLabel, f.targetSystem), LineOffset(f, 1))
    ensures OccursAt(PromptOf(f), Line(ValidationTypeLabel, f.validationType), LineOffset(f, 2))
  {
    FieldLine(f, 1, TargetSystemLabel, f.targetSystem);
    FieldLine(f, 2, ValidationTypeLabel, f.validationType);
  }

  /** The target table is written as it is in every prompt, and an absent one as "None". */
  lemma TargetTableVerbatim(f: Form)
    ensures f.targetTable.Some? ==>
              OccursAt(PromptOf(f), Line(TargetTableLabel, f.targetTable.value.rendered), LineOffset(f, 4))
    ensures f.targetTable.None? ==> OccursAt(PromptOf(f), Line(TargetTableLabel, "None"), LineOffset(f, 4))
  {
    FieldLine(f, 4, TargetTableLabel, Unguarded(f.targetTable));
  }

  /**
   The source system and source table lines show their field, and "Not
   provided" in place of `None`, in every prompt.
   */
  lemma SourceFieldsShown(f: Form)
    ensures OccursAt(PromptOf(f), Line(SourceSystemLabel, Shown(f.sourceSystem)), LineOffset(f, 0))
    ensures OccursAt(PromptOf(f), Line(SourceTableLabel, Shown(TableText(f.sourceTable))), LineOffset(f, 3))
  {
    FieldLine(f, 0, SourceSystemLabel, Shown(f.sourceSystem));
    FieldLine(f, 3, SourceTableLabel, Shown(TableText(f.sourceTable)));
  }

  /**
   The source condition, column and logic lines show their field, and "Not
   provided" in place of `None`, in every prompt.
   */
  lemma SourceDetailsShown(f: Form)
    ensures OccursAt(PromptOf(f), Line(SourceConditionLabel, Shown(f.sourceCondition)), LineOffset(f, 5))
    ensures OccursAt(PromptOf(f), Line(SourceColumnLabel, Shown(f.sourceColumn)), LineOffset(f, 6))
    ensures OccursAt(PromptOf(f), Line(SourceLogicLabel, Shown(f.sourceLogic)), LineOffset(f, 7))
  {
    FieldLine(f, 5, SourceConditionLabel, Shown(f.sourceCondition));
    FieldLine(f, 6, SourceColumnLabel, Shown(f.sourceColumn));
    FieldLine(f, 7, SourceLogicLabel, Shown(f.sourceLogic));
  }

  /**
   The three guarded target-side lines show their field, and "Not provided"
   in place of `None`, in every prompt.
   */
  lemma TargetFieldsShown(f: Form)
    ensures OccursAt(PromptOf(f), Line(TargetConditionLabel, Shown(f.targetCondition)), LineOffset(f, 8))
    ensures OccursAt(PromptOf(f), Line(TargetColumnLabel, Shown(f.targetColumn)), LineOffset(f, 9))
    ensures OccursAt(PromptOf(f), Line(TargetLogicLabel, Shown(f.targetLogic)), LineOffset(f, 10))
  {
    FieldLine(f, 8, TargetConditionLabel, Shown(f.targetCondition));
    FieldLine(f, 9, TargetColumnLabel, Shown(f.targetColumn));
    FieldLine(f, 10, TargetLogicLabel, Shown(f.targetLogic));
  }

  /** The lines come in label order: a later label's line starts further on. */
  lemma LinesInOrder(f: Form, i: nat, j: nat)
    requires i < j <= |Labels|
    ensures LineOffset(f, i) < LineOffset(f, j)
    decreases j - i
  {
    LineAt(f, i);
    if i + 1 < j {
      LinesInOrder(f, i + 1, j);
    }
  }

  /** None of the eleven labels spans two lines. */
  lemma LabelsSingleLine()
    ensures SingleLineLabels(Labels)
  {
  }

  /** The newline that starts a label's line occurs nowhere else in it. */
  lemma NextLineFresh(name: string)
    requires '\n' !in name
    ensures NextLine(name)[0] !in NextLine(name)[1..]
  {
    assert NextLine(name)[1..] == "    " + name + ": ";
  }

  /** Reading the last line: its value runs up to the newline before the closing text. */
  lemma ReadLastLine(name: string, v: string, last: string)
    ensures ReadLines(LineStart(name) + (v + "\n" + last), [name], last) == Some([v])
  {
    var start := LineStart(name);
    var rest := v + "\n" + last;
    Halves(start, rest);
    assert rest[|rest| - |"\n" + last|..] == "\n" + last;
    assert rest[..|rest| - |"\n" + last|] == v;
  }

  /**
   Reading a line that another follows: its value runs up to the start of the
   next label's line, then the reading goes on from there.
   */
  lemma ReadOneLine(labels: seq<string>, v: string, tail: string, last: string)
    requires |labels| >= 2 && '\n' !in labels[1]
    requires !Contains(v, NextLine(labels[1]))
    requires LineStart(labels[1]) <= tail
    ensures ReadLines(LineStart(labels[0]) + (v + "\n" + tail), labels, last)
            == match ReadLines(tail, labels[1..], last)
               case None => None
               case Some(more) => Some([v] + more)
  {
    var start := LineStart(labels[0]);
    var rest := v + "\n" + tail;
    var d := NextLine(labels[1]);
    var after := tail[|LineStart(labels[1])|..];
    Halves(start, rest);
    assert rest == v + d + after;
    NextLineFresh(labels[1]);
    FirstCharFresh(v, d);
    FirstAt(v, d, after);
    assert rest[..|v|] == v;
    assert rest[|v| + 1..] == tail;
  }

  /** Separation carries over to the lines after the first. */
  lemma SeparatedTail(labels: seq<string>, values: seq<string>)
    requires |labels| == |values| >= 1 && Separated(labels, values)
    ensures Separated(labels[1..], values[1..])
  {
    forall i | 0 <= i < |values[1..]| - 1 ensures !Contains(values[1..][i], NextLine(labels[1..][i + 1])) {
      assert values[1..][i] == values[i + 1] && labels[1..][i + 1] == labels[i + 2];
    }
  }

  /**
   The labelled lines, followed by a newline-led closing text, read back to
   every value in label order, whatever lines each value spans, provided no
   value holds the start of the next line.
   */
  lemma {:induction false} LinesRoundTrip(labels: seq<string>, values: seq<string>, last: string)
    requires |labels| == |values| >= 1
    requires SingleLineLabels(labels) && Separated(labels, values)
    ensures ReadLines(Lines(labels, values) + last, labels, last) == Some(values)
    decreases labels
  {
    var s := Lines(labels, values) + last;
    assert s == Line(labels[0], values[0]) + (Lines(labels[1..], values[1..]) + last);
    LineParts(labels[0], values[0], Lines(labels[1..], values[1..]) + last);
    if |labels| == 1 {
      assert Lines(labels[1..], values[1..]) + last == last;
      assert labels == [labels[0]] && values == [values[0]];
      ReadLastLine(labels[0], values[0], last);
      assert ReadLines(Lines(labels, values) + last, labels, last) == Some(values);
    } else {
      var tail := Lines(labels[1..], values[1..]) + last;
      LineParts(labels[1], values[1], Lines(labels[2..], values[2..]) + last);
      assert labels[1..][1..] == labels[2..] && values[1..][1..] == values[2..];
      assert LineStart(labels[1]) <= tail;
      assert !Contains(values[0], NextLine(labels[1]));
      ReadOneLine(labels, values[0], tail, last);
      SeparatedTail(labels, values);
      assert SingleLineLabels(labels[1..]) by {
        forall i | 0 <= i < |labels[1..]| ensures '\n' !in labels[1..][i] {
          assert labels[1..][i] == labels[i + 1];
        }
      }
      LinesRoundTrip(labels[1..], values[1..], last);
      assert [values[0]] + values[1..] == values;
      assert ReadLines(Lines(labels, values) + last, labels, last) == Some(values);
    }
  }

  /** The prompt of a form whose values keep to their lines reads back to exactly those values. */
  lemma PromptRoundTrip(f: Form)
    requires Separated(Labels, Values(f))
    ensures ReadPrompt(PromptOf(f)) == Some(Values(f))
  {
    var body := Lines(Labels, Values(f)) + Footer;
    assert PromptOf(f) == Header + body;
    Halves(Header, body);
    LabelsSingleLine();
    LinesRoundTrip(Labels, Values(f), Footer);
  }

  lemma Halves(a: string, b: string)
    ensures (a + b)[..|a|] == a && (a + b)[|a|..] == b
  {
  }

  /**
   Two forms whose values keep to their lines and that give the same prompt
   agree on the target system, the validation type and the target table's
   text, and show the same text for every other field.
   */
  lemma SamePromptSameFields(f: Form, g: Form)
    requires Separated(Labels, Values(f)) && Separated(Labels, Values(g))
    requires PromptOf(f) == PromptOf(g)
    ensures f.targetSystem == g.targetSystem && f.validationType == g.validationType
    ensures Unguarded(f.targetTable) == Unguarded(g.targetTable)
    ensures Shown(f.sourceSystem) == Shown(g.sourceSystem)
    ensures Shown(TableText(f.sourceTable)) == Shown(TableText(g.sourceTable))
    ensures Shown(f.sourceCondition) == Shown(g.sourceCondition)
    ensures Shown(f.sourceColumn) == Shown(g.sourceColumn)
    ensures Shown(f.sourceLogic) == Shown(g.sourceLogic)
    ensures Shown(f.targetCondition) == Shown(g.targetCondition)
    ensures Shown(f.targetColumn) == Shown(g.targetColumn)
    ensures Shown(f.targetLogic) == Shown(g.targetLogic)
  {
    PromptRoundTrip(f);
    PromptRoundTrip(g);
    assert Values(f) == Values(g);
  }

  /** Moving text across the start of the next line, from one value to the next. */
  lemma ShiftAcrossLine(n1: string, n2: string, a: string, b: string, c: string)
    ensures Line(n1, a + NextLine(n2) + b) + Line(n2, c) == Line(n1, a) + Line(n2, b + NextLine(n2) + c)
  {
  }

  /** Two value lists that differ only at `i` and `i + 1`, where they give the same two lines. */
  lemma {:induction false} SameLinesButPair(labels: seq<string>, vs: seq<string>, ws: seq<string>, i: nat)
    requires |labels| == |vs| == |ws| && i + 1 < |labels|
    requires forall k | 0 <= k < |vs| && k != i && k != i + 1 :: vs[k] == ws[k]
    requires Line(labels[i], vs[i]) + Line(labels[i + 1], vs[i + 1]) == Line(labels[i], ws[i]) + Line(labels[i + 1], ws[i + 1])
    ensures Lines(labels, vs) == Lines(labels, ws)
    decreases i
  {
    if i == 0 {
      assert vs[2..] == ws[2..];
      assert labels[1..][1..] == labels[2..] && vs[1..][1..] == vs[2..] && ws[1..][1..] == ws[2..];
      var rest := Lines(labels[2..], vs[2..]);
      assert Lines(labels, vs) == Line(labels[0], vs[0]) + (Line(labels[1], vs[1]) + rest);
      assert Lines(labels, ws) == Line(labels[0], ws[0]) + (Line(labels[1], ws[1]) + rest);
      Assoc(Line(labels[0], vs[0]), Line(labels[1], vs[1]), rest);
      Assoc(Line(labels[0], ws[0]), Line(labels[1], ws[1]), rest);
    } else {
      assert vs[0] == ws[0];
      forall k | 0 <= k < |vs[1..]| && k != i - 1 && k != i
        ensures vs[1..][k] == ws[1..][k]
      {
        assert vs[1..][k] == vs[k + 1] && ws[1..][k] == ws[k + 1];
      }
      SameLinesButPair(labels[1..], vs[1..], ws[1..], i - 1);
    }
  }

  /**
   Without separation the prompt does not fix the values: moving the text
   between two "Target Condition" line starts from the source logic to the
   target condition leaves the prompt as it was.
   */
  lemma SeparationNeeded(f: Form, a: string, b: string, c: string)
    ensures var d := NextLine(TargetConditionLabel);
            var g := f.(sourceLogic := Some(a + d + b), targetCondition := Some(c));
            var h := f.(sourceLogic := Some(a), targetCondition := Some(b + d + c));
            Values(g) != Values(h) && PromptOf(g) == PromptOf(h)
  {
    var d := NextLine(TargetConditionLabel);
    var g := f.(sourceLogic := Some(a + d + b), targetCondition := Some(c));
    var h := f.(sourceLogic := Some(a), targetCondition := Some(b + d + c));
    var vg, vh := Values(g), Values(h);
    assert |vg[7]| != |vh[7]|;
    ShiftAcrossLine(Labels[7], Labels[8], a, b, c);
    SameLinesButPair(Labels, vg, vh, 7);
  }

  /** Forms that give the same values give the same prompt. */
  lemma SameValuesSamePrompt(f: Form, g: Form)
    requires Values(f) == Values(g)
    ensures PromptOf(f) == PromptOf(g)
  {
  }

  /**
   For the source system, the source table and the source-side details,
   leaving the field as `None` and filling it with the text "Not provided"
   give the same prompt.
   */
  lemma SourceNoneReadsAsNotProvided(f: Form, e: bool)
    ensures PromptOf(f.(sourceSystem := None)) == PromptOf(f.(sourceSystem := Some(NotProvided)))
    ensures PromptOf(f.(sourceTable := None)) == PromptOf(f.(sourceTable := Some(Table(NotProvided, e))))
    ensures PromptOf(f.(sourceCondition := None)) == PromptOf(f.(sourceCondition := Some(NotProvided)))
    ensures PromptOf(f.(sourceColumn := None)) == PromptOf(f.(sourceColumn := Some(NotProvided)))
    ensures PromptOf(f.(sourceLogic := None)) == PromptOf(f.(sourceLogic := Some(NotProvided)))
  {
    SameValuesSamePrompt(f.(sourceSystem := None), f.(sourceSystem := Some(NotProvided)));
    SameValuesSamePrompt(f.(sourceTable := None), f.(sourceTable := Some(Table(NotProvided, e))));
    SameValuesSamePrompt(f.(sourceCondition := None), f.(sourceCondition := Some(NotProvided)));
    SameValuesSamePrompt(f.(sourceColumn := None), f.(sourceColumn := Some(NotProvided)));
    SameValuesSamePrompt(f.(sourceLogic := None), f.(sourceLogic := Some(NotProvided)));
  }

  /**
   For the target-side details, leaving the field as `None` and filling it
   with the text "Not provided" give the same prompt.
   */
  lemma TargetNoneReadsAsNotProvided(f: Form)
    ensures PromptOf(f.(targetCondition := None)) == PromptOf(f.(targetCondition := Some(NotProvided)))
    ensures PromptOf(f.(targetColumn := None)) == PromptOf(f.(targetColumn := Some(NotProvided)))
    ensures PromptOf(f.(targetLogic := None)) == PromptOf(f.(targetLogic := Some(NotProvided)))
  {
    SameValuesSamePrompt(f.(targetCondition := None), f.(targetCondition := Some(NotProvided)));
    SameValuesSamePrompt(f.(targetColumn := None), f.(targetColumn := Some(NotProvided)));
    SameValuesSamePrompt(f.(targetLogic := None), f.(targetLogic := Some(NotProvided)));
  }
}

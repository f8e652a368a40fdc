/**
 Replies of the shape `parse_response` expects, worked through by the general
 lemmas: a reply carrying all three parts, a note cut short by a second
 marker, and a backtick right after the closing fence that the fence search
 absorbs into the query.
 */
module ReplyExamples {
  import opened PyText
  import opened Reply
  import opened ReplyProperties

  /**
   A reply laid out as `parse_response` expects (any preamble, fenced query,
   any text between the closing fence and the explanation, explanation, note)
   gives each part back, stripped, as long as no marker occurs before the
   place the layout gives it: no "```sql" in the preamble, no fence in the
   query (nor a backtick at its end or at the start of what follows the
   fence), no "**Explanation:**" before the explanation nor one starting
   inside the explanation or its "**Note:**", and no "**Note:**" before the
   note, or in it. A marker that overlaps the marker after it counts too.
   The text between the fence and the explanation lands in none of the three
   parts.
   */
  lemma FullReply(pre: string, q: string, mid: string, e: string, n: string)
    requires !Contains(pre, SqlOpen)
    requires !Contains(q, Fence) && (q == [] || q[|q| - 1] != '`')
    requires mid == [] || mid[0] != '`'
    requires !Contains(pre + SqlOpen + q + Fence + mid + ExplanationMarker[..|ExplanationMarker| - 1], ExplanationMarker)
    requires !Contains(e + NoteMarker[..|NoteMarker| - 1], NoteMarker)
    requires FindOrEnd(e + NoteMarker + n, ExplanationMarker) >= |e| + |NoteMarker|
    requires !Contains(pre + SqlOpen + q + Fence + mid + ExplanationMarker + e + NoteMarker[..|NoteMarker| - 1], NoteMarker)
    requires !Contains(n, NoteMarker)
    ensures ParseText(pre + SqlOpen + q + Fence + mid + ExplanationMarker + e + NoteMarker + n)
         == Answer(Strip(q), Strip(e), Strip(n))
  {
    var before := pre + SqlOpen + q + Fence + mid;
    QueryAfterFence(pre, q, mid, ExplanationMarker + e + NoteMarker + n);
    assert before + (ExplanationMarker + e + NoteMarker + n) == before + ExplanationMarker + e + NoteMarker + n;
    ExplanationRoundTrip(before, e, n);
    NoteToEnd(before + ExplanationMarker + e, n);
  }

  /** The query part of FullReply: the text after the fence starts with no backtick. */
  lemma QueryAfterFence(pre: string, q: string, mid: string, rest: string)
    requires !Contains(pre, SqlOpen)
    requires !Contains(q, Fence) && (q == [] || q[|q| - 1] != '`')
    requires mid == [] || mid[0] != '`'
    requires rest != [] && rest[0] == '*'
    ensures SqlQueryOf(pre + SqlOpen + q + Fence + mid + rest) == Strip(q)
  {
    var after := mid + rest;
    assert after[0] == if mid == [] then rest[0] else mid[0];
    assert pre + SqlOpen + q + Fence + mid + rest == pre + SqlOpen + q + Fence + after;
    SqlRoundTrip(pre, q, after);
  }

  /**
   A second "**Note:**" ends the note, whatever follows it: the note of
   "**Note:**" + a + "**Note:**" + b is a alone.
   */
  lemma SecondNoteDropped(a: string, b: string)
    requires !Contains(a + NoteMarker[..|NoteMarker| - 1], NoteMarker)
    ensures NoteOf(NoteMarker + a + NoteMarker + b) == Strip(a)
  {
    assert NoteMarker + a + NoteMarker + b == [] + NoteMarker + a + NoteMarker + b;
    assert !Contains([] + NoteMarker[..|NoteMarker| - 1], NoteMarker);
    NoteStopsAtSecondMarker([], a, b);
  }

  /**
   A second "**Explanation:**" after the note ends the explanation section but
   leaves the explanation whole: the explanation of
   pre + "**Explanation:**" + e + "**Note:**" + x + "**Explanation:**" + post is e.
   */
  lemma SecondExplanationIgnored(pre: string, e: string, x: string, post: string)
    requires !Contains(pre + ExplanationMarker[..|ExplanationMarker| - 1], ExplanationMarker)
    requires !Contains(e + NoteMarker[..|NoteMarker| - 1], NoteMarker)
    requires !Contains(e + NoteMarker + x + ExplanationMarker[..|ExplanationMarker| - 1], ExplanationMarker)
    ensures ExplanationOf(pre + ExplanationMarker + e + NoteMarker + x + ExplanationMarker + post) == Strip(e)
  {
    var u := e + NoteMarker + (x + ExplanationMarker + post);
    var m := |e| + |NoteMarker| + |x| + |ExplanationMarker| - 1;
    assert u[..m] == e + NoteMarker + x + ExplanationMarker[..|ExplanationMarker| - 1];
    forall k | 0 <= k < |e| + |NoteMarker| ensures !OccursAt(u, ExplanationMarker, k) {
      OccursInPrefix(u, m, ExplanationMarker, k);
    }
    FindOrEndSpec(u, ExplanationMarker);
    assert pre + ExplanationMarker + e + NoteMarker + x + ExplanationMarker + post
        == pre + ExplanationMarker + e + NoteMarker + (x + ExplanationMarker + post);
    ExplanationRoundTrip(pre, e, x + ExplanationMarker + post);
  }

  /**
   A backtick right after the closing fence, followed by "sql": the query
   keeps a backtick that was not part of it, because the last three backticks
   and "sql" form a second opening marker that ends the section one character
   late. (Why SqlRoundTrip asks that what follows the fence not start with a
   backtick.)
   */
  lemma BacktickAfterFence(q: string, rest: string)
    requires '`' !in q
    ensures SqlQueryOf(SqlOpen + q + Fence + "`sql" + rest) == Strip(q + "`")
  {
    var s := SqlOpen + q + Fence + "`sql" + rest;
    var b := |SqlOpen| + |q| + 1;
    assert s[..|SqlOpen|] == SqlOpen;
    assert s[b..b + |SqlOpen|] == SqlOpen;
    assert forall k | |SqlOpen| <= k < |SqlOpen| + |q| :: s[k] == q[k - |SqlOpen|];
    assert s[|SqlOpen| + |q| + 3] == '`';
    forall k | |SqlOpen| <= k < b ensures !OccursAt(s, SqlOpen, k) {
      OpenIsFence(s, k);
    }
    forall k | |SqlOpen| <= k < b ensures !(OccursAt(s, Fence, k) && k + |Fence| <= b) {
      FenceStartsWithBacktick(s, k);
    }
    assert FirstIn(s, SqlOpen, 0, |s|, 0);
    assert FirstIn(s, SqlOpen, |SqlOpen|, |s|, b);
    assert FirstIn(s, Fence, |SqlOpen|, b, b);
    SqlQueryLocated(s, 0, b, b);
    QueryAndBacktick(q, rest);
  }

  lemma QueryAndBacktick(q: string, rest: string)
    ensures (SqlOpen + q + Fence + "`sql" + rest)[|SqlOpen|..|SqlOpen| + |q| + 1] == q + "`"
  {
    var s := SqlOpen + q + Fence + "`sql" + rest;
    var t := s[|SqlOpen|..|SqlOpen| + |q| + 1];
    assert forall k | 0 <= k < |q| :: t[k] == q[k];
    assert t[|q|] == '`';
  }
}

/**
 What `parse_response` promises about the fields it cuts out of a reply: where
 each field sits in the reply text, that a well-formed reply gives its parts
 back, and what happens when the reply has no text.
 */
module ReplyProperties {
  import opened PyText
  import opened Reply

  /**
   The query is the stripped text from the end of the first "```sql" (at `a`) to
   the first fence lying wholly inside the section that ends at the next
   "```sql" (at `b`, or the end of the reply).
   */
  lemma SqlQueryLocated(s: string, a: int, b: int, j: int)
    requires FirstIn(s, SqlOpen, 0, |s|, a) && a < |s|
    requires FirstIn(s, SqlOpen, a + |SqlOpen|, |s|, b)
    requires FirstIn(s, Fence, a + |SqlOpen|, b, j)
    ensures SqlQueryOf(s) == Strip(s[a + |SqlOpen|..j])
  {
    SecondPiece(s, SqlOpen, a, b);
    FirstPiece(s, Fence, a + |SqlOpen|, b, j);
  }

  /**
   The explanation is the stripped text from the end of the first
   "**Explanation:**" (at `a`) to the first "**Note:**" lying wholly inside the
   section that ends at the next "**Explanation:**" (at `b`, or the end).
   */
  lemma ExplanationLocated(s: string, a: int, b: int, j: int)
    requires FirstIn(s, ExplanationMarker, 0, |s|, a) && a < |s|
    requires FirstIn(s, ExplanationMarker, a + |ExplanationMarker|, |s|, b)
    requires FirstIn(s, NoteMarker, a + |ExplanationMarker|, b, j)
    ensures ExplanationOf(s) == Strip(s[a + |ExplanationMarker|..j])
  {
    SecondPiece(s, ExplanationMarker, a, b);
    FirstPiece(s, NoteMarker, a + |ExplanationMarker|, b, j);
  }

  /**
   The note is the stripped text from the end of the first "**Note:**" (at `a`)
   to the second one (at `j`), or to the end of the reply when there is no
   second one: not everything after the first marker.
   */
  lemma NoteLocated(s: string, a: int, j: int)
    requires FirstIn(s, NoteMarker, 0, |s|, a) && a < |s|
    requires FirstIn(s, NoteMarker, a + |NoteMarker|, |s|, j)
    ensures NoteOf(s) == Strip(s[a + |NoteMarker|..j])
  {
    SecondPiece(s, NoteMarker, a, j);
  }

  /** A query text with no fence, not ending in a backtick, meets no fence before the closing one. */
  lemma QueryBeforeFence(q: string)
    requires !Contains(q, Fence) && (q == [] || q[|q| - 1] != '`')
    ensures !Contains(q + Fence[..|Fence| - 1], Fence)
  {
    var t := q + Fence[..|Fence| - 1];
    assert t[..|q|] == q;
    forall k | 0 <= k <= |t| - |Fence| ensures !OccursAt(t, Fence, k) {
      OccursInPrefix(t, |q|, Fence, k);
      if k + |Fence| > |q| {
        assert t[k..k + |Fence|][|q| - 1 - k] == t[|q| - 1] == q[|q| - 1];
      }
    }
  }

  /** Every "```sql" starts with three backticks, the first fence, and goes on with an "s". */
  lemma OpenIsFence(u: string, k: int)
    ensures OccursAt(u, SqlOpen, k) ==> OccursAt(u, Fence, k) && u[k] == u[k + 1] == u[k + 2] == '`' && u[k + 3] == 's'
  {
    if OccursAt(u, SqlOpen, k) {
      assert u[k..k + 3] == u[k..k + 6][..3];
      assert u[k..k + 6][1] == u[k + 1] && u[k..k + 6][2] == u[k + 2] && u[k..k + 6][3] == u[k + 3];
    }
  }

  /** Every fence starts with a backtick. */
  lemma FenceStartsWithBacktick(u: string, k: int)
    ensures OccursAt(u, Fence, k) ==> u[k] == '`'
  {
    if OccursAt(u, Fence, k) {
      assert u[k..k + 3][0] == u[k];
    }
  }

  /**
   Round trip: a fenced query in a reply comes back stripped, whatever precedes
   the opening marker and follows the closing fence. The backtick conditions keep
   the closing fence from being read one or two characters early or late.
   */
  lemma SqlRoundTrip(pre: string, q: string, post: string)
    requires !Contains(pre, SqlOpen)
    requires !Contains(q, Fence) && (q == [] || q[|q| - 1] != '`')
    requires post == [] || post[0] != '`'
    ensures SqlQueryOf(pre + SqlOpen + q + Fence + post) == Strip(q)
  {
    var u := q + Fence + post;
    assert pre + SqlOpen + q + Fence + post == pre + SqlOpen + u;
    LastCharFresh(pre, SqlOpen);
    AfterOpen(pre, u);
    QueryIsFirstPiece(q, post);
  }

  /** The section after the first "```sql" is the first piece of what follows it. */
  lemma AfterOpen(pre: string, u: string)
    requires !Contains(pre + SqlOpen[..|SqlOpen| - 1], SqlOpen)
    ensures Contains(pre + SqlOpen + u, SqlOpen) && |Split(pre + SqlOpen + u, SqlOpen)| >= 2
    ensures Split(pre + SqlOpen + u, SqlOpen)[1] == Split(u, SqlOpen)[0]
  {
    SplitAfter(pre, SqlOpen, u);
  }

  /** Within the section after the opening marker, the query is the first piece. */
  lemma QueryIsFirstPiece(q: string, post: string)
    requires !Contains(q, Fence) && (q == [] || q[|q| - 1] != '`')
    requires post == [] || post[0] != '`'
    ensures var u := q + Fence + post;
            Split(Split(u, SqlOpen)[0], Fence)[0] == q
  {
    var u := q + Fence + post;
    SectionAfterQuery(q, post);
    var m := FindOrEnd(u, SqlOpen);
    if m == |q| {
      assert u[..m] == q;
      SplitWithout(q, Fence);
    } else {
      assert u[..m] == q + Fence + u[|q| + |Fence|..m];
      QueryBeforeFence(q);
      SplitAfter(q, Fence, u[|q| + |Fence|..m]);
    }
  }

  /**
   After the opening marker, the section ends right after the query (when the
   reply goes on with "sql" after the fence) or beyond the closing fence.
   */
  lemma SectionAfterQuery(q: string, post: string)
    requires !Contains(q, Fence) && (q == [] || q[|q| - 1] != '`')
    requires post == [] || post[0] != '`'
    ensures var m := FindOrEnd(q + Fence + post, SqlOpen);
            m == |q| || |q| + |Fence| <= m
  {
    var u := q + Fence + post;
    assert u[..|q|] == q;
    forall k | 0 <= k < |q| + |Fence| && k != |q| ensures !OccursAt(u, SqlOpen, k) {
      OpenIsFence(u, k);
      OccursInPrefix(u, |q|, Fence, k);
    }
    FindOrEndSpec(u, SqlOpen);
  }

  /**
   Round trip: an explanation followed by a note comes back stripped, when the
   markers around it are the first ones and no second "**Explanation:**" starts
   before the end of that "**Note:**"; whatever comes after it is ignored.
   */
  lemma ExplanationRoundTrip(pre: string, e: string, post: string)
    requires !Contains(pre + ExplanationMarker[..|ExplanationMarker| - 1], ExplanationMarker)
    requires !Contains(e + NoteMarker[..|NoteMarker| - 1], NoteMarker)
    requires FindOrEnd(e + NoteMarker + post, ExplanationMarker) >= |e| + |NoteMarker|
    ensures ExplanationOf(pre + ExplanationMarker + e + NoteMarker + post) == Strip(e)
  {
    var u := e + NoteMarker + post;
    assert pre + ExplanationMarker + e + NoteMarker + post == pre + ExplanationMarker + u;
    SplitAfter(pre, ExplanationMarker, u);
    var y := SectionAfterNote(e, post);
    SplitAfter(e, NoteMarker, y);
  }

  /** The section the explanation sits in runs past the "**Note:**" after it. */
  lemma SectionAfterNote(e: string, post: string) returns (y: string)
    requires FindOrEnd(e + NoteMarker + post, ExplanationMarker) >= |e| + |NoteMarker|
    ensures Split(e + NoteMarker + post, ExplanationMarker)[0] == e + NoteMarker + y
  {
    var u := e + NoteMarker + post;
    var section := Split(u, ExplanationMarker)[0];
    y := section[|e| + |NoteMarker|..];
    assert section[..|e| + |NoteMarker|] == u[..|e| + |NoteMarker|] == e + NoteMarker;
  }

  /** An explanation with no note after it runs to the end of the reply. */
  lemma ExplanationToEnd(pre: string, e: string)
    requires !Contains(pre + ExplanationMarker[..|ExplanationMarker| - 1], ExplanationMarker)
    requires !Contains(e, ExplanationMarker) && !Contains(e, NoteMarker)
    ensures ExplanationOf(pre + ExplanationMarker + e) == Strip(e)
  {
    SplitAfter(pre, ExplanationMarker, e);
    SplitWithout(e, ExplanationMarker);
    SplitWithout(e, NoteMarker);
  }

  /** A single note runs to the end of the reply. */
  lemma NoteToEnd(pre: string, n: string)
    requires !Contains(pre + NoteMarker[..|NoteMarker| - 1], NoteMarker)
    requires !Contains(n, NoteMarker)
    ensures NoteOf(pre + NoteMarker + n) == Strip(n)
  {
    SplitAfter(pre, NoteMarker, n);
    SplitWithout(n, NoteMarker);
  }

  /** A second "**Note:**" ends the note: what follows it is dropped. */
  lemma NoteStopsAtSecondMarker(pre: string, n: string, post: string)
    requires !Contains(pre + NoteMarker[..|NoteMarker| - 1], NoteMarker)
    requires !Contains(n + NoteMarker[..|NoteMarker| - 1], NoteMarker)
    ensures NoteOf(pre + NoteMarker + n + NoteMarker + post) == Strip(n)
  {
    assert pre + NoteMarker + n + NoteMarker + post == pre + NoteMarker + (n + NoteMarker + post);
    SplitAfter(pre, NoteMarker, n + NoteMarker + post);
    SplitAfter(n, NoteMarker, post);
  }
}

/**
 The Python `str` operations the reply parser is written with, over `seq<char>`:
 the membership test `sep in s`, `s.find(sep)`, `s.split(sep)`, `sep.join(parts)`
 and `s.strip()`.

 The functions carry only cheap contracts; what they mean is stated by the
 lemmas beside them (FindSpec, FindOrEndSpec, SplitPieceFree, SplitJoin, ...),
 which a proof calls when it needs them.
 */
module PyText {

  datatype Option<+T> = None | Some(value: T)

  /** `sep` occurs in `s` starting at index `k`. */
  predicate OccursAt(s: string, sep: string, k: int) {
    0 <= k && k + |sep| <= |s| && s[k..k + |sep|] == sep
  }

  /** Python's `sep in s`. */
  predicate Contains(s: string, sep: string) {
    exists k | 0 <= k <= |s| - |sep| :: OccursAt(s, sep, k)
  }

  lemma OccursInPrefix(s: string, m: nat, sep: string, k: int)
    requires m <= |s|
    ensures OccursAt(s[..m], sep, k) <==> OccursAt(s, sep, k) && k + |sep| <= m
  {
    if 0 <= k && k + |sep| <= m {
      assert s[..m][k..k + |sep|] == s[k..k + |sep|];
    }
  }

  lemma OccursInSlice(s: string, i: nat, m: nat, sep: string, k: int)
    requires i <= m <= |s|
    ensures OccursAt(s[i..m], sep, k) <==> 0 <= k && OccursAt(s, sep, i + k) && i + k + |sep| <= m
  {
    if 0 <= k && i + k + |sep| <= m {
      var t := s[i..m];
      if OccursAt(t, sep, k) {
        assert forall d | 0 <= d < |sep| :: s[i + k..i + k + |sep|][d] == t[k + d] == sep[d];
      }
      if OccursAt(s, sep, i + k) {
        assert forall d | 0 <= d < |sep| :: t[k..k + |sep|][d] == s[i + k + d] == sep[d];
      }
    }
  }

  /** `s.find(sep)`: the index of the first occurrence of `sep` in `s`, if any. */
  function Find(s: string, sep: string): (r: Option<nat>)
    ensures r.Some? ==> r.value + |sep| <= |s|
  {
    FindFrom(s, sep, 0)
  }

  /** The scan `s.find(sep)` performs, from index `i` on. */
  function FindFrom(s: string, sep: string, i: nat): (r: Option<nat>)
    ensures r.Some? ==> i <= r.value && r.value + |sep| <= |s|
    decreases |s| - i
  {
    if |s| < i + |sep| then None
    else if OccursAt(s, sep, i) then Some(i)
    else FindFrom(s, sep, i + 1)
  }

  /** The scan stops at the first occurrence from `i` on, and finds none only when there is none. */
  lemma {:induction false} FindFromSpec(s: string, sep: string, i: nat)
    ensures FindFrom(s, sep, i).Some? ==> OccursAt(s, sep, FindFrom(s, sep, i).value)
    ensures FindFrom(s, sep, i).Some? ==> forall k | i <= k < FindFrom(s, sep, i).value :: !OccursAt(s, sep, k)
    ensures FindFrom(s, sep, i).None? ==> forall k | i <= k :: !OccursAt(s, sep, k)
    decreases |s| - i
  {
    if |s| >= i + |sep| && !OccursAt(s, sep, i) {
      FindFromSpec(s, sep, i + 1);
    }
  }

  /** What Find finds is an occurrence. */
  lemma FindFound(s: string, sep: string)
    requires Find(s, sep).Some?
    ensures OccursAt(s, sep, Find(s, sep).value)
  {
    FindFromSpec(s, sep, 0);
  }

  /**
   Find answers `sep in s`, and when it does it gives an occurrence with none
   before it.
   */
  lemma FindSpec(s: string, sep: string)
    ensures Find(s, sep).Some? ==> OccursAt(s, sep, Find(s, sep).value)
    ensures Find(s, sep).Some? ==> forall k :: 0 <= k < Find(s, sep).value ==> !OccursAt(s, sep, k)
    ensures Find(s, sep).None? <==> !Contains(s, sep)
  {
    FindFromSpec(s, sep, 0);
  }

  /** Where the first `sep` starts in `s`, or `|s|` when there is none. */
  function FindOrEnd(s: string, sep: string): (r: nat)
    ensures r <= |s|
  {
    match Find(s, sep)
    case None => |s|
    case Some(k) => k
  }

  lemma FindOrEndSpec(s: string, sep: string)
    ensures OccursAt(s, sep, FindOrEnd(s, sep)) || (FindOrEnd(s, sep) == |s| && !Contains(s, sep))
    ensures forall k :: 0 <= k < FindOrEnd(s, sep) ==> !OccursAt(s, sep, k)
  {
    FindSpec(s, sep);
  }

  /** Nothing else but the first occurrence (or the end) can be what FindOrEnd gives. */
  lemma FindOrEndIs(s: string, sep: string, p: nat)
    requires p <= |s| && (p == |s| || OccursAt(s, sep, p))
    requires forall k :: 0 <= k < p ==> !OccursAt(s, sep, k)
    ensures FindOrEnd(s, sep) == p
  {
    FindOrEndSpec(s, sep);
  }

  /**
   `p` is where the first `sep` lying wholly inside `s[lo..hi]` starts, or `hi`
   when there is none.
   */
  predicate FirstIn(s: string, sep: string, lo: int, hi: int, p: int) {
    && 0 <= lo <= p <= hi <= |s|
    && (p == hi || (OccursAt(s, sep, p) && p + |sep| <= hi))
    && forall k | lo <= k < p :: !(OccursAt(s, sep, k) && k + |sep| <= hi)
  }

  /** FindOrEnd on a slice finds the first occurrence inside the slice. */
  lemma FirstInSlice(s: string, sep: string, lo: int, hi: int, p: int)
    requires FirstIn(s, sep, lo, hi, p)
    ensures lo + FindOrEnd(s[lo..hi], sep) == p
  {
    forall k ensures OccursAt(s[lo..hi], sep, k) <==> 0 <= k && OccursAt(s, sep, lo + k) && lo + k + |sep| <= hi {
      OccursInSlice(s, lo, hi, sep, k);
    }
    FindOrEndIs(s[lo..hi], sep, p - lo);
  }

  /** The second piece of a split runs from the end of the first `sep` to the next one. */
  lemma SecondPiece(s: string, sep: string, a: int, b: int)
    requires sep != [] && FirstIn(s, sep, 0, |s|, a) && a < |s|
    requires FirstIn(s, sep, a + |sep|, |s|, b)
    ensures Contains(s, sep) && |Split(s, sep)| >= 2
    ensures Split(s, sep)[1] == s[a + |sep|..b]
  {
    FirstFound(s, sep, a);
    FirstInSuffix(s, sep, a + |sep|, b);
    LaterPiece(s, sep, a, 1);
  }

  /** The first occurrence in the whole string is what Find finds. */
  lemma FirstFound(s: string, sep: string, a: int)
    requires FirstIn(s, sep, 0, |s|, a) && a < |s|
    ensures Find(s, sep) == Some(a) && Contains(s, sep)
  {
    FindOrEndIs(s, sep, a);
  }

  /** The first occurrence after `i`, as a prefix of the suffix from `i`. */
  lemma FirstInSuffix(s: string, sep: string, i: int, b: int)
    requires sep != [] && FirstIn(s, sep, i, |s|, b)
    ensures Split(s[i..], sep)[0] == s[i..b]
  {
    assert s[i..|s|] == s[i..];
    FirstPiece(s, sep, i, |s|, b);
  }

  /** The first piece of a slice ends at the first `sep` inside the slice. */
  lemma FirstPiece(s: string, sep: string, lo: int, hi: int, p: int)
    requires sep != [] && FirstIn(s, sep, lo, hi, p)
    ensures Split(s[lo..hi], sep)[0] == s[lo..p]
  {
    FirstInSlice(s, sep, lo, hi, p);
    assert s[lo..hi][..p - lo] == s[lo..p];
  }

  /** `sep.join(parts)`. */
  function Join(parts: seq<string>, sep: string): (r: string)
    ensures parts != [] ==> parts[0] <= r
  {
    if |parts| == 0 then []
    else if |parts| == 1 then parts[0]
    else parts[0] + sep + Join(parts[1..], sep)
  }

  /**
   `s.split(sep)` for a non-empty separator (Python raises on an empty one):
   the pieces between non-overlapping occurrences of `sep`, found left to right.
   The first piece ends where `s.find(sep)` points; there is a second piece
   exactly when `sep` occurs.
   */
  function Split(s: string, sep: string): (parts: seq<string>)
    requires sep != []
    ensures |parts| >= 1
    ensures |parts| >= 2 <==> Find(s, sep).Some?
    ensures parts[0] == s[..FindOrEnd(s, sep)]
    decreases |s|
  {
    match Find(s, sep)
    case None => [s]
    case Some(k) => [s[..k]] + Split(s[k + |sep|..], sep)
  }

  /** One step of `split`: the piece before the first `sep`, then the pieces after it. */
  lemma SplitStep(s: string, sep: string)
    requires sep != [] && Find(s, sep).Some?
    ensures var k := Find(s, sep).value;
            Split(s, sep) == [s[..k]] + Split(s[k + |sep|..], sep)
  {
  }

  /** No piece of a split contains the separator. */
  lemma {:induction false} SplitPieceFree(s: string, sep: string, n: nat)
    requires sep != [] && n < |Split(s, sep)|
    ensures !Contains(Split(s, sep)[n], sep)
    decreases |s|
  {
    match Find(s, sep)
    case None =>
      FindSpec(s, sep);
      SplitWithout(s, sep);
    case Some(k) =>
      if n == 0 {
        FirstPieceFree(s, sep, k);
      } else {
        LaterPiece(s, sep, k, n);
        SplitPieceFree(s[k + |sep|..], sep, n - 1);
      }
  }

  /** Piece `n` past the first is piece `n - 1` of what follows the first `sep`. */
  lemma LaterPiece(s: string, sep: string, k: nat, n: nat)
    requires sep != [] && Find(s, sep) == Some(k) && 0 < n < |Split(s, sep)|
    ensures n - 1 < |Split(s[k + |sep|..], sep)|
    ensures Split(s, sep)[n] == Split(s[k + |sep|..], sep)[n - 1]
  {
    SplitStep(s, sep);
  }

  lemma FirstPieceFree(s: string, sep: string, k: nat)
    requires sep != [] && Find(s, sep) == Some(k)
    ensures !Contains(Split(s, sep)[0], sep)
  {
    BeforeFirstFree(s, sep, k);
    assert Split(s, sep)[0] == s[..k];
  }

  /** The text before the first `sep` holds no `sep`. */
  lemma BeforeFirstFree(s: string, sep: string, k: nat)
    requires sep != [] && Find(s, sep) == Some(k)
    ensures !Contains(s[..k], sep)
  {
    FindSpec(s, sep);
    forall j | 0 <= j <= k - |sep| ensures !OccursAt(s[..k], sep, j) {
      OccursInPrefix(s, k, sep, j);
    }
  }

  /** Joining the pieces with the separator gives the string back. */
  lemma {:induction false} SplitJoin(s: string, sep: string)
    requires sep != []
    ensures Join(Split(s, sep), sep) == s
    decreases |s|
  {
    if Find(s, sep).Some? {
      var k := Find(s, sep).value;
      var rest := s[k + |sep|..];
      FindFound(s, sep);
      SplitStep(s, sep);
      var pieces := Split(rest, sep);
      SplitJoin(rest, sep);
      assert ([s[..k]] + pieces)[1..] == pieces;
      assert Join([s[..k]] + pieces, sep) == s[..k] + sep + rest;
      assert s == s[..k] + s[k..k + |sep|] + rest;
    } else {
      assert Split(s, sep) == [s];
    }
  }

  /**
   A character `strip()` removes: the ASCII characters Python's `str.isspace`
   accepts (space, tab to carriage return, and the separators 0x1C to 0x1F).
   */
  predicate IsSpace(c: char) {
    c == ' ' || '\t' <= c <= '\r' || '\U{1C}' <= c <= '\U{1F}'
  }

  predicate AllSpace(s: string) {
    forall i | 0 <= i < |s| :: IsSpace(s[i])
  }

  /** Neither end of `s` is whitespace. */
  predicate Trimmed(s: string) {
    s == [] || (!IsSpace(s[0]) && !IsSpace(s[|s| - 1]))
  }

  /** Every character of `s` from `lo` up to `hi` is whitespace. */
  predicate SpaceBetween(s: string, lo: int, hi: int)
    requires 0 <= lo && hi <= |s|
  {
    forall i | lo <= i < hi :: IsSpace(s[i])
  }

  /** `s.lstrip()`. */
  function StripLeft(s: string): (r: string)
    ensures |r| <= |s| && r == s[|s| - |r|..]
    ensures SpaceBetween(s, 0, |s| - |r|)
    ensures r == [] || !IsSpace(r[0])
  {
    if |s| > 0 && IsSpace(s[0]) then
      var r := StripLeft(s[1..]);
      assert forall i | 1 <= i < |s| - |r| :: s[i] == s[1..][i - 1];
      r
    else
      s
  }

  /** `s.rstrip()`. */
  function StripRight(s: string): (r: string)
    ensures r <= s
    ensures SpaceBetween(s, |r|, |s|)
    ensures r == [] || !IsSpace(r[|r| - 1])
  {
    if |s| > 0 && IsSpace(s[|s| - 1]) then
      var r := StripRight(s[..|s| - 1]);
      assert forall i | |r| <= i < |s| - 1 :: s[i] == s[..|s| - 1][i];
      r
    else
      s
  }

  /**
   `s.strip()`: the infix of `s` left once the whitespace at both ends is cut away.
   */
  function Strip(s: string): (r: string)
    ensures Trimmed(r)
  {
    StripRight(StripLeft(s))
  }

  /**
   What `strip()` keeps: the infix of `s` starting where the leading whitespace
   ends, with only whitespace before it and after it.
   */
  lemma StripSpec(s: string)
    ensures var i := |s| - |StripLeft(s)|;
            OccursAt(s, Strip(s), i) && SpaceBetween(s, 0, i) && SpaceBetween(s, i + |Strip(s)|, |s|)
  {
    var l := StripLeft(s);
    var r := StripRight(l);
    var i := |s| - |l|;
    InfixOfSuffix(s, i, l, r);
    SpaceInSuffix(s, i, l, |r|, |l|);
  }

  lemma InfixOfSuffix(s: string, i: nat, l: string, r: string)
    requires i <= |s| && l == s[i..] && r <= l
    ensures OccursAt(s, r, i)
  {
    assert s[i..i + |r|] == l[..|r|];
  }

  lemma SpaceInSuffix(s: string, i: nat, l: string, lo: nat, hi: nat)
    requires i <= |s| && l == s[i..] && lo <= hi <= |l| && SpaceBetween(l, lo, hi)
    ensures SpaceBetween(s, i + lo, i + hi)
  {
    forall k | i + lo <= k < i + hi ensures IsSpace(s[k]) {
      assert s[k] == l[k - i];
    }
  }

  lemma {:induction false} StripLeftSpaces(a: string, u: string)
    requires AllSpace(a) && (u == [] || !IsSpace(u[0]))
    ensures StripLeft(a + u) == u
    decreases |a|
  {
    if a != [] {
      assert (a + u)[1..] == a[1..] + u;
      StripLeftSpaces(a[1..], u);
    } else {
      assert a + u == u;
    }
  }

  lemma {:induction false} StripRightSpaces(u: string, b: string)
    requires AllSpace(b) && (u == [] || !IsSpace(u[|u| - 1]))
    ensures StripRight(u + b) == u
    decreases |b|
  {
    if b != [] {
      assert (u + b)[..|u + b| - 1] == u + b[..|b| - 1];
      StripRightSpaces(u, b[..|b| - 1]);
    } else {
      assert u + b == u;
    }
  }

  /**
   Strip is the only way to read a string as whitespace, a trimmed text and
   whitespace: whatever the padding, `strip()` gives the text back.
   */
  lemma StripUnique(a: string, t: string, b: string)
    requires AllSpace(a) && Trimmed(t) && AllSpace(b)
    ensures Strip(a + t + b) == t
  {
    if t == [] {
      assert AllSpace(a + t + b);
      assert StripLeft(a + t + b) == [];
    } else {
      assert a + t + b == a + (t + b);
      StripLeftSpaces(a, t + b);
      StripRightSpaces(t, b);
    }
  }

  /** What an infix of `s` contains, `s` contains. */
  lemma ContainsInInfix(s: string, t: string, i: int, sep: string)
    requires OccursAt(s, t, i) && Contains(t, sep)
    ensures Contains(s, sep)
  {
    var k :| 0 <= k <= |t| - |sep| && OccursAt(t, sep, k);
    assert forall j :: 0 <= j < |sep| ==> s[i + k + j] == t[k + j] == sep[j];
    assert OccursAt(s, sep, i + k);
  }

  /** Stripping never brings in a separator that was not there. */
  lemma StripKeepsOut(s: string, sep: string)
    requires !Contains(s, sep)
    ensures !Contains(Strip(s), sep)
  {
    var r := Strip(s);
    StripSpec(s);
    var i := |s| - |StripLeft(s)|;
    if Contains(r, sep) {
      ContainsInInfix(s, r, i, sep);
    }
  }

  /** Nor does taking a prefix. */
  lemma PrefixKeepsOut(s: string, m: nat, sep: string)
    requires m <= |s| && !Contains(s, sep)
    ensures !Contains(s[..m], sep)
  {
    assert OccursAt(s, s[..m], 0);
    if Contains(s[..m], sep) {
      ContainsInInfix(s, s[..m], 0, sep);
    }
  }

  /**
   If no `sep` ends before the last character of `x + sep`, then in
   `x + sep + y` the first `sep` is the one right after `x`.
   */
  lemma FirstAt(x: string, sep: string, y: string)
    requires sep != []
    requires !Contains(x + sep[..|sep| - 1], sep)
    ensures Find(x + sep + y, sep) == Some(|x|)
    ensures OccursAt(x + sep + y, sep, |x|)
  {
    var s := x + sep + y;
    FindSpec(s, sep);
    assert s[|x|..|x| + |sep|] == sep;
    assert OccursAt(s, sep, |x|);
    assert s[..|x| + |sep| - 1] == x + sep[..|sep| - 1];
    forall k | 0 <= k < |x| ensures !OccursAt(s, sep, k) {
      OccursInPrefix(s, |x| + |sep| - 1, sep, k);
    }
  }

  /**
   When the last character of `sep` occurs nowhere else in it, a string free of
   `sep` stays free of it with all of `sep` but its last character appended.
   */
  lemma LastCharFresh(x: string, sep: string)
    requires sep != [] && sep[|sep| - 1] !in sep[..|sep| - 1] && !Contains(x, sep)
    ensures !Contains(x + sep[..|sep| - 1], sep)
  {
    var t := x + sep[..|sep| - 1];
    assert t[..|x|] == x;
    forall k | 0 <= k <= |t| - |sep| ensures !OccursAt(t, sep, k) {
      if k + |sep| <= |x| {
        OccursInPrefix(t, |x|, sep, k);
      } else {
        var e := k + |sep| - 1;
        assert t[e] == sep[..|sep| - 1][e - |x|];
        assert t[k..k + |sep|][|sep| - 1] == t[e];
      }
    }
  }

  /**
   When the first character of `sep` occurs nowhere else in it, a string free of
   `sep` stays free of it with all of `sep` but its last character appended.
   */
  lemma FirstCharFresh(x: string, sep: string)
    requires sep != [] && sep[0] !in sep[1..] && !Contains(x, sep)
    ensures !Contains(x + sep[..|sep| - 1], sep)
  {
    var t := x + sep[..|sep| - 1];
    assert t[..|x|] == x;
    forall k | 0 <= k <= |t| - |sep| ensures !OccursAt(t, sep, k) {
      if k + |sep| <= |x| {
        OccursInPrefix(t, |x|, sep, k);
      } else {
        var d := |x| - k;
        assert t[k..k + |sep|][d] == t[|x|] == sep[0];
        assert sep[1..][d - 1] == sep[d];
      }
    }
  }

  /** A string lacking some character of `sep` does not contain `sep`. */
  lemma MissingChar(s: string, sep: string, i: int)
    requires 0 <= i < |sep| && sep[i] !in s
    ensures !Contains(s, sep)
  {
  }

  /** A string with no `sep` is its own single piece. */
  lemma SplitWithout(s: string, sep: string)
    requires sep != [] && !Contains(s, sep)
    ensures Split(s, sep) == [s]
  {
    FindSpec(s, sep);
  }

  /**
   `x + sep + y` splits into `x` followed by the pieces of `y`, when the
   first `sep` is the one after `x`.
   */
  lemma SplitAfter(x: string, sep: string, y: string)
    requires sep != []
    requires !Contains(x + sep[..|sep| - 1], sep)
    ensures Split(x + sep + y, sep) == [x] + Split(y, sep)
    ensures OccursAt(x + sep + y, sep, |x|) && Contains(x + sep + y, sep)
  {
    FirstAt(x, sep, y);
    var s := x + sep + y;
    SplitStep(s, sep);
    assert s[..|x|] == x;
    assert s[|x| + |sep|..] == y;
  }
}

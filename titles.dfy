/** The three title patterns of explode_bulkprint.py. Each is applied with
    Python's `re.match`, so it is anchored at the start of the title only;
    `.` matches any character but a newline, and `$` matches at the end of
    the title or just before a newline that ends it.

    Each pattern is given twice: a ghost predicate that spells out what a
    match of the regular expression is (how the title splits around the
    literal parts), and a computable predicate the model runs. A lemma ties
    each pair together in both directions. */
module Titles {
  import opened Text

  const DetailsMarker: string := " Candidate Details"
  const ResumeSuffix: string := ".pdf"
  const ErrorOpening: string := ".pdf ("

  predicate NoNewline(s: string)
  {
    forall i :: 0 <= i < |s| ==> s[i] != '\n'
  }

  /** Where `$` can match: the end of `t`, or the position of a newline
      that is the last character of `t`. */
  predicate EndAnchor(t: string, p: int)
  {
    p == |t| || (0 <= p && p == |t| - 1 && t[p] == '\n')
  }

  /** `re.match(r'.* Candidate Details', t)`: some newline-free prefix is
      followed by the marker. */
  ghost predicate DetailsPatternMatches(t: string)
  {
    exists k :: OccursAt(t, DetailsMarker, k) && NoNewline(t[..k])
  }

  /** `re.match(r'.*\.pdf$', t)`: a newline-free prefix, then `.pdf`, then
      the end anchor. */
  ghost predicate ResumePatternMatches(t: string)
  {
    exists k :: OccursAt(t, ResumeSuffix, k) && NoNewline(t[..k]) && EndAnchor(t, k + 4)
  }

  /** `re.match(r'.*\.pdf \(.*\)$', t)`: a newline-free prefix, `.pdf (`,
      a newline-free middle, `)`, then the end anchor. */
  ghost predicate ErrorPatternMatches(t: string)
  {
    exists k, m :: OccursAt(t, ErrorOpening, k) && NoNewline(t[..k])
      && k + 6 <= m < |t| && NoNewline(t[k + 6..m]) && t[m] == ')' && EndAnchor(t, m + 1)
  }

  /** The title up to its first newline. */
  function FirstLine(t: string): string
  {
    SplitOn(t, '\n')[0]
  }

  /** The title without the one newline `$` may skip over at its end. */
  function Anchored(t: string): string
  {
    if t != [] && t[|t| - 1] == '\n' then t[..|t| - 1] else t
  }

  /** A candidate-details bookmark: the marker occurs in the title's first
      line. This is a containment test, not a suffix test. */
  predicate IsDetailsTitle(t: string)
  {
    Contains(FirstLine(t), DetailsMarker)
  }

  /** A resume bookmark: a one-line title ending in `.pdf`. */
  predicate IsResumeTitle(t: string)
  {
    var b := Anchored(t);
    NoNewline(b) && EndsWith(b, ResumeSuffix)
  }

  /** A resume whose export failed: a one-line title ending in `)` whose
      `.pdf (` occurs before that last character. */
  predicate IsErrorTitle(t: string)
  {
    var b := Anchored(t);
    NoNewline(b) && |b| >= 1 && b[|b| - 1] == ')' && Contains(b[..|b| - 1], ErrorOpening)
  }

  lemma DetailsTitleIsMatch(t: string)
    ensures IsDetailsTitle(t) <==> DetailsPatternMatches(t)
  {
    var line := FirstLine(t);
    FirstPiece(t, '\n');
    ContainsFindsOccurrence(line, DetailsMarker);
    if IsDetailsTitle(t) {
      var k :| OccursAt(line, DetailsMarker, k);
      DetailsInFirstLine(t, line, k);
    }
    if DetailsPatternMatches(t) {
      var k :| OccursAt(t, DetailsMarker, k) && NoNewline(t[..k]);
      DetailsBeforeNewline(t, line, k);
    }
  }

  lemma DetailsInFirstLine(t: string, line: string, k: int)
    requires |line| <= |t| && line == t[..|line|]
    requires OccursAt(line, DetailsMarker, k) && NoNewline(line)
    ensures OccursAt(t, DetailsMarker, k) && NoNewline(t[..k])
  {
    assert t[k..k + |DetailsMarker|] == line[k..k + |DetailsMarker|];
    assert t[..k] == line[..k];
  }

  lemma DetailsBeforeNewline(t: string, line: string, k: int)
    requires |line| <= |t| && line == t[..|line|] && (|line| == |t| || t[|line|] == '\n')
    requires OccursAt(t, DetailsMarker, k) && NoNewline(t[..k])
    ensures OccursAt(line, DetailsMarker, k)
  {
    var n := |DetailsMarker|;
    assert forall i :: k <= i < k + n ==> t[i] == DetailsMarker[i - k];
    assert forall i :: 0 <= i < k ==> t[i] == t[..k][i];
    assert k + n <= |line|;
    assert line[k..k + n] == t[k..k + n];
  }

  lemma ResumeTitleIsMatch(t: string)
    ensures IsResumeTitle(t) <==> ResumePatternMatches(t)
  {
    if IsResumeTitle(t) {
      ResumeTitleMatches(t);
    }
    if ResumePatternMatches(t) {
      var k :| OccursAt(t, ResumeSuffix, k) && NoNewline(t[..k]) && EndAnchor(t, k + 4);
      ResumeMatchIsTitle(t, k);
    }
  }

  lemma ResumeTitleMatches(t: string)
    requires IsResumeTitle(t)
    ensures ResumePatternMatches(t)
  {
    var b := Anchored(t);
    var k := |b| - 4;
    assert b == t[..|b|];
    assert b[k..] == ResumeSuffix;
    assert t[k..k + 4] == b[k..];
    assert t[..k] == b[..k];
    assert OccursAt(t, ResumeSuffix, k) && NoNewline(t[..k]) && EndAnchor(t, k + 4);
  }

  lemma ResumeMatchIsTitle(t: string, k: int)
    requires OccursAt(t, ResumeSuffix, k) && NoNewline(t[..k]) && EndAnchor(t, k + 4)
    ensures IsResumeTitle(t)
  {
    var b := Anchored(t);
    assert t[k + 3] == ResumeSuffix[3];
    assert |b| == k + 4 && b == t[..k + 4];
    assert forall i :: k <= i < k + 4 ==> t[i] == ResumeSuffix[i - k];
    assert forall i :: 0 <= i < k ==> t[i] == t[..k][i];
    assert NoNewline(b);
    assert b[k..] == t[k..k + 4];
  }

  lemma ErrorTitleIsMatch(t: string)
    ensures IsErrorTitle(t) <==> ErrorPatternMatches(t)
  {
    if IsErrorTitle(t) {
      ErrorTitleMatches(t);
    }
    if ErrorPatternMatches(t) {
      var k, m :| OccursAt(t, ErrorOpening, k) && NoNewline(t[..k])
        && k + 6 <= m < |t| && NoNewline(t[k + 6..m]) && t[m] == ')' && EndAnchor(t, m + 1);
      ErrorMatchIsTitle(t, k, m);
    }
  }

  lemma ErrorTitleMatches(t: string)
    requires IsErrorTitle(t)
    ensures ErrorPatternMatches(t)
  {
    var b := Anchored(t);
    var m := |b| - 1;
    var inner := b[..m];
    ContainsFindsOccurrence(inner, ErrorOpening);
    var k :| OccursAt(inner, ErrorOpening, k);
    assert b == t[..|b|];
    assert inner == t[..m];
    assert t[k..k + 6] == inner[k..k + 6];
    assert t[..k] == b[..k];
    assert t[k + 6..m] == b[k + 6..m];
    assert OccursAt(t, ErrorOpening, k) && NoNewline(t[..k])
      && k + 6 <= m < |t| && NoNewline(t[k + 6..m]) && t[m] == ')' && EndAnchor(t, m + 1);
  }

  lemma ErrorMatchIsTitle(t: string, k: int, m: int)
    requires OccursAt(t, ErrorOpening, k) && NoNewline(t[..k])
    requires k + 6 <= m < |t| && NoNewline(t[k + 6..m]) && t[m] == ')' && EndAnchor(t, m + 1)
    ensures IsErrorTitle(t)
  {
    var b := Anchored(t);
    assert |b| == m + 1 && b == t[..m + 1];
    assert forall i :: k <= i < k + 6 ==> t[i] == ErrorOpening[i - k];
    assert forall i :: 0 <= i < k ==> t[i] == t[..k][i];
    assert forall i :: k + 6 <= i < m ==> t[i] == t[k + 6..m][i - k - 6];
    assert NoNewline(b);
    var inner := b[..m];
    assert inner[k..k + 6] == t[k..k + 6];
    assert OccursAt(inner, ErrorOpening, k);
    ContainsFindsOccurrence(inner, ErrorOpening);
  }

  /** No title is both a resume and a failed resume: one ends in `.pdf`,
      the other in `)`. The `elif` in the script is therefore never what
      keeps the two counters apart. */
  lemma ResumeIsNeverError(t: string)
    ensures IsResumeTitle(t) ==> !IsErrorTitle(t)
  {
    var b := Anchored(t);
    if IsResumeTitle(t) {
      assert b[|b| - 4..][3] == 'f';
    }
  }
}

/** The script's one forward pass over the outlines of its input documents
    (explode_bulkprint.py lines 58-136): the counters, the rows of
    candidates.csv and the files under resumes/.

    The pass is given twice. `Visit`, `Walk` and `Run` say what one
    bookmark, one document and the whole list of documents do to the
    state; the class `Exploder` is the script itself, whose loops are
    proved to do exactly that. The lemmas at the end are about `Walk` and
    `Run`. */
module Explode {
  import opened Base
  import opened Titles
  import opened Outline
  import opened Candidate

  /** One line of candidates.csv. */
  datatype Row = Row(id: nat, title: string, firstName: string, lastName: string, email: string)

  /** The file resumes/<id>.pdf: which input document it was cut from, and
      the numbers of the pages it holds, in order. */
  datatype ResumeFile = ResumeFile(source: nat, pages: seq<nat>)

  /** Everything the pass has changed so far. `resumes` maps an id to the
      file written under that id's name, so writing it again replaces it. */
  datatype Snapshot = Snapshot(
    candidateId: nat,
    resumeCount: nat,
    resumeErrors: nat,
    rows: seq<Row>,
    resumes: map<nat, ResumeFile>)

  /** Where a pass ended: the state, and the exception that stopped it,
      if one did. */
  datatype Outcome = Outcome(state: Snapshot, failure: Option<Failure>)

  /** The state before the first document (lines 58-62). */
  const Start: Snapshot := Snapshot(0, 0, 0, [], map[])

  /** A details bookmark: the id goes up before the page is read, then the
      row is written under the new id. */
  function DetailsStep(s: Snapshot, text: string): Outcome
  {
    var id := s.candidateId + 1;
    var counted := s.(candidateId := id);
    match ParseDetails(text)
    case Err(f) => Outcome(counted, Some(f))
    case Ok(d) => Outcome(counted.(rows := s.rows + [Row(id, d.title, d.firstName, d.lastName, d.email)]), None)
  }

  /** A resume bookmark on page `page`, followed by the entries `rest`: the
      count goes up, then the pages up to the next top-level bookmark are
      copied into the file of the current id. */
  function ResumeStep(s: Snapshot, page: nat, rest: seq<Entry>, pageCount: nat, src: nat): Outcome
  {
    var counted := s.(resumeCount := s.resumeCount + 1);
    match FirstTop(rest)
    case None => Outcome(counted, Some(NoNextTopLevel))
    case Some(j) =>
      match CopyPages(pageCount, page, rest[j].page)
      case Err(f) => Outcome(counted, Some(f))
      case Ok(copied) => Outcome(counted.(resumes := s.resumes[s.candidateId := ResumeFile(src, copied)]), None)
  }

  /** One entry of the outline, followed by the entries `rest`. Nested
      entries are skipped. For a top-level bookmark its page is fetched
      first; then the details test and the resume tests run one after the
      other, so a title passing both does both. */
  function Visit(s: Snapshot, e: Entry, rest: seq<Entry>, pages: seq<string>, src: nat): Outcome
  {
    match e
    case Nested => Outcome(s, None)
    case Top(title, page) =>
      if page >= |pages| then Outcome(s, Some(PageOutOfRange(page)))
      else
        var d := if IsDetailsTitle(title) then DetailsStep(s, pages[page]) else Outcome(s, None);
        if d.failure.Some? then d
        else if IsResumeTitle(title) then ResumeStep(d.state, page, rest, |pages|, src)
        else if IsErrorTitle(title) then Outcome(d.state.(resumeErrors := d.state.resumeErrors + 1), None)
        else d
  }

  /** The entries of one outline, in order, until one raises. */
  function Walk(s: Snapshot, entries: seq<Entry>, pages: seq<string>, src: nat): Outcome
    decreases |entries|
  {
    if entries == [] then Outcome(s, None)
    else
      var o := Visit(s, entries[0], entries[1..], pages, src);
      if o.failure.Some? then o else Walk(o.state, entries[1..], pages, src)
  }

  /** The input documents, in order, numbered from `src`; the counters
      carry over from one document to the next. */
  function Run(s: Snapshot, docs: seq<Doc>, src: nat): Outcome
    decreases |docs|
  {
    if docs == [] then Outcome(s, None)
    else
      var o := Walk(s, docs[0].outline, docs[0].pages, src);
      if o.failure.Some? then o else Run(o.state, docs[1..], src + 1)
  }

  /** The script's global state and its loops. */
  class Exploder {
    var candidateId: nat
    var resumeCount: nat
    var resumeErrors: nat
    var rows: seq<Row>
    var resumes: map<nat, ResumeFile>

    function State(): Snapshot
      reads this
    {
      Snapshot(candidateId, resumeCount, resumeErrors, rows, resumes)
    }

    constructor ()
      ensures State() == Start
    {
      candidateId, resumeCount, resumeErrors := 0, 0, 0;
      rows, resumes := [], map[];
    }

    /** `for i, dest in enumerate(doc.outlines)` for the document numbered
        `src`. */
    method ProcessDocument(doc: Doc, src: nat) returns (failure: Option<Failure>)
      modifies this
      ensures Outcome(State(), failure) == Walk(old(State()), doc.outline, doc.pages, src)
    {
      var outline, pages := doc.outline, doc.pages;
      var i := 0;
      while i < |outline|
        invariant 0 <= i <= |outline|
        invariant Walk(old(State()), outline, pages, src) == Walk(State(), outline[i..], pages, src)
      {
        assert outline[i..][0] == outline[i] && outline[i..][1..] == outline[i + 1..];
        failure := VisitEntry(outline, i, pages, src);
        if failure.Some? {
          return;
        }
        i := i + 1;
      }
      failure := None;
    }

    /** The body of that loop, for the entry at position `i`. */
    method VisitEntry(outline: seq<Entry>, i: nat, pages: seq<string>, src: nat) returns (failure: Option<Failure>)
      requires i < |outline|
      modifies this
      ensures Outcome(State(), failure) == Visit(old(State()), outline[i], outline[i + 1..], pages, src)
    {
      var dest := outline[i];
      if dest.Nested? {
        return None;
      }
      var pageNum := dest.page;
      if pageNum >= |pages| {
        return Some(PageOutOfRange(pageNum));
      }
      if IsDetailsTitle(dest.title) {
        failure := ReadDetails(pages[pageNum]);
        if failure.Some? {
          return;
        }
      }
      if IsResumeTitle(dest.title) {
        failure := CutResume(outline, i, |pages|, src);
      } else {
        if IsErrorTitle(dest.title) {
          resumeErrors := resumeErrors + 1;
        }
        failure := None;
      }
    }

    /** Lines 83-106: a new id, then the row read from the page's text. */
    method ReadDetails(text: string) returns (failure: Option<Failure>)
      modifies this
      ensures Outcome(State(), failure) == DetailsStep(old(State()), text)
    {
      candidateId := candidateId + 1;
      var parsed := ParseDetails(text);
      if parsed.Err? {
        return Some(parsed.failure);
      }
      var d := parsed.value;
      rows := rows + [Row(candidateId, d.title, d.firstName, d.lastName, d.email)];
      failure := None;
    }

    /** Lines 112-132 for the resume bookmark at position `i`. */
    method CutResume(outline: seq<Entry>, i: nat, pageCount: nat, src: nat) returns (failure: Option<Failure>)
      requires i < |outline| && outline[i].Top?
      modifies this
      ensures Outcome(State(), failure) == ResumeStep(old(State()), outline[i].page, outline[i + 1..], pageCount, src)
    {
      resumeCount := resumeCount + 1;
      var k := NextTopLevel(outline, i);
      if k.None? {
        return Some(NoNextTopLevel);
      }
      assert outline[k.value] == outline[i + 1..][k.value - i - 1];
      var nextPage := outline[k.value].page;
      var resume := ExtractPages(pageCount, outline[i].page, nextPage);
      if resume.Err? {
        return Some(resume.failure);
      }
      resumes := resumes[candidateId := ResumeFile(src, resume.value)];
      failure := None;
    }

    /** `for input_pdf in INPUT_PDFS`. */
    method ProcessAll(docs: seq<Doc>) returns (failure: Option<Failure>)
      modifies this
      ensures Outcome(State(), failure) == Run(old(State()), docs, 0)
    {
      var d := 0;
      while d < |docs|
        invariant 0 <= d <= |docs|
        invariant Run(old(State()), docs, 0) == Run(State(), docs[d..], d)
      {
        assert docs[d..][0] == docs[d] && docs[d..][1..] == docs[d + 1..];
        failure := ProcessDocument(docs[d], d);
        if failure.Some? {
          return;
        }
        d := d + 1;
      }
      failure := None;
    }
  }

  /** The whole script on its list of input documents: what candidates.csv
      and resumes/ hold when it stops, the three counts it prints, and the
      exception it stops with, if any. */
  method Explode(docs: seq<Doc>) returns (o: Outcome)
    ensures o == Run(Start, docs, 0)
  {
    var exploder := new Exploder();
    var failure := exploder.ProcessAll(docs);
    o := Outcome(exploder.State(), failure);
  }

  /** The rows of candidates.csv carry the ids 1, 2, 3, ... in order. */
  ghost predicate Numbered(rows: seq<Row>)
  {
    forall j :: 0 <= j < |rows| ==> rows[j].id == j + 1
  }

  /** The top-level details bookmarks among `entries`. */
  function DetailsCount(entries: seq<Entry>): nat
  {
    if entries == [] then 0
    else (if entries[0].Top? && IsDetailsTitle(entries[0].title) then 1 else 0) + DetailsCount(entries[1..])
  }

  /** The top-level details bookmarks of all the documents. */
  function DocsDetailsCount(docs: seq<Doc>): nat
  {
    if docs == [] then 0 else DetailsCount(docs[0].outline) + DocsDetailsCount(docs[1..])
  }

  /** What one outline entry does. A nested entry does nothing. A top-level
      bookmark moves each counter by at most one, never both resume
      counters, and when it does not raise, moves each exactly when its
      title is of that kind; only a details bookmark adds a row (the next
      id), and only a resume bookmark writes a file. */
  lemma DetailsStepEffect(s: Snapshot, text: string)
    ensures var o := DetailsStep(s, text);
      && o.state.candidateId == s.candidateId + 1
      && o.state.resumeCount == s.resumeCount && o.state.resumeErrors == s.resumeErrors
      && o.state.resumes == s.resumes
      && (if o.failure.Some? then o.state.rows == s.rows
          else o.state.rows == s.rows + [o.state.rows[|s.rows|]] && o.state.rows[|s.rows|].id == s.candidateId + 1)
  {
  }

  lemma ResumeStepEffect(s: Snapshot, page: nat, rest: seq<Entry>, pageCount: nat, src: nat)
    ensures var o := ResumeStep(s, page, rest, pageCount, src);
      && o.state.candidateId == s.candidateId && o.state.rows == s.rows
      && o.state.resumeCount == s.resumeCount + 1 && o.state.resumeErrors == s.resumeErrors
  {
  }

  /** The counters: each moves by at most one and the two resume counters
      never both; when the bookmark does not raise, each moves exactly when
      its title is of that kind. */
  lemma VisitCounters(s: Snapshot, e: Entry, rest: seq<Entry>, pages: seq<string>, src: nat)
    ensures var o := Visit(s, e, rest, pages, src);
      && s.candidateId <= o.state.candidateId <= s.candidateId + 1
      && s.resumeCount <= o.state.resumeCount <= s.resumeCount + 1
      && s.resumeErrors <= o.state.resumeErrors <= s.resumeErrors + 1
      && (o.state.resumeCount == s.resumeCount || o.state.resumeErrors == s.resumeErrors)
      && (e.Top? && o.failure.None? ==>
            && o.state.candidateId == s.candidateId + (if IsDetailsTitle(e.title) then 1 else 0)
            && o.state.resumeCount == s.resumeCount + (if IsResumeTitle(e.title) then 1 else 0)
            && o.state.resumeErrors == s.resumeErrors + (if IsErrorTitle(e.title) then 1 else 0))
  {
    if e.Top? && e.page < |pages| {
      ResumeIsNeverError(e.title);
      if IsDetailsTitle(e.title) {
        DetailsStepEffect(s, pages[e.page]);
      }
      var d := if IsDetailsTitle(e.title) then DetailsStep(s, pages[e.page]) else Outcome(s, None);
      if d.failure.None? && IsResumeTitle(e.title) {
        ResumeStepEffect(d.state, e.page, rest, |pages|, src);
      }
    }
  }

  /** The rows and the files: a nested entry changes nothing; only a
      details bookmark adds a row, under the id it has just handed out;
      only a resume bookmark writes a file. */
  lemma VisitRowsAndFiles(s: Snapshot, e: Entry, rest: seq<Entry>, pages: seq<string>, src: nat)
    ensures var o := Visit(s, e, rest, pages, src);
      && (e.Nested? ==> o == Outcome(s, None))
      && (o.state.rows == s.rows || (o.state.rows == s.rows + [o.state.rows[|s.rows|]]
            && o.state.rows[|s.rows|].id == o.state.candidateId == s.candidateId + 1))
      && (o.failure.None? && o.state.rows == s.rows ==> o.state.candidateId == s.candidateId)
      && (e.Top? && !IsResumeTitle(e.title) ==> o.state.resumes == s.resumes)
  {
    if e.Top? && e.page < |pages| {
      if IsDetailsTitle(e.title) {
        DetailsStepEffect(s, pages[e.page]);
      }
      var d := if IsDetailsTitle(e.title) then DetailsStep(s, pages[e.page]) else Outcome(s, None);
      if d.failure.None? && IsResumeTitle(e.title) {
        ResumeStepEffect(d.state, e.page, rest, |pages|, src);
      }
    }
  }

  /** What the numbering lemmas say of a pass from `s` that ended in `o`
      after `n` details bookmarks: ids are handed out one by one, every id
      given out has its row, in order, except that a details page that
      fails to parse leaves its id without one as the run stops; rows
      already written are kept. */
  ghost predicate NumberedAfter(s: Snapshot, o: Outcome, n: nat)
  {
    && Numbered(o.state.rows)
    && |s.rows| <= |o.state.rows| && o.state.rows[..|s.rows|] == s.rows
    && (o.failure.None? ==> |o.state.rows| == o.state.candidateId == s.candidateId + n)
    && (o.failure.Some? ==> |o.state.rows| <= o.state.candidateId <= |o.state.rows| + 1)
  }

  /** One bookmark keeps the numbering. */
  lemma VisitNumbers(s: Snapshot, e: Entry, rest: seq<Entry>, pages: seq<string>, src: nat)
    requires Numbered(s.rows) && |s.rows| == s.candidateId
    ensures NumberedAfter(s, Visit(s, e, rest, pages, src), DetailsCount([e]))
  {
    VisitCounters(s, e, rest, pages, src);
    VisitRowsAndFiles(s, e, rest, pages, src);
    var o := Visit(s, e, rest, pages, src);
    assert o.state.rows[..|s.rows|] == s.rows;
  }

  /** Two stretches of a pass that each keep the numbering keep it
      together. */
  lemma NumberedCompose(s: Snapshot, mid: Outcome, last: Outcome, m: nat, n: nat)
    requires Numbered(s.rows) && |s.rows| == s.candidateId
    requires NumberedAfter(s, mid, m) && mid.failure.None?
    requires NumberedAfter(mid.state, last, n)
    ensures NumberedAfter(s, last, m + n)
  {
    assert last.state.rows[..|s.rows|] == last.state.rows[..|mid.state.rows|][..|s.rows|];
  }

  /** Across one document. */
  lemma {:induction false} WalkNumbers(s: Snapshot, entries: seq<Entry>, pages: seq<string>, src: nat)
    requires Numbered(s.rows) && |s.rows| == s.candidateId
    ensures NumberedAfter(s, Walk(s, entries, pages, src), DetailsCount(entries))
    decreases |entries|
  {
    if entries == [] {
      assert s.rows[..|s.rows|] == s.rows;
    } else {
      var e := entries[0];
      VisitNumbers(s, e, entries[1..], pages, src);
      var o := Visit(s, e, entries[1..], pages, src);
      assert DetailsCount(entries) == DetailsCount([e]) + DetailsCount(entries[1..]);
      if o.failure.None? {
        WalkNumbers(o.state, entries[1..], pages, src);
        NumberedCompose(s, o, Walk(o.state, entries[1..], pages, src), DetailsCount([e]), DetailsCount(entries[1..]));
      }
    }
  }

  /** Across all the documents: the counter is never reset, so the ids in
      candidates.csv are exactly 1..N, N being the number of details
      bookmarks, with no gap and no repeat; a run that stops early still
      has ids 1..n with n rows. */
  lemma {:induction false} RunNumbers(s: Snapshot, docs: seq<Doc>, src: nat)
    requires Numbered(s.rows) && |s.rows| == s.candidateId
    ensures NumberedAfter(s, Run(s, docs, src), DocsDetailsCount(docs))
    decreases |docs|
  {
    if docs == [] {
      assert s.rows[..|s.rows|] == s.rows;
    } else {
      WalkNumbers(s, docs[0].outline, docs[0].pages, src);
      var o := Walk(s, docs[0].outline, docs[0].pages, src);
      if o.failure.None? {
        RunNumbers(o.state, docs[1..], src + 1);
        NumberedCompose(s, o, Run(o.state, docs[1..], src + 1), DetailsCount(docs[0].outline), DocsDetailsCount(docs[1..]));
      }
    }
  }

  /** The script's ids, from its start state. */
  lemma IdsAreOneToN(docs: seq<Doc>)
    ensures var o := Run(Start, docs, 0);
      && (forall j :: 0 <= j < |o.state.rows| ==> o.state.rows[j].id == j + 1)
      && (o.failure.None? ==> |o.state.rows| == o.state.candidateId == DocsDetailsCount(docs))
  {
    RunNumbers(Start, docs, 0);
  }

  /** A visit reads the entries after it only through the next top-level
      bookmark. */
  lemma VisitSeesOnlyTopLevel(s: Snapshot, e: Entry, rest: seq<Entry>, pages: seq<string>, src: nat)
    ensures Visit(s, e, rest, pages, src) == Visit(s, e, TopOnly(rest), pages, src)
  {
    FirstTopOfTopOnly(rest);
    var tops := TopOnly(rest);
    if tops != [] {
      assert FirstTop(tops) == Some(0);
    }
  }

  /** Nested entries are inert: taking every one of them out of the
      outline changes nothing the pass does. */
  lemma {:induction false} NestedEntriesAreInert(s: Snapshot, entries: seq<Entry>, pages: seq<string>, src: nat)
    ensures Walk(s, entries, pages, src) == Walk(s, TopOnly(entries), pages, src)
    decreases |entries|
  {
    if entries != [] {
      var e, rest := entries[0], entries[1..];
      if e.Nested? {
        NestedEntriesAreInert(s, rest, pages, src);
      } else {
        VisitSeesOnlyTopLevel(s, e, rest, pages, src);
        assert TopOnly(entries) == [e] + TopOnly(rest);
        var o := Visit(s, e, rest, pages, src);
        if o.failure.None? {
          NestedEntriesAreInert(o.state, rest, pages, src);
        }
      }
    }
  }

  /** A resume that does not raise is filed under the id current at its
      bookmark (raised first when the same bookmark is also a details
      bookmark; 0 before any details bookmark), replacing any earlier file
      of that id and no other, and holds the pages from its bookmark's page
      up to, not including, the next top-level bookmark's page. */
  lemma ResumeFiledUnderCurrentId(s: Snapshot, title: string, page: nat, rest: seq<Entry>, pages: seq<string>, src: nat)
    requires IsResumeTitle(title)
    requires Visit(s, Top(title, page), rest, pages, src).failure.None?
    ensures var o := Visit(s, Top(title, page), rest, pages, src);
      && Segment(page, rest).Some?
      && o.state.candidateId == s.candidateId + (if IsDetailsTitle(title) then 1 else 0)
      && o.state.resumes == s.resumes[o.state.candidateId := ResumeFile(src, Segment(page, rest).value)]
  {
  }

  /** A resume bookmark with no top-level bookmark after it stops the run
      with IndexError; its pages are not cut out to the end of the
      document. */
  lemma TrailingResumeRaises(s: Snapshot, title: string, page: nat, rest: seq<Entry>, pages: seq<string>, src: nat)
    requires IsResumeTitle(title) && !IsDetailsTitle(title) && page < |pages|
    requires forall j :: 0 <= j < |rest| ==> rest[j].Nested?
    ensures Visit(s, Top(title, page), rest, pages, src)
      == Outcome(s.(resumeCount := s.resumeCount + 1), Some(NoNextTopLevel))
  {
  }

  /** Every file is named after an id already handed out, or 0. */
  ghost predicate FilesWithinIds(s: Snapshot)
  {
    forall id :: id in s.resumes ==> id <= s.candidateId
  }

  lemma {:induction false} WalkFilesWithinIds(s: Snapshot, entries: seq<Entry>, pages: seq<string>, src: nat)
    requires FilesWithinIds(s)
    ensures FilesWithinIds(Walk(s, entries, pages, src).state)
    decreases |entries|
  {
    if entries != [] {
      var o := Visit(s, entries[0], entries[1..], pages, src);
      VisitCounters(s, entries[0], entries[1..], pages, src);
      VisitRowsAndFiles(s, entries[0], entries[1..], pages, src);
      assert FilesWithinIds(o.state);
      if o.failure.None? {
        WalkFilesWithinIds(o.state, entries[1..], pages, src);
      }
    }
  }

  lemma {:induction false} RunFilesWithinIds(s: Snapshot, docs: seq<Doc>, src: nat)
    requires FilesWithinIds(s)
    ensures FilesWithinIds(Run(s, docs, src).state)
    decreases |docs|
  {
    if docs != [] {
      WalkFilesWithinIds(s, docs[0].outline, docs[0].pages, src);
      var o := Walk(s, docs[0].outline, docs[0].pages, src);
      if o.failure.None? {
        RunFilesWithinIds(o.state, docs[1..], src + 1);
      }
    }
  }

  /** From the script's start, every file under resumes/ is named after an
      id already handed out, or 0 for a resume met before any details
      bookmark; in a run with no details bookmark at all, every resume
      goes to 0.pdf. */
  lemma FilesNamedAfterIds(docs: seq<Doc>)
    ensures var o := Run(Start, docs, 0);
      && (forall id :: id in o.state.resumes ==> id <= o.state.candidateId)
      && (o.failure.None? && DocsDetailsCount(docs) == 0 ==> forall id :: id in o.state.resumes ==> id == 0)
  {
    RunFilesWithinIds(Start, docs, 0);
    IdsAreOneToN(docs);
  }
}

/** A document as the script sees it through PyPDF2: its outline (the list
    `doc.outlines`, in which a sub-bookmark list stands in its parent's
    place) and the extracted text of each page. A top-level bookmark keeps
    the page number `doc.getDestinationPageNumber` resolves it to. */
module Outline {
  import opened Base

  datatype Entry =
    | Top(title: string, page: nat)  // a bookmark directly under the root
    | Nested                         // a Python list of sub-bookmarks

  datatype Doc = Doc(outline: seq<Entry>, pages: seq<string>)

  /** The position of the first top-level bookmark in `es`: every entry
      before it is nested, and there is none when all are. */
  function FirstTop(es: seq<Entry>): (r: Option<nat>)
    ensures r.Some? ==> r.value < |es| && es[r.value].Top?
    ensures r.Some? ==> forall j :: 0 <= j < r.value ==> es[j].Nested?
    ensures r.None? <==> forall j :: 0 <= j < |es| ==> es[j].Nested?
  {
    if es == [] then None
    else if es[0].Top? then Some(0)
    else match FirstTop(es[1..])
      case None => None
      case Some(j) => Some(j + 1)
  }

  /** The script's `while True` search (k := k + 1 until doc.outlines[k] is
      not a list) for the top-level bookmark after position `i`. `None`
      stands for the IndexError raised once k runs off the outline. */
  method NextTopLevel(outline: seq<Entry>, i: nat) returns (r: Option<nat>)
    requires i < |outline|
    ensures r.Some? ==> i < r.value < |outline| && outline[r.value].Top?
    ensures r.Some? ==> forall j :: i < j < r.value ==> outline[j].Nested?
    ensures r.None? ==> forall j :: i < j < |outline| ==> outline[j].Nested?
    ensures r == Shift(FirstTop(outline[i + 1..]), i + 1)
  {
    var k := i + 1;
    while k < |outline| && outline[k].Nested?
      invariant i < k <= |outline|
      invariant forall j :: i < j < k ==> outline[j].Nested?
    {
      k := k + 1;
    }
    var rest := outline[i + 1..];
    var first := FirstTop(rest);
    if k < |outline| {
      r := Some(k);
      assert rest[k - i - 1].Top?;
      assert first.Some? && first.value == k - i - 1;
    } else {
      r := None;
      assert forall j :: 0 <= j < |rest| ==> rest[j] == outline[j + i + 1];
    }
  }

  function Shift(p: Option<nat>, offset: nat): Option<nat>
  {
    match p
    case None => None
    case Some(j) => Some(j + offset)
  }

  /** The outline with every nested entry taken out. */
  function TopOnly(es: seq<Entry>): (r: seq<Entry>)
    ensures forall j :: 0 <= j < |r| ==> r[j].Top?
  {
    if es == [] then []
    else if es[0].Nested? then TopOnly(es[1..])
    else [es[0]] + TopOnly(es[1..])
  }

  /** The first top-level bookmark found by skipping nested entries is the
      first entry once the nested entries are taken out. */
  lemma {:induction false} FirstTopOfTopOnly(es: seq<Entry>)
    ensures FirstTop(es).None? <==> TopOnly(es) == []
    ensures FirstTop(es).Some? ==> es[FirstTop(es).value] == TopOnly(es)[0]
  {
    if es != [] && es[0].Nested? {
      FirstTopOfTopOnly(es[1..]);
    }
  }

  /** Python's `range(lo, hi)` as a list of page numbers. */
  function PageRange(lo: nat, hi: nat): (r: seq<nat>)
    ensures |r| == if lo < hi then hi - lo else 0
    ensures forall k :: 0 <= k < |r| ==> r[k] == lo + k
    decreases if lo < hi then hi - lo else 0
  {
    if lo < hi then [lo] + PageRange(lo + 1, hi) else []
  }

  /** A page is in `PageRange(lo, hi)` exactly when `lo <= p < hi`. */
  lemma PageRangeHalfOpen(lo: nat, hi: nat, p: nat)
    ensures p in PageRange(lo, hi) <==> lo <= p < hi
  {
    var r := PageRange(lo, hi);
    if lo <= p < hi {
      assert r[p - lo] == p;
    }
  }

  /** What the loop `for j in range(page_num, next_dest_pagenum):
      resume.addPage(doc.getPage(j))` yields on a document of `pageCount`
      pages: the page numbers in order, or the IndexError of the first
      `getPage(j)` past the end. */
  function CopyPages(pageCount: nat, lo: nat, hi: nat): (r: Result<seq<nat>>)
    ensures var range := PageRange(lo, hi);
      r.Ok? <==> forall k :: 0 <= k < |range| ==> range[k] < pageCount
    ensures r.Ok? ==> r.value == PageRange(lo, hi)
    ensures r.Err? ==> r.failure.PageOutOfRange?
    ensures r.Err? ==> var range, p := PageRange(lo, hi), r.failure.page;
      p in range && p >= pageCount && forall k :: 0 <= k < p - lo ==> range[k] < pageCount
  {
    if lo < hi && pageCount < hi then
      var p := if lo < pageCount then pageCount else lo;
      assert PageRange(lo, hi)[p - lo] == p;
      Err(PageOutOfRange(p))
    else
      Ok(PageRange(lo, hi))
  }

  /** The page-copying loop itself. */
  method ExtractPages(pageCount: nat, lo: nat, hi: nat) returns (r: Result<seq<nat>>)
    ensures r == CopyPages(pageCount, lo, hi)
  {
    var resume: seq<nat> := [];
    var j := lo;
    while j < hi
      invariant lo <= j && (j <= hi || j == lo)
      invariant j == lo || j <= pageCount
      invariant resume == PageRange(lo, j)
    {
      if j >= pageCount {
        return Err(PageOutOfRange(j));
      }
      resume := resume + [j];
      j := j + 1;
    }
    assert lo < hi ==> j == hi;
    assert resume == PageRange(lo, hi);
    return Ok(resume);
  }

  /** The pages of the resume that starts at a top-level bookmark on page
      `page` and is followed by the entries `rest`: up to, not including,
      the page of the next top-level bookmark. `None` when there is no such
      bookmark. */
  function Segment(page: nat, rest: seq<Entry>): Option<seq<nat>>
  {
    match FirstTop(rest)
    case None => None
    case Some(j) => Some(PageRange(page, rest[j].page))
  }

  /** The pages of the top-level bookmarks never decrease along the outline. */
  predicate PagesAscend(outline: seq<Entry>)
  {
    forall a, b :: 0 <= a < b < |outline| && outline[a].Top? && outline[b].Top?
      ==> outline[a].page <= outline[b].page
  }

  /** When bookmark pages ascend, the segments cut at two different
      top-level bookmarks share no page. */
  lemma SegmentsDisjoint(outline: seq<Entry>, a: nat, b: nat, p: nat)
    requires PagesAscend(outline)
    requires a < b < |outline| && outline[a].Top? && outline[b].Top?
    requires Segment(outline[a].page, outline[a + 1..]).Some?
    requires Segment(outline[b].page, outline[b + 1..]).Some?
    ensures p in Segment(outline[a].page, outline[a + 1..]).value
      ==> p !in Segment(outline[b].page, outline[b + 1..]).value
  {
    var restA := outline[a + 1..];
    var j := FirstTop(restA).value;
    var next := a + 1 + j;
    assert restA[j] == outline[next];
    assert next <= b;
    var restB := outline[b + 1..];
    var jb := FirstTop(restB).value;
    assert restB[jb] == outline[b + 1 + jb];
    PageRangeHalfOpen(outline[a].page, outline[next].page, p);
    PageRangeHalfOpen(outline[b].page, restB[jb].page, p);
  }
}

/**
 * The PDF side of `_read_file_content`: flattening the document outline,
 * choosing the page span of a chapter, and collecting the text of the
 * pages in that span. The document itself is given as values: the text
 * pypdf extracts from each page, and the outline with, for each entry,
 * the page number pypdf resolves it to (or none when that lookup raises).
 */
module Pdf {
  import opened Strings
  import opened Optional

  /** An outline destination: its title and its page, or none when the page lookup raised. */
  datatype Destination = Destination(title: string, page: Option<nat>)

  /** An entry of `reader.outline`: a destination, or a nested list of entries. */
  datatype Entry = Dest(d: Destination) | Nested(children: seq<Entry>)

  // ---------------------------------------------------------------------
  // Flattening the outline

  /** The destinations of an outline, depth first and left to right. */
  function Flatten(items: seq<Entry>): seq<Destination>
    decreases items
  {
    if items == [] then []
    else
      var head := match items[0] case Dest(d) => [d] case Nested(c) => Flatten(c);
      head + Flatten(items[1..])
  }

  /** Flattening distributes over concatenation: the order of the entries is kept. */
  lemma {:induction false} FlattenAppend(a: seq<Entry>, b: seq<Entry>)
    ensures Flatten(a + b) == Flatten(a) + Flatten(b)
    decreases |a|
  {
    if a != [] {
      assert (a + b)[0] == a[0] && (a + b)[1..] == a[1..] + b;
      FlattenAppend(a[1..], b);
    } else {
      assert a + b == b;
    }
  }

  /** A nested list contributes exactly its own destinations, in place. */
  lemma FlattenNested(a: seq<Entry>, c: seq<Entry>, b: seq<Entry>)
    ensures Flatten(a + [Nested(c)] + b) == Flatten(a) + Flatten(c) + Flatten(b)
  {
    var x, y, z := Flatten(a), Flatten(c), Flatten(b);
    assert Flatten([Nested(c)]) == y by {
      assert [Nested(c)][1..] == [];
      assert Flatten([Nested(c)]) == y + [];
    }
    assert Flatten(a + [Nested(c)]) == x + y by {
      FlattenAppend(a, [Nested(c)]);
    }
    FlattenAppend(a + [Nested(c)], b);
  }

  /** An outline without nesting flattens to its own destinations. */
  lemma {:induction false} FlattenFlat(ds: seq<Destination>)
    ensures Flatten(seq(|ds|, i requires 0 <= i < |ds| => Dest(ds[i]))) == ds
    decreases |ds|
  {
    var items := seq(|ds|, i requires 0 <= i < |ds| => Dest(ds[i]));
    if ds != [] {
      assert items[0] == Dest(ds[0]);
      assert items[1..] == seq(|ds[1..]|, i requires 0 <= i < |ds[1..]| => Dest(ds[1..][i]));
      FlattenFlat(ds[1..]);
      assert ds == [ds[0]] + ds[1..];
    }
  }

  /** `_flatten_pdf_outline`: a loop over the entries, recursing into nested lists. */
  method FlattenPdfOutline(outline: seq<Entry>) returns (flat: seq<Destination>)
    ensures flat == Flatten(outline)
    decreases outline
  {
    flat := [];
    for i := 0 to |outline|
      invariant flat == Flatten(outline[..i])
    {
      FlattenAppend(outline[..i], [outline[i]]);
      assert outline[..i + 1] == outline[..i] + [outline[i]];
      assert [outline[i]][1..] == [];
      match outline[i]
      case Nested(children) =>
        var inner := FlattenPdfOutline(children);
        flat := flat + inner;
      case Dest(d) =>
        flat := flat + [d];
    }
    assert outline[..|outline|] == outline;
  }

  // ---------------------------------------------------------------------
  // Choosing the chapter's page span

  /** The page span `range(start, end)` the reader extracts. */
  datatype Span = Span(start: nat, end: nat)

  /** `chapter.lower() in node.title.lower()` */
  predicate TitleMatches(key: string, node: Destination) {
    Contains(Lower(node.title), key)
  }

  /** An entry the search can start at: its title matches and its page resolves. */
  predicate Starts(key: string, node: Destination) {
    TitleMatches(key, node) && node.page.Some?
  }

  /**
   * The state of the search loop after the entries from `i` on: the span so
   * far and whether a start page was found. When the entry after a match
   * does not resolve, the start stays set and the search goes on.
   */
  function Scan(outline: seq<Destination>, key: string, i: nat, span: Span, found: bool): (Span, bool)
    requires i <= |outline|
    decreases |outline| - i
  {
    if i == |outline| then (span, found)
    else if !Starts(key, outline[i]) then Scan(outline, key, i + 1, span, found)
    else
      var start := outline[i].page.value;
      if i + 1 == |outline| then (Span(start, span.end), true)
      else if outline[i + 1].page.Some? then (Span(start, outline[i + 1].page.value), true)
      else Scan(outline, key, i + 1, Span(start, span.end), true)
  }

  /**
   * The span read for `chapter` (none or empty: the whole document), or
   * `None` when the outline has no resolvable entry for it, which the tool
   * reports as "chapter not found".
   */
  function ChapterSpan(chapter: Option<string>, outline: seq<Entry>, pageCount: nat): Option<Span>
  {
    if chapter.None? || chapter.value == "" then Some(Span(0, pageCount))
    else
      var r := Scan(Flatten(outline), Lower(chapter.value), 0, Span(0, pageCount), false);
      if r.1 then Some(r.0) else None
  }

  /** The search loop of `_read_file_content`, with its early `break`. */
  method SelectChapter(chapter: Option<string>, outline: seq<Entry>, pageCount: nat) returns (r: Option<Span>)
    ensures r == ChapterSpan(chapter, outline, pageCount)
  {
    var startPage := 0;
    var endPage := pageCount;
    if chapter.None? || chapter.value == "" {
      return Some(Span(startPage, endPage));
    }
    var flat := FlattenPdfOutline(outline);
    var key := Lower(chapter.value);
    var found := false;
    var i := 0;
    while i < |flat|
      invariant 0 <= i <= |flat|
      invariant Scan(flat, key, i, Span(startPage, endPage), found)
             == Scan(flat, key, 0, Span(0, pageCount), false)
      invariant endPage == pageCount
      decreases |flat| - i
    {
      var node := flat[i];
      if TitleMatches(key, node) {
        if node.page.Some? {
          startPage := node.page.value;
          found := true;
          if i + 1 < |flat| {
            if flat[i + 1].page.Some? {
              endPage := flat[i + 1].page.value;
              break;
            }
            i := i + 1;
            continue;
          }
          break;
        }
      }
      i := i + 1;
    }
    if !found {
      return None;
    }
    r := Some(Span(startPage, endPage));
  }

  /** Entry `k` is the first entry of `outline` the search can start at. */
  predicate FirstStart(outline: seq<Destination>, key: string, k: nat) {
    k < |outline| && Starts(key, outline[k])
    && forall j :: 0 <= j < k ==> !Starts(key, outline[j])
  }

  /**
   * The search finds a chapter exactly when some entry matches the chapter
   * and resolves to a page.
   */
  lemma {:induction false} ScanFinds(outline: seq<Destination>, key: string, i: nat, span: Span, found: bool)
    requires i <= |outline|
    ensures Scan(outline, key, i, span, found).1
        <==> found || exists j :: i <= j < |outline| && Starts(key, outline[j])
    decreases |outline| - i
  {
    if i < |outline| {
      if !Starts(key, outline[i]) {
        ScanFinds(outline, key, i + 1, span, found);
        if exists j :: i <= j < |outline| && Starts(key, outline[j]) {
          var j :| i <= j < |outline| && Starts(key, outline[j]);
          assert j != i;
        }
      } else if i + 1 < |outline| && outline[i + 1].page.None? {
        ScanFinds(outline, key, i + 1, Span(outline[i].page.value, span.end), true);
      }
    }
  }

  /**
   * When the first matching entry is followed by one that resolves (or is
   * the last entry), the span runs from its page to the next entry's page
   * (or to the end of the document).
   */
  lemma {:induction false} ScanSpan(outline: seq<Destination>, key: string, k: nat, i: nat, span: Span, found: bool)
    requires FirstStart(outline, key, k) && i <= k
    requires k + 1 == |outline| || outline[k + 1].page.Some?
    ensures Scan(outline, key, i, span, found).0
         == Span(outline[k].page.value, if k + 1 == |outline| then span.end else outline[k + 1].page.value)
    ensures Scan(outline, key, i, span, found).1
    decreases k - i
  {
    if i < k {
      ScanSpan(outline, key, k, i + 1, span, found);
    }
  }

  /** The chapter span the reader uses, stated on the flattened outline. */
  lemma ChapterSpanOfFirstStart(chapter: string, outline: seq<Entry>, pageCount: nat, k: nat)
    requires chapter != ""
    requires var flat := Flatten(outline);
      FirstStart(flat, Lower(chapter), k) && (k + 1 == |flat| || flat[k + 1].page.Some?)
    ensures var flat := Flatten(outline);
      ChapterSpan(Some(chapter), outline, pageCount)
      == Some(Span(flat[k].page.value, if k + 1 == |flat| then pageCount else flat[k + 1].page.value))
  {
    ScanSpan(Flatten(outline), Lower(chapter), k, 0, Span(0, pageCount), false);
  }

  /** "Not found" comes exactly when no entry matches and resolves. */
  lemma ChapterNotFoundExactly(chapter: string, outline: seq<Entry>, pageCount: nat)
    requires chapter != ""
    ensures ChapterSpan(Some(chapter), outline, pageCount).None?
        <==> forall j :: 0 <= j < |Flatten(outline)| ==> !Starts(Lower(chapter), Flatten(outline)[j])
  {
    var flat := Flatten(outline);
    var key := Lower(chapter);
    var r := Scan(flat, key, 0, Span(0, pageCount), false);
    ScanFinds(flat, key, 0, Span(0, pageCount), false);
    assert ChapterSpan(Some(chapter), outline, pageCount).None? <==> !r.1;
    if !r.1 {
      forall j | 0 <= j < |flat| ensures !Starts(key, flat[j]) {
      }
    } else {
      var j :| 0 <= j < |flat| && Starts(key, flat[j]);
      assert !Starts(Lower(chapter), Flatten(outline)[j]) == false;
    }
  }

  // ---------------------------------------------------------------------
  // Extracting the text of the span

  datatype Result<T> = Ok(value: T) | Err(message: string)

  /** The message of the `IndexError` pypdf raises for a page past the end. */
  const PageIndexError: string := "sequence index out of range"

  /** The non-empty page texts of `pages[start..end]`, in page order. */
  function Texts(pages: seq<string>, start: nat, end: nat): (r: seq<string>)
    requires end <= |pages|
    ensures |r| <= if start < end then end - start else 0
    decreases end
  {
    if end <= start then []
    else Texts(pages, start, end - 1) + (if pages[end - 1] != "" then [pages[end - 1]] else [])
  }

  /** The text of `range(start, end)`: an error when the span runs past the last page. */
  function SpanText(pages: seq<string>, span: Span): Result<string> {
    if span.end <= span.start then Ok("")
    else if span.end > |pages| then Err(PageIndexError)
    else Ok(JoinWith(Texts(pages, span.start, span.end), "\n"))
  }

  /** The page loop of `_read_file_content`. */
  method ExtractPages(pages: seq<string>, span: Span) returns (r: Result<string>)
    ensures r == SpanText(pages, span)
  {
    var texts: seq<string> := [];
    var i := span.start;
    while i < span.end
      invariant span.start <= i
      invariant span.start < span.end ==> i <= span.end
      invariant i == span.start ==> texts == []
      invariant span.end <= span.start ==> i == span.start
      invariant i > span.start ==> i <= |pages| && texts == Texts(pages, span.start, i)
      decreases span.end - i
    {
      if i >= |pages| {
        return Err(PageIndexError);
      }
      var text := pages[i];
      if text != "" {
        texts := texts + [text];
      }
      i := i + 1;
    }
    if span.end <= span.start {
      assert texts == [];
    } else {
      assert i == span.end && texts == Texts(pages, span.start, span.end);
    }
    r := Ok(JoinWith(texts, "\n"));
  }

  /** A text is in the span's output exactly when some page of the span has it. */
  lemma {:induction false} TextsMember(pages: seq<string>, start: nat, end: nat, t: string)
    requires end <= |pages|
    ensures t in Texts(pages, start, end) <==> t != "" && exists i :: start <= i < end && pages[i] == t
    decreases end
  {
    if start < end {
      TextsMember(pages, start, end - 1, t);
      if exists i :: start <= i < end && pages[i] == t {
        var i :| start <= i < end && pages[i] == t;
        if i < end - 1 {
          assert start <= i < end - 1 && pages[i] == t;
        }
      }
    }
  }
}

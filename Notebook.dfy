/**
 * The plain-text notebook encoding shared by the read and write tools.
 * Reading renders every code or markdown cell as a labelled block and
 * joins the blocks with a blank line; writing splits the text on the two
 * labels (the way `re.split` with a capturing group does) and turns the
 * pieces back into cells.
 */
module Notebook {
  import opened Strings

  datatype CellKind = Code | Markdown | Raw

  /** A notebook cell as the notebook library hands it over. */
  datatype Cell = Cell(kind: CellKind, source: string)

  const CodeDelimiter: string := "# --- CELL: CODE ---"
  const MarkdownDelimiter: string := "# --- CELL: MARKDOWN ---"

  /**
   * The pair of labels the text form uses. The encoding is written over any
   * pair so that its proofs do not have to look inside the two literals;
   * `Standard` is the pair the tools use.
   */
  datatype Labels = Labels(code: string, markdown: string)
  {
    predicate NonEmpty() {
      code != [] && markdown != []
    }

    /** The label of a code cell, or of a markdown cell. */
    function Of(kind: CellKind): string {
      if kind == Code then code else markdown
    }

    /**
     * What splitting needs of a pair: neither label is empty or holds a
     * newline, and they differ within their common length (so neither is a
     * prefix of the other).
     */
    ghost predicate Splittable() {
      NonEmpty()
      && (forall k :: 0 <= k < |code| ==> code[k] != '\n')
      && (forall k :: 0 <= k < |markdown| ==> markdown[k] != '\n')
      && (exists k :: 0 <= k < |code| && k < |markdown| && code[k] != markdown[k])
    }

    /** `KindOf` tells the two labels apart. */
    predicate Tagged() {
      KindOf(code) == Code && KindOf(markdown) == Markdown
    }

    /** What the round trip needs of a pair. */
    ghost predicate WellFormed() {
      Splittable() && Tagged()
    }
  }

  const Standard: Labels := Labels(CodeDelimiter, MarkdownDelimiter)

  /** `'MARKDOWN' in delimiter` decides the kind of a labelled cell. */
  function KindOf(delimiter: string): CellKind {
    if Contains(delimiter, "MARKDOWN") then Markdown else Code
  }

  /** The two labels the tools use satisfy what the round trip needs. */
  lemma StandardWellFormed()
    ensures Standard.WellFormed()
  {
    assert CodeDelimiter[12] != MarkdownDelimiter[12];
    assert OccursAt(MarkdownDelimiter, "MARKDOWN", 12);
    assert forall k :: 0 <= k < |CodeDelimiter| ==> CodeDelimiter[k] != 'M';
    forall i | 0 <= i <= |CodeDelimiter| ensures !OccursAt(CodeDelimiter, "MARKDOWN", i) {
      if i + 8 <= |CodeDelimiter| {
        assert CodeDelimiter[i..i + 8][0] == CodeDelimiter[i];
      }
    }
  }

  // ---------------------------------------------------------------------
  // Rendering (the read side)

  /** The block reading emits for one cell; raw cells emit nothing. */
  function Blocks(cells: seq<Cell>, lb: Labels): (parts: seq<string>)
    ensures |parts| <= |cells|
  {
    if cells == [] then []
    else (if cells[0].kind == Raw then [] else [lb.Of(cells[0].kind) + "\n" + cells[0].source])
         + Blocks(cells[1..], lb)
  }

  lemma {:induction false} BlocksAppend(a: seq<Cell>, b: seq<Cell>, lb: Labels)
    ensures Blocks(a + b, lb) == Blocks(a, lb) + Blocks(b, lb)
  {
    if a == [] {
      assert a + b == b;
    } else {
      assert (a + b)[0] == a[0] && (a + b)[1..] == a[1..] + b;
      BlocksAppend(a[1..], b, lb);
    }
  }

  /** A notebook without raw cells renders one block per cell, in order. */
  lemma {:induction false} BlocksOfPlainCells(cells: seq<Cell>, lb: Labels)
    requires forall i :: 0 <= i < |cells| ==> cells[i].kind != Raw
    ensures |Blocks(cells, lb)| == |cells|
    ensures forall i :: 0 <= i < |cells| ==> Blocks(cells, lb)[i] == lb.Of(cells[i].kind) + "\n" + cells[i].source
  {
    if cells != [] {
      BlocksOfPlainCells(cells[1..], lb);
    }
  }

  /** The loop that collects the blocks of a notebook's cells. */
  method RenderCells(cells: seq<Cell>) returns (parts: seq<string>)
    ensures parts == Blocks(cells, Standard)
  {
    parts := [];
    for i := 0 to |cells|
      invariant parts == Blocks(cells[..i], Standard)
    {
      BlocksAppend(cells[..i], [cells[i]], Standard);
      assert cells[..i + 1] == cells[..i] + [cells[i]];
      if cells[i].kind == Code {
        parts := parts + [CodeDelimiter + "\n" + cells[i].source];
      } else if cells[i].kind == Markdown {
        parts := parts + [MarkdownDelimiter + "\n" + cells[i].source];
      }
    }
    assert cells[..|cells|] == cells;
  }

  /** The text a notebook reads as (before truncation). */
  function Rendered(cells: seq<Cell>): string {
    var parts := Blocks(cells, Standard);
    if parts == [] then "Notebook contains no cells." else JoinWith(parts, "\n\n")
  }

  // ---------------------------------------------------------------------
  // Splitting on the labels (re.split with a capturing group)

  /** A label starts at position `i` of `s`. */
  predicate LabelAt(s: string, i: int, lb: Labels) {
    0 <= i <= |s| && (StartsWith(s[i..], lb.code) || StartsWith(s[i..], lb.markdown))
  }

  ghost predicate NoLabel(s: string, lb: Labels) {
    forall i :: !LabelAt(s, i, lb)
  }

  function Concat(parts: seq<string>): string {
    if parts == [] then "" else parts[0] + Concat(parts[1..])
  }

  /**
   * The pieces `re.split` yields: text, label, text, label, ..., text. The
   * labels sit at the odd positions and the pieces put back together give
   * the input. At a position where both could match, the code label is
   * tried first, as the alternation in the pattern does.
   */
  function ReSplit(s: string, lb: Labels): (r: seq<string>)
    requires lb.NonEmpty()
    ensures |r| >= 1
    decreases |s|
  {
    if s == [] then [""]
    else if StartsWith(s, lb.code) then ["", lb.code] + ReSplit(s[|lb.code|..], lb)
    else if StartsWith(s, lb.markdown) then ["", lb.markdown] + ReSplit(s[|lb.markdown|..], lb)
    else
      var t := ReSplit(s[1..], lb);
      [[s[0]] + t[0]] + t[1..]
  }

  /** The split alternates text and labels, starting and ending with text. */
  lemma {:induction false} ReSplitOddLength(s: string, lb: Labels)
    requires lb.NonEmpty()
    ensures |ReSplit(s, lb)| % 2 == 1
    decreases |s|
  {
    if s != [] {
      var r := ReSplit(s, lb);
      if StartsWith(s, lb.code) || StartsWith(s, lb.markdown) {
        var d := if StartsWith(s, lb.code) then lb.code else lb.markdown;
        var t := ReSplit(s[|d|..], lb);
        assert |r| == |t| + 2 by {
          assert r == ["", d] + t;
        }
        ReSplitOddLength(s[|d|..], lb);
        OddPlusTwo(|t|);
      } else {
        assert |r| == |ReSplit(s[1..], lb)|;
        ReSplitOddLength(s[1..], lb);
      }
    }
  }

  lemma OddPlusTwo(n: int)
    requires n % 2 == 1
    ensures (n + 2) % 2 == 1
  {
  }

  /** The pieces at the odd positions are labels. */
  lemma {:induction false} ReSplitLabels(s: string, lb: Labels, i: int)
    requires lb.NonEmpty()
    requires 0 <= i < |ReSplit(s, lb)| && i % 2 == 1
    ensures ReSplit(s, lb)[i] == lb.code || ReSplit(s, lb)[i] == lb.markdown
    decreases |s|
  {
    var r := ReSplit(s, lb);
    if s == [] {
    } else if StartsWith(s, lb.code) || StartsWith(s, lb.markdown) {
      var d := if StartsWith(s, lb.code) then lb.code else lb.markdown;
      var t := ReSplit(s[|d|..], lb);
      assert r == ["", d] + t;
      if i > 1 {
        assert r[i] == t[i - 2];
        ReSplitLabels(s[|d|..], lb, i - 2);
      }
    } else {
      var t := ReSplit(s[1..], lb);
      assert r == [[s[0]] + t[0]] + t[1..];
      assert r[i] == t[i];
      ReSplitLabels(s[1..], lb, i);
    }
  }

  /** The pieces put back together give the input: nothing is lost or added. */
  lemma {:induction false} ReSplitConcat(s: string, lb: Labels)
    requires lb.NonEmpty()
    ensures Concat(ReSplit(s, lb)) == s
    decreases |s|
  {
    var r := ReSplit(s, lb);
    if s == [] {
    } else if StartsWith(s, lb.code) || StartsWith(s, lb.markdown) {
      var d := if StartsWith(s, lb.code) then lb.code else lb.markdown;
      var t := ReSplit(s[|d|..], lb);
      ReSplitConcat(s[|d|..], lb);
      assert r == ["", d] + t;
      assert r[1..] == [d] + t && ([d] + t)[1..] == t;
      assert s == d + s[|d|..];
    } else {
      var t := ReSplit(s[1..], lb);
      ReSplitConcat(s[1..], lb);
      assert r[1..] == t[1..] && t == [t[0]] + t[1..];
      assert Concat(t) == t[0] + Concat(t[1..]);
      assert s == [s[0]] + s[1..];
    }
  }

  /**
   * The pieces at the even positions hold no label: the split cuts at
   * every place a label starts, so none is left inside a text piece.
   */
  lemma {:induction false} ReSplitTextsHoldNoLabel(s: string, lb: Labels, i: int)
    requires lb.NonEmpty()
    requires 0 <= i < |ReSplit(s, lb)| && i % 2 == 0
    ensures NoLabel(ReSplit(s, lb)[i], lb)
    decreases |s|
  {
    if s == [] {
      assert ReSplit(s, lb)[i] == "";
    } else if StartsWith(s, lb.code) || StartsWith(s, lb.markdown) {
      var d := if StartsWith(s, lb.code) then lb.code else lb.markdown;
      if i > 0 {
        assert ReSplit(s, lb)[i] == ReSplit(s[|d|..], lb)[i - 2];
        ReSplitTextsHoldNoLabel(s[|d|..], lb, i - 2);
      } else {
        assert ReSplit(s, lb)[i] == "";
      }
    } else if i > 0 {
      assert ReSplit(s, lb)[i] == ReSplit(s[1..], lb)[i];
      ReSplitTextsHoldNoLabel(s[1..], lb, i);
    } else {
      ReSplitTextsHoldNoLabel(s[1..], lb, 0);
      ReSplitHeadNoLabel(s, lb);
    }
  }

  /** The first text piece grows by one character that starts no label. */
  lemma ReSplitHeadNoLabel(s: string, lb: Labels)
    requires lb.NonEmpty() && s != []
    requires !StartsWith(s, lb.code) && !StartsWith(s, lb.markdown)
    requires NoLabel(ReSplit(s[1..], lb)[0], lb)
    ensures NoLabel(ReSplit(s, lb)[0], lb)
  {
    var t := ReSplit(s[1..], lb);
    var rest := Concat(t[1..]);
    assert s[1..] == t[0] + rest by {
      ReSplitConcat(s[1..], lb);
      assert Concat(t) == t[0] + Concat(t[1..]);
    }
    ConsNoLabel(s, t[0], rest, lb);
  }

  /**
   * Putting the first character of `s` in front of a label-free text adds
   * no label, when no label starts at that character in `s`.
   */
  lemma ConsNoLabel(s: string, x: string, rest: string, lb: Labels)
    requires s != [] && s[1..] == x + rest
    requires NoLabel(x, lb) && !StartsWith(s, lb.code) && !StartsWith(s, lb.markdown)
    ensures NoLabel([s[0]] + x, lb)
  {
    var p := [s[0]] + x;
    assert s == p + rest by {
      assert s == [s[0]] + s[1..];
    }
    forall j ensures !LabelAt(p, j, lb) {
      if j == 0 {
        assert p[0..] == p;
        PrefixKeepsStart(p, rest, lb.code);
        PrefixKeepsStart(p, rest, lb.markdown);
      } else if 1 <= j <= |p| {
        assert p[j..] == x[j - 1..];
        assert !LabelAt(x, j - 1, lb);
      }
    }
  }

  /** A string that starts with `w` still does after more is appended. */
  lemma PrefixKeepsStart(p: string, rest: string, w: string)
    ensures StartsWith(p, w) ==> StartsWith(p + rest, w)
  {
    if StartsWith(p, w) {
      assert (p + rest)[..|w|] == p[..|w|];
    }
  }

  // ---------------------------------------------------------------------
  // Parsing (the write side)

  /** The cells the labelled pieces `[label, text, label, text, ...]` give. */
  function PairCells(segs: seq<string>): seq<Cell>
    decreases |segs|
  {
    if segs == [] then []
    else
      var source := if |segs| > 1 then segs[1] else "";
      [Cell(KindOf(segs[0]), Strip(source))] + PairCells(if |segs| > 1 then segs[2..] else [])
  }

  /** Non-blank text before the first label becomes one code cell. */
  function LeadingCells(first: string): seq<Cell> {
    if Strip(first) != "" then [Cell(Code, Strip(first))] else []
  }

  function Parsed(content: string): seq<Cell> {
    var segs := ReSplit(content, Standard);
    LeadingCells(segs[0]) + PairCells(segs[1..])
  }

  /**
   * The loop that consumes the split pieces two at a time, as the iterator
   * over them does: a label, then the next piece or `""` when none is left.
   */
  method ParseCells(content: string) returns (cells: seq<Cell>)
    ensures cells == Parsed(content)
  {
    var segs := ReSplit(content, Standard);
    var first := segs[0];
    cells := [];
    if Strip(first) != "" {
      cells := [Cell(Code, Strip(first))];
    }
    var rest := segs[1..];
    while rest != []
      invariant cells + PairCells(rest) == LeadingCells(segs[0]) + PairCells(segs[1..])
      decreases |rest|
    {
      var delimiter := rest[0];
      var source := if |rest| > 1 then rest[1] else "";
      var cell := Cell(KindOf(delimiter), Strip(source));
      var next := if |rest| > 1 then rest[2..] else [];
      assert PairCells(rest) == [cell] + PairCells(next);
      assert (cells + [cell]) + PairCells(next) == cells + ([cell] + PairCells(next));
      cells := cells + [cell];
      rest := next;
    }
    assert cells + [] == cells;
  }

  // ---------------------------------------------------------------------
  // The round trip

  /** No label can start at `i` when a newline falls inside the window. */
  lemma NoLabelOverNewline(u: string, i: int, m: int, d: string)
    requires forall k :: 0 <= k < |d| ==> d[k] != '\n'
    requires 0 <= i <= m < |u| && u[m] == '\n'
    requires m < i + |d|
    ensures !StartsWith(u[i..], d)
  {
    assert u[i..][m - i] == '\n';
  }

  predicate AllNewlines(w: string) {
    forall k :: 0 <= k < |w| ==> w[k] == '\n'
  }

  /**
   * In `"\n" + s + w + t`, where `s` holds no label and `w` is newlines, no
   * label starts before `t`.
   */
  lemma NoLabelInPadded(s: string, w: string, t: string, i: int, lb: Labels)
    requires lb.Splittable()
    requires NoLabel(s, lb) && AllNewlines(w)
    requires w != "" || t == ""
    requires 0 <= i < 1 + |s| + |w|
    ensures !LabelAt("\n" + s + w + t, i, lb)
  {
    var u := "\n" + s + w + t;
    forall d | d == lb.code || d == lb.markdown
      ensures !StartsWith(u[i..], d)
    {
      if i == 0 || i > |s| {
        NoLabelOverNewline(u, i, i, d);
      } else {
        var j := i - 1;
        if j + |d| <= |s| {
          assert !LabelAt(s, j, lb);
          assert u[i..][..|d|] == s[j..][..|d|];
        } else if w != "" {
          var m := |s| + 1;
          assert u[m] == w[0];
          NoLabelOverNewline(u, i, m, d);
        } else {
          assert |u| == |s| + 1;
        }
      }
    }
  }

  /** Text that holds no label is glued onto the first piece of what follows. */
  lemma {:induction false} ReSplitPlain(x: string, y: string, lb: Labels)
    requires lb.NonEmpty()
    requires forall i :: 0 <= i < |x| ==> !LabelAt(x + y, i, lb)
    ensures ReSplit(x + y, lb) == [x + ReSplit(y, lb)[0]] + ReSplit(y, lb)[1..]
  {
    var u := ReSplit(y, lb);
    if x == [] {
      assert x + y == y;
      assert x + u[0] == u[0];
      assert u == [u[0]] + u[1..];
    } else {
      assert !LabelAt(x + y, 0, lb);
      assert (x + y)[0..] == x + y;
      assert (x + y)[1..] == x[1..] + y;
      forall i | 0 <= i < |x[1..]| ensures !LabelAt(x[1..] + y, i, lb) {
        assert !LabelAt(x + y, i + 1, lb);
        assert (x + y)[i + 1..] == (x[1..] + y)[i..];
      }
      ReSplitPlain(x[1..], y, lb);
      assert (x + y)[0] == x[0];
      assert [x[0]] + (x[1..] + u[0]) == x + u[0];
    }
  }

  /** A label-free source padded with newlines is one piece of the split. */
  lemma ReSplitPadded(s: string, w: string, t: string, lb: Labels)
    requires lb.Splittable()
    requires NoLabel(s, lb) && AllNewlines(w)
    requires w != "" || t == ""
    ensures ReSplit("\n" + s + w + t, lb) == ["\n" + s + w + ReSplit(t, lb)[0]] + ReSplit(t, lb)[1..]
  {
    var x := "\n" + s + w;
    assert x + t == "\n" + s + w + t;
    forall i | 0 <= i < |x| ensures !LabelAt(x + t, i, lb) {
      NoLabelInPadded(s, w, t, i, lb);
    }
    ReSplitPlain(x, t, lb);
  }

  /** A label at the front is split off on its own. */
  lemma ReSplitAtLabel(d: string, y: string, lb: Labels)
    requires lb.Splittable()
    requires d == lb.code || d == lb.markdown
    ensures ReSplit(d + y, lb) == ["", d] + ReSplit(y, lb)
  {
    assert (d + y)[..|d|] == d;
    assert (d + y)[|d|..] == y;
    if d != lb.code {
      var k :| 0 <= k < |lb.code| && k < |lb.markdown| && lb.code[k] != lb.markdown[k];
      if |lb.code| <= |d + y| {
        assert (d + y)[..|lb.code|][k] == d[k];
      }
    }
  }

  /** A cell that renders and parses back to itself. */
  ghost predicate Renderable(c: Cell, lb: Labels) {
    c.kind != Raw && Strip(c.source) == c.source && NoLabel(c.source, lb)
  }

  /** The pieces the rendered text splits into: label, then the padded source. */
  function Interleaved(cells: seq<Cell>, lb: Labels): seq<string> {
    if cells == [] then []
    else [lb.Of(cells[0].kind), "\n" + cells[0].source + (if |cells| > 1 then "\n\n" else "")]
         + Interleaved(cells[1..], lb)
  }

  /** The rendered text: the first block, then the rest after a blank line. */
  lemma JoinBlocksCons(cells: seq<Cell>, lb: Labels)
    requires cells != [] && cells[0].kind != Raw
    requires |cells| > 1 ==> cells[1].kind != Raw
    ensures var c := cells[0];
      JoinWith(Blocks(cells, lb), "\n\n")
      == lb.Of(c.kind) + ("\n" + c.source + (if |cells| > 1 then "\n\n" else "")
                           + (if |cells| > 1 then JoinWith(Blocks(cells[1..], lb), "\n\n") else ""))
  {
    var c := cells[0];
    var head := lb.Of(c.kind) + "\n" + c.source;
    var rest := Blocks(cells[1..], lb);
    assert Blocks(cells, lb) == [head] + rest;
    if |cells| == 1 {
      assert rest == [];
      Regroup(lb.Of(c.kind), "\n", c.source, "", "");
    } else {
      assert rest == [lb.Of(cells[1].kind) + "\n" + cells[1].source] + Blocks(cells[2..], lb) by {
        assert cells[1..][0] == cells[1] && cells[1..][1..] == cells[2..];
      }
      assert ([head] + rest)[1..] == rest;
      Regroup(lb.Of(c.kind), "\n", c.source, "\n\n", JoinWith(rest, "\n\n"));
    }
  }

  /** A padded source in front of text that splits into `[""] + more` joins its first piece. */
  lemma ReSplitSegment(source: string, w: string, tail: string, more: seq<string>, lb: Labels)
    requires lb.Splittable()
    requires NoLabel(source, lb) && AllNewlines(w)
    requires w != "" || tail == ""
    requires ReSplit(tail, lb) == [""] + more
    ensures ReSplit("\n" + source + w + tail, lb) == ["\n" + source + w] + more
  {
    ReSplitPadded(source, w, tail, lb);
    var t := ReSplit(tail, lb);
    assert t[0] == "" && t[1..] == more;
    assert "\n" + source + w + t[0] == "\n" + source + w;
  }

  /** One rendered block in front of text that splits into `[""] + more`. */
  lemma ReSplitBlock(h: string, source: string, w: string, tail: string, more: seq<string>, lb: Labels)
    requires lb.Splittable()
    requires h == lb.code || h == lb.markdown
    requires NoLabel(source, lb) && AllNewlines(w)
    requires w != "" || tail == ""
    requires ReSplit(tail, lb) == [""] + more
    ensures ReSplit(h + ("\n" + source + w + tail), lb) == ["", h, "\n" + source + w] + more
  {
    var seg := "\n" + source + w;
    var rest := ReSplit(seg + tail, lb);
    assert rest == [seg] + more by {
      ReSplitSegment(source, w, tail, more, lb);
    }
    assert ReSplit(h + (seg + tail), lb) == ["", h] + rest by {
      ReSplitAtLabel(h, seg + tail, lb);
    }
    assert ["", h] + ([seg] + more) == ["", h, seg] + more;
  }

  /** Every cell renders and parses back to itself, stated cell by cell. */
  ghost predicate AllRenderable(cells: seq<Cell>, lb: Labels)
    decreases |cells|
  {
    cells == [] || (Renderable(cells[0], lb) && AllRenderable(cells[1..], lb))
  }

  lemma {:induction false} AllRenderableOfEach(cells: seq<Cell>, lb: Labels)
    requires forall i :: 0 <= i < |cells| ==> Renderable(cells[i], lb)
    ensures AllRenderable(cells, lb)
    decreases |cells|
  {
    if cells != [] {
      assert forall i :: 0 <= i < |cells[1..]| ==> cells[1..][i] == cells[i + 1];
      AllRenderableOfEach(cells[1..], lb);
    }
  }

  lemma {:induction false} ReSplitRendered(cells: seq<Cell>, lb: Labels)
    requires lb.Splittable()
    requires cells != [] && AllRenderable(cells, lb)
    ensures ReSplit(JoinWith(Blocks(cells, lb), "\n\n"), lb) == [""] + Interleaved(cells, lb)
  {
    var c := cells[0];
    var h := lb.Of(c.kind);
    if |cells| == 1 {
      RenderedSingle(c, lb);
      assert cells == [c];
    } else {
      var tail := JoinWith(Blocks(cells[1..], lb), "\n\n");
      var more := Interleaved(cells[1..], lb);
      var seg := "\n" + c.source + "\n\n";
      assert ReSplit(tail, lb) == [""] + more by {
        ReSplitRendered(cells[1..], lb);
      }
      assert ReSplit(JoinWith(Blocks(cells, lb), "\n\n"), lb) == ["", h, seg] + more by {
        assert cells[1..][0] == cells[1];
        JoinBlocksCons(cells, lb);
        ReSplitBlock(h, c.source, "\n\n", tail, more, lb);
      }
      assert Interleaved(cells, lb) == [h, seg] + more;
      assert [""] + ([h, seg] + more) == ["", h, seg] + more;
    }
  }

  /** A notebook of one cell renders as its block and splits back into label and text. */
  lemma RenderedSingle(c: Cell, lb: Labels)
    requires lb.Splittable() && Renderable(c, lb)
    ensures ReSplit(JoinWith(Blocks([c], lb), "\n\n"), lb) == [""] + Interleaved([c], lb)
  {
    var h := lb.Of(c.kind);
    var seg := "\n" + c.source;
    assert JoinWith(Blocks([c], lb), "\n\n") == h + ("\n" + c.source + "" + "") by {
      JoinBlocksCons([c], lb);
    }
    assert ReSplit("", lb) == [""] + [];
    ReSplitBlock(h, c.source, "", "", [], lb);
    assert "\n" + c.source + "" == seg;
    assert Interleaved([c], lb) == [h, seg] + [];
  }

  lemma PairCellsCons(d: string, seg: string, rest: seq<string>)
    ensures PairCells([d, seg] + rest) == [Cell(KindOf(d), Strip(seg))] + PairCells(rest)
  {
    assert ([d, seg] + rest)[2..] == rest;
  }

  lemma {:induction false} PairCellsInterleaved(cells: seq<Cell>, lb: Labels)
    requires lb.Tagged()
    requires AllRenderable(cells, lb)
    ensures PairCells(Interleaved(cells, lb)) == cells
    decreases |cells|
  {
    if cells != [] {
      var c := cells[0];
      var w := if |cells| > 1 then "\n\n" else "";
      var seg := "\n" + c.source + w;
      var more := Interleaved(cells[1..], lb);
      assert Interleaved(cells, lb) == [lb.Of(c.kind), seg] + more;
      assert KindOf(lb.Of(c.kind)) == c.kind && Strip(seg) == c.source by {
        StripPadded("\n", c.source, w);
      }
      assert PairCells([lb.Of(c.kind), seg] + more) == [c] + PairCells(more) by {
        PairCellsCons(lb.Of(c.kind), seg, more);
      }
      assert PairCells(more) == cells[1..] by {
        PairCellsInterleaved(cells[1..], lb);
      }
      assert cells == [c] + cells[1..];
    }
  }

  /**
   * Writing the text a notebook reads as gives the notebook back, when no
   * cell is raw, no source has whitespace at either end and no source holds
   * a label.
   */
  lemma RenderParseRoundTrip(cells: seq<Cell>)
    requires cells != [] && forall i :: 0 <= i < |cells| ==> Renderable(cells[i], Standard)
    ensures Parsed(Rendered(cells)) == cells
  {
    StandardWellFormed();
    AllRenderableOfEach(cells, Standard);
    assert Renderable(cells[0], Standard);
    assert Blocks(cells, Standard) != [];
    ReSplitRendered(cells, Standard);
    PairCellsInterleaved(cells, Standard);
    assert ([""] + Interleaved(cells, Standard))[1..] == Interleaved(cells, Standard);
  }

  /**
   * A markdown label, its text, a newline, a code label and its text split
   * into exactly those pieces.
   */
  lemma SplitMarkdownThenCode(a: string, b: string, lb: Labels)
    requires lb.Splittable()
    requires NoLabel(a, lb) && NoLabel(b, lb)
    ensures ReSplit(lb.markdown + ("\n" + a + "\n" + (lb.code + ("\n" + b))), lb)
         == ["", lb.markdown, "\n" + a + "\n", lb.code, "\n" + b]
  {
    var second := "\n" + b;
    var rest := lb.code + second;
    ReSplitPadded(b, "", "", lb);
    assert "\n" + b + "" + "" == second && "\n" + b + "" == second;
    assert ReSplit("", lb) == [""];
    assert ReSplit(second, lb) == [second];
    ReSplitAtLabel(lb.code, second, lb);
    assert ReSplit(rest, lb) == ["", lb.code, second];
    ReSplitPadded(a, "\n", rest, lb);
    var first := "\n" + a + "\n";
    assert first + "" == first;
    assert ReSplit(first + rest, lb) == [first, lb.code, second];
    ReSplitAtLabel(lb.markdown, first + rest, lb);
  }

  /**
   * Text written by hand as a markdown label and its text, then a code
   * label and its text, parses into one markdown cell and one code cell.
   */
  lemma ParseMarkdownThenCode(a: string, b: string)
    requires Strip(a) == a && NoLabel(a, Standard)
    requires Strip(b) == b && NoLabel(b, Standard)
    ensures Parsed(MarkdownDelimiter + ("\n" + a + "\n" + (CodeDelimiter + ("\n" + b))))
         == [Cell(Markdown, a), Cell(Code, b)]
  {
    StandardWellFormed();
    SplitMarkdownThenCode(a, b, Standard);
    var segs := ["", MarkdownDelimiter, "\n" + a + "\n", CodeDelimiter, "\n" + b];
    StripPadded("\n", a, "\n");
    StripPadded("\n", b, "");
    assert "\n" + b + "" == "\n" + b;
    PairCellsCons(CodeDelimiter, "\n" + b, []);
    PairCellsCons(MarkdownDelimiter, "\n" + a + "\n", [CodeDelimiter, "\n" + b]);
    assert segs[1..] == [MarkdownDelimiter, "\n" + a + "\n"] + [CodeDelimiter, "\n" + b];
    assert [CodeDelimiter, "\n" + b] == [CodeDelimiter, "\n" + b] + [];
  }
}

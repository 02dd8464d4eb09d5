/**
 * `create_jupyter_notebook`: cutting a Markdown document into notebook cells.
 * Lines whose stripped text starts with three backticks are fences; the text
 * between an opening and a closing fence becomes a code cell, the text
 * outside fences becomes Markdown cells, and blank Markdown stretches are
 * dropped.
 */
module Notebook {
  import opened PyStr

  datatype CellKind = Markdown | Code

  /** A cell: its type and its `source` list of lines (execution count, outputs and cell metadata are always empty). */
  datatype Cell = Cell(kind: CellKind, source: seq<string>)

  /** The fixed notebook metadata: the Python 3 kernel and the language information. */
  datatype Metadata = Metadata(
    kernelDisplayName: string,
    kernelLanguage: string,
    kernelName: string,
    codemirrorMode: string,
    codemirrorVersion: nat,
    fileExtension: string,
    mimetype: string,
    languageName: string,
    nbconvertExporter: string,
    pygmentsLexer: string,
    languageVersion: string)

  const StandardMetadata: Metadata := Metadata(
    "Python 3", "python", "python3", "ipython", 3, ".py", "text/x-python",
    "python", "python", "ipython3", "3.8.0")

  datatype Notebook = Notebook(cells: seq<Cell>, metadata: Metadata, nbformat: nat, nbformatMinor: nat)

  const Fence: string := "```"

  /** A line that opens or closes a code block. */
  predicate IsFence(line: string) {
    StartsWith(Strip(line), Fence)
  }

  /** The `source` of a cell built from the collected lines: joined with newlines, then split again. */
  function SourceOf(lines: seq<string>): seq<string> {
    Split(Join(lines, "\n"), '\n')
  }

  /** The collected lines are non-empty and not all whitespace once joined. */
  predicate HasContent(lines: seq<string>) {
    lines != [] && Strip(Join(lines, "\n")) != []
  }

  /** The loop state: cells emitted so far, the lines collected since the last fence, and whether a code block is open. */
  datatype Splitter = Splitter(cells: seq<Cell>, current: seq<string>, inCode: bool)

  /** One iteration of the loop. */
  function Feed(st: Splitter, line: string): Splitter
  {
    if IsFence(line) then
      if st.inCode then
        Splitter(st.cells + [Cell(Code, SourceOf(st.current))], [], false)
      else
        var prose := if HasContent(st.current) then [Cell(Markdown, SourceOf(st.current))] else [];
        Splitter(st.cells + prose, [], true)
    else
      st.(current := st.current + [line])
  }

  /** The loop state after the lines `lines`. */
  function Run(lines: seq<string>): Splitter
    decreases |lines|
  {
    if lines == [] then Splitter([], [], false)
    else Feed(Run(lines[..|lines| - 1]), lines[|lines| - 1])
  }

  /** After the loop: the lines still collected become one last cell of the open kind, unless they are blank. */
  function Finish(st: Splitter): seq<Cell>
  {
    st.cells + if HasContent(st.current) then [Cell(if st.inCode then Code else Markdown, SourceOf(st.current))] else []
  }

  function CellsOf(lines: seq<string>): seq<Cell> {
    Finish(Run(lines))
  }

  /** The notebook `create_jupyter_notebook` writes for `markdown`. */
  function NotebookOf(markdown: string): Notebook {
    Notebook(CellsOf(Split(markdown, '\n')), StandardMetadata, 4, 4)
  }

  /** `create_jupyter_notebook`, up to writing the file: the line-by-line loop and the notebook record. */
  method CreateNotebook(markdown: string) returns (nb: Notebook)
    ensures nb == NotebookOf(markdown)
  {
    var lines := Split(markdown, '\n');
    var cells: seq<Cell> := [];
    var currentCell: seq<string> := [];
    var inCodeBlock := false;
    for i := 0 to |lines|
      invariant Run(lines[..i]) == Splitter(cells, currentCell, inCodeBlock)
    {
      RunSnoc(lines, i);
      cells, currentCell, inCodeBlock := FeedLine(cells, currentCell, inCodeBlock, lines[i]);
    }
    assert lines[..|lines|] == lines;
    cells := FlushCell(cells, currentCell, inCodeBlock);
    nb := Notebook(cells, StandardMetadata, 4, 4);
  }

  /** The body of the loop of `create_jupyter_notebook` for one line. */
  method FeedLine(cells: seq<Cell>, currentCell: seq<string>, inCodeBlock: bool, line: string)
    returns (cells': seq<Cell>, currentCell': seq<string>, inCodeBlock': bool)
    ensures Splitter(cells', currentCell', inCodeBlock') == Feed(Splitter(cells, currentCell, inCodeBlock), line)
  {
    cells', currentCell', inCodeBlock' := cells, currentCell, inCodeBlock;
    if StartsWith(Strip(line), Fence) {
      if inCodeBlock {
        var codeContent := Join(currentCell, "\n");
        cells' := cells + [Cell(Code, Split(codeContent, '\n'))];
        currentCell' := [];
        inCodeBlock' := false;
      } else {
        if currentCell != [] {
          var content := Join(currentCell, "\n");
          if Strip(content) != [] {
            cells' := cells + [Cell(Markdown, Split(content, '\n'))];
          }
        }
        currentCell' := [];
        inCodeBlock' := true;
      }
    } else {
      currentCell' := currentCell + [line];
    }
  }

  /** After the loop: the last collected lines become a cell of the open kind unless blank. */
  method FlushCell(cells: seq<Cell>, currentCell: seq<string>, inCodeBlock: bool) returns (r: seq<Cell>)
    ensures r == Finish(Splitter(cells, currentCell, inCodeBlock))
  {
    r := cells;
    if currentCell != [] {
      var content := Join(currentCell, "\n");
      if Strip(content) != [] {
        if inCodeBlock {
          r := r + [Cell(Code, Split(content, '\n'))];
        } else {
          r := r + [Cell(Markdown, Split(content, '\n'))];
        }
      }
    }
  }

  /** One more line runs the loop once more. */
  lemma RunSnoc(lines: seq<string>, i: nat)
    requires i < |lines|
    ensures Run(lines[..i + 1]) == Feed(Run(lines[..i]), lines[i])
  {
    assert lines[..i + 1][..i] == lines[..i];
  }

  // ---------------------------------------------------------------------------
  // Reference: the document cut at its fence lines
  // ---------------------------------------------------------------------------

  /** The stretches of lines between fence lines; a document with n fences has n + 1 stretches. */
  function Segments(lines: seq<string>): (r: seq<seq<string>>)
    ensures |r| >= 1
  {
    if lines == [] then [[]]
    else
      var rest := Segments(lines[1..]);
      if IsFence(lines[0]) then [[]] + rest
      else [[lines[0]] + rest[0]] + rest[1..]
  }

  /** The cells of stretch number `k` when a fence closes it: odd stretches are code blocks and always give a cell; even ones give a Markdown cell unless blank. */
  function ClosedSegmentCells(k: nat, seg: seq<string>): seq<Cell> {
    if k % 2 == 1 then [Cell(Code, SourceOf(seg))]
    else if HasContent(seg) then [Cell(Markdown, SourceOf(seg))]
    else []
  }

  /** The cells of the closed stretches, in order. */
  function ClosedCells(segs: seq<seq<string>>): seq<Cell>
    decreases |segs|
  {
    if segs == [] then []
    else ClosedCells(segs[..|segs| - 1]) + ClosedSegmentCells(|segs| - 1, segs[|segs| - 1])
  }

  /** The last stretch gives a cell of its kind only when it is not blank, code block or not. */
  function FinalCells(k: nat, seg: seq<string>): seq<Cell> {
    if HasContent(seg) then [Cell(if k % 2 == 1 then Code else Markdown, SourceOf(seg))] else []
  }

  function ReferenceCells(lines: seq<string>): seq<Cell> {
    var segs := Segments(lines);
    ClosedCells(segs[..|segs| - 1]) + FinalCells(|segs| - 1, segs[|segs| - 1])
  }

  /** A fence line at the end opens a new, empty stretch. */
  lemma {:induction false} SegmentsSnocFence(lines: seq<string>, line: string)
    requires IsFence(line)
    ensures Segments(lines + [line]) == Segments(lines) + [[]]
    decreases |lines|
  {
    if lines == [] {
      SegmentsCons(line, [], [line]);
      assert lines + [line] == [line];
    } else {
      SegmentsSnocFence(lines[1..], line);
      SnocFenceStep(lines[0], lines[1..], lines, line);
    }
  }

  /** The induction step of `SegmentsSnocFence`. */
  lemma SnocFenceStep(x: string, rest: seq<string>, lines: seq<string>, line: string)
    requires lines == [x] + rest
    requires Segments(rest + [line]) == Segments(rest) + [[]]
    ensures Segments(lines + [line]) == Segments(lines) + [[]]
  {
    var r := Segments(rest);
    var whole := lines + [line];
    assert whole == [x] + (rest + [line]);
    SegmentsCons(x, rest, lines);
    SegmentsCons(x, rest + [line], whole);
    if IsFence(x) {
      AppendAssoc([], r, []);
    } else {
      LineThenEmpty(x, r);
    }
  }

  lemma AppendAssoc<T>(a: seq<T>, r: seq<seq<T>>, b: seq<T>)
    ensures [a] + (r + [b]) == ([a] + r) + [b]
  {
  }

  /** Putting a line in front of the first stretch commutes with opening a new stretch at the end. */
  lemma LineThenEmpty<T>(x: T, r: seq<seq<T>>)
    requires |r| >= 1
    ensures [[x] + (r + [[]])[0]] + (r + [[]])[1..] == ([[x] + r[0]] + r[1..]) + [[]]
  {
    assert (r + [[]])[0] == r[0];
    assert (r + [[]])[1..] == r[1..] + [[]];
  }

  lemma SegmentsOfOne(line: string)
    requires !IsFence(line)
    ensures Segments([line]) == [[line]]
  {
    assert [line][1..] == [];
    var s := Segments([]);
    assert s == [[]];
    assert s[0] == [] && s[1..] == [];
    assert [line] + s[0] == [line];
  }

  /** The last stretch with one more line. */
  function Snoc<T>(r: seq<seq<T>>, y: T): (t: seq<seq<T>>)
    requires |r| >= 1
    ensures |t| == |r|
  {
    r[..|r| - 1] + [r[|r| - 1] + [y]]
  }

  /** Putting a stretch boundary in front commutes with adding a line to the last stretch. */
  lemma BoundaryThenSnoc<T>(r: seq<seq<T>>, y: T)
    requires |r| >= 1
    ensures [[]] + Snoc(r, y) == Snoc([[]] + r, y)
  {
    assert ([[]] + r)[..|r|] == [[]] + r[..|r| - 1];
  }

  /** Putting a line in front of the first stretch commutes with adding a line to the last stretch. */
  lemma LineThenSnoc<T>(x: T, r: seq<seq<T>>, y: T)
    requires |r| >= 1
    ensures [[x] + Snoc(r, y)[0]] + Snoc(r, y)[1..] == Snoc([[x] + r[0]] + r[1..], y)
  {
    var n := |r| - 1;
    var t := Snoc(r, y);
    if n == 0 {
      assert t == [r[0] + [y]];
      assert [x] + (r[0] + [y]) == ([x] + r[0]) + [y];
    } else {
      assert t[0] == r[0];
      assert t[1..] == r[1..n] + [r[n] + [y]];
      assert ([[x] + r[0]] + r[1..])[..n] == [[x] + r[0]] + r[1..n];
    }
  }

  /** The stretches of a document with one more line in front. */
  lemma SegmentsCons(x: string, rest: seq<string>, lines: seq<string>)
    requires lines == [x] + rest
    ensures var r := Segments(rest);
      Segments(lines) == if IsFence(x) then [[]] + r else [[x] + r[0]] + r[1..]
  {
    assert lines[0] == x && lines[1..] == rest;
  }

  /** The induction step of `SegmentsSnocPlain`. */
  lemma SnocPlainStep(x: string, rest: seq<string>, lines: seq<string>, line: string)
    requires lines == [x] + rest
    requires Segments(rest + [line]) == Snoc(Segments(rest), line)
    ensures Segments(lines + [line]) == Snoc(Segments(lines), line)
  {
    var r := Segments(rest);
    assert lines + [line] == [x] + (rest + [line]);
    SegmentsCons(x, rest, lines);
    SegmentsCons(x, rest + [line], lines + [line]);
    if IsFence(x) {
      BoundaryThenSnoc(r, line);
    } else {
      LineThenSnoc(x, r, line);
    }
  }

  lemma SnocPlainBase(line: string)
    requires !IsFence(line)
    ensures Segments([line]) == Snoc(Segments([]), line)
  {
    SegmentsOfOne(line);
    var e: seq<seq<string>> := [[]];
    assert Segments([]) == e;
    assert Snoc(e, line) == [[] + [line]];
    assert [] + [line] == [line];
  }

  /** Any other line at the end joins the last stretch. */
  lemma {:induction false} SegmentsSnocPlain(lines: seq<string>, line: string)
    requires !IsFence(line)
    ensures Segments(lines + [line]) == Snoc(Segments(lines), line)
    decreases |lines|
  {
    if lines == [] {
      SnocPlainBase(line);
      assert lines + [line] == [line];
    } else {
      assert lines == [lines[0]] + lines[1..];
      SegmentsSnocPlain(lines[1..], line);
      SnocPlainStep(lines[0], lines[1..], lines, line);
    }
  }

  /** A fence closes the open stretch: its cells join the closed ones. */
  lemma FeedFence(s: seq<seq<string>>, line: string)
    requires |s| >= 1 && IsFence(line)
    ensures Feed(Splitter(ClosedCells(s[..|s| - 1]), s[|s| - 1], (|s| - 1) % 2 == 1), line)
         == Splitter(ClosedCells(s), [], |s| % 2 == 1)
  {
    var n := |s| - 1;
    var closed, open := ClosedCells(s[..n]), s[n];
    assert ClosedCells(s) == closed + ClosedSegmentCells(n, open);
    var st := Splitter(closed, open, n % 2 == 1);
    if n % 2 == 1 {
      assert Feed(st, line) == Splitter(closed + [Cell(Code, SourceOf(open))], [], false);
    } else {
      var prose := if HasContent(open) then [Cell(Markdown, SourceOf(open))] else [];
      assert ClosedSegmentCells(n, open) == prose;
      assert Feed(st, line) == Splitter(closed + prose, [], true);
    }
  }

  /** The loop state that corresponds to the stretches `segs`: the closed stretches' cells, the open stretch, and whether that stretch has an odd number (a code block). */
  function StateOf(segs: seq<seq<string>>): Splitter
    requires |segs| >= 1
  {
    Splitter(ClosedCells(segs[..|segs| - 1]), segs[|segs| - 1], (|segs| - 1) % 2 == 1)
  }

  lemma RunStepFence(init: seq<string>, line: string)
    requires IsFence(line)
    requires Run(init) == StateOf(Segments(init))
    ensures Run(init + [line]) == StateOf(Segments(init + [line]))
  {
    var lines := init + [line];
    assert lines[..|lines| - 1] == init;
    assert Run(lines) == Feed(Run(init), line);
    var s := Segments(init);
    var t := s + [[]];
    SegmentsSnocFence(init, line);
    assert t[..|s|] == s;
    assert StateOf(t) == Splitter(ClosedCells(s), [], |s| % 2 == 1);
    FeedFence(s, line);
  }

  lemma RunStepPlain(init: seq<string>, line: string)
    requires !IsFence(line)
    requires Run(init) == StateOf(Segments(init))
    ensures Run(init + [line]) == StateOf(Segments(init + [line]))
  {
    var lines := init + [line];
    assert lines[..|lines| - 1] == init;
    var s := Segments(init);
    var n := |s| - 1;
    SegmentsSnocPlain(init, line);
    assert (s[..n] + [s[n] + [line]])[..n] == s[..n];
  }

  /** After any prefix of the document, the loop state is the one its stretches describe. */
  lemma {:induction false} RunIsSegments(lines: seq<string>)
    ensures Run(lines) == StateOf(Segments(lines))
    decreases |lines|
  {
    if lines == [] {
      assert Segments(lines) == [[]];
    } else {
      var init, line := lines[..|lines| - 1], lines[|lines| - 1];
      assert lines == init + [line];
      RunIsSegments(init);
      if IsFence(line) {
        RunStepFence(init, line);
      } else {
        RunStepPlain(init, line);
      }
    }
  }

  /** The loop computes the cells the reference cutting describes. */
  lemma CellsOfIsReference(lines: seq<string>)
    ensures CellsOf(lines) == ReferenceCells(lines)
  {
    RunIsSegments(lines);
  }

  // ---------------------------------------------------------------------------
  // Consequences
  // ---------------------------------------------------------------------------

  /** A line that can appear in a cell: not a fence, no newline. */
  predicate PlainLine(line: string) {
    !IsFence(line) && '\n' !in line
  }

  predicate AllPlain(lines: seq<string>) {
    forall j :: 0 <= j < |lines| ==> PlainLine(lines[j])
  }

  /** Every stretch holds only non-fence lines of the input. */
  lemma {:induction false} SegmentsArePlain(lines: seq<string>)
    requires forall j :: 0 <= j < |lines| ==> '\n' !in lines[j]
    ensures forall k :: 0 <= k < |Segments(lines)| ==> AllPlain(Segments(lines)[k])
  {
    if lines != [] {
      SegmentsArePlain(lines[1..]);
      SegmentsCons(lines[0], lines[1..], lines);
      PlainStep(lines[0], Segments(lines[1..]));
    }
  }

  /** The induction step of `SegmentsArePlain`: a plain line or a fence put in front keeps every stretch plain. */
  lemma PlainStep(x: string, r: seq<seq<string>>)
    requires |r| >= 1 && '\n' !in x
    requires forall k :: 0 <= k < |r| ==> AllPlain(r[k])
    ensures var t := if IsFence(x) then [[]] + r else [[x] + r[0]] + r[1..];
      forall k :: 0 <= k < |t| ==> AllPlain(t[k])
  {
    if IsFence(x) {
      assert forall k :: 1 <= k < |r| + 1 ==> ([[]] + r)[k] == r[k - 1];
    } else {
      assert PlainLine(x);
      ConsPlain(x, r[0]);
      var t := [[x] + r[0]] + r[1..];
      assert forall k :: 1 <= k < |t| ==> t[k] == r[k];
    }
  }

  lemma ConsPlain(x: string, seg: seq<string>)
    requires PlainLine(x) && AllPlain(seg)
    ensures AllPlain([x] + seg)
  {
    forall j | 0 <= j < |seg| + 1 ensures PlainLine(([x] + seg)[j]) {
      if j > 0 {
        assert ([x] + seg)[j] == seg[j - 1];
      }
    }
  }

  /** The source of a cell built from plain lines is those lines, or the single empty line for an empty block. */
  lemma SourceOfPlain(seg: seq<string>)
    requires AllPlain(seg)
    ensures SourceOf(seg) == if seg == [] then [""] else seg
    ensures AllPlain(SourceOf(seg))
  {
    SplitJoin(seg, '\n');
    if seg == [] {
      assert !StartsWith(Strip(""), Fence);
    }
  }

  predicate CellsPlain(cells: seq<Cell>) {
    forall i :: 0 <= i < |cells| ==> AllPlain(cells[i].source)
  }

  lemma {:induction false} ClosedCellsPlain(segs: seq<seq<string>>)
    requires forall k :: 0 <= k < |segs| ==> AllPlain(segs[k])
    ensures CellsPlain(ClosedCells(segs))
    decreases |segs|
  {
    if segs != [] {
      var init := segs[..|segs| - 1];
      ClosedCellsPlain(init);
      SourceOfPlain(segs[|segs| - 1]);
    }
  }

  /** No fence line and no newline ends up in any cell of the notebook. */
  lemma NoFenceInCells(markdown: string)
    ensures CellsPlain(NotebookOf(markdown).cells)
  {
    LinesGivePlainCells(Split(markdown, '\n'));
  }

  /** Lines without newlines give cells whose lines are neither fences nor hold newlines. */
  lemma LinesGivePlainCells(lines: seq<string>)
    requires forall j :: 0 <= j < |lines| ==> '\n' !in lines[j]
    ensures CellsPlain(CellsOf(lines))
  {
    CellsOfIsReference(lines);
    SegmentsArePlain(lines);
    var segs := Segments(lines);
    var n := |segs| - 1;
    ClosedPrefixPlain(segs, n);
    FinalCellsPlain(n, segs[n]);
    CellsPlainAppend(ClosedCells(segs[..n]), FinalCells(n, segs[n]));
  }

  lemma ClosedPrefixPlain(segs: seq<seq<string>>, n: nat)
    requires n <= |segs|
    requires forall k :: 0 <= k < |segs| ==> AllPlain(segs[k])
    ensures CellsPlain(ClosedCells(segs[..n]))
  {
    assert forall k :: 0 <= k < n ==> segs[..n][k] == segs[k];
    ClosedCellsPlain(segs[..n]);
  }

  lemma FinalCellsPlain(k: nat, seg: seq<string>)
    requires AllPlain(seg)
    ensures CellsPlain(FinalCells(k, seg))
  {
    SourceOfPlain(seg);
  }

  lemma CellsPlainAppend(a: seq<Cell>, b: seq<Cell>)
    requires CellsPlain(a) && CellsPlain(b)
    ensures CellsPlain(a + b)
  {
    forall i | 0 <= i < |a + b| ensures AllPlain((a + b)[i].source) {
      if i >= |a| {
        assert (a + b)[i] == b[i - |a|];
      }
    }
  }

  lemma {:induction false} SegmentsWithoutFence(lines: seq<string>)
    requires forall j :: 0 <= j < |lines| ==> !IsFence(lines[j])
    ensures Segments(lines) == [lines]
  {
    if lines != [] {
      SegmentsWithoutFence(lines[1..]);
      assert [lines[0]] + lines[1..] == lines;
    }
  }

  /** Lines without a fence become one Markdown cell, unless they are blank. */
  lemma OneStretchCells(lines: seq<string>)
    requires forall j :: 0 <= j < |lines| ==> !IsFence(lines[j])
    ensures CellsOf(lines) == if HasContent(lines) then [Cell(Markdown, SourceOf(lines))] else []
  {
    CellsOfIsReference(lines);
    SegmentsWithoutFence(lines);
    var segs := Segments(lines);
    assert segs[..0] == [] && segs[0] == lines;
    assert ClosedCells(segs[..0]) == [];
  }

  /** A document without fence lines becomes a single Markdown cell holding all its lines, or no cell at all when it is blank. */
  lemma NoFenceOneCell(markdown: string)
    requires forall j :: 0 <= j < |Split(markdown, '\n')| ==> !IsFence(Split(markdown, '\n')[j])
    ensures NotebookOf(markdown).cells ==
      if Strip(markdown) != [] then [Cell(Markdown, Split(markdown, '\n'))] else []
  {
    var lines := Split(markdown, '\n');
    OneStretchCells(lines);
    assert "\n" == ['\n'];
    assert Join(lines, "\n") == markdown;
  }

  /** The stretches laid end to end. */
  function Flatten(segs: seq<seq<string>>): seq<string> {
    if segs == [] then [] else segs[0] + Flatten(segs[1..])
  }

  /** The lines of the document that are not fences, in order. */
  function NonFence(lines: seq<string>): (r: seq<string>)
    ensures |r| <= |lines|
  {
    if lines == [] then [] else (if IsFence(lines[0]) then [] else [lines[0]]) + NonFence(lines[1..])
  }

  function FenceCount(lines: seq<string>): nat {
    if lines == [] then 0 else (if IsFence(lines[0]) then 1 else 0) + FenceCount(lines[1..])
  }

  /** Cutting at the fences loses no other line, duplicates none and keeps their order; n fences give n + 1 stretches. */
  lemma {:induction false} SegmentsPartition(lines: seq<string>)
    ensures Flatten(Segments(lines)) == NonFence(lines)
    ensures |Segments(lines)| == FenceCount(lines) + 1
  {
    if lines == [] {
      assert Segments(lines) == [[]];
      assert Flatten([[]]) == [] + Flatten([]);
    } else {
      SegmentsPartition(lines[1..]);
      PartitionStep(lines[0], lines[1..], lines);
    }
  }

  /** The induction step of `SegmentsPartition`. */
  lemma PartitionStep(x: string, rest: seq<string>, lines: seq<string>)
    requires lines == [x] + rest
    requires Flatten(Segments(rest)) == NonFence(rest)
    requires |Segments(rest)| == FenceCount(rest) + 1
    ensures Flatten(Segments(lines)) == NonFence(lines)
    ensures |Segments(lines)| == FenceCount(lines) + 1
  {
    assert lines[0] == x && lines[1..] == rest;
    SegmentsCons(x, rest, lines);
    if IsFence(x) {
      FlattenBoundary(Segments(rest));
    } else {
      FlattenLine(x, Segments(rest));
    }
  }

  lemma FlattenBoundary(r: seq<seq<string>>)
    ensures Flatten([[]] + r) == Flatten(r)
  {
    assert ([[]] + r)[1..] == r;
  }

  lemma FlattenLine(x: string, r: seq<seq<string>>)
    requires r != []
    ensures Flatten([[x] + r[0]] + r[1..]) == [x] + Flatten(r)
  {
    var s := [[x] + r[0]] + r[1..];
    assert s[1..] == r[1..];
    FlattenCons(r);
  }

  lemma FlattenCons(segs: seq<seq<string>>)
    requires segs != []
    ensures Flatten(segs) == segs[0] + Flatten(segs[1..])
  {
  }

  lemma ClosedSegmentCellsCount(k: nat, seg: seq<string>)
    ensures |ClosedSegmentCells(k, seg)| <= 1
    ensures k % 2 == 1 ==> |ClosedSegmentCells(k, seg)| == 1
  {
  }

  /** Each closed stretch contributes at most one cell, and every odd (code) one exactly one. */
  lemma {:induction false} ClosedCellsCount(segs: seq<seq<string>>)
    ensures |ClosedCells(segs)| <= |segs|
    ensures |ClosedCells(segs)| >= |segs| / 2
    decreases |segs|
  {
    if segs != [] {
      var n := |segs| - 1;
      ClosedCellsCount(segs[..n]);
      ClosedSegmentCellsCount(n, segs[n]);
      assert |ClosedCells(segs)| == |ClosedCells(segs[..n])| + |ClosedSegmentCells(n, segs[n])|;
      assert (n + 1) / 2 == n / 2 + (if n % 2 == 1 then 1 else 0);
    }
  }
}
